/**
 * A node descriptor with named fields and an explicit kind, and the
 * correspondence between descriptors and the packed two-word nodes.
 *
 * `Encode` builds a node with the constructor of the descriptor's kind;
 * `Decode` reads it back with the accessors, choosing the kind the way
 * the flag tests do (the leaf flag first, then the map flag). The two are
 * inverse on descriptors whose fields fit and on nodes whose unused bits
 * are clear.
 */
module ZddView {
  import opened ZddEdge
  import opened ZddNode

  datatype NodeView =
    | Internal(variable: bv32, low: Edge, high: Edge)
    | MapNode(variable: bv32, low: Edge, high: Edge)
    | Leaf(leafType: bv32, value: bv64)

  /** Every field of the descriptor fits its slot in the packed layout. */
  predicate WellFormed(v: NodeView)
  {
    match v
    case Internal(x, l, h) => FieldsFit(x, l, h)
    case MapNode(x, l, h) => FieldsFit(x, l, h)
    case Leaf(_, _) => true
  }

  /**
   * A packed node whose unused bits are clear: in a leaf, `a` holds only the
   * leaf flag and the type; otherwise `a` holds only the complement mark,
   * the map flag and the 40-bit high index.
   */
  predicate Canonical(n: Node)
  {
    if IsLeaf(n) == 1 then n.a & 0xbfffffff00000000 == 0
    else n.a & 0x5fffff0000000000 == 0
  }

  /** Read a packed node back into a descriptor. */
  function Decode(n: Node): (v: NodeView)
    ensures WellFormed(v)
    ensures v.Leaf? <==> IsLeaf(n) == 1
    ensures v.MapNode? <==> IsLeaf(n) == 0 && IsMapNode(n) == 1
  {
    if IsLeaf(n) == 1 then Leaf(GetType(n), GetValue(n))
    else if IsMapNode(n) == 1 then MapNode(GetVariable(n), GetLow(n), GetHigh(n))
    else Internal(GetVariable(n), GetLow(n), GetHigh(n))
  }

  /** Pack a descriptor with the constructor of its kind. */
  function Encode(v: NodeView): (n: Node)
    ensures WellFormed(v) ==> Decode(n) == v
  {
    match v
    case Internal(x, l, h) => MakeNode(x, l, h)
    case MapNode(x, l, h) => MakeMapNode(x, l, h)
    case Leaf(t, value) => MakeLeaf(t, value)
  }

  /** Unpacking and repacking word `b` of an internal or map node gives it back. */
  lemma PackBUnpack(w: bv64)
    ensures PackB(VariableWord(w), LowWord(w)) == w
  {
  }

  /** `gethigh` leaves word `a` as it is exactly when no bit outside its mask is set. */
  lemma HighWordFixed(w: bv64)
    ensures HighWord(w) == w <==> w & 0x5fffff0000000000 == 0 && w & 0x2000000000000000 == 0
  {
  }

  /** Re-adding the map flag to `gethigh` of a map word gives it back exactly when it is canonical. */
  lemma MapWordFixed(w: bv64)
    requires w & 0x2000000000000000 != 0
    ensures MapWord(HighWord(w)) == w <==> w & 0x5fffff0000000000 == 0
  {
  }

  /** Rebuilding a leaf word from its type gives it back exactly when it is canonical. */
  lemma LeafWordFixed(w: bv64)
    requires w & 0x4000000000000000 != 0
    ensures LeafWord(TypeWord(w)) == w <==> w & 0xbfffffff00000000 == 0
  {
  }

  /** A leaf repacks to itself exactly when it is canonical. */
  lemma EncodeDecodeLeaf(n: Node)
    requires IsLeaf(n) == 1
    ensures Encode(Decode(n)) == n <==> Canonical(n)
  {
    assert Encode(Decode(n)) == Node(LeafWord(TypeWord(n.a)), n.b);
    LeafWordFixed(n.a);
  }

  /** A map node repacks to itself exactly when it is canonical. */
  lemma EncodeDecodeMapNode(n: Node)
    requires IsLeaf(n) == 0 && IsMapNode(n) == 1
    ensures Encode(Decode(n)) == n <==> Canonical(n)
  {
    PackBUnpack(n.b);
    assert Encode(Decode(n)) == Node(MapWord(HighWord(n.a)), n.b);
    MapWordFixed(n.a);
  }

  /** An internal node repacks to itself exactly when it is canonical. */
  lemma EncodeDecodeInternal(n: Node)
    requires IsLeaf(n) == 0 && IsMapNode(n) == 0
    ensures Encode(Decode(n)) == n <==> Canonical(n)
  {
    PackBUnpack(n.b);
    assert Encode(Decode(n)) == Node(HighWord(n.a), n.b);
    HighWordFixed(n.a);
  }

  /**
   * Packing what was read from a node gives the node back exactly when its
   * unused bits are clear.
   */
  lemma EncodeDecode(n: Node)
    ensures Encode(Decode(n)) == n <==> Canonical(n)
  {
    if IsLeaf(n) == 1 {
      EncodeDecodeLeaf(n);
    } else if IsMapNode(n) == 1 {
      EncodeDecodeMapNode(n);
    } else {
      EncodeDecodeInternal(n);
    }
  }

  /** Two canonical nodes that read back the same are the same node. */
  lemma DecodeInjective(n1: Node, n2: Node)
    requires Canonical(n1) && Canonical(n2)
    requires Decode(n1) == Decode(n2)
    ensures n1 == n2
  {
    EncodeDecode(n1);
    EncodeDecode(n2);
  }

  /** Every node built from a well-formed descriptor is canonical. */
  lemma EncodeCanonical(v: NodeView)
    requires WellFormed(v)
    ensures Canonical(Encode(v))
  {
    EncodeDecode(Encode(v));
  }
}
