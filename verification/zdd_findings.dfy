/**
 * Two places where the node accessors disagree with the documented layout,
 * each shown on the code as written and paired with the corrected
 * definition and the property the layout promises for it.
 *
 * 1. `zddnode_setmark` / `zddnode_getmark` use bit 60 of `b`, which is bit 20
 *    of the 24-bit variable field. The layout documents the mark at bit 124
 *    of the node, i.e. bit 60 of `a`, a bit no accessor reads.
 * 2. `zddnode_getcomp` tests mask 0x8000000000000800, so bit 11 of the high
 *    index also reads as a complement mark. The complement is bit 63 alone.
 */
module ZddFindings {
  import opened ZddEdge
  import opened ZddNode
  import opened ZddView

  // ---- Finding 1, as written: the mark shares a bit with the variable ----

  /** Setting bit 60 of `b` sets bit 20 of the variable read from `b`. */
  lemma MarkedVariableWord(w: bv64)
    ensures VariableWord(MarkedWord(w)) & 0x10_0000 != 0
  {
  }

  /** When bit 60 of `b` was clear, setting it changes the variable read from `b`. */
  lemma MarkedVariableWordDiffers(w: bv64)
    requires w & MarkBit == 0
    ensures VariableWord(MarkedWord(w)) != VariableWord(w)
  {
  }

  /** Bit 60 of a packed `b` word is bit 20 of the variable. */
  lemma PackBMarkBit(v: bv32, low: bv64)
    requires low < 0x100_0000_0000
    ensures PackB(v, low) & MarkBit != 0 <==> v & 0x10_0000 != 0
  {
  }

  /**
   * Marking a node with `zddnode_setmark` sets bit 20 of its variable, and
   * changes the variable of every node that was unmarked.
   */
  lemma SetMarkChangesVariable(n: Node, mark: int)
    requires mark != 0
    ensures GetVariable(SetMark(n, mark)) & 0x10_0000 != 0
    ensures GetMark(n) == 0 ==> GetVariable(SetMark(n, mark)) != GetVariable(n)
  {
    MarkedVariableWord(n.b);
    if GetMark(n) == 0 {
      MarkedVariableWordDiffers(n.b);
    }
  }

  /**
   * While an internal or map node is marked with `zddnode_setmark`, it reads
   * back as a different node.
   */
  lemma SetMarkChangesDecode(n: Node, mark: int)
    requires mark != 0 && GetMark(n) == 0 && IsLeaf(n) == 0
    ensures Decode(SetMark(n, mark)) != Decode(n)
  {
    SetMarkChangesVariable(n, mark);
    SetMarkKeepsWordA(n, mark);
  }

  /** A leaf reads as marked exactly when bit 60 of its value is set. */
  lemma LeafValueReadsAsMark(leafType: bv32, value: bv64)
    ensures GetMark(MakeLeaf(leafType, value)) == 1 <==> value & MarkBit != 0
  {
  }

  /** Marking a leaf with `zddnode_setmark` rewrites bit 60 of its value. */
  lemma SetMarkChangesLeafValue(leafType: bv32)
    ensures GetValue(SetMark(MakeLeaf(leafType, 0), 1)) == 0x1000000000000000
  {
  }

  /** A freshly built node reads as marked exactly when bit 20 of its variable is set. */
  lemma VariableReadsAsMark(v: bv32, low: bv64, high: bv64)
    requires FieldsFit(v, low, high)
    ensures GetMark(MakeNode(v, low, high)) == 1 <==> v & 0x10_0000 != 0
  {
    PackBMarkBit(v, low);
  }

  /**
   * Concretely: a node on variable 0x100000 reads as marked when built, and
   * marking and then clearing it turns its variable into 0.
   */
  lemma MarkClearLosesVariable()
    ensures GetMark(MakeNode(0x10_0000, 0, 0)) == 1
    ensures GetVariable(SetMark(SetMark(MakeNode(0x10_0000, 0, 0), 1), 0)) == 0
  {
    VariableReadsAsMark(0x10_0000, 0, 0);
    var n := MakeNode(0x10_0000, 0, 0);
    assert SetMark(SetMark(n, 1), 0).b == 0;
  }

  // ---- Finding 1, corrected: the mark at bit 124, i.e. bit 60 of `a` ----

  /** The node mark where the layout documents it: bit 60 of word `a`. */
  function GetMarkInA(n: Node): (r: Flag)
    ensures r == 1 <==> NodeBit(n, 124)
  {
    if n.a & 0x1000000000000000 != 0 then 1 else 0
  }

  /** Set (for any nonzero `mark`) or clear bit 60 of `a`; word `b` is not touched. */
  function SetMarkInA(n: Node, mark: int): (r: Node)
    ensures GetMarkInA(r) == (if mark != 0 then 1 else 0)
    ensures r.b == n.b
  {
    if mark != 0 then MarkedWordFields(n.a); n.(a := MarkedWord(n.a))
    else UnmarkedWordFields(n.a); n.(a := UnmarkedWord(n.a))
  }

  /** The corrected update changes no bit of `a` other than bit 60. */
  lemma SetMarkInAOnlyMarkBit(n: Node, mark: int)
    ensures SameButMark(SetMarkInA(n, mark).a, n.a)
  {
    if mark != 0 {
      MarkedWordFields(n.a);
    } else {
      UnmarkedWordFields(n.a);
    }
  }

  /** Words `a` that differ at most in bit 60 give the same high edge, type and flags. */
  lemma WordAIgnoresMark(w1: bv64, w2: bv64)
    requires SameButMark(w1, w2)
    ensures HighWord(w1) == HighWord(w2)
    ensures TypeWord(w1) == TypeWord(w2)
  {
  }

  /** Words `a` that differ at most in bit 60 agree on the leaf, map and getcomp bits. */
  lemma WordAFlagsIgnoreMark(w1: bv64, w2: bv64)
    requires SameButMark(w1, w2)
    ensures w1 & 0x4000000000000000 == w2 & 0x4000000000000000
    ensures w1 & 0x2000000000000000 == w2 & 0x2000000000000000
    ensures w1 & 0x8000000000000800 == w2 & 0x8000000000000800
  {
  }

  /** Nodes that differ at most in bit 60 of `a` read the same through every accessor. */
  lemma SameButMarkInA(n1: Node, n2: Node)
    requires n1.b == n2.b && SameButMark(n1.a, n2.a)
    ensures GetHigh(n1) == GetHigh(n2) && GetType(n1) == GetType(n2)
    ensures IsLeaf(n1) == IsLeaf(n2) && IsMapNode(n1) == IsMapNode(n2)
    ensures GetComp(n1) == GetComp(n2)
  {
    WordAIgnoresMark(n1.a, n2.a);
    WordAFlagsIgnoreMark(n1.a, n2.a);
  }

  /** The corrected update keeps the variable, which the as-written one does not. */
  lemma SetMarkInAKeepsVariable(n: Node, mark: int)
    ensures GetVariable(SetMarkInA(n, mark)) == GetVariable(n)
    ensures GetLow(SetMarkInA(n, mark)) == GetLow(n)
  {
  }

  /** A later corrected update overrides an earlier one. */
  lemma SetMarkInALastWins(n: Node, m1: int, m2: int)
    ensures SetMarkInA(SetMarkInA(n, m1), m2) == SetMarkInA(n, m2)
  {
    MarkedWordAbsorbs(n.a);
    UnmarkedWordAbsorbs(n.a);
  }

  /** Every node built from fitting fields starts unmarked, whatever its variable. */
  lemma FreshNodesUnmarked(v: bv32, low: bv64, high: bv64)
    requires FieldsFit(v, low, high)
    ensures GetMarkInA(MakeNode(v, low, high)) == 0
    ensures GetMarkInA(MakeMapNode(v, low, high)) == 0
  {
  }

  /** Every leaf starts unmarked. */
  lemma FreshLeafUnmarked(leafType: bv32, value: bv64)
    ensures GetMarkInA(MakeLeaf(leafType, value)) == 0
  {
  }

  // ---- Finding 2: the getcomp mask ----

  /** As written, a node whose high edge has index 0x800 and no mark reads as complemented. */
  lemma GetCompBit11()
    ensures HasMark(GetHigh(MakeNode(0, 0, 0x800))) == 0
    ensures GetComp(MakeNode(0, 0, 0x800)) == 1
  {
    HighWordFields(0x800);
  }

  /** As written, any built node whose high index has bit 11 set reads as complemented. */
  lemma GetCompAsWritten(v: bv32, low: bv64, high: bv64)
    requires high & 0x800 != 0
    ensures GetComp(MakeNode(v, low, high)) == 1
  {
  }

  /** `getcomp` as intended: the complement mark of the stored high edge. */
  function GetCompIntended(n: Node): (r: Flag)
    ensures r == HasMark(GetHigh(n))
  {
    if n.a & 0x8000000000000000 != 0 then 1 else 0
  }

  /** The intended `getcomp` of a built node is the mark of the high edge it was given. */
  lemma MakeNodeCompIntended(v: bv32, low: bv64, high: bv64)
    ensures GetCompIntended(MakeNode(v, low, high)) == HasMark(high)
    ensures GetCompIntended(MakeMapNode(v, low, high)) == HasMark(high)
  {
  }
}
