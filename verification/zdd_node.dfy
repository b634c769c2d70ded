/**
 * The 16-byte ZDD node: two 64-bit words `a` and `b`.
 *
 * Internal and map nodes:
 *   a[63]     complement mark of the high (true) edge
 *   a[62]     leaf flag (clear)
 *   a[61]     map flag
 *   a[39..0]  index of the high (true) edge
 *   b[63..40] variable
 *   b[39..0]  index of the low (false) edge
 * Leaves:
 *   a[62]     leaf flag (set)
 *   a[31..0]  leaf type
 *   b         leaf value
 *
 * The mark used by traversals is bit 60 of `b`, which lies inside the
 * variable field (see module ZddFindings). Every accessor, constructor and
 * the mark update is a pure function of the two words.
 */
module ZddNode {
  import opened ZddEdge

  datatype Node = Node(a: bv64, b: bv64)

  /** Bits of `a` that `gethigh` keeps: the complement mark and the 40-bit index. */
  const HighMask: bv64 := 0x800000ffffffffff

  /** The mark bit of word `b`. */
  const MarkBit: bv64 := 0x1000000000000000

  /**
   * Bit `i` of the node in the numbering of the layout: bits 127..64 are
   * word `a`, bits 63..0 are word `b`.
   */
  predicate NodeBit(n: Node, i: bv8)
    requires i < 128
  {
    if i >= 64 then (n.a >> (i - 64)) & 1 == 1 else (n.b >> i) & 1 == 1
  }

  // Word-level reads and writes. The node accessors below are these
  // applied to one word; keeping them separate lets each bit-level fact be
  // proved once, on a single word.

  /** The low 40 bits of a word: the false index in `b`. */
  function LowWord(w: bv64): bv64
  {
    w & 0x000000ffffffffff
  }

  /** The top 24 bits of a word, as a `uint32_t`: the variable in `b`. */
  function VariableWord(w: bv64): bv32
  {
    (w >> 40) as bv32
  }

  /** Bit 63 and the low 40 bits of a word: the high edge in `a`. */
  function HighWord(w: bv64): bv64
  {
    w & 0x800000ffffffffff
  }

  /** The low 32 bits of a word, as a `uint32_t`: the leaf type in `a`. */
  function TypeWord(w: bv64): bv32
  {
    (w & 0xffffffff) as bv32
  }

  /** Word `b` of a fresh internal or map node. */
  function PackB(v: bv32, low: bv64): bv64
  {
    ((v as bv64) << 40) | low
  }

  /** Word `a` of a fresh map node. */
  function MapWord(high: bv64): bv64
  {
    high | 0x2000000000000000
  }

  /** Word `a` of a fresh leaf. */
  function LeafWord(leafType: bv32): bv64
  {
    0x4000000000000000 | leafType as bv64
  }

  /** Word `b` with the mark bit set. */
  function MarkedWord(w: bv64): bv64
  {
    w | 0x1000000000000000
  }

  /** Word `b` with the mark bit cleared. */
  function UnmarkedWord(w: bv64): bv64
  {
    w & 0xefffffffffffffff
  }

  /** The low 32 bits of a word lie inside its low 40 bits. */
  lemma TypeWordInIndex(w: bv64)
    ensures TypeWord(GetIndex(w)) == TypeWord(w)
  {
    assert (w & 0x000000ffffffffff) & 0xffffffff == w & 0xffffffff;
  }

  /** `zddnode_isleaf`: the leaf flag, bit 62 of `a`. */
  function IsLeaf(n: Node): (r: Flag)
    ensures r == 1 <==> NodeBit(n, 126)
  {
    if n.a & 0x4000000000000000 != 0 then 1 else 0
  }

  /** `zddnode_gettype`: the low 32 bits of `a`, as the `uint32_t` cast keeps them. */
  function GetType(n: Node): (r: bv32)
    ensures r == TypeWord(GetIndex(n.a))
  {
    TypeWordInIndex(n.a);
    TypeWord(n.a)
  }

  /** `zddnode_getvalue`: the whole of `b`. */
  function GetValue(n: Node): (r: bv64)
    ensures LowWord(r) == GetLow(n)
    ensures VariableWord(r) == GetVariable(n)
  {
    n.b
  }

  /** `zddnode_getcomp`: tests mask 0x8000000000000800, i.e. bit 63 and bit 11 of `a`. */
  function GetComp(n: Node): (r: Flag)
    ensures r == 1 <==> HighWord(n.a) >= Complement || HighWord(n.a) & 0x800 != 0
  {
    if n.a & 0x8000000000000800 != 0 then 1 else 0
  }

  /** `zddnode_getlow`: the low (false) edge, which never carries a mark. */
  function GetLow(n: Node): (r: bv64)
    ensures r < 0x100_0000_0000
    ensures HasMark(r) == 0
  {
    LowWord(n.b)
  }

  /** `zddnode_gethigh`: the high (true) edge with its complement mark. */
  function GetHigh(n: Node): (r: bv64)
    ensures r & !HighMask == 0
    ensures HasMark(r) == 1 <==> n.a >= Complement
  {
    HighWord(n.a)
  }

  /** `zddnode_getvariable`: the top 24 bits of `b`, cast to `uint32_t`. */
  function GetVariable(n: Node): (r: bv32)
    ensures r < 0x100_0000
  {
    VariableWord(n.b)
  }

  /** `zddnode_getmark`: bit 60 of `b`. */
  function GetMark(n: Node): (r: Flag)
    ensures r == 1 <==> NodeBit(n, 60)
    ensures r == 1 <==> VariableWord(n.b) & 0x10_0000 != 0
  {
    if n.b & 0x1000000000000000 != 0 then 1 else 0
  }

  /** `zddnode_ismapnode`: the map flag, bit 61 of `a`. */
  function IsMapNode(n: Node): (r: Flag)
    ensures r == 1 <==> NodeBit(n, 125)
  {
    if n.a & 0x2000000000000000 != 0 then 1 else 0
  }

  /** The two words agree on every bit except possibly the mark bit. */
  predicate SameButMark(w1: bv64, w2: bv64)
  {
    (w1 ^ w2) & !MarkBit == 0
  }

  /** Setting the mark bit sets it and changes no other bit of the word. */
  lemma MarkedWordFields(w: bv64)
    ensures MarkedWord(w) & MarkBit != 0
    ensures SameButMark(MarkedWord(w), w)
  {
  }

  /** Clearing the mark bit clears it and changes no other bit of the word. */
  lemma UnmarkedWordFields(w: bv64)
    ensures UnmarkedWord(w) & MarkBit == 0
    ensures SameButMark(UnmarkedWord(w), w)
  {
  }

  /** A later write of the mark bit overrides an earlier one (setting last). */
  lemma MarkedWordAbsorbs(w: bv64)
    ensures MarkedWord(MarkedWord(w)) == MarkedWord(w)
    ensures MarkedWord(UnmarkedWord(w)) == MarkedWord(w)
  {
  }

  /** A later write of the mark bit overrides an earlier one (clearing last). */
  lemma UnmarkedWordAbsorbs(w: bv64)
    ensures UnmarkedWord(UnmarkedWord(w)) == UnmarkedWord(w)
    ensures UnmarkedWord(MarkedWord(w)) == UnmarkedWord(w)
  {
  }

  /** Words that differ at most in the mark bit have the same low 40 bits. */
  lemma LowWordIgnoresMark(w1: bv64, w2: bv64)
    requires SameButMark(w1, w2)
    ensures LowWord(w1) == LowWord(w2)
  {
  }

  /**
   * `zddnode_setmark`: set (for any nonzero `mark`) or clear bit 60 of
   * `b`. Word `a` and every other bit of `b` are left as they were.
   */
  function SetMark(n: Node, mark: int): (r: Node)
    ensures GetMark(r) == (if mark != 0 then 1 else 0)
    ensures r.a == n.a
  {
    if mark != 0 then MarkedWordFields(n.b); n.(b := MarkedWord(n.b))
    else UnmarkedWordFields(n.b); n.(b := UnmarkedWord(n.b))
  }

  /** Setting the mark changes no bit of `b` other than bit 60. */
  lemma SetMarkOnlyMarkBit(n: Node, mark: int)
    ensures SameButMark(SetMark(n, mark).b, n.b)
  {
    if mark != 0 {
      MarkedWordFields(n.b);
    } else {
      UnmarkedWordFields(n.b);
    }
  }

  /** A leaf word keeps the type in its low 32 bits and sets no flag but bit 62. */
  lemma LeafWordFields(leafType: bv32)
    ensures TypeWord(LeafWord(leafType)) == leafType
    ensures LeafWord(leafType) & 0x4000000000000000 != 0
    ensures LeafWord(leafType) & 0x2000000000000000 == 0
  {
  }

  /** `zddnode_makeleaf`: a leaf of the given type and value. */
  function MakeLeaf(leafType: bv32, value: bv64): (n: Node)
    ensures IsLeaf(n) == 1 && IsMapNode(n) == 0
    ensures GetType(n) == leafType
    ensures GetValue(n) == value
  {
    LeafWordFields(leafType);
    Node(LeafWord(leafType), value)
  }

  /**
   * The ranges under which `makenode` and `makemapnode` store their inputs
   * without loss: the variable fits 24 bits, the low index 40 bits, and the
   * high edge is a 40-bit index with at most the complement mark.
   */
  predicate FieldsFit(v: bv32, low: bv64, high: bv64)
  {
    && v < 0x100_0000
    && low < 0x100_0000_0000
    && high & !HighMask == 0
  }

  /** Packing a fitting variable and low index loses nothing. */
  lemma PackBFields(v: bv32, low: bv64)
    ensures low < 0x100_0000_0000 ==> LowWord(PackB(v, low)) == low
    ensures v < 0x100_0000 && low < 0x100_0000_0000 ==> VariableWord(PackB(v, low)) == v
  {
  }

  /** A fitting high edge has no flag bit set, and the map flag stays out of `gethigh`. */
  lemma HighWordFields(high: bv64)
    ensures high & !HighMask == 0 ==>
              && HighWord(high) == high
              && HighWord(MapWord(high)) == high
              && high & 0x4000000000000000 == 0
              && high & 0x2000000000000000 == 0
              && MapWord(high) & 0x4000000000000000 == 0
    ensures MapWord(high) & 0x2000000000000000 != 0
  {
  }

  /** Bit 63 alone decides `getcomp` unless bit 11 is set too. */
  lemma CompWordFields(high: bv64)
    ensures high >= Complement ==> high & 0x8000000000000800 != 0
    ensures high & 0x8000000000000800 == 0 ==> high < Complement
  {
  }

  /**
   * `zddnode_makenode`: `a` is `high` as given, `b` is the variable shifted
   * into bits 63..40 or-ed with `low`; nothing is masked.
   */
  function MakeNode(v: bv32, low: bv64, high: bv64): (n: Node)
    ensures FieldsFit(v, low, high) ==>
              && GetVariable(n) == v
              && GetLow(n) == low
              && GetHigh(n) == high
              && IsLeaf(n) == 0
              && IsMapNode(n) == 0
  {
    PackBFields(v, low);
    HighWordFields(high);
    Node(high, PackB(v, low))
  }

  /** The low edge comes back from `makenode` whatever the variable is. */
  lemma MakeNodeLow(v: bv32, low: bv64, high: bv64)
    requires low < 0x100_0000_0000
    ensures GetLow(MakeNode(v, low, high)) == low
  {
    PackBFields(v, low);
  }

  /**
   * `getcomp` of a built node: 1 when the high edge carries the complement
   * mark, 0 when neither bit 63 nor bit 11 of the high edge is set.
   */
  lemma MakeNodeComp(v: bv32, low: bv64, high: bv64)
    ensures high >= Complement ==> GetComp(MakeNode(v, low, high)) == 1
    ensures high & 0x8000000000000800 == 0 ==> GetComp(MakeNode(v, low, high)) == 0
  {
    CompWordFields(high);
  }

  /** `zddnode_makemapnode`: as `makenode`, with the map flag (bit 61 of `a`) set. */
  function MakeMapNode(v: bv32, low: bv64, high: bv64): (n: Node)
    ensures FieldsFit(v, low, high) ==>
              && GetVariable(n) == v
              && GetLow(n) == low
              && GetHigh(n) == high
              && IsLeaf(n) == 0
    ensures IsMapNode(n) == 1
  {
    PackBFields(v, low);
    HighWordFields(high);
    Node(MapWord(high), PackB(v, low))
  }

  /** Transferring a mark onto a low word keeps its index and takes the mark of `z`. */
  lemma TransferLowWord(z: bv64, w: bv64)
    ensures GetIndex(TransferMark(z, LowWord(w))) == LowWord(w)
    ensures HasMark(TransferMark(z, LowWord(w))) == HasMark(z)
  {
  }

  /**
   * `zddnode_low`: the low child of the node reached through edge `zdd`.
   * The stored low edge carries no mark, so the child carries the mark of
   * `zdd` itself and points at the stored low index.
   */
  function Low(zdd: Edge, node: Node): (r: Edge)
    ensures GetIndex(r) == GetLow(node)
    ensures HasMark(r) == HasMark(zdd)
    ensures EqualM(r, GetLow(node))
  {
    TransferLowWord(zdd, node.b);
    TransferMark(zdd, GetLow(node))
  }

  /** `zddnode_high`: the stored high edge; the edge used to reach the node is ignored. */
  function High(zdd: Edge, node: Node): (r: Edge)
    ensures GetIndex(r) == node.a & IndexMask
    ensures HasMark(r) == 1 <==> node.a >= Complement
    ensures r & !HighMask == 0
  {
    GetHigh(node)
  }

  /** Setting a mark twice is the same as setting it once. */
  lemma SetMarkIdempotent(n: Node, mark: int)
    ensures SetMark(SetMark(n, mark), mark) == SetMark(n, mark)
  {
    SetMarkLastWins(n, mark, mark);
  }

  /** A later mark update overrides an earlier one. */
  lemma SetMarkLastWins(n: Node, m1: int, m2: int)
    ensures SetMark(SetMark(n, m1), m2) == SetMark(n, m2)
  {
    MarkedWordAbsorbs(n.b);
    UnmarkedWordAbsorbs(n.b);
  }

  /**
   * Setting the mark leaves word `a` as it was, hence every accessor that
   * reads only `a`.
   */
  lemma SetMarkKeepsWordA(n: Node, mark: int)
    ensures GetHigh(SetMark(n, mark)) == GetHigh(n)
    ensures IsLeaf(SetMark(n, mark)) == IsLeaf(n)
    ensures IsMapNode(SetMark(n, mark)) == IsMapNode(n)
    ensures GetComp(SetMark(n, mark)) == GetComp(n)
    ensures GetType(SetMark(n, mark)) == GetType(n)
  {
  }

  /** Clearing the mark bit after setting it restores a word whose mark bit was clear. */
  lemma UnmarkedWordRestores(w: bv64)
    requires w & MarkBit == 0
    ensures UnmarkedWord(MarkedWord(w)) == w
  {
  }

  /**
   * Setting the mark and then clearing it gives back a node that was
   * unmarked; while the mark is set, the node reads a different variable
   * or value (module ZddFindings).
   */
  lemma SetMarkClearRestores(n: Node, mark: int)
    requires GetMark(n) == 0
    ensures SetMark(SetMark(n, mark), 0) == n
  {
    UnmarkedWordAbsorbs(n.b);
    UnmarkedWordRestores(n.b);
  }

  /** Setting the mark leaves the low edge as it was. */
  lemma SetMarkKeepsLow(n: Node, mark: int)
    ensures GetLow(SetMark(n, mark)) == GetLow(n)
  {
    SetMarkOnlyMarkBit(n, mark);
    LowWordIgnoresMark(SetMark(n, mark).b, n.b);
  }

  /** The high child does not depend on the edge used to reach the node. */
  lemma HighIgnoresEdge(z1: Edge, z2: Edge, node: Node)
    ensures High(z1, node) == High(z2, node)
  {
  }
}
