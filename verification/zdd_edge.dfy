/**
 * ZDD edge values and the macros that work on their complement mark.
 *
 * An edge is a 64-bit word: bits 39..0 hold the index of the target node in
 * the node table, bit 63 holds the complement mark. The macros below are
 * pure word operations; each is modelled as a total function on `bv64`.
 */
module ZddEdge {

  /** A ZDD edge (`ZDD` is a `uint64_t`). */
  type Edge = bv64

  /** The 0/1 value a C predicate returns as `int`. */
  type Flag = x: int | 0 <= x <= 1

  /** `zdd_complement`: the single mark bit of an edge, bit 63. */
  const Complement: bv64 := 0x8000000000000000

  /** The 40 index bits of an edge. */
  const IndexMask: bv64 := 0x000000ffffffffff

  /** `ZDD_GETINDEX`: the node index an edge points to. */
  function GetIndex(zdd: Edge): (r: bv64)
    ensures r <= IndexMask
    ensures (zdd ^ r) & IndexMask == 0
  {
    zdd & 0x000000ffffffffff
  }

  /** `ZDD_SETINDEX`: replace the index of an edge, keeping its top 24 bits. */
  function SetIndex(zdd: Edge, idx: bv64): (r: Edge)
    ensures GetIndex(r) == GetIndex(idx)
    ensures r >> 40 == zdd >> 40
  {
    (zdd & 0xffffff0000000000) | (idx & 0x000000ffffffffff)
  }

  /** `ZDD_HASMARK`: 1 when the edge carries the complement mark. */
  function HasMark(s: Edge): (r: Flag)
    ensures r == 1 <==> s >= 0x8000000000000000
  {
    if s & Complement != 0 then 1 else 0
  }

  /** `ZDD_STRIPMARK`: the same edge without its complement mark. */
  function StripMark(s: Edge): (r: Edge)
    ensures HasMark(r) == 0
    ensures r | (s & Complement) == s
  {
    s & !Complement
  }

  /** `ZDD_TOGGLEMARK`: flip the complement mark of an edge. */
  function ToggleMark(s: Edge): (r: Edge)
    ensures HasMark(r) == 1 - HasMark(s)
    ensures StripMark(r) == StripMark(s)
  {
    s ^ Complement
  }

  /**
   * `ZDD_TRANSFERMARK(from, to)`: xor the mark of `from` into `to`; the rest
   * of `to` is kept.
   */
  function TransferMark(from: Edge, to: Edge): (r: Edge)
    ensures HasMark(r) == 1 <==> HasMark(from) != HasMark(to)
    ensures StripMark(r) == StripMark(to)
  {
    to ^ (from & Complement)
  }

  /** `ZDD_EQUALM`: the two edges are equal once their marks are ignored. */
  predicate EqualM(a: Edge, b: Edge)
    ensures EqualM(a, b) <==> StripMark(a) == StripMark(b)
  {
    (a ^ b) & !Complement == 0
  }

  lemma ToggleMarkInvolution(s: Edge)
    ensures ToggleMark(ToggleMark(s)) == s
  {
    assert (s ^ Complement) ^ Complement == s;
  }

  lemma StripMarkIdempotent(s: Edge)
    ensures StripMark(StripMark(s)) == StripMark(s)
  {
  }

  /** An edge and its complement are equal under mark; nothing else is. */
  lemma EqualMIsMarkOnly(x: Edge, y: Edge)
    ensures EqualM(x, ToggleMark(x))
    ensures EqualM(x, y) <==> y == x || y == ToggleMark(x)
  {
  }

  /** Equality under mark is an equivalence relation. */
  lemma EqualMEquivalence(x: Edge, y: Edge, z: Edge)
    ensures EqualM(x, x)
    ensures EqualM(x, y) ==> EqualM(y, x)
    ensures EqualM(x, y) && EqualM(y, z) ==> EqualM(x, z)
  {
  }

  /** Writing back the index an edge already has changes nothing. */
  lemma SetIndexGetIndex(z: Edge)
    ensures SetIndex(z, GetIndex(z)) == z
  {
  }

  /** Setting the index keeps the complement mark. */
  lemma SetIndexKeepsMark(z: Edge, idx: bv64)
    ensures HasMark(SetIndex(z, idx)) == HasMark(z)
  {
  }
}
