# ZDD node and edge encoding

This project models the bit-level layer of Sylvan's multi-terminal ZDDs
(zero-suppressed decision diagrams), in Dafny.

A ZDD edge is a 64-bit word: a 40-bit node index plus a complement mark in
bit 63. A node is two 64-bit words. In an internal or map node, `a` holds:
- the complement mark of the high (true) edge,
- the leaf and map flags,
- the 40-bit high index.

Word `b` holds the 24-bit variable and the 40-bit low (false) index. A leaf
keeps its 32-bit type in `a` and its value in `b`. Each edge macro, accessor,
constructor and the mark update is a pure function on `bv64` words. The
node is the immutable datatype `Node(a, b)`.

Modules:
- `ZddEdge`: the edge macros.
  - The complement constant `zdd_complement` is not defined in the header.
    It is modelled as `0x8000000000000000`. That is the complement bit of the
    layout and of the `gethigh` mask.
- `ZddNode`: the node words.
  - Covers every `zddnode_*` accessor and constructor, `zddnode_setmark`, and
    the children `zddnode_low` / `zddnode_high`.
  - Constructors mask nothing, so their round trips hold under the range
    condition `FieldsFit`.
- `ZddView`: a node descriptor with an explicit kind (internal, map, leaf).
  - `Decode` reads a node through the accessors; `Encode` builds one with
    the constructors.
  - They are inverse on well-formed descriptors.
  - They are inverse on exactly the nodes whose unused bits are clear.
- `ZddFindings`: the two places where the accessors disagree with the
  documented layout. Each is shown on the code as written and next to a
  corrected definition (see "## Findings").
- `ZddMarking`: the corrected mark at bit 124 of the node (bit 60 of `a`),
  applied to a sequence of node values.
  - The header has no traversal of its own. The sequence only lifts the
    per-node facts of the corrected update to many nodes.
  - As written, marking and then clearing also gives back a node that started
    unmarked (`ZddNode.SetMarkClearRestores`). What goes wrong as written is
    different. While a node is marked it reads a different variable, or a
    different value for a leaf. A node whose variable has bit 20 set reads as
    marked from the moment it is built, and clearing the mark loses that bit.

`ZddNode` follows the code as written wherever the code and the documented
layout disagree:
- the mark is bit 60 of `b`;
- `getcomp` tests bit 11 as well as bit 63.

A traversal mark is meant only for bookkeeping and should not change what
any other accessor reads. As written, the mark lies inside the variable field,
so it does change the variable. The model follows the code, and the corrected
variant is kept separate.

## Model

| member | source | states |
|---|---|---|
| `ZddEdge.GetIndex` | src/sylvan_zdd_int.h:49 | the index fits in 40 bits and agrees with the edge on every index bit |
| `ZddEdge.SetIndex` | src/sylvan_zdd_int.h:51 | the result points at the index of `idx` cut to 40 bits and keeps the top 24 bits of the old edge |
| `ZddEdge.HasMark` | src/sylvan_zdd_int.h:52 | 1 exactly when the edge is at least 2^63, i.e. carries the complement bit |
| `ZddEdge.ToggleMark` | src/sylvan_zdd_int.h:53 | the mark flips and the edge without its mark stays the same |
| `ZddEdge.StripMark` | src/sylvan_zdd_int.h:54 | the result is unmarked, and putting back the original mark bit gives the original edge |
| `ZddEdge.TransferMark` | src/sylvan_zdd_int.h:55 | the result is marked exactly when one of `from`, `to` is marked and the other is not; the rest of `to` is kept |
| `ZddEdge.EqualM` | src/sylvan_zdd_int.h:57 | holds exactly when the two edges are equal once both marks are stripped |
| `ZddEdge.ToggleMarkInvolution` | src/sylvan_zdd_int.h:53 | toggling the mark twice gives the edge back |
| `ZddEdge.StripMarkIdempotent` | src/sylvan_zdd_int.h:54 | stripping twice is stripping once |
| `ZddEdge.EqualMIsMarkOnly` | src/sylvan_zdd_int.h:53-57 | an edge is equal under mark to its complement, and to no edge except itself and its complement |
| `ZddEdge.EqualMEquivalence` | src/sylvan_zdd_int.h:57 | equality under mark is reflexive, symmetric and transitive |
| `ZddEdge.SetIndexGetIndex` | src/sylvan_zdd_int.h:49-51 | writing back an edge's own index changes nothing |
| `ZddEdge.SetIndexKeepsMark` | src/sylvan_zdd_int.h:51-52 | replacing the index keeps the complement mark |
| `ZddNode.IsLeaf` | src/sylvan_zdd_int.h:59-63 | 1 exactly when bit 126 of the node (bit 62 of `a`) is set; `MakeLeaf`, `MakeNode` and `MakeMapNode` pin it on built nodes |
| `ZddNode.GetType` | src/sylvan_zdd_int.h:65-69 | the type is the low 32 bits of the high index field of `a`; `MakeLeaf` gives back the type a leaf was built with |
| `ZddNode.GetValue` | src/sylvan_zdd_int.h:71-75 | the value is word `b`, the same bits the low index and the variable are read from; `MakeLeaf` gives back the value a leaf was built with |
| `ZddNode.GetComp` | src/sylvan_zdd_int.h:77-81 | 1 exactly when the high edge is marked or bit 11 of its index is set; `MakeNodeComp` gives its value on built nodes |
| `ZddNode.GetMark` | src/sylvan_zdd_int.h:101-105 | 1 exactly when bit 60 of the node (bit 60 of `b`) is set, which is exactly when bit 20 of the variable is set; `SetMark` pins it after an update |
| `ZddNode.IsMapNode` | src/sylvan_zdd_int.h:135-139 | 1 exactly when bit 125 of the node (bit 61 of `a`) is set; `MakeMapNode` always sets it, `MakeLeaf` never does |
| `ZddNode.GetLow` | src/sylvan_zdd_int.h:83-87 | the stored low edge fits in 40 bits and never carries a complement mark |
| `ZddNode.GetHigh` | src/sylvan_zdd_int.h:89-93 | the stored high edge has no bit outside the 40-bit index and bit 63, and is marked exactly when bit 63 of `a` is set |
| `ZddNode.GetVariable` | src/sylvan_zdd_int.h:95-99 | the variable always fits in 24 bits |
| `ZddNode.SetMark` | src/sylvan_zdd_int.h:107-112 | afterwards `getmark` is 1 for any nonzero mark and 0 for zero; word `a` is untouched |
| `ZddNode.SetMarkOnlyMarkBit` | src/sylvan_zdd_int.h:107-112 | the update changes no bit of `b` other than bit 60 |
| `ZddNode.SetMarkIdempotent` | src/sylvan_zdd_int.h:107-112 | setting the same mark twice is the same as setting it once |
| `ZddNode.SetMarkLastWins` | src/sylvan_zdd_int.h:107-112 | of two successive updates only the later one has an effect |
| `ZddNode.SetMarkKeepsWordA` | src/sylvan_zdd_int.h:59-112 | the update keeps the high edge, type, leaf flag, map flag and `getcomp` |
| `ZddNode.SetMarkKeepsLow` | src/sylvan_zdd_int.h:83-112 | the update keeps the low edge |
| `ZddNode.SetMarkClearRestores` | src/sylvan_zdd_int.h:101-112 | setting the mark and then clearing it gives back a node whose `getmark` was 0 |
| `ZddNode.MakeLeaf` | src/sylvan_zdd_int.h:114-119 | the node reads back as a leaf, not a map node, with the given type and value |
| `ZddNode.MakeNode` | src/sylvan_zdd_int.h:121-126 | when the fields fit, the node reads back the variable, low and high it was built from, and is neither a leaf nor a map node |
| `ZddNode.MakeNodeLow` | src/sylvan_zdd_int.h:121-126 | a 40-bit low edge reads back unchanged whatever the variable |
| `ZddNode.MakeNodeComp` | src/sylvan_zdd_int.h:77-81 | `getcomp` of a built node is 1 when the high edge is marked, and 0 when bits 63 and 11 of the high edge are both clear |
| `ZddNode.MakeMapNode` | src/sylvan_zdd_int.h:128-133 | the node is always a map node; when the fields fit it reads back its variable, low and high and is not a leaf |
| `ZddNode.Low` | src/sylvan_zdd_int.h:141-145 | the low child points at the stored low index, carries the mark of the edge used to reach the node, and is the stored low edge up to mark |
| `ZddNode.High` | src/sylvan_zdd_int.h:147-152 | the high child points at the index in `a` and carries the mark of bit 63 of `a`; no other bits are set |
| `ZddNode.HighIgnoresEdge` | src/sylvan_zdd_int.h:147-152 | the high child is the same whatever edge reached the node |
| `ZddView.Decode` | src/sylvan_zdd_int.h:59-139 | the descriptor always fits the layout; it is a leaf exactly when the leaf flag is set, and a map node exactly when only the map flag is |
| `ZddView.Encode` | src/sylvan_zdd_int.h:114-133 | reading back a node built from a well-formed descriptor gives that descriptor |
| `ZddView.EncodeDecodeLeaf` | src/sylvan_zdd_int.h:114-119 | a leaf is rebuilt exactly by `makeleaf` of its type and value when bits 63 and 61..32 of `a` are clear |
| `ZddView.EncodeDecodeMapNode` | src/sylvan_zdd_int.h:128-133 | a map node is rebuilt exactly by `makemapnode` of its fields when bits 62 and 60..40 of `a` are clear |
| `ZddView.EncodeDecodeInternal` | src/sylvan_zdd_int.h:121-126 | an internal node is rebuilt exactly by `makenode` of its fields when bits 62 and 60..40 of `a` are clear |
| `ZddView.EncodeDecode` | src/sylvan_zdd_int.h:20-28 | rebuilding a node from what the accessors read gives the node back exactly when its unused bits are clear |
| `ZddView.DecodeInjective` | src/sylvan_zdd_int.h:59-139 | two nodes with clear unused bits that read back the same are the same node |
| `ZddView.EncodeCanonical` | src/sylvan_zdd_int.h:114-133 | every constructor applied to fitting fields leaves the unused bits clear |
| `ZddFindings.SetMarkChangesVariable` | src/sylvan_zdd_int.h:95-112 | as written, marking sets bit 20 of the variable, and changes the variable of every node that was unmarked |
| `ZddFindings.SetMarkChangesDecode` | src/sylvan_zdd_int.h:95-112 | as written, an unmarked internal or map node reads back as a different node while it is marked |
| `ZddFindings.LeafValueReadsAsMark` | src/sylvan_zdd_int.h:101-119 | as written, a leaf reads as marked exactly when bit 60 of its value is set |
| `ZddFindings.SetMarkChangesLeafValue` | src/sylvan_zdd_int.h:71-119 | as written, marking a leaf of value 0 turns its value into 0x1000000000000000 |
| `ZddFindings.VariableReadsAsMark` | src/sylvan_zdd_int.h:101-126 | as written, a freshly built node reads as marked exactly when bit 20 of its variable is set |
| `ZddFindings.MarkClearLosesVariable` | src/sylvan_zdd_int.h:95-126 | as written, a node on variable 0x100000 reads as marked when built, and marking and then clearing it leaves variable 0 |
| `ZddFindings.GetMarkInA` | src/sylvan_zdd_int.h:24 | corrected mark: 1 exactly when bit 124 of the node (bit 60 of `a`) is set, where the layout documents it |
| `ZddFindings.SetMarkInA` | src/sylvan_zdd_int.h:20-28 | corrected mark update at bit 124: afterwards the mark is 1 for any nonzero mark and 0 for zero; word `b` is untouched |
| `ZddFindings.SetMarkInAOnlyMarkBit` | src/sylvan_zdd_int.h:20-28 | the corrected update changes no bit of `a` other than bit 60 |
| `ZddFindings.SameButMarkInA` | src/sylvan_zdd_int.h:59-93 | nodes that differ only in bit 60 of `a` agree on high edge, type, leaf flag, map flag and `getcomp` |
| `ZddFindings.SetMarkInAKeepsVariable` | src/sylvan_zdd_int.h:83-99 | the corrected update keeps the variable and the low edge |
| `ZddFindings.SetMarkInALastWins` | src/sylvan_zdd_int.h:107-112 | of two successive corrected updates only the later one has an effect |
| `ZddFindings.FreshNodesUnmarked` | src/sylvan_zdd_int.h:121-133 | internal and map nodes built from fitting fields start unmarked under the corrected mark, whatever their variable |
| `ZddFindings.FreshLeafUnmarked` | src/sylvan_zdd_int.h:114-119 | every leaf starts unmarked under the corrected mark |
| `ZddFindings.GetCompBit11` | src/sylvan_zdd_int.h:77-81 | as written, a node built with the unmarked high edge 0x800 has `getcomp` 1 |
| `ZddFindings.GetCompAsWritten` | src/sylvan_zdd_int.h:77-81 | as written, every node built with bit 11 of the high edge set has `getcomp` 1 |
| `ZddFindings.GetCompIntended` | src/sylvan_zdd_int.h:77-81 | corrected `getcomp`: it is the complement mark of the stored high edge |
| `ZddFindings.MakeNodeCompIntended` | src/sylvan_zdd_int.h:121-133 | corrected `getcomp` of a built internal or map node is the mark of the high edge it was given |
| `ZddMarking.SetMarkRestores` | src/sylvan_zdd_int.h:24 | with the corrected mark (bit 60 of `a`, layout line 24), marking and then clearing an unmarked node gives the node back |
| `ZddMarking.SetMarkKeepsDecode` | src/sylvan_zdd_int.h:24 | with the corrected mark (bit 60 of `a`, layout line 24), marking does not change what the node reads back as |
| `ZddMarking.EncodeUnmarked` | src/sylvan_zdd_int.h:114-133 | with the corrected mark (bit 60 of `a`, layout line 24), every node built from a well-formed descriptor starts unmarked |
| `ZddMarking.MarkAll` | src/sylvan_zdd_int.h:24 | with the corrected mark (bit 60 of `a`, layout line 24), marking a sequence of nodes keeps their number and every word `b`, and leaves each with the requested mark |
| `ZddMarking.MarkAllKeepsDecode` | src/sylvan_zdd_int.h:24 | with the corrected mark (bit 60 of `a`, layout line 24), every node reads back after marking as it did before |
| `ZddMarking.MarkThenClear` | src/sylvan_zdd_int.h:24 | with the corrected mark (bit 60 of `a`, layout line 24), marking unmarked nodes and then clearing the marks gives back exactly the nodes it started from |
| `ZddMarking.MarkAllIdempotent` | src/sylvan_zdd_int.h:24 | with the corrected mark (bit 60 of `a`, layout line 24), marking twice with the same mark is marking once |

## Left out

- `ZDD_GETNODE` (src/sylvan_zdd_int.h:50) is left out. It turns an index into a pointer into the node table, and the table is not part of this model. Nodes here are values.
- The node table itself is left out, with its unique table, operation cache, garbage collector, decision-diagram algebra and parallel scheduler. `ZddMarking` works on a sequence of node values instead.
- The little-endian and big-endian diagrams (src/sylvan_zdd_int.h:30-32) are left out. They describe byte order in memory, not the values the accessors read.
- Textual macro expansion is left out. Most macro arguments are not parenthesised, so an argument written as an expression with lower-precedence operators would expand differently. The model treats every argument as a single value.
- `zddnode_setmark` takes a C `int`. It is modelled as an unbounded integer because only `mark != 0` matters.
- Mutation in place is left out. The constructors and `setmark` write through a node pointer; here they return the new node value.
- The application example `examples/peg-solitaire.cpp` is not part of this model. It drives the decision-diagram classes, which are not part of this model either.

## Findings

| source | as written | input that shows it | evidently intended | confidence | as-written member | corrected member |
|---|---|---|---|---|---|---|
| src/sylvan_zdd_int.h:101-112 | `getmark`/`setmark` use bit 60 of `b`, which is bit 20 of the 24-bit variable field read at line 98 | `makenode(var = 0x100000, low = 0, high = 0)` reads as marked, and marking then clearing it makes `getvariable` return 0; marking an unmarked node changes its variable while the mark is set; `setmark(makeleaf(t, 0), 1)` turns the leaf value into 0x1000000000000000 | the mark at bit 124 of the node (bit 60 of `a`), as the layout at lines 20-28 documents | medium, not executed | `ZddFindings.MarkClearLosesVariable`, `ZddFindings.SetMarkChangesVariable`, `ZddFindings.SetMarkChangesDecode`, `ZddFindings.SetMarkChangesLeafValue` | `ZddFindings.SetMarkInA`, `ZddFindings.SetMarkInAKeepsVariable`, `ZddFindings.FreshNodesUnmarked`, `ZddMarking.MarkAllKeepsDecode` |
| src/sylvan_zdd_int.h:77-81 | `getcomp` tests mask `0x8000000000000800`, so bit 11 of the high index also counts as the complement | `makenode(var = 0, low = 0, high = 0x800)`: the high edge is unmarked but `getcomp` returns 1 | `getcomp` is the complement bit 63 of `a`, the mark of the high edge `gethigh` returns | medium, not executed | `ZddFindings.GetCompBit11` | `ZddFindings.GetCompIntended`, `ZddFindings.MakeNodeCompIntended` |
