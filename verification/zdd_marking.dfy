/**
 * The corrected mark (bit 124 of the node, bit 60 of `a`) applied to a
 * sequence of node values.
 *
 * The per-node facts of the corrected update are lifted to every node of a
 * sequence: marking keeps what each node reads back as, marking twice is
 * marking once, and clearing after marking restores nodes that started
 * unmarked. The header has no traversal of its own; the sequence stands for
 * any collection of nodes a caller marks. The as-written `zddnode_setmark`
 * also restores unmarked nodes when cleared (`ZddNode.SetMarkClearRestores`),
 * but while a node is marked it reads a different variable or value, and a
 * node on a variable with bit 20 set reads as marked from construction
 * (module ZddFindings).
 */
module ZddMarking {
  import opened ZddEdge
  import opened ZddNode
  import opened ZddView
  import opened ZddFindings

  /** Setting the mark and then clearing it gives back a node that was unmarked. */
  lemma SetMarkRestores(n: Node, mark: int)
    requires GetMarkInA(n) == 0
    ensures SetMarkInA(SetMarkInA(n, mark), 0) == n
  {
    UnmarkedWordAbsorbs(n.a);
    UnmarkedWordRestores(n.a);
  }

  /** Setting the mark changes nothing a reader of the node can see. */
  lemma SetMarkKeepsDecode(n: Node, mark: int)
    ensures Decode(SetMarkInA(n, mark)) == Decode(n)
  {
    SetMarkInAOnlyMarkBit(n, mark);
    SameButMarkInA(SetMarkInA(n, mark), n);
  }

  /** Every node packed from a well-formed descriptor starts unmarked. */
  lemma EncodeUnmarked(v: NodeView)
    requires WellFormed(v)
    ensures GetMarkInA(Encode(v)) == 0
  {
    match v
    case Internal(x, l, h) => FreshNodesUnmarked(x, l, h);
    case MapNode(x, l, h) => FreshNodesUnmarked(x, l, h);
    case Leaf(t, value) => FreshLeafUnmarked(t, value);
  }

  /** Every node of the sequence carries no mark. */
  predicate AllUnmarked(ns: seq<Node>)
  {
    forall i :: 0 <= i < |ns| ==> GetMarkInA(ns[i]) == 0
  }

  /** Set (nonzero `mark`) or clear the mark of every node, keeping their order. */
  function MarkAll(ns: seq<Node>, mark: int): (r: seq<Node>)
    ensures |r| == |ns|
    ensures forall i :: 0 <= i < |r| ==> r[i].b == ns[i].b
    ensures forall i :: 0 <= i < |r| ==> GetMarkInA(r[i]) == (if mark != 0 then 1 else 0)
  {
    if |ns| == 0 then []
    else [SetMarkInA(ns[0], mark)] + MarkAll(ns[1..], mark)
  }

  /** Marking keeps what every node reads back as. */
  lemma {:induction false} MarkAllKeepsDecode(ns: seq<Node>, mark: int)
    ensures forall i :: 0 <= i < |ns| ==> Decode(MarkAll(ns, mark)[i]) == Decode(ns[i])
  {
    if |ns| > 0 {
      SetMarkKeepsDecode(ns[0], mark);
      MarkAllKeepsDecode(ns[1..], mark);
      forall i | 1 <= i < |ns|
        ensures Decode(MarkAll(ns, mark)[i]) == Decode(ns[i])
      {
        assert MarkAll(ns, mark)[i] == MarkAll(ns[1..], mark)[i - 1];
      }
    }
  }

  /**
   * Marking nodes which were all unmarked and then clearing the marks gives
   * back exactly the nodes it started from.
   */
  lemma {:induction false} MarkThenClear(ns: seq<Node>, mark: int)
    requires AllUnmarked(ns)
    ensures MarkAll(MarkAll(ns, mark), 0) == ns
  {
    if |ns| > 0 {
      SetMarkRestores(ns[0], mark);
      assert MarkAll(ns, mark)[1..] == MarkAll(ns[1..], mark);
      MarkThenClear(ns[1..], mark);
    }
  }

  /** Marking again with the same mark changes nothing. */
  lemma {:induction false} MarkAllIdempotent(ns: seq<Node>, mark: int)
    ensures MarkAll(MarkAll(ns, mark), mark) == MarkAll(ns, mark)
  {
    if |ns| > 0 {
      SetMarkInALastWins(ns[0], mark, mark);
      assert MarkAll(ns, mark)[1..] == MarkAll(ns[1..], mark);
      MarkAllIdempotent(ns[1..], mark);
    }
  }
}
