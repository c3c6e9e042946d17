/** The two predictableTree instances (predict.go): DTree over node pointers,
    with nil as the zero node, and STree over array indices, with the root
    index 0 as the zero node. Their predictions are the matches their scans
    report, turned into spans of the query. */
module Adapters {
  import opened Base
  import Dynamic
  import Static
  import Failure
  import Freeze
  import P = Predict

  // ---------------------------------------------------------------------------
  // DTree

  /** The methods DTree gives predictableTree[*DNode]: a node is named by its
      path, nil is None; nodeFail follows the Failure pointer. */
  function DynamicTree(t: Dynamic.DTree): (tr: P.Tree<Option<Path>>)
    requires Dynamic.LinksShrink(t.failure) && [] !in t.failure
    ensures tr.root == Some([]) && tr.zero == None && tr.nilZero
  {
    P.Tree(
      Some([]),
      None,
      true,
      (n: Option<Path>, c: char) => if n.Some? then Some(Dynamic.NextNode(t.root, t.failure, n.value, c)) else None,
      (n: Option<Path>) => if n.Some? then Dynamic.IdAt(t, n.value) else 0,
      (n: Option<Path>) => if n.Some? then Dynamic.LevelAt(t, n.value) else 0,
      (n: Option<Path>) => if n.Some? && n.value in t.failure then Some(t.failure[n.value]) else None)
  }

  /** Following Failure from any node reaches nil: each link shortens the path. */
  lemma DynamicWalkable(t: Dynamic.DTree)
    requires Dynamic.LinksShrink(t.failure) && [] !in t.failure
    ensures P.Walkable(DynamicTree(t))
  {
    var tr := DynamicTree(t);
    var rank := (n: Option<Path>) => if n.Some? then |n.value| + 1 else 0;
    assert P.Ranked(tr, rank);
  }

  lemma {:induction false} DynamicPivot(t: Dynamic.DTree, s: seq<char>)
    requires Dynamic.LinksShrink(t.failure) && [] !in t.failure
    ensures P.Pivot(DynamicTree(t), s) == Some(Dynamic.Run(t, s))
    decreases |s|
  {
    if s != [] {
      DynamicPivot(t, s[..|s| - 1]);
    }
  }

  /** The ids nodeId reads along the chain are those ScanContext collects. */
  lemma {:induction false} DynamicChainKeys(t: Dynamic.DTree, p: Path)
    requires Dynamic.LinksShrink(t.failure) && [] !in t.failure
    ensures P.Walkable(DynamicTree(t))
    ensures P.Keys(DynamicTree(t), P.Chain(DynamicTree(t), Some(p)))
      == Dynamic.ChainNodes(t, Dynamic.Chain(t.failure, p))
    decreases |p|
  {
    var tr := DynamicTree(t);
    DynamicWalkable(t);
    var c := P.Chain(tr, Some(p));
    assert c[1..] == P.Chain(tr, tr.fail(Some(p)));
    var d := Dynamic.Chain(t.failure, p);
    if p in t.failure {
      DynamicChainKeys(t, t.failure[p]);
      assert d[1..] == Dynamic.Chain(t.failure, t.failure[p]);
    } else {
      assert c[1..] == [];
      assert d[1..] == [];
    }
  }

  /** A DTree predicts, for rune j, exactly the matches ScanContext reports
      for it, each as the span ending after the rune. */
  lemma DynamicMatches(t: Dynamic.DTree, q: seq<char>, j: nat)
    requires Dynamic.LinksShrink(t.failure) && [] !in t.failure && j < |q|
    ensures P.Walkable(DynamicTree(t))
    ensures
      P.RuneMatches(DynamicTree(t), q, j) == P.Spans(q, ByteLen(q[..j + 1]), Dynamic.EventAt(t, q, j).nodes)
  {
    DynamicWalkable(t);
    DynamicPivot(t, q[..j + 1]);
    DynamicChainKeys(t, Dynamic.Run(t, q[..j + 1]));
  }

  /** predictIter panics on a DTree after the keys of p's failure chain
      exactly when that chain ends at a node whose id is not 0: the closure
      only stops on a node with id 0 and a nil Failure, and otherwise asks
      nodeId of the nil Failure it reaches. */
  lemma {:induction false} DynamicDangles(t: Dynamic.DTree, p: Path)
    requires Dynamic.LinksShrink(t.failure) && [] !in t.failure
    ensures P.Walkable(DynamicTree(t))
    ensures var c := Dynamic.Chain(t.failure, p);
      P.Dangles(DynamicTree(t), Some(p)) <==> Dynamic.IdAt(t, c[|c| - 1]) != 0
    decreases |p|
  {
    DynamicWalkable(t);
    var tr := DynamicTree(t);
    var c := Dynamic.Chain(t.failure, p);
    if p in t.failure {
      DynamicDangles(t, t.failure[p]);
      assert tr.fail(Some(p)) == Some(t.failure[p]);
      assert c == [p] + Dynamic.Chain(t.failure, t.failure[p]);
    } else {
      assert tr.fail(Some(p)) == None && c == [p];
      assert tr.id(Some(p)) == Dynamic.IdAt(t, p);
      if Dynamic.IdAt(t, p) != 0 {
        assert P.Dangles(tr, Some(p)) == P.Dangles(tr, None);
      }
    }
  }

  /** Without FillFailure every Failure is nil, so predictIter panics right
      after reporting any node with an id (ids are never negative in a tree
      Put builds). */
  lemma UnfilledDangles(t: Dynamic.DTree, p: Path)
    requires t.failure == map[]
    ensures P.Walkable(DynamicTree(t))
    ensures P.Dangles(DynamicTree(t), Some(p)) <==> Dynamic.IdAt(t, p) != 0
  {
    DynamicDangles(t, p);
  }

  /** With every link filled, the failure chain of a trie node ends at the
      root, whose Failure is nil. */
  lemma {:induction false} FilledChainEnd(t: Dynamic.DTree, p: Path)
    requires Dynamic.Valid(t) && Failure.Correct(t.root, t.failure) && Failure.InTrie(t.root, p)
    ensures var c := Dynamic.Chain(t.failure, p); c[|c| - 1] == []
    decreases |p|
  {
    if p != [] {
      FilledChainEnd(t, t.failure[p]);
    }
  }

  /** With every link filled, a rune's pivot dangles exactly when the empty
      key is present: then predictIter panics after the first rune. */
  lemma FilledDangles(t: Dynamic.DTree, q: seq<char>, j: int)
    requires Dynamic.Valid(t) && Failure.Correct(t.root, t.failure)
    ensures P.Walkable(DynamicTree(t))
    ensures P.RuneDangles(DynamicTree(t), q, j) <==> 0 <= j < |q| && Dynamic.IdAt(t, []) > 0
  {
    DynamicWalkable(t);
    if 0 <= j < |q| {
      DynamicPivot(t, q[..j + 1]);
      var p := Dynamic.Run(t, q[..j + 1]);
      FilledChainEnd(t, p);
      DynamicDangles(t, p);
    }
  }

  // ---------------------------------------------------------------------------
  // STree

  /** The methods STree gives predictableTree[int]: nodeLevel reads
      Levels[EdgeID-1] (-1 outside the table, where Go's index would panic). */
  function StaticTree(st: Static.STree): (tr: P.Tree<int>)
    requires Static.Acyclic(st)
    ensures tr.root == 0 && tr.zero == 0 && !tr.nilZero
  {
    P.Tree(
      0,
      0,
      false,
      (x: int, c: char) => if 0 <= x < |st.nodes| then Static.NextNode(st, x, c as int) else 0,
      (x: int) => if 0 <= x < |st.nodes| then st.nodes[x].edgeId else 0,
      (x: int) => if 0 <= x < |st.nodes| && st.nodes[x].edgeId > 0 then Static.LevelOf(st, st.nodes[x].edgeId) else 0,
      (x: int) => if 0 <= x < |st.nodes| then st.nodes[x].fail else 0)
  }

  /** Fail indices reach 0 when the array is acyclic and the root carries no
      id and fails to itself. */
  lemma StaticWalkable(st: Static.STree)
    requires Static.Acyclic(st) && st.nodes[0].edgeId == 0 && st.nodes[0].fail == 0
    ensures P.Walkable(StaticTree(st))
  {
    var tr := StaticTree(st);
    var rank := (x: int) =>
      if 0 < x < |st.nodes| then Static.Rank(st, x) + 1 else if x == 0 then 0 else 1;
    forall x | x != tr.zero
      ensures rank(tr.fail(x)) < rank(x)
    {
      if 0 < x < |st.nodes| {
        Static.RankFalls(st, x);
      }
    }
    assert P.Ranked(tr, rank);
  }

  lemma {:induction false} StaticPivot(st: Static.STree, s: seq<char>)
    requires Static.Acyclic(st)
    ensures P.Pivot(StaticTree(st), s) == Static.Run(st, s)
    decreases |s|
  {
    if s != [] {
      StaticPivot(st, s[..|s| - 1]);
    }
  }

  lemma {:induction false} StaticChainKeys(st: Static.STree, x: int)
    requires Static.Acyclic(st) && st.nodes[0].edgeId == 0 && st.nodes[0].fail == 0
    requires 0 <= x < |st.nodes|
    ensures P.Walkable(StaticTree(st))
    ensures P.Keys(StaticTree(st), P.Chain(StaticTree(st), x)) == Static.ChainNodes(st, x)
    decreases Static.Rank(st, x)
  {
    var tr := StaticTree(st);
    StaticWalkable(st);
    if x > 0 {
      Static.RankFalls(st, x);
      var f := st.nodes[x].fail;
      StaticChainKeys(st, f);
      assert P.Chain(tr, x)[1..] == P.Chain(tr, f);
    }
  }

  /** An STree predicts, for rune j, exactly the matches ScanContext reports
      for it, each as the span ending after the rune. */
  lemma StaticMatches(st: Static.STree, q: seq<char>, j: nat)
    requires Static.Acyclic(st) && st.nodes[0].edgeId == 0 && st.nodes[0].fail == 0 && j < |q|
    ensures P.Walkable(StaticTree(st))
    ensures
      P.RuneMatches(StaticTree(st), q, j) == P.Spans(q, ByteLen(q[..j + 1]), Static.EventAt(st, q, j).nodes)
  {
    StaticWalkable(st);
    StaticPivot(st, q[..j + 1]);
    StaticChainKeys(st, Static.Run(st, q[..j + 1]));
  }

  // ---------------------------------------------------------------------------
  // Frozen and growable trees predict alike

  /** Both adapters of a valid tree without the empty key are walkable: the
      filled DTree and its frozen array. */
  lemma BothWalkable(t: Dynamic.DTree)
    requires Dynamic.Valid(t) && Dynamic.IdAt(t, []) == 0
    ensures Static.Acyclic(Freeze.Freeze(t))
    ensures Freeze.Freeze(t).nodes[0].edgeId == 0 && Freeze.Freeze(t).nodes[0].fail == 0
    ensures Dynamic.LinksShrink(Failure.FillFailure(t).failure) && [] !in Failure.FillFailure(t).failure
    ensures P.Walkable(StaticTree(Freeze.Freeze(t))) && P.Walkable(DynamicTree(Failure.FillFailure(t)))
  {
    Freeze.FreezeAcyclic(t);
    Freeze.FreezeRoot(t);
    StaticWalkable(Freeze.Freeze(t));
    DynamicWalkable(Failure.FillFailure(t));
  }

  lemma {:induction false} FrozenFrom(t: Dynamic.DTree, q: seq<char>, k: nat)
    requires Dynamic.Valid(t) && Dynamic.IdAt(t, []) == 0
    ensures Static.Acyclic(Freeze.Freeze(t)) && P.Walkable(StaticTree(Freeze.Freeze(t)))
    ensures Dynamic.LinksShrink(Failure.FillFailure(t).failure) && [] !in Failure.FillFailure(t).failure
    ensures P.Walkable(DynamicTree(Failure.FillFailure(t)))
    ensures P.From(StaticTree(Freeze.Freeze(t)), q, k) == P.From(DynamicTree(Failure.FillFailure(t)), q, k)
    decreases |q| - k
  {
    BothWalkable(t);
    if k < |q| {
      StaticMatches(Freeze.Freeze(t), q, k);
      DynamicMatches(Failure.FillFailure(t), q, k);
      Freeze.ScanAgrees(t, q, k);
      FrozenFrom(t, q, k + 1);
    }
  }

  /** Freezing keeps every prediction: for a tree without the empty key the
      STree predicts exactly what the filled DTree predicts, in the same order. */
  lemma FrozenPredictsAlike(t: Dynamic.DTree, q: seq<char>)
    requires Dynamic.Valid(t) && Dynamic.IdAt(t, []) == 0
    ensures Static.Acyclic(Freeze.Freeze(t)) && P.Walkable(StaticTree(Freeze.Freeze(t)))
    ensures Dynamic.LinksShrink(Failure.FillFailure(t).failure) && [] !in Failure.FillFailure(t).failure
    ensures P.Walkable(DynamicTree(Failure.FillFailure(t)))
    ensures P.Expected(StaticTree(Freeze.Freeze(t)), q) == P.Expected(DynamicTree(Failure.FillFailure(t)), q)
  {
    FrozenFrom(t, q, 0);
  }
}
