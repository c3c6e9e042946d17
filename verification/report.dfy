/** The legacy Reporter plumbing (trietree.go): for each scanned rune, one
    Report call with the edge ids found along the failure chain. */
module Report {
  import opened Base
  import Dynamic
  import Static
  import Failure

  /** The arguments of one Reporter.Report call; ids is None for Go's nil
      slice, which stands for "no ids". */
  datatype Report = Report(index: int, rune: char, viaRoot: bool, ids: Option<seq<int>>)

  /** The ids of a list of matches, in order. */
  function Ids(ms: seq<ScanNode>): (r: seq<int>)
    ensures |r| == |ms| && forall k | 0 <= k < |ms| :: r[k] == ms[k].id
  {
    seq(|ms|, k requires 0 <= k < |ms| => ms[k].id)
  }

  /** The ids still to be collected when the walk stands at x. */
  ghost function DynamicRest(t: Dynamic.DTree, x: Option<Path>): seq<int>
    requires Dynamic.LinksShrink(t.failure) && [] !in t.failure
  {
    if x.Some? then Ids(Dynamic.ChainNodes(t, Dynamic.Chain(t.failure, x.value))) else []
  }

  lemma Regroup(a: seq<int>, b: seq<int>, c: seq<int>)
    ensures (a + b) + c == a + (b + c)
  {
  }

  lemma IdsAppend(a: seq<ScanNode>, b: seq<ScanNode>)
    ensures Ids(a + b) == Ids(a) + Ids(b)
  {
  }

  /** One step of the Failure walk: the node's own id, then the rest. */
  lemma DynamicIdsStep(t: Dynamic.DTree, p: Path)
    requires Dynamic.LinksShrink(t.failure) && [] !in t.failure
    ensures DynamicRest(t, Some(p)) ==
      (if Dynamic.IdAt(t, p) > 0 then [Dynamic.IdAt(t, p)] else [])
      + DynamicRest(t, if p in t.failure then Some(t.failure[p]) else None)
  {
    var c := Dynamic.Chain(t.failure, p);
    var tail := if p in t.failure then Dynamic.Chain(t.failure, t.failure[p]) else [];
    assert c[1..] == tail;
    var rest := Dynamic.ChainNodes(t, tail);
    assert Dynamic.ChainNodes(t, c) == Dynamic.Keyed(t, p) + rest;
    IdsAppend(Dynamic.Keyed(t, p), rest);
  }

  /** reportDynamic: walk Failure from n until nil, collect each non-zero
      EdgeID, and make one Report call with i, c and viaRoot unchanged. A nil
      n reports nil. */
  method ReportDynamic(t: Dynamic.DTree, i: int, c: char, viaRoot: bool, n: Option<Path>) returns (r: Report)
    requires Dynamic.LinksShrink(t.failure) && [] !in t.failure
    ensures r.index == i && r.rune == c && r.viaRoot == viaRoot
    ensures n.None? ==> r.ids.None?
    ensures n.Some? ==> r.ids == NilIfEmpty(Ids(Dynamic.ChainNodes(t, Dynamic.Chain(t.failure, n.value))))
  {
    var ids: seq<int> := [];
    var x := n;
    while x.Some?
      invariant ids + DynamicRest(t, x) == DynamicRest(t, n)
      decreases if x.Some? then |x.value| + 1 else 0
    {
      var p := x.value;
      var next := if p in t.failure then Some(t.failure[p]) else None;
      var edge := Dynamic.IdAt(t, p);
      var own := if edge > 0 then [edge] else [];
      DynamicIdsStep(t, p);
      Regroup(ids, own, DynamicRest(t, next));
      ids := ids + own;
      x := next;
    }
    assert ids + [] == ids;
    r := Report(i, c, viaRoot, NilIfEmpty(ids));
  }

  /** One step of the Fail walk: the node's own id, then the rest. */
  lemma StaticIdsStep(st: Static.STree, x: int)
    requires Static.Acyclic(st) && 0 < x < |st.nodes|
    ensures 0 <= st.nodes[x].fail < |st.nodes| && Static.Rank(st, st.nodes[x].fail) < Static.Rank(st, x)
    ensures Ids(Static.ChainNodes(st, x)) ==
      (if st.nodes[x].edgeId > 0 then [st.nodes[x].edgeId] else []) + Ids(Static.ChainNodes(st, st.nodes[x].fail))
  {
    Static.RankFalls(st, x);
    var edge := st.nodes[x].edgeId;
    var own := if edge > 0 then [ScanNode(edge, Static.LevelOf(st, edge))] else [];
    IdsAppend(own, Static.ChainNodes(st, st.nodes[x].fail));
  }

  /** reportStatic: walk Fail indices while n > 0, so the root is never
      inspected, collect each non-zero EdgeID and make one Report call. */
  method ReportStatic(st: Static.STree, i: int, c: char, viaRoot: bool, n: int) returns (r: Report)
    requires Static.Acyclic(st) && 0 <= n < |st.nodes|
    ensures r.index == i && r.rune == c && r.viaRoot == viaRoot
    ensures r.ids == NilIfEmpty(Ids(Static.ChainNodes(st, n)))
  {
    var ids: seq<int> := [];
    var x := n;
    while x > 0
      invariant 0 <= x < |st.nodes|
      invariant ids + Ids(Static.ChainNodes(st, x)) == Ids(Static.ChainNodes(st, n))
      decreases Static.Rank(st, x)
    {
      var edge := st.nodes[x].edgeId;
      var f := st.nodes[x].fail;
      var own := if edge > 0 then [edge] else [];
      StaticIdsStep(st, x);
      Regroup(ids, own, Ids(Static.ChainNodes(st, f)));
      ids := ids + own;
      x := f;
    }
    assert ids + [] == ids;
    r := Report(i, c, viaRoot, NilIfEmpty(ids));
  }

  /** What a Report says about the text: after the links are filled, the ids
      reported for the rune at j are exactly those of the keys that end
      there, and the list is nil exactly when no key ends there. */
  lemma ReportedIdsEndHere(t: Dynamic.DTree, s: seq<char>, j: nat)
    requires Dynamic.Valid(t) && j < |s|
    ensures Dynamic.LinksShrink(Failure.FillFailure(t).failure) && [] !in Failure.FillFailure(t).failure
    ensures var ids := Ids(Dynamic.EventAt(Failure.FillFailure(t), s, j).nodes);
      && (forall u | Failure.IsSuffix(u, s[..j + 1]) && Dynamic.IsKey(t, u) :: Dynamic.IdAt(t, u) in ids)
      && (forall x | x in ids :: exists u :: Failure.IsSuffix(u, s[..j + 1]) && Dynamic.IsKey(t, u) && Dynamic.IdAt(t, u) == x)
      && (NilIfEmpty(ids).None? <==> forall u | Failure.IsSuffix(u, s[..j + 1]) :: !Dynamic.IsKey(t, u))
  {
    Failure.FillFailureCorrect(t);
    Failure.ScanReportsKeysEndingHere(t, s, j);
    IdsOfMatches(t, s[..j + 1], Dynamic.EventAt(Failure.FillFailure(t), s, j).nodes);
  }

  /** Turns the scan guarantee about matches into one about their ids. */
  lemma IdsOfMatches(t: Dynamic.DTree, w: seq<char>, ms: seq<ScanNode>)
    requires forall u | Failure.IsSuffix(u, w) && Dynamic.IsKey(t, u) :: ScanNode(Dynamic.IdAt(t, u), |u|) in ms
    requires forall x | x in ms :: exists u :: Failure.IsSuffix(u, w) && Dynamic.IsKey(t, u) && x == ScanNode(Dynamic.IdAt(t, u), |u|)
    ensures forall u | Failure.IsSuffix(u, w) && Dynamic.IsKey(t, u) :: Dynamic.IdAt(t, u) in Ids(ms)
    ensures forall x | x in Ids(ms) :: exists u :: Failure.IsSuffix(u, w) && Dynamic.IsKey(t, u) && Dynamic.IdAt(t, u) == x
    ensures NilIfEmpty(Ids(ms)).None? <==> forall u | Failure.IsSuffix(u, w) :: !Dynamic.IsKey(t, u)
  {
    var ids := Ids(ms);
    forall u | Failure.IsSuffix(u, w) && Dynamic.IsKey(t, u)
      ensures Dynamic.IdAt(t, u) in ids
    {
      var k :| 0 <= k < |ms| && ms[k] == ScanNode(Dynamic.IdAt(t, u), |u|);
      assert ids[k] == Dynamic.IdAt(t, u);
    }
    forall x | x in ids
      ensures exists u :: Failure.IsSuffix(u, w) && Dynamic.IsKey(t, u) && Dynamic.IdAt(t, u) == x
    {
      var k :| 0 <= k < |ids| && ids[k] == x;
      assert ms[k] in ms;
    }
    if ids != [] {
      assert ms[0] in ms;
    }
  }
}
