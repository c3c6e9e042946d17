/** Prediction (predict.go, seq.go): the key spans a query contains, produced
    by the pull iterator predictIter and by the push sequence predict over any
    predictableTree, together with the trailingIndex helper both use. */
module Predict {
  import opened Base

  /** A key found in the query: bytes [start, end) of the query spell the key
      whose edge id is `id`. */
  datatype Prediction = Prediction(start: int, end: int, id: int)

  /** predictableTree[T]: the root, Go's zero value of T (nil for DTree, index
      0 for STree), whether that zero value is a nil pointer (nodeId and
      nodeFail of it then dereference nil and panic), the goto function
      nextNode and the accessors nodeId, nodeLevel and nodeFail. */
  datatype Tree<!T> = Tree(root: T, zero: T, nilZero: bool, next: (T, char) -> T, id: T -> int, level: T -> int, fail: T -> T)

  /** rank falls along every failure link that leaves a node other than zero,
      and zero carries no id and fails to itself. */
  ghost predicate Ranked<T(!new)>(tr: Tree<T>, rank: T -> nat)
  {
    && tr.id(tr.zero) == 0
    && tr.fail(tr.zero) == tr.zero
    && forall n :: n != tr.zero ==> rank(tr.fail(n)) < rank(n)
  }

  /** What both consumers rely on: every failure chain reaches the zero node,
      which carries no id and fails to itself. */
  ghost predicate Walkable<T(!new)>(tr: Tree<T>)
  {
    exists rank :: Ranked(tr, rank)
  }

  ghost function Rank<T(!new)>(tr: Tree<T>, n: T): nat
    requires Walkable(tr)
  {
    var rank :| Ranked(tr, rank); rank(n)
  }

  lemma RankFalls<T(!new)>(tr: Tree<T>, n: T)
    requires Walkable(tr) && n != tr.zero
    ensures Rank(tr, tr.fail(n)) < Rank(tr, n)
  {
  }

  // ---------------------------------------------------------------------------
  // The reference: what a query predicts

  /** The nodes nodeFail visits from n before it reaches the zero node. */
  function Chain<T(==,!new)>(tr: Tree<T>, n: T): (r: seq<T>)
    requires Walkable(tr)
    ensures tr.zero !in r
    ensures n != tr.zero ==> r != [] && r[0] == n
    decreases Rank(tr, n)
  {
    if n == tr.zero then []
    else
      RankFalls(tr, n);
      [n] + Chain(tr, tr.fail(n))
  }

  /** The (id, level) of each node of ns that has an id, in order. */
  function Keys<T>(tr: Tree<T>, ns: seq<T>): (r: seq<ScanNode>)
    ensures |r| <= |ns|
    ensures forall m | m in r :: m.id > 0
  {
    if ns == [] then []
    else (if tr.id(ns[0]) > 0 then [ScanNode(tr.id(ns[0]), tr.level(ns[0]))] else []) + Keys(tr, ns[1..])
  }

  /** The node the traverser stands on after consuming s from the root. */
  function Pivot<T>(tr: Tree<T>, s: seq<char>): T
    decreases |s|
  {
    if s == [] then tr.root else tr.next(Pivot(tr, s[..|s| - 1]), s[|s| - 1])
  }

  /** query[:end] for an end on a rune boundary: the runes whose bytes all lie
      before end. */
  function Cut(q: seq<char>, end: int): (r: seq<char>)
    ensures |r| <= |q| && r == q[..|r|]
  {
    if q == [] || RuneLen(q[0]) > end then []
    else
      var r := [q[0]] + Cut(q[1..], end - RuneLen(q[0]));
      assert r == q[..|r|];
      r
  }

  lemma {:induction false} CutAtBoundary(q: seq<char>, k: nat)
    requires k <= |q|
    ensures Cut(q, ByteLen(q[..k])) == q[..k]
  {
    if k > 0 {
      assert q[..k][1..] == q[1..][..k - 1];
      CutAtBoundary(q[1..], k - 1);
    } else if q != [] {
      assert RuneLen(q[0]) > 0;
    }
  }

  /** The number of runes trailingIndex steps back over: n, but at most |s|
      and never negative. */
  function Back(n: int, len: nat): (b: nat)
    ensures b <= len
  {
    if n <= 0 then 0 else if n > len then len else n
  }

  /** The byte offset at which the last n runes of s begin. */
  function TrailingStart(s: seq<char>, n: int): (x: nat)
    ensures x <= ByteLen(s)
    ensures x == ByteLen(s) ==> n <= 0 || s == []
  {
    var k := |s| - Back(n, |s|);
    ByteLenPrefix(s, k, |s|);
    assert s[..|s|] == s;
    ByteLen(s[..k])
  }

  /** The prediction for a match whose level is m.level ending at byte end. */
  function Span(q: seq<char>, end: int, m: ScanNode): Prediction
  {
    Prediction(TrailingStart(Cut(q, end), m.level), end, m.id)
  }

  function Spans(q: seq<char>, end: int, ms: seq<ScanNode>): (r: seq<Prediction>)
    ensures |r| == |ms|
  {
    if ms == [] then [] else [Span(q, end, ms[0])] + Spans(q, end, ms[1..])
  }

  /** The predictions of the rune at position j: one per node with an id on
      the failure chain of the node reached, longest key first. */
  function RuneMatches<T(==,!new)>(tr: Tree<T>, q: seq<char>, j: nat): seq<Prediction>
    requires Walkable(tr) && j < |q|
  {
    Spans(q, ByteLen(q[..j + 1]), Keys(tr, Chain(tr, Pivot(tr, q[..j + 1]))))
  }

  /** The predictions of the runes from position k on, rune by rune. */
  function From<T(==,!new)>(tr: Tree<T>, q: seq<char>, k: nat): seq<Prediction>
    requires Walkable(tr)
    decreases |q| - k
  {
    if k >= |q| then [] else RuneMatches(tr, q, k) + From(tr, q, k + 1)
  }

  /** Everything a query predicts, in the order both consumers produce it. */
  function Expected<T(==,!new)>(tr: Tree<T>, q: seq<char>): seq<Prediction>
    requires Walkable(tr)
  {
    From(tr, q, 0)
  }

  /** Whether the closure of predictIter, following failure links from n,
      ends by asking nodeId of the zero node: a node with an id is always
      followed by its link, and only a node without an id whose link is zero
      stops the walk first. When the zero node is nil that call panics. */
  predicate Dangles<T(==,!new)>(tr: Tree<T>, n: T)
    requires Walkable(tr)
    decreases Rank(tr, n)
  {
    if n == tr.zero then tr.nilZero
    else if tr.id(n) == 0 && tr.fail(n) == tr.zero then false
    else
      RankFalls(tr, n);
      Dangles(tr, tr.fail(n))
  }

  /** A tree whose zero node is a real node never dangles. */
  lemma {:induction false} NeverDangles<T(!new)>(tr: Tree<T>, n: T)
    requires Walkable(tr) && !tr.nilZero
    ensures !Dangles(tr, n)
    decreases Rank(tr, n)
  {
    if n != tr.zero && !(tr.id(n) == 0 && tr.fail(n) == tr.zero) {
      RankFalls(tr, n);
      NeverDangles(tr, tr.fail(n));
    }
  }

  /** Whether the pivot reached after rune j of q dangles. */
  predicate RuneDangles<T(==,!new)>(tr: Tree<T>, q: seq<char>, j: int)
    requires Walkable(tr)
  {
    0 <= j < |q| && Dangles(tr, Pivot(tr, q[..j + 1]))
  }

  /** What the closure does from some point on: it returns preds, one per
      call, and then panics on every call if panics holds, or returns nil on
      every call if not. */
  datatype Outlook = Outlook(preds: seq<Prediction>, panics: bool)

  /** The outlook of the runes from position k on: each rune's predictions in
      turn, up to and including the first rune whose pivot dangles, after
      which the closure panics. */
  function OutlookFrom<T(==,!new)>(tr: Tree<T>, q: seq<char>, k: nat): (r: Outlook)
    requires Walkable(tr)
    ensures |r.preds| <= |From(tr, q, k)| && r.preds == From(tr, q, k)[..|r.preds|]
    ensures !r.panics ==> r.preds == From(tr, q, k)
    decreases |q| - k
  {
    if k >= |q| then Outlook([], false)
    else if RuneDangles(tr, q, k) then Outlook(RuneMatches(tr, q, k), true)
    else
      var o := OutlookFrom(tr, q, k + 1);
      assert (RuneMatches(tr, q, k) + From(tr, q, k + 1))[..|RuneMatches(tr, q, k)| + |o.preds|]
        == RuneMatches(tr, q, k) + From(tr, q, k + 1)[..|o.preds|];
      Outlook(RuneMatches(tr, q, k) + o.preds, o.panics)
  }

  /** What predictIter does for the whole query. */
  function PullOutlook<T(==,!new)>(tr: Tree<T>, q: seq<char>): Outlook
    requires Walkable(tr)
  {
    OutlookFrom(tr, q, 0)
  }

  /** A closure that does not panic meets no rune whose pivot dangles. */
  lemma {:induction false} OutlookCalm<T(!new)>(tr: Tree<T>, q: seq<char>, k: nat)
    requires Walkable(tr) && !OutlookFrom(tr, q, k).panics
    ensures forall j | k <= j < |q| :: !RuneDangles(tr, q, j)
    decreases |q| - k
  {
    if k < |q| {
      OutlookCons(tr, q, k);
      OutlookCalm(tr, q, k + 1);
      forall j | k <= j < |q|
        ensures !RuneDangles(tr, q, j)
      {
        assert j == k || k + 1 <= j < |q|;
      }
    }
  }

  /** The predictions of the runes from k on are the outlook's, followed by
      those of the runes after j. */
  predicate SplitsAt<T(==,!new)>(tr: Tree<T>, q: seq<char>, k: nat, j: nat)
    requires Walkable(tr)
  {
    From(tr, q, k) == OutlookFrom(tr, q, k).preds + From(tr, q, j + 1)
  }

  /** A closure that panics does so after the predictions of the first rune
      j whose pivot dangles: it gives everything up to j and nothing of the
      runes after j. */
  lemma {:induction false} OutlookPanicPoint<T(!new)>(tr: Tree<T>, q: seq<char>, k: nat) returns (j: nat)
    requires Walkable(tr) && OutlookFrom(tr, q, k).panics
    ensures k <= j < |q| && RuneDangles(tr, q, j)
    ensures forall i | k <= i < j :: !RuneDangles(tr, q, i)
    ensures SplitsAt(tr, q, k, j)
    decreases |q| - k
  {
    FromCons(tr, q, k);
    OutlookCons(tr, q, k);
    if RuneDangles(tr, q, k) {
      j := k;
      assert OutlookFrom(tr, q, k).preds == RuneMatches(tr, q, k);
    } else {
      j := OutlookPanicPoint(tr, q, k + 1);
      forall i | k <= i < j
        ensures !RuneDangles(tr, q, i)
      {
        assert i == k || k + 1 <= i < j;
      }
      var m, later, tail := RuneMatches(tr, q, k), OutlookFrom(tr, q, k + 1).preds, From(tr, q, j + 1);
      assert From(tr, q, k) == m + (later + tail);
      assert OutlookFrom(tr, q, k).preds == m + later;
      AppendAssoc(m, later, tail);
    }
  }

  lemma FromCons<T(!new)>(tr: Tree<T>, q: seq<char>, k: nat)
    requires Walkable(tr) && k < |q|
    ensures From(tr, q, k) == RuneMatches(tr, q, k) + From(tr, q, k + 1)
  {
  }

  lemma OutlookCons<T(!new)>(tr: Tree<T>, q: seq<char>, k: nat)
    requires Walkable(tr) && k < |q|
    ensures var o := OutlookFrom(tr, q, k + 1);
      OutlookFrom(tr, q, k) ==
        if RuneDangles(tr, q, k) then Outlook(RuneMatches(tr, q, k), true)
        else Outlook(RuneMatches(tr, q, k) + o.preds, o.panics)
  {
  }

  lemma AppendAssoc<X>(a: seq<X>, b: seq<X>, c: seq<X>)
    ensures a + (b + c) == (a + b) + c
  {
  }

  // ---------------------------------------------------------------------------
  // trailingIndex

  /** trailingIndex: step back from len(s) over at most n runes, one decoded
      rune width at a time, stopping at the start of s. */
  method TrailingIndex(s: seq<char>, n: int) returns (x: nat)
    ensures x == TrailingStart(s, n)
  {
    x := ByteLen(s);
    var m := n;
    var k := |s|;
    assert s[..k] == s;
    while m > 0 && x > 0
      invariant 0 <= k <= |s|
      invariant x == ByteLen(s[..k])
      invariant m > 0 ==> m == n - (|s| - k)
      invariant m <= 0 ==> k == |s| - Back(n, |s|)
      invariant m > 0 ==> n - m == |s| - k
      decreases k
    {
      ByteLenAtLeastLength(s[..k]);
      ByteLenSnoc(s, k - 1);
      assert s[..k - 1 + 1] == s[..k];
      x := x - RuneLen(s[k - 1]);
      k := k - 1;
      m := m - 1;
    }
    if m > 0 {
      ByteLenAtLeastLength(s[..k]);
    }
  }

  /** Bytes [TrailingStart(s, n), len(s)) hold exactly the last Back(n, |s|)
      runes of s. */
  lemma TrailingSplit(s: seq<char>, n: int)
    ensures var k := |s| - Back(n, |s|);
      && s == s[..k] + s[k..]
      && TrailingStart(s, n) + ByteLen(s[k..]) == ByteLen(s)
  {
    var k := |s| - Back(n, |s|);
    assert s == s[..k] + s[k..];
    ByteLenAppend(s[..k], s[k..]);
  }

  // ---------------------------------------------------------------------------
  // traverser

  /** traverser: the query still to consume, the node reached and the byte
      index after the last rune consumed. */
  datatype Traverser<T> = Traverser(rest: seq<char>, pivot: T, index: int)

  function NewTraverser<T>(tr: Tree<T>, q: seq<char>): Traverser<T>
  {
    Traverser(q, tr.root, 0)
  }

  /** traverser.next: on an empty query (zero, 0, false) and no change;
      otherwise consume one rune, step the pivot with nextNode and advance the
      index by the rune's width. */
  function Next<T>(tr: Tree<T>, t: Traverser<T>): (r: (T, int, bool, Traverser<T>))
    ensures r.2 <==> t.rest != []
    ensures !r.2 ==> r == (tr.zero, 0, false, t)
    ensures r.2 ==> |r.3.rest| == |t.rest| - 1 && r.0 == r.3.pivot && r.1 == r.3.index
  {
    if t.rest == [] then (tr.zero, 0, false, t)
    else
      var c := t.rest[0];
      var t1 := Traverser(t.rest[1..], tr.next(t.pivot, c), t.index + RuneLen(c));
      (t1.pivot, t1.index, true, t1)
  }

  /** traverser.close: forget the rest of the query. */
  function Close<T>(t: Traverser<T>): (r: Traverser<T>)
    ensures r.rest == [] && r.pivot == t.pivot && r.index == t.index
  {
    t.(rest := [])
  }

  /** A traverser that has consumed the first k runes of q. */
  ghost predicate At<T>(tr: Tree<T>, q: seq<char>, t: Traverser<T>, k: nat)
  {
    k <= |q| && t == Traverser(q[k..], Pivot(tr, q[..k]), ByteLen(q[..k]))
  }

  lemma StartAt<T>(tr: Tree<T>, q: seq<char>)
    ensures At(tr, q, NewTraverser(tr, q), 0)
  {
    assert q[0..] == q;
  }

  /** next consumes rune k of q, reaching the pivot and byte index of the
      first k+1 runes; at the end of q it reports invalid. */
  lemma NextAt<T>(tr: Tree<T>, q: seq<char>, t: Traverser<T>, k: nat)
    requires At(tr, q, t, k)
    ensures var r := Next(tr, t);
      && (r.2 <==> k < |q|)
      && (r.2 ==> r.0 == Pivot(tr, q[..k + 1]) && r.1 == ByteLen(q[..k + 1]) && At(tr, q, r.3, k + 1))
      && (!r.2 ==> r.3 == t)
  {
    if k < |q| {
      assert q[k..][0] == q[k];
      assert q[k..][1..] == q[k + 1..];
      assert q[..k + 1][..k] == q[..k];
      ByteLenSnoc(q, k);
    }
  }

  /** After close, next reports invalid, whatever came before. */
  lemma ClosedStaysClosed<T>(tr: Tree<T>, t: Traverser<T>)
    ensures !Next(tr, Close(t)).2
    ensures Next(tr, Close(t)).3 == Close(t)
  {
  }

  // ---------------------------------------------------------------------------
  // predictIter: the pull iterator

  /** The variables the closure of predictIter captures: the traverser, req
      (a new rune must be consumed), the node on the failure chain and the
      end index of the rune being reported. */
  datatype IterState<T> = IterState(trav: Traverser<T>, req: bool, node: T, end: int)

  /** The outcome of one call of the closure: a prediction, nil, or the panic
      of nodeId on a nil node. */
  datatype Call = Yields(p: Prediction) | Done | Panics

  function Start<T>(tr: Tree<T>, q: seq<char>): IterState<T>
  {
    IterState(NewTraverser(tr, q), true, tr.zero, 0)
  }

  /** The zero node carries no id and fails to itself. */
  lemma ZeroFixed<T(!new)>(tr: Tree<T>)
    requires Walkable(tr)
    ensures tr.id(tr.zero) == 0 && tr.fail(tr.zero) == tr.zero
  {
  }

  /** One call of the closure predictIter: the next prediction; None once
      next reports the query exhausted (the traverser is closed); or a panic
      when the inner loop asks nodeId of a nil zero node, which leaves the
      captured variables as they were. Each step of the inner loop reads the
      id of node and moves node to its failure link; it reports a node with
      an id, and asks for a new rune after a node with id 0 whose link is the
      zero node. */
  function Pull<T(==,!new)>(tr: Tree<T>, q: seq<char>, s: IterState<T>): (r: (Call, IterState<T>))
    requires Walkable(tr)
    ensures r.0.Yields? ==> r.0.p.id > 0 && !r.1.req
    ensures r.0.Panics? ==> tr.nilZero && r.1.node == tr.zero && !r.1.req
    ensures r.0.Done? <==> r.1.req
    ensures r.0.Done? ==> r.1.trav.rest == []
    ensures |r.1.trav.rest| <= |s.trav.rest|
    decreases |s.trav.rest|, if s.req then 0 else 1, Rank(tr, s.node)
  {
    if s.req then
      var (node, end, valid, t1) := Next(tr, s.trav);
      if !valid then (Done, IterState(Close(t1), true, node, end))
      else Pull(tr, q, IterState(t1, false, node, end))
    else if tr.nilZero && s.node == tr.zero then (Panics, s)
    else
      var id := tr.id(s.node);
      var nxt := tr.fail(s.node);
      if id > 0 then (Yields(Span(q, s.end, ScanNode(id, tr.level(s.node)))), s.(node := nxt))
      else if id == 0 && nxt == tr.zero then Pull(tr, q, s.(req := true, node := nxt))
      else
        ZeroFixed(tr);
        RankFalls(tr, s.node);
        Pull(tr, q, s.(node := nxt))
  }

  /** The state of the closure after the first |q| - |rest| runes. */
  ghost predicate IterInv<T>(tr: Tree<T>, q: seq<char>, s: IterState<T>)
  {
    && |s.trav.rest| <= |q|
    && At(tr, q, s.trav, |q| - |s.trav.rest|)
    && (!s.req ==> s.end == s.trav.index)
  }

  /** What the iterator still has ahead: the rest of the current chain, and a
      panic if that chain dangles; otherwise the outlook of the runes not
      consumed yet. */
  ghost function Pending<T(!new)>(tr: Tree<T>, q: seq<char>, s: IterState<T>): Outlook
    requires Walkable(tr) && |s.trav.rest| <= |q|
  {
    var later := OutlookFrom(tr, q, |q| - |s.trav.rest|);
    if s.req then later
    else
      var here := Spans(q, s.end, Keys(tr, Chain(tr, s.node)));
      if Dangles(tr, s.node) then Outlook(here, true) else Outlook(here + later.preds, later.panics)
  }

  /** What the next call gives, for an outlook. */
  function Head(o: Outlook): Call
  {
    if o.preds != [] then Yields(o.preds[0]) else if o.panics then Panics else Done
  }

  /** The outlook after that call. */
  function Rest(o: Outlook): Outlook
  {
    if o.preds != [] then Outlook(o.preds[1..], o.panics) else o
  }

  lemma StartInv<T(!new)>(tr: Tree<T>, q: seq<char>)
    requires Walkable(tr)
    ensures IterInv(tr, q, Start(tr, q))
    ensures Pending(tr, q, Start(tr, q)) == PullOutlook(tr, q)
  {
    StartAt(tr, q);
  }

  /** Consuming a rune turns its predictions into the chain still owed. */
  lemma PendingAfterNext<T(!new)>(tr: Tree<T>, q: seq<char>, s: IterState<T>)
    requires Walkable(tr) && IterInv(tr, q, s) && s.req
    ensures var k := |q| - |s.trav.rest|;
      var (node, end, valid, t1) := Next(tr, s.trav);
      && (valid <==> k < |q|)
      && (!valid ==> Pending(tr, q, s) == Outlook([], false) && t1 == s.trav && s.trav.rest == [])
      && (valid ==>
           && IterInv(tr, q, IterState(t1, false, node, end))
           && Pending(tr, q, IterState(t1, false, node, end)) == Pending(tr, q, s))
  {
    var k := |q| - |s.trav.rest|;
    NextAt(tr, q, s.trav, k);
    var (node, end, valid, t1) := Next(tr, s.trav);
    if valid {
      PendingOfRune(tr, q, k, IterState(t1, false, node, end));
    }
  }

  /** Standing on the pivot of rune k, the closure has ahead the outlook of
      the runes from k on. */
  lemma PendingOfRune<T(!new)>(tr: Tree<T>, q: seq<char>, k: nat, s: IterState<T>)
    requires Walkable(tr) && k < |q| && !s.req && |s.trav.rest| == |q| - (k + 1)
    requires s.node == Pivot(tr, q[..k + 1]) && s.end == ByteLen(q[..k + 1])
    ensures Pending(tr, q, s) == OutlookFrom(tr, q, k)
  {
    assert RuneDangles(tr, q, k) == Dangles(tr, s.node);
    assert RuneMatches(tr, q, k) == Spans(q, s.end, Keys(tr, Chain(tr, s.node)));
  }

  /** One step along a chain: a node adds its key when it has an id, and
      dangles as its link does unless it stops the walk. */
  lemma ChainStep<T(!new)>(tr: Tree<T>, n: T)
    requires Walkable(tr) && n != tr.zero
    ensures Keys(tr, Chain(tr, n)) ==
      (if tr.id(n) > 0 then [ScanNode(tr.id(n), tr.level(n))] else []) + Keys(tr, Chain(tr, tr.fail(n)))
    ensures Dangles(tr, n) == if tr.id(n) == 0 && tr.fail(n) == tr.zero then false else Dangles(tr, tr.fail(n))
  {
    assert Chain(tr, n)[1..] == Chain(tr, tr.fail(n));
  }

  /** A node with an id is the first prediction owed. */
  lemma PendingAfterFound<T(!new)>(tr: Tree<T>, q: seq<char>, s: IterState<T>)
    requires Walkable(tr) && IterInv(tr, q, s) && !s.req && s.node != tr.zero && tr.id(s.node) > 0
    ensures IterInv(tr, q, s.(node := tr.fail(s.node)))
    ensures var o := Pending(tr, q, s.(node := tr.fail(s.node)));
      Pending(tr, q, s) == Outlook([Span(q, s.end, ScanNode(tr.id(s.node), tr.level(s.node)))] + o.preds, o.panics)
  {
    var x := s.node;
    var nxt := tr.fail(x);
    var later := OutlookFrom(tr, q, |q| - |s.trav.rest|);
    ChainStep(tr, x);
    SpansFirst(q, s.end, ScanNode(tr.id(x), tr.level(x)), Keys(tr, Chain(tr, x)), Keys(tr, Chain(tr, nxt)), later.preds);
    SpansFirst(q, s.end, ScanNode(tr.id(x), tr.level(x)), Keys(tr, Chain(tr, x)), Keys(tr, Chain(tr, nxt)), []);
  }

  /** A node without an id that does not stop the walk owes what its link
      owes. */
  lemma PendingAfterSkip<T(!new)>(tr: Tree<T>, q: seq<char>, s: IterState<T>)
    requires Walkable(tr) && IterInv(tr, q, s) && !s.req && s.node != tr.zero && tr.id(s.node) <= 0
    requires !(tr.id(s.node) == 0 && tr.fail(s.node) == tr.zero)
    ensures IterInv(tr, q, s.(node := tr.fail(s.node)))
    ensures Pending(tr, q, s) == Pending(tr, q, s.(node := tr.fail(s.node)))
  {
    ChainStep(tr, s.node);
    assert Keys(tr, Chain(tr, s.node)) == Keys(tr, Chain(tr, tr.fail(s.node)));
  }

  /** A node with id 0 whose link is zero ends the chain: what is owed is
      what the next runes owe. */
  lemma PendingAfterStop<T(!new)>(tr: Tree<T>, q: seq<char>, s: IterState<T>)
    requires Walkable(tr) && IterInv(tr, q, s) && !s.req && !(tr.nilZero && s.node == tr.zero)
    requires tr.id(s.node) == 0 && tr.fail(s.node) == tr.zero
    ensures IterInv(tr, q, s.(req := true, node := tr.fail(s.node)))
    ensures Pending(tr, q, s) == Pending(tr, q, s.(req := true, node := tr.fail(s.node)))
  {
    var later := OutlookFrom(tr, q, |q| - |s.trav.rest|);
    if s.node != tr.zero {
      ChainStep(tr, s.node);
    }
    assert Keys(tr, Chain(tr, s.node)) == [] && !Dangles(tr, s.node);
    assert [] + later.preds == later.preds;
  }

  /** Spans of a list whose head is a, followed by more. */
  lemma SpansFirst(q: seq<char>, end: int, a: ScanNode, ms: seq<ScanNode>, rest: seq<ScanNode>, more: seq<Prediction>)
    requires ms == [a] + rest
    ensures Spans(q, end, ms) + more == [Span(q, end, a)] + (Spans(q, end, rest) + more)
  {
    SpansCons(q, end, a, rest);
  }

  lemma SpansCons(q: seq<char>, end: int, a: ScanNode, rest: seq<ScanNode>)
    ensures Spans(q, end, [a] + rest) == [Span(q, end, a)] + Spans(q, end, rest)
  {
    assert ([a] + rest)[1..] == rest;
  }

  /** Each call gives the head of what is pending and leaves the rest: the
      first prediction owed, else a panic if one is owed, else nil. */
  lemma {:induction false} PullStep<T(!new)>(tr: Tree<T>, q: seq<char>, s: IterState<T>)
    requires Walkable(tr) && IterInv(tr, q, s)
    ensures IterInv(tr, q, Pull(tr, q, s).1)
    ensures Pull(tr, q, s).0 == Head(Pending(tr, q, s))
    ensures Pending(tr, q, Pull(tr, q, s).1) == Rest(Pending(tr, q, s))
    decreases |s.trav.rest|, if s.req then 0 else 1, Rank(tr, s.node)
  {
    if s.req {
      PendingAfterNext(tr, q, s);
      var (node, end, valid, t1) := Next(tr, s.trav);
      if valid {
        PullStep(tr, q, IterState(t1, false, node, end));
      } else {
        var s1 := IterState(Close(t1), true, node, end);
        assert Close(t1) == s.trav;
        assert Pending(tr, q, s1) == Pending(tr, q, s);
      }
    } else if tr.nilZero && s.node == tr.zero {
      assert Chain(tr, s.node) == [];
    } else {
      ZeroFixed(tr);
      var id := tr.id(s.node);
      var nxt := tr.fail(s.node);
      if id > 0 {
        PendingAfterFound(tr, q, s);
      } else if id == 0 && nxt == tr.zero {
        PendingAfterStop(tr, q, s);
        PullStep(tr, q, s.(req := true, node := nxt));
      } else {
        RankFalls(tr, s.node);
        PendingAfterSkip(tr, q, s);
        PullStep(tr, q, s.(node := nxt));
      }
    }
  }

  /** The results of n successive calls of the closure. */
  function Calls<T(==,!new)>(tr: Tree<T>, q: seq<char>, s: IterState<T>, n: nat): (r: seq<Call>)
    requires Walkable(tr)
    ensures |r| == n
    decreases n
  {
    if n == 0 then [] else
      var (o, s1) := Pull(tr, q, s);
      [o] + Calls(tr, q, s1, n - 1)
  }

  /** What n calls give for an outlook. */
  function Owed(o: Outlook, n: nat): (r: seq<Call>)
    ensures |r| == n
    decreases n
  {
    if n == 0 then [] else [Head(o)] + Owed(Rest(o), n - 1)
  }

  /** Call i gives the i-th prediction while there is one, and after them a
      panic on every call if the outlook panics, nil on every call if not. */
  lemma {:induction false} OwedAt(o: Outlook, n: nat, i: nat)
    requires i < n
    ensures Owed(o, n)[i] == if i < |o.preds| then Yields(o.preds[i]) else if o.panics then Panics else Done
    decreases n
  {
    if i > 0 {
      OwedAt(Rest(o), n - 1, i - 1);
    }
  }

  lemma CallsCons<T(!new)>(tr: Tree<T>, q: seq<char>, s: IterState<T>, n: nat)
    requires Walkable(tr) && n > 0
    ensures Calls(tr, q, s, n) == [Pull(tr, q, s).0] + Calls(tr, q, Pull(tr, q, s).1, n - 1)
  {
  }

  /** One call leaves s1, and if the remaining n - 1 calls of s1 give what s1
      has pending then the n calls of s give what s has pending. */
  lemma CallsStep<T(!new)>(tr: Tree<T>, q: seq<char>, s: IterState<T>, n: nat) returns (s1: IterState<T>)
    requires Walkable(tr) && IterInv(tr, q, s) && n > 0
    ensures IterInv(tr, q, s1)
    ensures Calls(tr, q, s1, n - 1) == Owed(Pending(tr, q, s1), n - 1) ==>
      Calls(tr, q, s, n) == Owed(Pending(tr, q, s), n)
  {
    s1 := Pull(tr, q, s).1;
    PullStep(tr, q, s);
    CallsCons(tr, q, s, n);
  }

  lemma {:induction false} CallsFollowPending<T(!new)>(tr: Tree<T>, q: seq<char>, s: IterState<T>, n: nat)
    requires Walkable(tr) && IterInv(tr, q, s)
    ensures Calls(tr, q, s, n) == Owed(Pending(tr, q, s), n)
    decreases n
  {
    if n > 0 {
      var s1 := CallsStep(tr, q, s, n);
      CallsFollowPending(tr, q, s1, n - 1);
    }
  }

  /** predictIter yields the predictions of the query one per call and in
      order, up to and including those of the first rune whose pivot
      dangles; after them every call panics if such a rune exists and
      returns nil if not. */
  lemma PredictIterYields<T(!new)>(tr: Tree<T>, q: seq<char>, n: nat)
    requires Walkable(tr)
    ensures Calls(tr, q, Start(tr, q), n) == Owed(PullOutlook(tr, q), n)
  {
    StartInv(tr, q);
    CallsFollowPending(tr, q, Start(tr, q), n);
  }

  /** When no rune's pivot dangles (always so when the zero node is a real
      node), predictIter yields exactly the expected predictions and then nil
      on every call. */
  lemma PredictIterYieldsExpected<T(!new)>(tr: Tree<T>, q: seq<char>, n: nat)
    requires Walkable(tr)
    requires !tr.nilZero || forall j | 0 <= j < |q| :: !RuneDangles(tr, q, j)
    ensures Calls(tr, q, Start(tr, q), n) == Owed(Outlook(Expected(tr, q), false), n)
  {
    if !tr.nilZero {
      forall j | 0 <= j < |q|
        ensures !RuneDangles(tr, q, j)
      {
        NeverDangles(tr, Pivot(tr, q[..j + 1]));
      }
    }
    if PullOutlook(tr, q).panics {
      var j := OutlookPanicPoint(tr, q, 0);
    }
    PredictIterYields(tr, q, n);
  }

  // ---------------------------------------------------------------------------
  // predict: the push sequence

  /** The loop body as a consumer (Go's yield): given everything delivered so far with
      the newest value last, answers whether the loop may go on. */
  type Consumer = seq<Prediction> -> bool

  /** Handing xs to consume one by one after pre: stop right after the first
      value consume refuses. */
  function Deliver(consume: Consumer, pre: seq<Prediction>, xs: seq<Prediction>): (r: seq<Prediction>)
    ensures pre <= r <= pre + xs
    decreases |xs|
  {
    if xs == [] then pre
    else if !consume(pre + [xs[0]]) then pre + [xs[0]]
    else
      var r := Deliver(consume, pre + [xs[0]], xs[1..]);
      assert pre + [xs[0]] + xs[1..] == pre + xs;
      r
  }

  /** Whether consume refuses one of xs when they are handed to it after pre. */
  predicate Stops(consume: Consumer, pre: seq<Prediction>, xs: seq<Prediction>)
    decreases |xs|
  {
    xs != [] && (!consume(pre + [xs[0]]) || Stops(consume, pre + [xs[0]], xs[1..]))
  }

  /** Without a refusal every value is delivered; with one, the last value
      delivered is the refused one. */
  lemma {:induction false} DeliverMeaning(consume: Consumer, pre: seq<Prediction>, xs: seq<Prediction>)
    ensures !Stops(consume, pre, xs) ==> Deliver(consume, pre, xs) == pre + xs
    ensures Stops(consume, pre, xs) ==>
      var r := Deliver(consume, pre, xs);
      |r| > |pre| && !consume(r) && forall i | |pre| < i < |r| :: consume(r[..i])
    decreases |xs|
  {
    if xs != [] {
      var p1 := pre + [xs[0]];
      DeliverMeaning(consume, p1, xs[1..]);
      assert p1 + xs[1..] == pre + xs;
      if consume(p1) && Stops(consume, p1, xs[1..]) {
        var r := Deliver(consume, pre, xs);
        assert r[..|p1|] == p1;
      }
    } else {
      assert pre + xs == pre;
    }
  }

  lemma {:induction false} DeliverAppend(consume: Consumer, pre: seq<Prediction>, a: seq<Prediction>, b: seq<Prediction>)
    ensures Stops(consume, pre, a + b) == (Stops(consume, pre, a) || Stops(consume, Deliver(consume, pre, a), b))
    ensures Deliver(consume, pre, a + b) ==
      if Stops(consume, pre, a) then Deliver(consume, pre, a) else Deliver(consume, Deliver(consume, pre, a), b)
    decreases |a|
  {
    if a == [] {
      assert a + b == b;
    } else {
      assert (a + b)[0] == a[0];
      assert (a + b)[1..] == a[1..] + b;
      DeliverAppend(consume, pre + [a[0]], a[1..], b);
    }
  }

  /** The inner loop of predict: walk the chain from node up to the zero node,
      consume each node with an id, and report whether consume refused one. */
  function PushChain<T(==,!new)>(tr: Tree<T>, q: seq<char>, end: int, node: T, consume: Consumer, out: seq<Prediction>)
    : (r: (seq<Prediction>, bool))
    requires Walkable(tr)
    ensures r.0 == Deliver(consume, out, Spans(q, end, Keys(tr, Chain(tr, node))))
    ensures r.1 == Stops(consume, out, Spans(q, end, Keys(tr, Chain(tr, node))))
    decreases Rank(tr, node)
  {
    if node == tr.zero then (out, false)
    else
      RankFalls(tr, node);
      var id := tr.id(node);
      var nxt := tr.fail(node);
      assert Chain(tr, node)[1..] == Chain(tr, nxt);
      if id > 0 then
        var p := Span(q, end, ScanNode(id, tr.level(node)));
        if !consume(out + [p]) then (out + [p], true)
        else PushChain(tr, q, end, nxt, consume, out + [p])
      else
        assert Keys(tr, Chain(tr, node)) == Keys(tr, Chain(tr, nxt));
        PushChain(tr, q, end, nxt, consume, out)
  }

  /** The outer loop of predict: consume runes until next reports invalid or
      consume refuses, in which case the traverser is closed. */
  function PushRunes<T(==,!new)>(tr: Tree<T>, q: seq<char>, t: Traverser<T>, consume: Consumer, out: seq<Prediction>)
    : (r: (seq<Prediction>, Traverser<T>))
    requires Walkable(tr)
    ensures r.1.rest == []
    decreases |t.rest|
  {
    var (node, end, valid, t1) := Next(tr, t);
    if !valid then (out, t1)
    else
      var (out1, stopped) := PushChain(tr, q, end, node, consume, out);
      if stopped then (out1, Close(t1)) else PushRunes(tr, q, t1, consume, out1)
  }

  /** Ranging over the sequence predict returned, whose closure shares the
      traverser t: the values handed to consume and the traverser afterwards. */
  function Range<T(==,!new)>(tr: Tree<T>, q: seq<char>, t: Traverser<T>, consume: Consumer): (r: (seq<Prediction>, Traverser<T>))
    requires Walkable(tr)
    ensures r.1.rest == []
  {
    PushRunes(tr, q, t, consume, [])
  }

  lemma {:induction false} PushRunesDelivers<T(!new)>(tr: Tree<T>, q: seq<char>, t: Traverser<T>, k: nat, consume: Consumer, out: seq<Prediction>)
    requires Walkable(tr) && At(tr, q, t, k)
    ensures PushRunes(tr, q, t, consume, out).0 == Deliver(consume, out, From(tr, q, k))
    decreases |q| - k
  {
    NextAt(tr, q, t, k);
    var (node, end, valid, t1) := Next(tr, t);
    if valid {
      var a := RuneMatches(tr, q, k);
      DeliverAppend(consume, out, a, From(tr, q, k + 1));
      var (out1, stopped) := PushChain(tr, q, end, node, consume, out);
      if !stopped {
        PushRunesDelivers(tr, q, t1, k + 1, consume, out1);
      }
    }
  }

  /** predict hands consume the expected predictions in order and stops right
      after the first one consume refuses. */
  lemma PredictDelivers<T(!new)>(tr: Tree<T>, q: seq<char>, consume: Consumer)
    requires Walkable(tr)
    ensures Range(tr, q, NewTraverser(tr, q), consume).0 == Deliver(consume, [], Expected(tr, q))
  {
    StartAt(tr, q);
    PushRunesDelivers(tr, q, NewTraverser(tr, q), 0, consume, []);
  }

  /** The sequence is single use: after one range over it, whether it ran to
      the end or was stopped, ranging again yields nothing. */
  lemma SingleUse<T(!new)>(tr: Tree<T>, q: seq<char>, first: Consumer, second: Consumer)
    requires Walkable(tr)
    ensures Range(tr, q, Range(tr, q, NewTraverser(tr, q), first).1, second).0 == []
  {
  }

  /** The two consumers agree up to the pull iterator's panic: the calls of
      the closure give the values the range loop hands to its body, in order,
      and nil after them, unless some rune's pivot dangles; then they give a
      prefix of those values, up to and including the first such rune's, and
      panic after it. */
  lemma PullAndPushAgree<T(!new)>(tr: Tree<T>, q: seq<char>)
    requires Walkable(tr)
    ensures var xs := Range(tr, q, NewTraverser(tr, q), _ => true).0;
      var o := PullOutlook(tr, q);
      && |o.preds| <= |xs| && o.preds == xs[..|o.preds|]
      && (!o.panics ==> o.preds == xs)
      && Calls(tr, q, Start(tr, q), |xs| + 1) == Owed(o, |xs| + 1)
  {
    var yes: Consumer := _ => true;
    PredictDelivers(tr, q, yes);
    DeliverMeaning(yes, [], Expected(tr, q));
    assert [] + Expected(tr, q) == Expected(tr, q);
    PredictIterYields(tr, q, |Expected(tr, q)| + 1);
  }
}
