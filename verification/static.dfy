/** The frozen automaton: a flat array of nodes addressed by index, the root at
    index 0, each parent's children in one contiguous label-sorted range, and
    a side table of levels indexed by edge id - 1. */
module Static {
  import opened Base

  /** SNode: rune is Go's Label, the rune as a Go int32; [Start, End) is the children
      range (Start = 0 when there are none); Fail is the failure node's index. */
  datatype SNode = SNode(rune: int, start: int, end: int, fail: int, edgeId: int)

  datatype STree = STree(nodes: seq<SNode>, levels: seq<int>)

  // ---------------------------------------------------------------------------
  // Binary search

  /** A range Go can slice: empty (a >= b) or inside the array. */
  predicate RangeOk(st: STree, a: int, b: int)
  {
    a >= b || (0 <= a && b <= |st.nodes|)
  }

  /** Labels strictly ascending on [a, b). */
  ghost predicate SortedRange(st: STree, a: int, b: int)
  {
    forall i, j | a <= i < j < b && 0 <= i && j < |st.nodes| :: st.nodes[i].rune < st.nodes[j].rune
  }

  /** The first index in [i, b) whose label is at least c, or b: what the
      binary search below computes on a sorted range. */
  function LowerBound(st: STree, i: int, b: int, c: int): (r: int)
    requires 0 <= i <= b <= |st.nodes|
    ensures i <= r <= b
    decreases b - i
  {
    if i == b || st.nodes[i].rune >= c then i else LowerBound(st, i + 1, b, c)
  }

  lemma {:induction false} LowerBoundIsBound(st: STree, i: int, b: int, c: int)
    requires 0 <= i <= b <= |st.nodes|
    ensures var r := LowerBound(st, i, b, c);
      && (forall k | i <= k < r :: st.nodes[k].rune < c)
      && (r < b ==> st.nodes[r].rune >= c)
    decreases b - i
  {
    if i < b && st.nodes[i].rune < c {
      LowerBoundIsBound(st, i + 1, b, c);
    }
  }

  /** sort.Search over the offsets [i, j) of the range starting at a, with
      f(h) = Nodes[a + h].Label >= c: Go's loop halves [i, j) at
      h = (i + j) / 2, keeping the offsets below i false and those from j on
      true. It reads only the probed labels, sorted or not. */
  function Search(st: STree, a: int, i: int, j: int, c: int): (r: int)
    requires 0 <= a && 0 <= i <= j && a + j <= |st.nodes|
    ensures i <= r <= j
    decreases j - i
  {
    if i >= j then i
    else
      var h := (i + j) / 2;
      if !(st.nodes[a + h].rune >= c) then Search(st, a, h + 1, j, c) else Search(st, a, i, h, c)
  }

  /** f is false just before offset r and true at r, the ends of the range
      [0, n) counting as false and true. */
  predicate Bracketed(st: STree, a: int, n: int, r: int, c: int)
    requires 0 <= a && 0 <= r <= n && a + n <= |st.nodes|
  {
    && (r > 0 ==> st.nodes[a + r - 1].rune < c)
    && (r < n ==> st.nodes[a + r].rune >= c)
  }

  /** Whatever the labels, Search returns a bracketed offset, provided that
      the offsets below i were false and those from j on true to begin with. */
  lemma {:induction false} SearchBrackets(st: STree, a: int, n: int, i: int, j: int, c: int)
    requires 0 <= a && 0 <= i <= j <= n && a + n <= |st.nodes|
    requires i > 0 ==> st.nodes[a + i - 1].rune < c
    requires j < n ==> st.nodes[a + j].rune >= c
    ensures Bracketed(st, a, n, Search(st, a, i, j, c), c)
    decreases j - i
  {
    if i < j {
      var h := (i + j) / 2;
      if !(st.nodes[a + h].rune >= c) {
        SearchBrackets(st, a, n, h + 1, j, c);
      } else {
        SearchBrackets(st, a, n, i, h, c);
      }
    }
  }

  /** STree.find: a plus sort.Search(b - a, f), kept when it is inside [a, b)
      and carries c; otherwise -1. An empty or inverted range searches
      nothing. */
  function Find(st: STree, a: int, b: int, c: int): (r: int)
    requires RangeOk(st, a, b)
    ensures r == -1 || (a <= r < b && st.nodes[r].rune == c)
  {
    if b - a <= 0 then -1
    else
      var x := a + Search(st, a, 0, b - a, c);
      if x >= a && x < b && st.nodes[x].rune == c then x else -1
  }

  /** On a sorted range the search lands on the lower bound of c. */
  lemma SearchIsLowerBound(st: STree, a: int, b: int, c: int)
    requires 0 <= a <= b <= |st.nodes| && SortedRange(st, a, b)
    ensures a + Search(st, a, 0, b - a, c) == LowerBound(st, a, b, c)
  {
    var x := a + Search(st, a, 0, b - a, c);
    SearchBrackets(st, a, b - a, 0, b - a, c);
    LowerBoundUnique(st, a, b, c, x);
  }

  /** On a sorted range find misses only when no index in the range carries c. */
  lemma FindComplete(st: STree, a: int, b: int, c: int)
    requires RangeOk(st, a, b) && SortedRange(st, a, b)
    ensures Find(st, a, b, c) == -1 <==> forall i | a <= i < b :: st.nodes[i].rune != c
  {
    if b - a > 0 {
      SearchIsLowerBound(st, a, b, c);
      var x := LowerBound(st, a, b, c);
      LowerBoundIsBound(st, a, b, c);
      forall i | x < i < b
        ensures st.nodes[i].rune != c
      {
        assert st.nodes[x].rune < st.nodes[i].rune;
      }
    }
  }

  /** On an unsorted range the halving still finds a label that a scan for
      the first label at least c would miss: with labels c, a, b, the search
      for b probes a, then b, and finds it at the third slot. */
  lemma UnsortedFind(st: STree)
    requires st.nodes == [SNode(0, 1, 4, 0, 0), SNode('c' as int, 0, 0, 0, 1), SNode('a' as int, 0, 0, 0, 2), SNode('b' as int, 0, 0, 0, 3)]
    ensures LowerBound(st, 1, 4, 'b' as int) == 1
    ensures Find(st, 1, 4, 'b' as int) == 3
  {
    assert Search(st, 1, 0, 3, 'b' as int) == Search(st, 1, 2, 3, 'b' as int);
    assert Search(st, 1, 2, 3, 'b' as int) == Search(st, 1, 2, 2, 'b' as int) == 2;
  }

  /** sort.Search's loop, as Go writes it, computes Search. */
  method SearchRange(st: STree, a: int, b: int, c: int) returns (x: int)
    requires 0 <= a <= b <= |st.nodes|
    ensures x == a + Search(st, a, 0, b - a, c)
    ensures a <= x <= b
    ensures x > a ==> st.nodes[x - 1].rune < c
    ensures x < b ==> st.nodes[x].rune >= c
    ensures SortedRange(st, a, b) ==> x == LowerBound(st, a, b, c)
  {
    ghost var r := Search(st, a, 0, b - a, c);
    var i, j := 0, b - a;
    while i < j
      invariant 0 <= i <= j <= b - a
      invariant Search(st, a, i, j, c) == r
    {
      var h := (i + j) / 2;
      SearchStep(st, a, i, j, c, h);
      if !(st.nodes[a + h].rune >= c) {
        i := h + 1;
      } else {
        j := h;
      }
    }
    x := a + i;
    SearchLands(st, a, b, c, x);
  }

  /** What the offset Search returns means as an index of [a, b]. */
  lemma SearchLands(st: STree, a: int, b: int, c: int, x: int)
    requires 0 <= a <= b <= |st.nodes| && x == a + Search(st, a, 0, b - a, c)
    ensures a <= x <= b
    ensures x > a ==> st.nodes[x - 1].rune < c
    ensures x < b ==> st.nodes[x].rune >= c
    ensures SortedRange(st, a, b) ==> x == LowerBound(st, a, b, c)
  {
    SearchBrackets(st, a, b - a, 0, b - a, c);
    if SortedRange(st, a, b) {
      SearchIsLowerBound(st, a, b, c);
    }
  }

  /** One halving step of Search: the probe h = (i + j) / 2 keeps the upper
      or the lower half. */
  lemma SearchStep(st: STree, a: int, i: int, j: int, c: int, h: int)
    requires 0 <= a && 0 <= i < j && a + j <= |st.nodes| && h == (i + j) / 2
    ensures i <= h < j
    ensures Search(st, a, i, j, c) == if !(st.nodes[a + h].rune >= c) then Search(st, a, h + 1, j, c) else Search(st, a, i, h, c)
  {
  }

  /** On a sorted range the lower bound is the only index with a smaller label
      just before it and a label at least c at it. */
  lemma {:induction false} LowerBoundUnique(st: STree, a: int, b: int, c: int, x: int)
    requires 0 <= a <= x <= b <= |st.nodes|
    requires SortedRange(st, a, b)
    requires x > a ==> st.nodes[x - 1].rune < c
    requires x < b ==> st.nodes[x].rune >= c
    ensures x == LowerBound(st, a, b, c)
    decreases b - a
  {
    if a < b && st.nodes[a].rune < c {
      LowerBoundUnique(st, a + 1, b, c, x);
    }
  }

  /** STree.find as written: the binary search, then the equality check. On
      any range it finds only c; on a sorted one it misses only when no index
      carries c. */
  method FindIndex(st: STree, a: int, b: int, c: int) returns (r: int)
    requires RangeOk(st, a, b)
    ensures r == Find(st, a, b, c)
    ensures r == -1 || (a <= r < b && st.nodes[r].rune == c)
    ensures SortedRange(st, a, b) ==> (r == -1 <==> forall i | a <= i < b :: st.nodes[i].rune != c)
  {
    if SortedRange(st, a, b) {
      FindComplete(st, a, b, c);
    }
    if b - a <= 0 {
      return -1;
    }
    var x := SearchRange(st, a, b, c);
    if x >= a && x < b && st.nodes[x].rune == c {
      r := x;
    } else {
      r := -1;
    }
  }

  // ---------------------------------------------------------------------------
  // Shape of a usable array

  /** Every node's children range can be searched. */
  ghost predicate Ranges(st: STree)
  {
    && |st.nodes| > 0
    && forall x | 0 <= x < |st.nodes| :: RangeOk(st, st.nodes[x].start, st.nodes[x].end)
  }

  /** d ranks the failure links: every non-root node fails to an index of smaller rank. */
  ghost predicate Ranks(st: STree, d: seq<nat>)
  {
    && |d| == |st.nodes|
    && forall i | 0 < i < |st.nodes| :: 0 <= st.nodes[i].fail < |st.nodes| && d[st.nodes[i].fail] < d[i]
  }

  /** Following Fail from any non-root node reaches the root: the loops of
      nextNode and ScanContext end. */
  ghost predicate Acyclic(st: STree)
  {
    Ranges(st) && exists d :: Ranks(st, d)
  }

  ghost function Rank(st: STree, x: int): nat
    requires Acyclic(st) && 0 <= x < |st.nodes|
  {
    var d :| Ranks(st, d); d[x]
  }

  lemma RankFalls(st: STree, x: int)
    requires Acyclic(st) && 0 < x < |st.nodes|
    ensures 0 <= st.nodes[x].fail < |st.nodes|
    ensures Rank(st, st.nodes[x].fail) < Rank(st, x)
  {
  }

  // ---------------------------------------------------------------------------
  // Goto, scanning and longest prefix over indices

  /** STree.nextNode: the child of x labelled c if there is one; 0 when x is
      the root; otherwise retry from x's Fail. */
  function NextNode(st: STree, x: int, c: int): (r: int)
    requires Acyclic(st) && 0 <= x < |st.nodes|
    ensures 0 <= r < |st.nodes|
    ensures r == 0 || st.nodes[r].rune == c
    decreases Rank(st, x)
  {
    var n := st.nodes[x];
    var next := Find(st, n.start, n.end, c);
    if next >= 0 then next
    else if x == 0 then 0
    else
      RankFalls(st, x);
      NextNode(st, n.fail, c)
  }

  /** The level ScanContext reports for an edge id: Levels[id-1], or -1 when
      the id is outside the table. */
  function LevelOf(st: STree, edge: int): int
    requires edge > 0
  {
    if edge - 1 < |st.levels| then st.levels[edge - 1] else -1
  }

  /** The (id, level) of each node with an edge id on the Fail chain from n,
      while n > 0: the root is never inspected. */
  function ChainNodes(st: STree, n: int): (r: seq<ScanNode>)
    requires Acyclic(st) && 0 <= n < |st.nodes|
    ensures forall x | x in r :: x.id > 0
    decreases Rank(st, n)
  {
    if n <= 0 then []
    else
      var edge := st.nodes[n].edgeId;
      RankFalls(st, n);
      (if edge > 0 then [ScanNode(edge, LevelOf(st, edge))] else []) + ChainNodes(st, st.nodes[n].fail)
  }

  /** The index the scan stands on after reading s. */
  function Run(st: STree, s: seq<char>): (r: int)
    requires Acyclic(st)
    ensures 0 <= r < |st.nodes|
    decreases |s|
  {
    if s == [] then 0 else NextNode(st, Run(st, s[..|s| - 1]), s[|s| - 1] as int)
  }

  /** The event reported for the rune at position j of s. */
  function EventAt(st: STree, s: seq<char>, j: nat): ScanEvent
    requires Acyclic(st) && j < |s|
  {
    ScanEvent(ByteLen(s[..j]), s[j], ChainNodes(st, Run(st, s[..j + 1])))
  }

  /** The inner loop of ScanContext over indices. */
  method CollectChain(st: STree, n: int) returns (nodes: seq<ScanNode>)
    requires Acyclic(st) && 0 <= n < |st.nodes|
    ensures nodes == ChainNodes(st, n)
  {
    nodes := [];
    var x := n;
    while x > 0
      invariant 0 <= x < |st.nodes|
      invariant nodes + ChainNodes(st, x) == ChainNodes(st, n)
      decreases Rank(st, x)
    {
      var edge := st.nodes[x].edgeId;
      RankFalls(st, x);
      var f := st.nodes[x].fail;
      assert ChainNodes(st, x) == (if edge > 0 then [ScanNode(edge, LevelOf(st, edge))] else []) + ChainNodes(st, f);
      if edge > 0 {
        var lv := -1;
        if edge - 1 < |st.levels| {
          lv := st.levels[edge - 1];
        }
        assert nodes + ChainNodes(st, x) == (nodes + [ScanNode(edge, lv)]) + ChainNodes(st, f);
        nodes := nodes + [ScanNode(edge, lv)];
      }
      x := f;
    }
  }

  /** One step of the scan: from the index and offset after s[..i], the next
      index is the one after s[..i + 1] and the event is the one for rune i. */
  lemma EventStep(st: STree, s: seq<char>, events: seq<ScanEvent>, i: nat, curr: int, off: int, nodes: seq<ScanNode>)
    requires Acyclic(st) && i < |s|
    requires curr == Run(st, s[..i]) && off == ByteLen(s[..i])
    requires nodes == ChainNodes(st, NextNode(st, curr, s[i] as int))
    requires |events| == i && forall j | 0 <= j < i :: events[j] == EventAt(st, s, j)
    ensures NextNode(st, curr, s[i] as int) == Run(st, s[..i + 1])
    ensures forall j | 0 <= j < i + 1 :: (events + [ScanEvent(off, s[i], nodes)])[j] == EventAt(st, s, j)
  {
    assert s[..i + 1][..i] == s[..i];
  }

  /** STree.ScanContext: one event per rune with its byte index; a cancelled
      context ends the scan with an error after the event it interrupts. */
  method Scan(st: STree, s: seq<char>, cancelAt: Option<nat>) returns (events: seq<ScanEvent>, err: bool)
    requires Acyclic(st)
    ensures err <==> cancelAt.Some? && 1 <= |s| && cancelAt.value <= |s|
    ensures |events| == if err then (if cancelAt.value == 0 then 1 else cancelAt.value) else |s|
    ensures forall j | 0 <= j < |events| :: events[j] == EventAt(st, s, j)
  {
    events := [];
    err := false;
    var curr := 0;
    var off := 0;
    var i := 0;
    while i < |s|
      invariant 0 <= i <= |s|
      invariant |events| == i
      invariant curr == Run(st, s[..i])
      invariant off == ByteLen(s[..i])
      invariant forall j | 0 <= j < i :: events[j] == EventAt(st, s, j)
      invariant i == 0 || !Cancelled(cancelAt, i)
    {
      var next := NextNode(st, curr, s[i] as int);
      var nodes := CollectChain(st, next);
      EventStep(st, s, events, i, curr, off, nodes);
      events := events + [ScanEvent(off, s[i], nodes)];
      ByteLenSnoc(s, i);
      off := off + RuneLen(s[i]);
      if Cancelled(cancelAt, i + 1) {
        err := true;
        return;
      }
      curr := next;
      i := i + 1;
    }
  }

  /** The index reached from x by exact child lookup along p, if any. */
  function WalkFrom(st: STree, x: int, p: seq<char>): (r: Option<int>)
    requires Ranges(st) && 0 <= x < |st.nodes|
    ensures r.Some? ==> 0 <= r.value < |st.nodes|
    decreases |p|
  {
    if p == [] then Some(x)
    else
      var j := Find(st, st.nodes[x].start, st.nodes[x].end, p[0] as int);
      if j < 0 then None else WalkFrom(st, j, p[1..])
  }

  function Walk(st: STree, p: seq<char>): (r: Option<int>)
    requires Ranges(st)
    ensures r.Some? ==> 0 <= r.value < |st.nodes|
  {
    WalkFrom(st, 0, p)
  }

  /** Edge id of the node p spells, 0 when p is not in the array. */
  function IdOf(st: STree, p: seq<char>): int
    requires Ranges(st)
  {
    match Walk(st, p)
    case None => 0
    case Some(i) => st.nodes[i].edgeId
  }

  lemma {:induction false} WalkFromSnoc(st: STree, x: int, p: seq<char>, c: char)
    requires Ranges(st) && 0 <= x < |st.nodes|
    ensures WalkFrom(st, x, p + [c]) ==
      (match WalkFrom(st, x, p)
       case None => None
       case Some(i) =>
         var j := Find(st, st.nodes[i].start, st.nodes[i].end, c as int);
         if j < 0 then None else Some(j))
    decreases |p|
  {
    if p == [] {
      assert p + [c] == [c];
      assert [c][1..] == [];
    } else {
      assert (p + [c])[0] == p[0];
      assert (p + [c])[1..] == p[1..] + [c];
      var j := Find(st, st.nodes[x].start, st.nodes[x].end, p[0] as int);
      if j >= 0 {
        WalkFromSnoc(st, j, p[1..], c);
      }
    }
  }

  /** Once the walk falls off the array, no longer prefix is in it either. */
  lemma WalkPrefix(st: STree, p: seq<char>, q: seq<char>)
    requires Ranges(st)
    requires q <= p && Walk(st, p).Some?
    ensures Walk(st, q).Some?
  {
    WalkFromPrefix(st, 0, p, q);
  }

  lemma {:induction false} WalkFromPrefix(st: STree, x: int, p: seq<char>, q: seq<char>)
    requires Ranges(st) && 0 <= x < |st.nodes|
    requires q <= p && WalkFrom(st, x, p).Some?
    ensures WalkFrom(st, x, q).Some?
    decreases |p|
  {
    if q != [] {
      var j := Find(st, st.nodes[x].start, st.nodes[x].end, p[0] as int);
      assert q[0] == p[0] && q[1..] <= p[1..];
      WalkFromPrefix(st, j, p[1..], q[1..]);
    }
  }

  /** prefix is the longest non-empty prefix of s whose walk ends on a slot
      with an edge id, id that id; or ("", 0) when there is none. */
  ghost predicate LongestSlotPrefix(st: STree, s: seq<char>, prefix: seq<char>, id: int)
    requires Ranges(st)
  {
    && (id == 0 ==> prefix == [] && forall k | 1 <= k <= |s| :: IdOf(st, s[..k]) <= 0)
    && (id != 0 ==>
          && 1 <= |prefix| <= |s| && prefix == s[..|prefix|]
          && id == IdOf(st, prefix) > 0
          && forall k | |prefix| < k <= |s| :: IdOf(st, s[..k]) <= 0)
  }

  /** One step of the walk along s: the child lookup of rune i from the node
      s[..i] spells gives the node s[..i + 1] spells. */
  lemma WalkStep(st: STree, s: seq<char>, i: nat, curr: int)
    requires Ranges(st) && i < |s| && Walk(st, s[..i]) == Some(curr)
    ensures var next := Find(st, st.nodes[curr].start, st.nodes[curr].end, s[i] as int);
      && Walk(st, s[..i + 1]) == (if next < 0 then None else Some(next))
      && (next >= 0 ==> IdOf(st, s[..i + 1]) == st.nodes[next].edgeId)
  {
    WalkFromSnoc(st, 0, s[..i], s[i]);
    assert s[..i] + [s[i]] == s[..i + 1];
  }

  /** Once the walk leaves the array no longer prefix has an id. */
  lemma DeadEnd(st: STree, s: seq<char>, i: nat)
    requires Ranges(st) && i < |s| && Walk(st, s[..i + 1]).None?
    ensures forall k | i < k <= |s| :: IdOf(st, s[..k]) <= 0
  {
    forall k | i < k <= |s|
      ensures IdOf(st, s[..k]) <= 0
    {
      if Walk(st, s[..k]).Some? {
        WalkPrefix(st, s[..k], s[..i + 1]);
      }
    }
  }

  /** STree.LongestPrefix: the same contract as the dynamic tree's, with the
      array walk in place of child lookup. */
  method LongestPrefix(st: STree, s: seq<char>) returns (prefix: seq<char>, id: int)
    requires Ranges(st)
    ensures LongestSlotPrefix(st, s, prefix, id)
  {
    prefix := [];
    id := 0;
    var last := -1;
    var curr := 0;
    var i := 0;
    while i < |s|
      invariant 0 <= i <= |s|
      invariant Walk(st, s[..i]) == Some(curr)
      invariant last < 0 <==> id == 0
      invariant id == 0 ==> prefix == [] && forall k | 1 <= k <= i :: IdOf(st, s[..k]) <= 0
      invariant id != 0 ==>
        && 1 <= |prefix| <= i && prefix == s[..|prefix|]
        && id == IdOf(st, prefix) > 0
        && forall k | |prefix| < k <= i :: IdOf(st, s[..k]) <= 0
    {
      var n := st.nodes[curr];
      var next := Find(st, n.start, n.end, s[i] as int);
      WalkStep(st, s, i, curr);
      if next < 0 {
        DeadEnd(st, s, i);
        break;
      }
      if st.nodes[next].edgeId > 0 {
        last := next;
        prefix := s[..i + 1];
        id := st.nodes[next].edgeId;
      }
      curr := next;
      i := i + 1;
    }
  }

  // ---------------------------------------------------------------------------
  // fillFailure as written

  /** The shape Freeze lays out, with dep the depth of each slot: the root at
      depth 0 and every other slot deeper; every children range [0, 0) or
      after its parent inside the array, holding slots one level deeper than
      the parent and no label twice. */
  ghost predicate Laid(st: STree, dep: seq<nat>)
  {
    && Ranges(st) && |dep| == |st.nodes| && dep[0] == 0
    && (forall i | 0 < i < |st.nodes| :: dep[i] > 0)
    && (forall x | 0 <= x < |st.nodes| ::
          || (st.nodes[x].start == 0 && st.nodes[x].end == 0)
          || (x < st.nodes[x].start <= st.nodes[x].end <= |st.nodes|))
    && (forall x, i {:trigger st.nodes[x], dep[i]}
          | 0 <= x < |st.nodes| && 0 <= i < |st.nodes| && st.nodes[x].start <= i < st.nodes[x].end ::
          dep[i] == dep[x] + 1)
    && (forall x, i, j | 0 <= x < |st.nodes| && st.nodes[x].start <= i < j < st.nodes[x].end && 0 <= i && j < |st.nodes| ::
          st.nodes[i].rune != st.nodes[j].rune)
  }

  /** What holds between two steps of the fill: the layout, links that lead
      to shallower slots, and the root's link 0. */
  ghost predicate Filling(st: STree, dep: seq<nat>)
  {
    Laid(st, dep) && Ranks(st, dep) && st.nodes[0].fail == 0
  }

  /** b is a with some Fail fields changed and nothing else. */
  ghost predicate Refilled(a: STree, b: STree)
  {
    && |b.nodes| == |a.nodes| && b.levels == a.levels
    && forall i | 0 <= i < |a.nodes| :: b.nodes[i] == a.nodes[i].(fail := b.nodes[i].fail)
  }

  /** st with the Fail of slot i set to g. */
  function Relinked(st: STree, i: int, g: int): (r: STree)
    requires 0 <= i < |st.nodes|
    ensures Refilled(st, r) && r.nodes[i].fail == g
    ensures forall j | 0 <= j < |st.nodes| && j != i :: r.nodes[j] == st.nodes[j]
  {
    st.(nodes := st.nodes[i := st.nodes[i].(fail := g)])
  }

  lemma RefilledTrans(a: STree, b: STree, c: STree)
    requires Refilled(a, b) && Refilled(b, c)
    ensures Refilled(a, c)
  {
  }

  lemma FillingAcyclic(st: STree, dep: seq<nat>)
    requires Filling(st, dep)
    ensures Acyclic(st)
  {
  }

  /** nextNode on a partly filled array climbs at most one level above the
      slot it starts from. */
  lemma {:induction false} NextNodeDepth(st: STree, dep: seq<nat>, y: int, c: int)
    requires Filling(st, dep) && 0 <= y < |st.nodes|
    ensures Acyclic(st)
    ensures var r := NextNode(st, y, c); r == 0 || dep[r] <= dep[y] + 1
    decreases dep[y]
  {
    FillingAcyclic(st, dep);
    var n := st.nodes[y];
    var next := Find(st, n.start, n.end, c);
    if next < 0 && y != 0 {
      NextNodeDepth(st, dep, n.fail, c);
    }
  }

  /** One iteration of fillFailure's loop over the children of x: child i
      gets nextNode(Fail of x, label of i), or 0 when that is i itself. The
      link leads to a shallower slot, so the fill can go on. */
  lemma FillStep(st: STree, dep: seq<nat>, x: int, i: int)
    requires Filling(st, dep) && 0 <= x < |st.nodes| && 0 < st.nodes[x].start <= i < st.nodes[x].end
    ensures Acyclic(st) && 0 < i < |st.nodes|
    ensures var f := NextNode(st, st.nodes[x].fail, st.nodes[i].rune);
      && Filling(Relinked(st, i, if f == i then 0 else f), dep)
      && (x == 0 ==> (if f == i then 0 else f) == 0)
  {
    FillingAcyclic(st, dep);
    var f := NextNode(st, st.nodes[x].fail, st.nodes[i].rune);
    var g := if f == i then 0 else f;
    if x == 0 {
      var n := st.nodes[0];
      var j := Find(st, n.start, n.end, st.nodes[i].rune);
      assert j >= 0 ==> j == i;
      assert g == 0;
    } else {
      NextNodeDepth(st, dep, st.nodes[x].fail, st.nodes[i].rune);
    }
    assert dep[g] < dep[i];
    Relink(st, dep, i, g);
  }

  /** Giving slot i a link to a shallower slot keeps the links ranked and
      changes nothing else. */
  lemma Relink(st: STree, dep: seq<nat>, i: int, g: int)
    requires Filling(st, dep) && 0 < i < |st.nodes| && 0 <= g < |st.nodes| && dep[g] < dep[i]
    ensures Filling(Relinked(st, i, g), dep)
  {
    var st1 := Relinked(st, i, g);
    LaidKept(st, st1, dep);
    assert Ranks(st1, dep);
  }

  /** Changing Fail fields keeps the layout. */
  lemma LaidKept(a: STree, b: STree, dep: seq<nat>)
    requires Laid(a, dep) && Refilled(a, b)
    ensures Laid(b, dep)
  {
    assert forall x | 0 <= x < |a.nodes| ::
      b.nodes[x].start == a.nodes[x].start && b.nodes[x].end == a.nodes[x].end && b.nodes[x].rune == a.nodes[x].rune;
  }

  /** STree.fillFailure(x) as written: nothing for a node without children;
      otherwise its children in index order, each getting its link before
      the whole subtree below it is filled and before the next child is
      reached. nextNode reads the array as filled so far, so a link that
      leads into a subtree not yet visited is read while it is still 0. */
  function FillFrom(st: STree, ghost dep: seq<nat>, x: int): (r: STree)
    requires Filling(st, dep) && 0 <= x < |st.nodes|
    ensures Filling(r, dep) && Refilled(st, r)
    decreases |st.nodes| - x, 1, 0
  {
    if st.nodes[x].start == 0 then st
    else FillChildren(st, dep, x, st.nodes[x].start)
  }

  /** The loop of fillFailure(x) from child i on. */
  function FillChildren(st: STree, ghost dep: seq<nat>, x: int, i: int): (r: STree)
    requires Filling(st, dep) && 0 <= x < |st.nodes| && 0 < st.nodes[x].start <= i
    ensures Filling(r, dep) && Refilled(st, r)
    decreases |st.nodes| - x, 0, st.nodes[x].end - i
  {
    if i >= st.nodes[x].end then st
    else
      FillStep(st, dep, x, i);
      var f := NextNode(st, st.nodes[x].fail, st.nodes[i].rune);
      var st1 := Relinked(st, i, if f == i then 0 else f);
      var st2 := FillFrom(st1, dep, i);
      RefilledTrans(st, st1, st2);
      var r := FillChildren(st2, dep, x, i + 1);
      RefilledTrans(st, st2, r);
      r
  }

  /** The filled array is usable: every link leads to a shallower slot, so
      every chain reaches the root, and no slot fails to itself. */
  lemma FillFromAcyclic(st: STree, dep: seq<nat>)
    requires Filling(st, dep)
    ensures Acyclic(FillFrom(st, dep, 0))
    ensures forall x | 0 < x < |st.nodes| :: FillFrom(st, dep, 0).nodes[x].fail != x
  {
    var r := FillFrom(st, dep, 0);
    FillingAcyclic(r, dep);
  }

  // ---------------------------------------------------------------------------
  // An array the depth-first fill links wrongly

  /** The array Freeze lays out for the keys "abcd" (id 1), "bc" (id 2) and
      "cd" (id 3), every Fail still 0: slots 0 root, 1 a, 2 b, 3 c, 4 ab,
      5 abc, 6 abcd, 7 bc, 8 cd. */
  function ExampleArray(): STree
  {
    ExampleLinked(0, 0, 0)
  }

  /** ExampleArray with the links of ab, abc and bc set to f4, f5 and f7. */
  function ExampleLinked(f4: int, f5: int, f7: int): STree
  {
    STree([SNode(0, 1, 4, 0, 0),
           SNode('a' as int, 4, 5, 0, 0), SNode('b' as int, 7, 8, 0, 0), SNode('c' as int, 8, 9, 0, 0),
           SNode('b' as int, 5, 6, f4, 0), SNode('c' as int, 6, 7, f5, 0), SNode('d' as int, 0, 0, 0, 1),
           SNode('c' as int, 0, 0, f7, 2), SNode('d' as int, 0, 0, 0, 3)],
          [4, 2, 2])
  }

  /** The depth of each slot of ExampleArray. */
  function ExampleDepths(): seq<nat>
  {
    [0, 1, 1, 1, 2, 3, 4, 2, 2]
  }

  lemma ExampleLaid()
    ensures Filling(ExampleArray(), ExampleDepths())
  {
    ExampleShape();
    ExampleLevels();
    ExampleLabels();
  }

  lemma ExampleShape()
    ensures var st := ExampleArray(); var dep := ExampleDepths();
      && (forall i | 0 < i < |st.nodes| :: dep[i] > 0 && st.nodes[i].fail == 0 && dep[st.nodes[i].fail] < dep[i])
      && forall x | 0 <= x < |st.nodes| ::
           && RangeOk(st, st.nodes[x].start, st.nodes[x].end)
           && (|| (st.nodes[x].start == 0 && st.nodes[x].end == 0)
               || (x < st.nodes[x].start <= st.nodes[x].end <= |st.nodes|))
  {
    var st := ExampleArray();
    var dep := ExampleDepths();
    forall i | 0 < i < |st.nodes|
      ensures dep[i] > 0 && st.nodes[i].fail == 0 && dep[st.nodes[i].fail] < dep[i]
    {
      assert i in {1, 2, 3, 4, 5, 6, 7, 8};
    }
    forall x | 0 <= x < |st.nodes|
      ensures RangeOk(st, st.nodes[x].start, st.nodes[x].end)
      ensures || (st.nodes[x].start == 0 && st.nodes[x].end == 0)
              || (x < st.nodes[x].start <= st.nodes[x].end <= |st.nodes|)
    {
      assert x in {0, 1, 2, 3, 4, 5, 6, 7, 8};
    }
  }

  lemma ExampleLevels()
    ensures var st := ExampleArray(); var dep := ExampleDepths();
      forall x, i | 0 <= x < |st.nodes| && 0 <= i < |st.nodes| && st.nodes[x].start <= i < st.nodes[x].end ::
        dep[i] == dep[x] + 1
  {
    var st := ExampleArray();
    var dep := ExampleDepths();
    forall x, i | 0 <= x < |st.nodes| && 0 <= i < |st.nodes| && st.nodes[x].start <= i < st.nodes[x].end
      ensures dep[i] == dep[x] + 1
    {
      assert x in {0, 1, 2, 3, 4, 5, 6, 7, 8};
    }
  }

  lemma ExampleLabels()
    ensures var st := ExampleArray();
      forall x, i, j | 0 <= x < |st.nodes| && st.nodes[x].start <= i < j < st.nodes[x].end && 0 <= i && j < |st.nodes| ::
        st.nodes[i].rune != st.nodes[j].rune
  {
    var st := ExampleArray();
    forall x, i, j | 0 <= x < |st.nodes| && st.nodes[x].start <= i < j < st.nodes[x].end && 0 <= i && j < |st.nodes|
      ensures st.nodes[i].rune != st.nodes[j].rune
    {
      assert x in {0, 1, 2, 3, 4, 5, 6, 7, 8};
    }
  }

  /** Whichever of the links the fill sets along the way are in place, the
      array is partly filled and the fill may go on from it. */
  lemma ExampleFilling(f4: int, f5: int, f7: int)
    requires f4 == 0 || f4 == 2
    requires f5 == 0 || f5 == 7
    requires f7 == 0 || f7 == 3
    ensures Filling(ExampleLinked(f4, f5, f7), ExampleDepths())
    ensures Acyclic(ExampleLinked(f4, f5, f7))
  {
    var st := ExampleLinked(f4, f5, f7);
    var dep := ExampleDepths();
    ExampleLaid();
    ExampleRefilled(f4, f5, f7);
    LaidKept(ExampleArray(), st, dep);
    ExampleRanks(f4, f5, f7);
    FillingAcyclic(st, dep);
  }

  lemma ExampleRefilled(f4: int, f5: int, f7: int)
    ensures Refilled(ExampleArray(), ExampleLinked(f4, f5, f7))
  {
    var st := ExampleLinked(f4, f5, f7);
    forall i | 0 <= i < |st.nodes|
      ensures st.nodes[i] == ExampleArray().nodes[i].(fail := st.nodes[i].fail)
    {
      assert i in {0, 1, 2, 3, 4, 5, 6, 7, 8};
    }
  }

  lemma ExampleRanks(f4: int, f5: int, f7: int)
    requires f4 == 0 || f4 == 2
    requires f5 == 0 || f5 == 7
    requires f7 == 0 || f7 == 3
    ensures Ranks(ExampleLinked(f4, f5, f7), ExampleDepths())
  {
    var st := ExampleLinked(f4, f5, f7);
    var dep := ExampleDepths();
    forall i | 0 < i < |st.nodes|
      ensures 0 <= st.nodes[i].fail < |st.nodes| && dep[st.nodes[i].fail] < dep[i]
    {
      assert i in {1, 2, 3, 4, 5, 6, 7, 8};
    }
  }

  /** Setting a link to the value it has changes nothing. */
  lemma RelinkSame(st: STree, i: int)
    requires 0 <= i < |st.nodes|
    ensures Relinked(st, i, st.nodes[i].fail) == st
  {
    assert Relinked(st, i, st.nodes[i].fail).nodes == st.nodes;
  }

  /** find on a range of one slot looks at that slot alone. */
  lemma FindOne(st: STree, a: int, c: int)
    requires RangeOk(st, a, a + 1)
    ensures Find(st, a, a + 1, c) == if st.nodes[a].rune == c then a else -1
  {
    assert Search(st, a, 0, 1, c) == if st.nodes[a].rune >= c then 0 else 1;
  }

  /** nextNode, one step: the child labelled c if x has one, else the root
      for the root, else the goto from the link of x. */
  lemma NextNodeStep(st: STree, x: int, c: int)
    requires Acyclic(st) && 0 <= x < |st.nodes|
    ensures x != 0 ==> 0 <= st.nodes[x].fail < |st.nodes|
    ensures var n := st.nodes[x]; var next := Find(st, n.start, n.end, c);
      NextNode(st, x, c) == if next >= 0 then next else if x == 0 then 0 else NextNode(st, n.fail, c)
  {
    if x != 0 {
      RankFalls(st, x);
    }
  }

  /** A node without children is left as it is. */
  lemma FillLeaf(st: STree, dep: seq<nat>, x: int)
    requires Filling(st, dep) && 0 <= x < |st.nodes| && st.nodes[x].start == 0
    ensures FillFrom(st, dep, x) == st
  {
  }

  /** One turn of the loop over the children of x: link child i, fill below
      it, go on with the next child. */
  lemma FillChildrenStep(st: STree, dep: seq<nat>, x: int, i: int)
    requires Filling(st, dep) && 0 <= x < |st.nodes| && 0 < st.nodes[x].start <= i < st.nodes[x].end
    ensures Acyclic(st) && 0 < i < |st.nodes|
    ensures var f := NextNode(st, st.nodes[x].fail, st.nodes[i].rune);
      var st1 := Relinked(st, i, if f == i then 0 else f);
      && Filling(st1, dep)
      && FillChildren(st, dep, x, i) == FillChildren(FillFrom(st1, dep, i), dep, x, i + 1)
  {
    FillStep(st, dep, x, i);
  }

  /** find on the root's range of ExampleArray, whatever the links. */
  lemma ExampleRootFinds(f4: int, f5: int, f7: int)
    ensures var st := ExampleLinked(f4, f5, f7);
      && RangeOk(st, 1, 4)
      && Find(st, 1, 4, 'a' as int) == 1 && Find(st, 1, 4, 'b' as int) == 2
      && Find(st, 1, 4, 'c' as int) == 3 && Find(st, 1, 4, 'd' as int) == -1
  {
    var st := ExampleLinked(f4, f5, f7);
    assert Search(st, 1, 0, 3, 'a' as int) == 0 by {
      assert Search(st, 1, 0, 1, 'a' as int) == 0;
    }
    assert Search(st, 1, 0, 3, 'b' as int) == 1 by {
      assert Search(st, 1, 0, 1, 'b' as int) == 1;
    }
    assert Search(st, 1, 0, 3, 'c' as int) == 2 by {
      assert Search(st, 1, 2, 3, 'c' as int) == 2;
    }
    assert Search(st, 1, 0, 3, 'd' as int) == 3 by {
      assert Search(st, 1, 2, 3, 'd' as int) == 3;
    }
  }

  /** The goto steps from the root. */
  lemma ExampleRootGotos(f4: int, f5: int, f7: int)
    requires Acyclic(ExampleLinked(f4, f5, f7))
    ensures var st := ExampleLinked(f4, f5, f7);
      && NextNode(st, 0, 'a' as int) == 1 && NextNode(st, 0, 'b' as int) == 2
      && NextNode(st, 0, 'c' as int) == 3 && NextNode(st, 0, 'd' as int) == 0
  {
    var st := ExampleLinked(f4, f5, f7);
    ExampleRootFinds(f4, f5, f7);
    NextNodeStep(st, 0, 'a' as int);
    NextNodeStep(st, 0, 'b' as int);
    NextNodeStep(st, 0, 'c' as int);
    NextNodeStep(st, 0, 'd' as int);
  }

  /** From b by c to bc. */
  lemma ExampleGotoBC(f4: int, f5: int, f7: int)
    requires Acyclic(ExampleLinked(f4, f5, f7))
    ensures NextNode(ExampleLinked(f4, f5, f7), 2, 'c' as int) == 7
  {
    var st := ExampleLinked(f4, f5, f7);
    FindOne(st, 7, 'c' as int);
    NextNodeStep(st, 2, 'c' as int);
  }

  /** From bc by d: bc has no children, so while its link is still 0 the
      goto falls back to the root, which has no d. */
  lemma ExampleGotoBCD(f4: int, f5: int)
    requires Acyclic(ExampleLinked(f4, f5, 0))
    ensures NextNode(ExampleLinked(f4, f5, 0), 7, 'd' as int) == 0
  {
    var st := ExampleLinked(f4, f5, 0);
    NextNodeStep(st, 7, 'd' as int);
    ExampleRootGotos(f4, f5, 0);
  }

  /** fillFailure(x) for a node with children runs the loop from the first. */
  lemma FillFromChildren(st: STree, dep: seq<nat>, x: int)
    requires Filling(st, dep) && 0 <= x < |st.nodes| && st.nodes[x].start != 0
    ensures FillFrom(st, dep, x) == FillChildren(st, dep, x, st.nodes[x].start)
  {
  }

  /** The loop ends past the last child. */
  lemma FillChildrenEnd(st: STree, dep: seq<nat>, x: int, i: int)
    requires Filling(st, dep) && 0 <= x < |st.nodes| && 0 < st.nodes[x].start <= i
    requires i >= st.nodes[x].end
    ensures FillChildren(st, dep, x, i) == st
  {
  }

  /** fillFailure(x) for a node with one child i labelled c, x linking to
      y: i gets the goto from y by c (0 if that is i itself), then the fill
      goes on below i. */
  lemma FillOnlyChild(st: STree, st1: STree, r: STree, dep: seq<nat>, x: int, y: int, i: int, c: int, g: int)
    requires Filling(st, dep) && Acyclic(st) && 0 <= x < |st.nodes| && 0 < i < |st.nodes| && 0 <= y < |st.nodes|
    requires st.nodes[x].start == i && st.nodes[x].end == i + 1 && st.nodes[x].fail == y && st.nodes[i].rune == c
    requires g == (var f := NextNode(st, y, c); if f == i then 0 else f)
    requires Relinked(st, i, g) == st1 && Filling(st1, dep)
    requires FillFrom(st1, dep, i) == r
    ensures FillFrom(st, dep, x) == r
  {
    assert Filling(r, dep) && Refilled(st1, r);
    assert r.nodes[x].start == i && r.nodes[x].end == i + 1 by {
      assert st1.nodes[x] == st.nodes[x].(fail := st1.nodes[x].fail);
      assert r.nodes[x] == st1.nodes[x].(fail := r.nodes[x].fail);
    }
    FillChildrenEnd(r, dep, x, i + 1);
    FillFromChildren(st, dep, x);
    FillChildrenStep(st, dep, x, i);
  }

  /** Filling below abc once abc links to bc: abcd gets the goto from bc by
      d, which is the root while bc's own link is still 0. */
  lemma ExampleFillABC(f4: int)
    requires f4 == 0 || f4 == 2
    ensures Filling(ExampleLinked(f4, 7, 0), ExampleDepths())
    ensures FillFrom(ExampleLinked(f4, 7, 0), ExampleDepths(), 5) == ExampleLinked(f4, 7, 0)
  {
    var st := ExampleLinked(f4, 7, 0);
    var dep := ExampleDepths();
    ExampleFilling(f4, 7, 0);
    ExampleGotoBCD(f4, 7);
    ExampleFields(f4, 7, 0);
    RelinkSame(st, 6);
    FillLeaf(st, dep, 6);
    FillOnlyChild(st, st, st, dep, 5, 7, 6, 'd' as int, 0);
  }

  /** The slots of the chains a-ab-abc-abcd, b-bc and c-cd: each has exactly
      the next as its only child. */
  lemma ExampleFields(f4: int, f5: int, f7: int)
    ensures var st := ExampleLinked(f4, f5, f7);
      && st.nodes[1].start == 4 && st.nodes[1].end == 5 && st.nodes[1].fail == 0
      && st.nodes[2].start == 7 && st.nodes[2].end == 8 && st.nodes[2].fail == 0
      && st.nodes[3].start == 8 && st.nodes[3].end == 9 && st.nodes[3].fail == 0
      && st.nodes[4].start == 5 && st.nodes[4].end == 6 && st.nodes[4].fail == f4 && st.nodes[4].rune == 'b' as int
      && st.nodes[5].start == 6 && st.nodes[5].end == 7 && st.nodes[5].fail == f5 && st.nodes[5].rune == 'c' as int
      && st.nodes[6].rune == 'd' as int && st.nodes[7].rune == 'c' as int && st.nodes[8].rune == 'd' as int
  {
  }

  /** Setting one of the three varying links gives the array with that link. */
  lemma ExampleRelinks(f4: int, f5: int, f7: int, g: int)
    ensures Relinked(ExampleLinked(f4, f5, f7), 4, g) == ExampleLinked(g, f5, f7)
    ensures Relinked(ExampleLinked(f4, f5, f7), 5, g) == ExampleLinked(f4, g, f7)
    ensures Relinked(ExampleLinked(f4, f5, f7), 7, g) == ExampleLinked(f4, f5, g)
  {
    assert Relinked(ExampleLinked(f4, f5, f7), 4, g).nodes == ExampleLinked(g, f5, f7).nodes;
    assert Relinked(ExampleLinked(f4, f5, f7), 5, g).nodes == ExampleLinked(f4, g, f7).nodes;
    assert Relinked(ExampleLinked(f4, f5, f7), 7, g).nodes == ExampleLinked(f4, f5, g).nodes;
  }

  /** Filling below ab once ab links to b: abc gets the goto from b by c,
      which is bc, whatever its link was. */
  lemma ExampleFillAB(f5: int)
    requires f5 == 0 || f5 == 7
    ensures Filling(ExampleLinked(2, f5, 0), ExampleDepths())
    ensures FillFrom(ExampleLinked(2, f5, 0), ExampleDepths(), 4) == ExampleLinked(2, 7, 0)
  {
    var st := ExampleLinked(2, f5, 0);
    var st1 := ExampleLinked(2, 7, 0);
    var dep := ExampleDepths();
    ExampleFilling(2, f5, 0);
    ExampleGotoBC(2, f5, 0);
    ExampleFields(2, f5, 0);
    ExampleRelinks(2, f5, 0, 7);
    ExampleFillABC(2);
    // The step's preconditions, one at a time.
    assert Filling(st, dep) && Acyclic(st);
    assert st.nodes[4].start == 5 && st.nodes[4].end == 6 && st.nodes[4].fail == 2 && st.nodes[5].rune == 'c' as int;
    assert NextNode(st, 2, 'c' as int) == 7;
    assert Relinked(st, 5, 7) == st1;
    assert Filling(st1, dep) && FillFrom(st1, dep, 5) == st1;
    FillChainLink(st, st1, dep, 4, 2, 5, 'c' as int, 7);
  }

  /** FillOnlyChild where the child's link g is the goto itself and the
      subtree below the child is already filled. */
  lemma FillChainLink(st: STree, st1: STree, dep: seq<nat>, x: int, y: int, i: int, c: int, g: int)
    requires Filling(st, dep) && Acyclic(st) && 0 <= x < |st.nodes| && 0 < i < |st.nodes| && 0 <= y < |st.nodes|
    requires st.nodes[x].start == i && st.nodes[x].end == i + 1 && st.nodes[x].fail == y && st.nodes[i].rune == c
    requires NextNode(st, y, c) == g && g != i
    requires Relinked(st, i, g) == st1 && Filling(st1, dep) && FillFrom(st1, dep, i) == st1
    ensures FillFrom(st, dep, x) == st1
  {
    FillOnlyChild(st, st1, st1, dep, x, y, i, c, g);
  }

  /** Filling below a: ab links to b, then everything below ab. */
  lemma ExampleFillA(f4: int, f5: int)
    requires f4 == 0 || f4 == 2
    requires f5 == 0 || f5 == 7
    ensures Filling(ExampleLinked(f4, f5, 0), ExampleDepths())
    ensures FillFrom(ExampleLinked(f4, f5, 0), ExampleDepths(), 1) == ExampleLinked(2, 7, 0)
  {
    var st := ExampleLinked(f4, f5, 0);
    var st1 := ExampleLinked(2, f5, 0);
    var dep := ExampleDepths();
    ExampleFilling(f4, f5, 0);
    ExampleRootGotos(f4, f5, 0);
    ExampleFields(f4, f5, 0);
    ExampleRelinks(f4, f5, 0, 2);
    ExampleFillAB(f5);
    FillOnlyChild(st, st1, ExampleLinked(2, 7, 0), dep, 1, 0, 4, 'b' as int, 2);
  }

  /** Filling below b: bc links to c; bc has no children. */
  lemma ExampleFillB(f4: int, f5: int)
    requires f4 == 0 || f4 == 2
    requires f5 == 0 || f5 == 7
    ensures Filling(ExampleLinked(f4, f5, 0), ExampleDepths())
    ensures FillFrom(ExampleLinked(f4, f5, 0), ExampleDepths(), 2) == ExampleLinked(f4, f5, 3)
  {
    var st := ExampleLinked(f4, f5, 0);
    var st1 := ExampleLinked(f4, f5, 3);
    var dep := ExampleDepths();
    ExampleFilling(f4, f5, 0);
    ExampleFilling(f4, f5, 3);
    ExampleRootGotos(f4, f5, 0);
    ExampleFields(f4, f5, 0);
    ExampleRelinks(f4, f5, 0, 3);
    FillLeaf(st1, dep, 7);
    FillOnlyChild(st, st1, st1, dep, 2, 0, 7, 'c' as int, 3);
  }

  /** Filling below c: cd keeps the link 0, as the root has no d. */
  lemma ExampleFillC(f4: int, f5: int)
    requires f4 == 0 || f4 == 2
    requires f5 == 0 || f5 == 7
    ensures Filling(ExampleLinked(f4, f5, 3), ExampleDepths())
    ensures FillFrom(ExampleLinked(f4, f5, 3), ExampleDepths(), 3) == ExampleLinked(f4, f5, 3)
  {
    var st := ExampleLinked(f4, f5, 3);
    var dep := ExampleDepths();
    ExampleFilling(f4, f5, 3);
    ExampleRootGotos(f4, f5, 3);
    ExampleFields(f4, f5, 3);
    RelinkSame(st, 8);
    FillLeaf(st, dep, 8);
    FillOnlyChild(st, st, st, dep, 3, 0, 8, 'd' as int, 0);
  }

  /** The path each slot of ExampleArray spells does not depend on the links. */
  lemma ExampleSpelling(st: STree)
    requires Refilled(ExampleArray(), st)
    ensures Ranges(st)
    ensures Walk(st, "abcd") == Some(6)
    ensures Walk(st, "cd") == Some(8)
  {
    var e := ExampleArray();
    forall x | 0 <= x < |st.nodes|
      ensures st.nodes[x].start == e.nodes[x].start && st.nodes[x].end == e.nodes[x].end
      ensures st.nodes[x].rune == e.nodes[x].rune
    {
      assert st.nodes[x] == e.nodes[x].(fail := st.nodes[x].fail);
    }
    ExampleSpellingShape(st);
    ExampleWalks(st);
  }

  /** The walks of "abcd" and "cd" over an array with ExampleArray's ranges and labels. */
  lemma ExampleWalks(st: STree)
    requires Ranges(st) && |st.nodes| == 9
    requires st.nodes[0].start == 1 && st.nodes[0].end == 4
    requires st.nodes[1].start == 4 && st.nodes[1].end == 5 && st.nodes[1].rune == 'a' as int
    requires st.nodes[2].rune == 'b' as int && st.nodes[3].start == 8 && st.nodes[3].end == 9 && st.nodes[3].rune == 'c' as int
    requires st.nodes[4].start == 5 && st.nodes[4].end == 6 && st.nodes[4].rune == 'b' as int
    requires st.nodes[5].start == 6 && st.nodes[5].end == 7 && st.nodes[5].rune == 'c' as int
    requires st.nodes[6].rune == 'd' as int && st.nodes[8].rune == 'd' as int
    ensures Walk(st, "abcd") == Some(6)
    ensures Walk(st, "cd") == Some(8)
  {
    assert Search(st, 1, 0, 3, 'a' as int) == 0 by {
      assert Search(st, 1, 0, 1, 'a' as int) == 0;
    }
    assert Search(st, 1, 0, 3, 'c' as int) == 2 by {
      assert Search(st, 1, 2, 3, 'c' as int) == 2;
    }
    FindOne(st, 4, 'b' as int);
    FindOne(st, 5, 'c' as int);
    FindOne(st, 6, 'd' as int);
    FindOne(st, 8, 'd' as int);
    assert WalkFrom(st, 6, "") == Some(6);
    assert WalkFrom(st, 5, "d") == Some(6);
    assert WalkFrom(st, 4, "cd") == Some(6);
    assert WalkFrom(st, 1, "bcd") == Some(6);
    assert WalkFrom(st, 3, "d") == Some(8);
  }

  /** The scan of "abcd" over an array with ExampleArray's ranges and labels:
      it goes straight down a, ab, abc, abcd, and the event of the last rune
      lists only what the Fail chain from abcd passes. */
  lemma ExampleRunABCD(st: STree)
    requires Acyclic(st) && |st.nodes| == 9
    requires st.nodes[0].start == 1 && st.nodes[0].end == 4
    requires st.nodes[1].start == 4 && st.nodes[1].end == 5 && st.nodes[1].rune == 'a' as int
    requires st.nodes[2].rune == 'b' as int && st.nodes[3].rune == 'c' as int
    requires st.nodes[4].start == 5 && st.nodes[4].end == 6 && st.nodes[4].rune == 'b' as int
    requires st.nodes[5].start == 6 && st.nodes[5].end == 7 && st.nodes[5].rune == 'c' as int
    requires st.nodes[6].rune == 'd' as int && st.nodes[6].edgeId == 1 && st.nodes[6].fail == 0
    requires |st.levels| == 3 && st.levels[0] == 4
    ensures Run(st, "abcd") == 6
    ensures EventAt(st, "abcd", 3).nodes == [ScanNode(1, 4)]
  {
    ExampleRunAB(st);
    FindOne(st, 5, 'c' as int);
    FindOne(st, 6, 'd' as int);
    NextNodeStep(st, 4, 'c' as int);
    NextNodeStep(st, 5, 'd' as int);
    assert "abcd"[..3] == "abc" && "abc"[..2] == "ab";
    assert Run(st, "abc") == 5;
    assert Run(st, "abcd") == 6;
    assert "abcd"[..3 + 1] == "abcd";
    assert ChainNodes(st, 0) == [];
    assert ChainNodes(st, 6) == [ScanNode(1, 4)] + ChainNodes(st, 0);
  }

  /** The first two steps of that scan: a, then ab. */
  lemma ExampleRunAB(st: STree)
    requires Acyclic(st) && |st.nodes| == 9
    requires st.nodes[0].start == 1 && st.nodes[0].end == 4
    requires st.nodes[1].start == 4 && st.nodes[1].end == 5 && st.nodes[1].rune == 'a' as int
    requires st.nodes[2].rune == 'b' as int && st.nodes[4].rune == 'b' as int
    ensures Run(st, "ab") == 4
  {
    assert Search(st, 1, 0, 3, 'a' as int) == 0 by {
      assert Search(st, 1, 0, 1, 'a' as int) == 0;
    }
    FindOne(st, 4, 'b' as int);
    NextNodeStep(st, 0, 'a' as int);
    NextNodeStep(st, 1, 'b' as int);
    assert "ab"[..1] == "a" && "a"[..0] == [];
    assert Run(st, "a") == 1;
  }

  /** The children ranges and labels of any relinked ExampleArray. */
  lemma ExampleSpellingShape(st: STree)
    requires |st.nodes| == 9
    requires forall x | 0 <= x < 9 ::
      st.nodes[x].start == ExampleArray().nodes[x].start && st.nodes[x].end == ExampleArray().nodes[x].end
      && st.nodes[x].rune == ExampleArray().nodes[x].rune
    ensures Ranges(st)
    ensures st.nodes[0].start == 1 && st.nodes[0].end == 4
    ensures st.nodes[1].start == 4 && st.nodes[1].end == 5 && st.nodes[1].rune == 'a' as int
    ensures st.nodes[2].rune == 'b' as int && st.nodes[3].start == 8 && st.nodes[3].end == 9 && st.nodes[3].rune == 'c' as int
    ensures st.nodes[4].start == 5 && st.nodes[4].end == 6 && st.nodes[4].rune == 'b' as int
    ensures st.nodes[5].start == 6 && st.nodes[5].end == 7 && st.nodes[5].rune == 'c' as int
    ensures st.nodes[6].rune == 'd' as int && st.nodes[8].rune == 'd' as int
  {
    var e := ExampleArray();
    forall x | 0 <= x < |st.nodes|
      ensures RangeOk(st, st.nodes[x].start, st.nodes[x].end)
    {
      assert x in {0, 1, 2, 3, 4, 5, 6, 7, 8};
    }
    assert st.nodes[0].start == e.nodes[0].start;
    assert st.nodes[1].start == e.nodes[1].start && st.nodes[2].rune == e.nodes[2].rune && st.nodes[3].start == e.nodes[3].start;
    assert st.nodes[4].start == e.nodes[4].start && st.nodes[5].start == e.nodes[5].start;
    assert st.nodes[6].rune == e.nodes[6].rune && st.nodes[8].rune == e.nodes[8].rune;
  }

  /** The loop over the root's children: each keeps the link 0 it has, and
      the subtree below it is filled. */
  lemma FillRootChild(st: STree, dep: seq<nat>, i: int)
    requires Filling(st, dep) && 0 < st.nodes[0].start <= i < st.nodes[0].end && st.nodes[i].fail == 0
    ensures 0 < i < |st.nodes|
    ensures FillChildren(st, dep, 0, i) == FillChildren(FillFrom(st, dep, i), dep, 0, i + 1)
  {
    FillStep(st, dep, 0, i);
    FillChildrenStep(st, dep, 0, i);
    RelinkSame(st, i);
  }

  /** The root's last child c, whatever the links of ab and abc. */
  lemma ExampleRootLast(f4: int, f5: int)
    requires f4 == 0 || f4 == 2
    requires f5 == 0 || f5 == 7
    ensures Filling(ExampleLinked(f4, f5, 3), ExampleDepths())
    ensures FillChildren(ExampleLinked(f4, f5, 3), ExampleDepths(), 0, 3) == ExampleLinked(f4, f5, 3)
  {
    var st := ExampleLinked(f4, f5, 3);
    var dep := ExampleDepths();
    ExampleFilling(f4, f5, 3);
    FillRootChild(st, dep, 3);
    ExampleFillC(f4, f5);
    FillChildrenEnd(st, dep, 0, 4);
  }

  /** The root's children b and c: bc links to c. */
  lemma ExampleRootRest(f4: int, f5: int)
    requires f4 == 0 || f4 == 2
    requires f5 == 0 || f5 == 7
    ensures Filling(ExampleLinked(f4, f5, 0), ExampleDepths())
    ensures FillChildren(ExampleLinked(f4, f5, 0), ExampleDepths(), 0, 2) == ExampleLinked(f4, f5, 3)
  {
    var st := ExampleLinked(f4, f5, 0);
    var dep := ExampleDepths();
    ExampleFilling(f4, f5, 0);
    FillRootChild(st, dep, 2);
    ExampleFillB(f4, f5);
    ExampleRootLast(f4, f5);
  }

  /** The whole fill of ExampleArray, whatever the links of ab and abc were. */
  lemma ExampleFillRoot(f4: int, f5: int)
    requires f4 == 0 || f4 == 2
    requires f5 == 0 || f5 == 7
    ensures Filling(ExampleLinked(f4, f5, 0), ExampleDepths())
    ensures FillFrom(ExampleLinked(f4, f5, 0), ExampleDepths(), 0) == ExampleLinked(2, 7, 3)
  {
    var st := ExampleLinked(f4, f5, 0);
    var dep := ExampleDepths();
    ExampleFilling(f4, f5, 0);
    FillFromChildren(st, dep, 0);
    FillRootChild(st, dep, 1);
    ExampleFillA(f4, f5);
    ExampleRootRest(2, 7);
  }

  /** The links of ExampleLinked are the ones it is given. */
  lemma ExampleLinks(f4: int, f5: int, f7: int)
    ensures var st := ExampleLinked(f4, f5, f7);
      st.nodes[4].fail == f4 && st.nodes[5].fail == f5 && st.nodes[6].fail == 0 && st.nodes[7].fail == f7
  {
  }

  /** fillFailure as written on ExampleArray: abc fails to bc (slot 7), but
      when abcd is reached bc's own link is still 0, so abcd fails to the
      root, not to cd (slot 8), the longest proper suffix of abcd in the
      array. */
  lemma DepthFirstStaticLink()
    ensures Filling(ExampleArray(), ExampleDepths())
    ensures var r := FillFrom(ExampleArray(), ExampleDepths(), 0);
      && Walk(r, "abcd") == Some(6) && Walk(r, "cd") == Some(8)
      && r.nodes[5].fail == 7
      && r.nodes[6].fail == 0
      && r.nodes[8].edgeId == 3
      && Acyclic(r) && EventAt(r, "abcd", 3).nodes == [ScanNode(1, 4)]
  {
    ExampleFillRoot(0, 0);
    var r := FillFrom(ExampleArray(), ExampleDepths(), 0);
    assert r == ExampleLinked(2, 7, 3);
    ExampleLinks(2, 7, 3);
    assert r.nodes[5].fail == 7 && r.nodes[6].fail == 0;
    ExampleSpelling(r);
    FillFromAcyclic(ExampleArray(), ExampleDepths());
    ExampleScanFacts(r);
  }

  /** The facts ExampleRunABCD needs, for the filled ExampleArray. */
  lemma ExampleScanFacts(r: STree)
    requires r == ExampleLinked(2, 7, 3) && Acyclic(r)
    ensures r.nodes[8].edgeId == 3 && EventAt(r, "abcd", 3).nodes == [ScanNode(1, 4)]
  {
    ExampleFields(2, 7, 3);
    assert r.nodes[0].start == 1 && r.nodes[0].end == 4 && r.nodes[2].rune == 'b' as int && r.nodes[3].rune == 'c' as int;
    assert r.nodes[6].edgeId == 1 && r.nodes[8].edgeId == 3 && r.levels == [4, 2, 2];
    ExampleRunABCD(r);
  }
}
