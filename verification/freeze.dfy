/** Freeze (static.go): the frozen automaton built from a growable trie, with
    failure indices computed as intended, and its agreement with the growable
    trie: the same nodes, ids and levels, the same walks, the same scans. */
module Freeze {
  import opened Base
  import opened Siblings
  import opened Dynamic
  import opened Failure
  import opened Static
  import opened Layout

  // ---------------------------------------------------------------------------
  // The frozen tree

  /** The first slot from i on that holds q; 0 (the root) when none does. */
  function SlotFrom(E: seq<Entry>, q: Path, i: nat): (r: nat)
    ensures r == 0 || (i <= r < |E| && E[r].path == q)
    ensures (exists x | i <= x < |E| :: E[x].path == q) ==> r < |E| && E[r].path == q
    decreases |E| - i
  {
    if i >= |E| then 0
    else if E[i].path == q then i
    else SlotFrom(E, q, i + 1)
  }

  /** The failure index the slot of p should get: 0 for the root, otherwise
      the slot of p's longest proper suffix in the trie. */
  function FailSlot(E: seq<Entry>, root: DNode, p: Path): nat
  {
    if p == [] then 0 else SlotFrom(E, ProperSuffix(root, p), 0)
  }

  /** The Levels table: levels[EdgeID-1] = Level for each slot with an edge id,
      slots taken in index order. An id beyond the table (which would make Go
      index out of range) is skipped. */
  function RecordLevels(E: seq<Entry>, lv: seq<int>): (r: seq<int>)
    ensures |r| == |lv|
    decreases |E|
  {
    if E == [] then lv
    else
      var e := E[|E| - 1];
      var prev := RecordLevels(E[..|E| - 1], lv);
      if 0 < e.node.edgeId <= |prev| then prev[e.node.edgeId - 1 := e.level] else prev
  }

  /** The array Freeze holds when procNode is done and fillFailure has not
      run yet: the layout, with the failure indices procNode leaves at 0, and
      the Levels table. It differs from the frozen tree only in failure
      indices. */
  function Laid(t: DTree): (st: STree)
    requires t.lastEdgeID >= 0
    ensures |st.nodes| == CountAll(t.root) && |st.levels| == t.lastEdgeID
    ensures Refilled(st, Freeze(t))
  {
    Lay(Flatten(t), t.lastEdgeID)
  }

  /** The slots of a layout with their failure indices still 0, and a Levels
      table of n entries. */
  function Lay(E: seq<Entry>, n: nat): STree
  {
    STree(seq(|E|, x requires 0 <= x < |E| => E[x].node), RecordLevels(E, seq(n, _ => 0)))
  }

  /** Static.ExampleArray is what procNode lays out for the trie of "abcd",
      "bc" and "cd" that three Puts build. */
  lemma ExampleIsLaidOut()
    ensures Laid(Example()) == ExampleArray()
  {
    ExampleFlatten();
    LaidNine(Example(), Entry(SNode(0, 1, 4, 0, 0), [], 0),
      Entry(SNode('a' as int, 4, 5, 0, 0), "a", 0), Entry(SNode('b' as int, 7, 8, 0, 0), "b", 0),
      Entry(SNode('c' as int, 8, 9, 0, 0), "c", 0),
      Entry(SNode('b' as int, 5, 6, 0, 0), "ab", 0), Entry(SNode('c' as int, 6, 7, 0, 0), "abc", 0),
      Entry(SNode('d' as int, 0, 0, 0, 1), "abcd", 4),
      Entry(SNode('c' as int, 0, 0, 0, 2), "bc", 2), Entry(SNode('d' as int, 0, 0, 0, 3), "cd", 2));
  }

  /** Laid for a nine-slot layout whose last three slots carry ids 1, 2 and 3. */
  lemma LaidNine(t: DTree, e0: Entry, e1: Entry, e2: Entry, e3: Entry, e4: Entry, e5: Entry, e6: Entry, e7: Entry, e8: Entry)
    requires Flatten(t) == [e0, e1, e2, e3, e4, e5, e6, e7, e8] && t.lastEdgeID == 3
    requires e0.node.edgeId == 0 && e1.node.edgeId == 0 && e2.node.edgeId == 0 && e3.node.edgeId == 0
    requires e4.node.edgeId == 0 && e5.node.edgeId == 0
    requires e6.node.edgeId == 1 && e7.node.edgeId == 2 && e8.node.edgeId == 3
    ensures Laid(t) == STree([e0.node, e1.node, e2.node, e3.node, e4.node, e5.node, e6.node, e7.node, e8.node],
                             [e6.level, e7.level, e8.level])
  {
    var E := [e0, e1, e2, e3, e4, e5, e6, e7, e8];
    assert seq(3, _ => 0) == [0, 0, 0];
    RecordNine(e0, e1, e2, e3, e4, e5, e6, e7, e8);
    var st := Lay(E, 3);
    assert st.levels == [e6.level, e7.level, e8.level];
    assert st.nodes == [e0.node, e1.node, e2.node, e3.node, e4.node, e5.node, e6.node, e7.node, e8.node];
    assert Laid(t) == st;
  }

  lemma RecordNine(e0: Entry, e1: Entry, e2: Entry, e3: Entry, e4: Entry, e5: Entry, e6: Entry, e7: Entry, e8: Entry)
    requires e0.node.edgeId == 0 && e1.node.edgeId == 0 && e2.node.edgeId == 0 && e3.node.edgeId == 0
    requires e4.node.edgeId == 0 && e5.node.edgeId == 0
    requires e6.node.edgeId == 1 && e7.node.edgeId == 2 && e8.node.edgeId == 3
    ensures RecordLevels([e0, e1, e2, e3, e4, e5, e6, e7, e8], [0, 0, 0]) == [e6.level, e7.level, e8.level]
  {
    var E := [e0, e1, e2, e3, e4, e5, e6, e7, e8];
    assert E[..8] == [e0, e1, e2, e3, e4, e5, e6, e7];
    assert E[..8][..7] == [e0, e1, e2, e3, e4, e5, e6];
    assert E[..8][..7][..6] == [e0, e1, e2, e3, e4, e5];
    RecordLevelsNoIds(E[..8][..7][..6], [0, 0, 0]);
    assert RecordLevels(E[..8][..7], [0, 0, 0]) == [e6.level, 0, 0];
    assert RecordLevels(E[..8], [0, 0, 0]) == [e6.level, e7.level, 0];
  }

  /** Slots without an edge id leave the Levels table as it is. */
  lemma {:induction false} RecordLevelsNoIds(E: seq<Entry>, lv: seq<int>)
    requires forall x | 0 <= x < |E| :: E[x].node.edgeId == 0
    ensures RecordLevels(E, lv) == lv
    decreases |E|
  {
    if E != [] {
      RecordLevelsNoIds(E[..|E| - 1], lv);
    }
  }

  /** Freeze with the failure indices Aho-Corasick intends. */
  function Freeze(t: DTree): (st: STree)
    requires t.lastEdgeID >= 0
    ensures |st.nodes| == CountAll(t.root) && |st.levels| == t.lastEdgeID
  {
    var E := Flatten(t);
    STree(seq(|E|, x requires 0 <= x < |E| => E[x].node.(fail := FailSlot(E, t.root, E[x].path))),
          RecordLevels(E, seq(t.lastEdgeID, _ => 0)))
  }

  lemma FreezeCarries(t: DTree)
    requires t.lastEdgeID >= 0
    ensures Carries(Freeze(t), Flatten(t))
    ensures forall x | 0 <= x < |Flatten(t)| ::
      Freeze(t).nodes[x].fail == FailSlot(Flatten(t), t.root, Flatten(t)[x].path)
  {
  }

  /** The level recorded for id k + 1 is the level every slot with that id carries. */
  lemma {:induction false} RecordLevelsSpec(E: seq<Entry>, lv: seq<int>, k: int, level: int)
    requires 0 <= k < |lv|
    requires forall x | 0 <= x < |E| && E[x].node.edgeId == k + 1 :: E[x].level == level
    ensures RecordLevels(E, lv)[k] ==
      if exists x | 0 <= x < |E| :: E[x].node.edgeId == k + 1 then level else lv[k]
    decreases |E|
  {
    if E != [] {
      var F := E[..|E| - 1];
      assert forall x | 0 <= x < |F| :: F[x] == E[x];
      RecordLevelsSpec(F, lv, k, level);
      if exists x | 0 <= x < |F| :: F[x].node.edgeId == k + 1 {
        var x :| 0 <= x < |F| && F[x].node.edgeId == k + 1;
        assert E[x].node.edgeId == k + 1;
      }
    }
  }

  // ---------------------------------------------------------------------------
  // Shape

  /** Facts about the layout of a valid trie that the theorems below share. */
  lemma LayoutFacts(t: DTree)
    requires Valid(t)
    ensures var E := Flatten(t);
      && AllRepresent(E, t.root)
      && |E| == CountAll(t.root)
      && Carries(Freeze(t), E)
      && Ranges(Freeze(t))
      && Distinct(E)
  {
    var E := Flatten(t);
    LayoutRepresents(t);
    FreezeCarries(t);
    RangesOf(Freeze(t), E, t.root);
    PathsDistinct(Freeze(t), E, t.root);
  }

  /** The failure index of slot x is the slot of its node's longest proper
      suffix, which is a shorter path. */
  lemma FailFacts(t: DTree, x: int)
    requires Valid(t)
    requires 0 < x < CountAll(t.root)
    ensures var E := Flatten(t);
      var f := Freeze(t).nodes[x].fail;
      && E[x].path != []
      && 0 <= f < |E|
      && E[f].path == ProperSuffix(t.root, E[x].path)
      && |E[f].path| < |E[x].path|
  {
    var E := Flatten(t);
    var st := Freeze(t);
    LayoutFacts(t);
    assert Represents(E, t.root, x);
    var q := ProperSuffix(t.root, E[x].path);
    WalkMatches(st, E, t.root, q);
    assert E[Walk(st, q).value].path == q;
  }

  /** Every failure chain of the frozen tree reaches the root: the path length
      of the slot ranks it. */
  lemma FreezeAcyclic(t: DTree)
    requires Valid(t)
    ensures Acyclic(Freeze(t))
    ensures forall x | 0 < x < |Freeze(t).nodes| :: Freeze(t).nodes[x].fail != x
  {
    var E := Flatten(t);
    var st := Freeze(t);
    LayoutFacts(t);
    var d := seq(|E|, x requires 0 <= x < |E| => |E[x].path|);
    forall i | 0 < i < |st.nodes|
      ensures 0 <= st.nodes[i].fail < |st.nodes| && d[st.nodes[i].fail] < d[i]
    {
      FailFacts(t, i);
    }
    assert Ranks(st, d);
    forall x | 0 < x < |st.nodes|
      ensures st.nodes[x].fail != x
    {
      FailFacts(t, x);
    }
  }

  /** The children ranges of the frozen tree: [0, 0) or a non-empty range after
      its parent inside the array, label-sorted, two ranges never overlapping. */
  lemma FreezeRanges(t: DTree)
    requires Valid(t)
    ensures var st := Freeze(t);
      && (forall x | 0 <= x < |st.nodes| ::
            || (st.nodes[x].start == 0 && st.nodes[x].end == 0)
            || (x < st.nodes[x].start < st.nodes[x].end <= |st.nodes|))
      && (forall x | 0 <= x < |st.nodes| :: SortedRange(st, st.nodes[x].start, st.nodes[x].end))
      && (forall x, y | 0 <= x < y < |st.nodes| && st.nodes[x].start < st.nodes[x].end && st.nodes[y].start < st.nodes[y].end ::
            st.nodes[x].end <= st.nodes[y].start || st.nodes[y].end <= st.nodes[x].start)
  {
    var E := Flatten(t);
    var st := Freeze(t);
    LayoutFacts(t);
    forall x | 0 <= x < |st.nodes|
      ensures || (st.nodes[x].start == 0 && st.nodes[x].end == 0)
              || (x < st.nodes[x].start < st.nodes[x].end <= |st.nodes|)
      ensures SortedRange(st, st.nodes[x].start, st.nodes[x].end)
    {
      assert Represents(E, t.root, x);
      var n := NodeAt(t.root, E[x].path).value;
      if |Kids(n)| > 0 {
        RangeRunes(st, E, t.root, x);
      }
    }
    forall x, y | 0 <= x < y < |st.nodes| && st.nodes[x].start < st.nodes[x].end && st.nodes[y].start < st.nodes[y].end
      ensures st.nodes[x].end <= st.nodes[y].start || st.nodes[y].end <= st.nodes[x].start
    {
      RangesApart(E, t.root, x, y);
    }
  }

  /** The root sits at index 0 and fails to nothing. */
  lemma FreezeRoot(t: DTree)
    requires Valid(t)
    ensures var st := Freeze(t);
      && st.nodes[0].rune == t.root.rune as int
      && st.nodes[0].edgeId == t.root.edgeId
      && st.nodes[0].fail == 0
  {
    var E := Flatten(t);
    LayoutFacts(t);
    assert Represents(E, t.root, 0);
  }

  // ---------------------------------------------------------------------------
  // Agreement with the growable trie

  /** The array walk along p reaches a slot exactly when p is a trie node, the
      slot holding p, with p's edge id. */
  lemma FrozenWalk(t: DTree, p: Path)
    requires Valid(t)
    ensures Ranges(Freeze(t))
    ensures Walk(Freeze(t), p).Some? <==> NodeAt(t.root, p).Some?
    ensures Walk(Freeze(t), p).Some? ==> Flatten(t)[Walk(Freeze(t), p).value].path == p
    ensures IdOf(Freeze(t), p) == IdAt(t, p)
  {
    var E := Flatten(t);
    var st := Freeze(t);
    LayoutFacts(t);
    WalkMatches(st, E, t.root, p);
    if Walk(st, p).Some? {
      assert Represents(E, t.root, Walk(st, p).value);
    }
  }

  /** Every key p has its level |p| at Levels[IdAt(p)-1], and every entry of
      the table belongs to some key. */
  lemma FrozenLevel(t: DTree, p: Path)
    requires Valid(t) && IsKey(t, p)
    ensures IdAt(t, p) - 1 < |Freeze(t).levels|
    ensures Freeze(t).levels[IdAt(t, p) - 1] == LevelAt(t, p) == |p|
  {
    var E := Flatten(t);
    var st := Freeze(t);
    var k := IdAt(t, p) - 1;
    LayoutFacts(t);
    forall x | 0 <= x < |E| && E[x].node.edgeId == k + 1
      ensures E[x].level == LevelAt(t, p)
    {
      assert Represents(E, t.root, x);
      assert IdAt(t, E[x].path) == IdAt(t, p);
    }
    WalkFindsSlot(st, E, t.root, Walk(st, p).value) by {
      FrozenWalk(t, p);
    }
    FrozenWalk(t, p);
    assert Represents(E, t.root, Walk(st, p).value);
    RecordLevelsSpec(E, seq(t.lastEdgeID, _ => 0), k, LevelAt(t, p));
  }

  /** Freeze keeps ids and levels: the same edge id at every path, and the
      Levels table indexed by EdgeID-1 holds each key's level. */
  lemma FrozenIdsAgree(t: DTree)
    requires Valid(t)
    ensures Ranges(Freeze(t))
    ensures forall p :: IdOf(Freeze(t), p) == IdAt(t, p)
    ensures forall p | IsKey(t, p) :: Freeze(t).levels[IdAt(t, p) - 1] == |p|
  {
    FrozenWalk(t, []);
    forall p
      ensures IdOf(Freeze(t), p) == IdAt(t, p)
    {
      FrozenWalk(t, p);
    }
    forall p | IsKey(t, p)
      ensures Freeze(t).levels[IdAt(t, p) - 1] == |p|
    {
      FrozenLevel(t, p);
    }
  }

  /** The frozen goto function mirrors the growable trie's nextNode under the
      corrected failure links: from the slot of p, reading c reaches the slot
      of the node nextNode reaches from p. */
  lemma {:induction false} NextAgrees(t: DTree, x: int, c: char)
    requires Valid(t) && 0 <= x < CountAll(t.root)
    ensures Acyclic(Freeze(t))
    ensures var E := Flatten(t);
      E[Static.NextNode(Freeze(t), x, c as int)].path
        == Dynamic.NextNode(t.root, FillFailure(t).failure, E[x].path, c)
    decreases |Flatten(t)[x].path|
  {
    var E := Flatten(t);
    var st := Freeze(t);
    var fail := FillFailure(t).failure;
    LayoutFacts(t);
    FreezeAcyclic(t);
    ChildFind(st, E, t.root, x, c);
    assert Represents(E, t.root, x);
    if !HasChild(t.root, E[x].path, c) && x != 0 {
      FailFacts(t, x);
      AllPathsLookup(t.root, E[x].path);
      assert FailOf(fail, E[x].path) == ProperSuffix(t.root, E[x].path);
      NextAgrees(t, st.nodes[x].fail, c);
    }
  }

  /** After reading s, the frozen scan stands on the slot of the node the
      growable trie's scan stands on. */
  lemma {:induction false} RunAgrees(t: DTree, s: seq<char>)
    requires Valid(t)
    ensures Acyclic(Freeze(t))
    ensures Flatten(t)[Static.Run(Freeze(t), s)].path == Dynamic.Run(FillFailure(t), s)
    decreases |s|
  {
    LayoutFacts(t);
    FreezeAcyclic(t);
    if s != [] {
      RunAgrees(t, s[..|s| - 1]);
      NextAgrees(t, Static.Run(Freeze(t), s[..|s| - 1]), s[|s| - 1]);
    }
  }

  /** The matches along the failure chain from a slot are those along the
      chain from its node, except that the growable trie also inspects the
      root, which the frozen scan never does. */
  lemma {:induction false} ChainAgrees(t: DTree, x: int)
    requires Valid(t) && 0 <= x < CountAll(t.root)
    ensures Acyclic(Freeze(t))
    ensures var F := FillFailure(t);
      Dynamic.ChainNodes(F, Chain(F.failure, Flatten(t)[x].path))
        == Static.ChainNodes(Freeze(t), x) + Keyed(F, [])
    decreases |Flatten(t)[x].path|
  {
    var E := Flatten(t);
    var st := Freeze(t);
    var F := FillFailure(t);
    LayoutFacts(t);
    FreezeAcyclic(t);
    assert Represents(E, t.root, x);
    var p := E[x].path;
    if x == 0 {
      ChainNodesStep(F, F.failure, [], []);
      assert Dynamic.ChainNodes(F, Chain(F.failure, p)) == Keyed(F, []);
    } else {
      FailFacts(t, x);
      AllPathsLookup(t.root, p);
      var f := st.nodes[x].fail;
      assert p in F.failure && F.failure[p] == E[f].path;
      ChainNodesStep(F, F.failure, p, []);
      ChainAgrees(t, f);
      OwnMatch(t, x);
      var dRest := Dynamic.ChainNodes(F, Chain(F.failure, E[f].path));
      var sRest := Static.ChainNodes(st, f);
      assert dRest == sRest + Keyed(F, []);
      assert Dynamic.ChainNodes(F, Chain(F.failure, p)) == Keyed(F, p) + dRest;
      assert Static.ChainNodes(st, x) == Keyed(F, p) + sRest;
      Regroup(Keyed(F, p), dRest, sRest, Keyed(F, []));
    }
  }

  lemma Regroup(a: seq<ScanNode>, d: seq<ScanNode>, s: seq<ScanNode>, k: seq<ScanNode>)
    requires d == s + k
    ensures a + d == (a + s) + k
  {
  }

  /** What one non-root slot contributes to the frozen chain is what its node
      contributes to the growable one. */
  lemma OwnMatch(t: DTree, x: int)
    requires Valid(t) && 0 < x < CountAll(t.root)
    ensures Acyclic(Freeze(t))
    ensures var st := Freeze(t);
      var edge := st.nodes[x].edgeId;
      Static.ChainNodes(st, x)
        == Keyed(FillFailure(t), Flatten(t)[x].path) + Static.ChainNodes(st, st.nodes[x].fail)
  {
    var E := Flatten(t);
    var st := Freeze(t);
    LayoutFacts(t);
    FreezeAcyclic(t);
    assert Represents(E, t.root, x);
    var p := E[x].path;
    var edge := st.nodes[x].edgeId;
    assert edge == IdAt(t, p) == IdAt(FillFailure(t), p);
    if edge > 0 {
      FrozenLevel(t, p);
      assert LevelOf(st, edge) == LevelAt(FillFailure(t), p);
    }
  }

  /** The frozen scan reports, rune for rune, the same index and rune as the
      growable trie's scan under the corrected links, and the same matches,
      except that the growable trie adds the root's own id when the empty key
      was put. */
  lemma ScanAgrees(t: DTree, s: seq<char>, j: nat)
    requires Valid(t) && j < |s|
    ensures Acyclic(Freeze(t))
    ensures var F := FillFailure(t);
      var d := Dynamic.EventAt(F, s, j);
      var e := Static.EventAt(Freeze(t), s, j);
      && d.index == e.index && d.rune == e.rune
      && d.nodes == e.nodes + Keyed(F, [])
      && (IdAt(t, []) == 0 ==> d == e)
  {
    FreezeAcyclic(t);
    RunAgrees(t, s[..j + 1]);
    ChainAgrees(t, Static.Run(Freeze(t), s[..j + 1]));
  }

  /** Under the longest-prefix contract, every non-empty key prefix of s is
      no longer than the answer. */
  lemma KeyPrefixBound(t: DTree, s: seq<char>, prefix: seq<char>, id: int, k: int)
    requires LongestKeyPrefix(t, s, prefix, id)
    requires 1 <= k <= |s| && IdAt(t, s[..k]) > 0
    ensures id != 0 && k <= |prefix|
  {
  }

  /** At most one answer meets the longest-prefix contract of a trie. */
  lemma LongestKeyPrefixUnique(t: DTree, s: seq<char>, p1: seq<char>, i1: int, p2: seq<char>, i2: int)
    requires LongestKeyPrefix(t, s, p1, i1) && LongestKeyPrefix(t, s, p2, i2)
    ensures p1 == p2 && i1 == i2
  {
    if i1 != 0 {
      KeyPrefixBound(t, s, p2, i2, |p1|);
    }
    if i2 != 0 {
      KeyPrefixBound(t, s, p1, i1, |p2|);
    }
  }

  /** An array that reads the same ids as the trie answers a longest-prefix
      search as the trie does. */
  lemma SameIdsSameAnswer(t: DTree, st: STree, s: seq<char>, p1: seq<char>, i1: int, p2: seq<char>, i2: int)
    requires Ranges(st) && forall p :: IdOf(st, p) == IdAt(t, p)
    requires LongestSlotPrefix(st, s, p1, i1)
    requires LongestKeyPrefix(t, s, p2, i2)
    ensures p1 == p2 && i1 == i2
  {
    assert LongestKeyPrefix(t, s, p1, i1);
    LongestKeyPrefixUnique(t, s, p1, i1, p2, i2);
  }

  /** LongestPrefix over the frozen array answers exactly as LongestPrefix over
      the trie: the same prefix and the same id. */
  lemma LongestPrefixAgrees(t: DTree, s: seq<char>, p1: seq<char>, i1: int, p2: seq<char>, i2: int)
    requires Valid(t) && Ranges(Freeze(t))
    requires LongestSlotPrefix(Freeze(t), s, p1, i1)
    requires LongestKeyPrefix(t, s, p2, i2)
    ensures p1 == p2 && i1 == i2
  {
    FrozenIdsAgree(t);
    SameIdsSameAnswer(t, Freeze(t), s, p1, i1, p2, i2);
  }
}
