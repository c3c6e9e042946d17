/** What the failure links of the growable trie are meant to be (the classic
    Aho-Corasick failure function: a node's longest proper suffix that is also a
    node), the proof that these links are the fixpoint of dynamic.go's own
    per-node step, and the theorem that makes scanning correct: with those links the
    automaton state is the longest suffix of the input in the trie and its failure
    chain lists every such suffix, longest first. */
module Failure {
  import opened Base
  import opened Siblings
  import opened Dynamic

  predicate InTrie(root: DNode, p: Path)
  {
    NodeAt(root, p).Some?
  }

  predicate IsSuffix(u: Path, s: Path)
  {
    |u| <= |s| && s[|s| - |u|..] == u
  }

  // ---------------------------------------------------------------------------
  // Suffix facts

  lemma SuffixSameLength(a: Path, b: Path, s: Path)
    requires IsSuffix(a, s) && IsSuffix(b, s) && |a| == |b|
    ensures a == b
  {
  }

  lemma SuffixTrans(u: Path, v: Path, s: Path)
    requires IsSuffix(u, v) && IsSuffix(v, s)
    ensures IsSuffix(u, s)
  {
    assert s[|s| - |u|..] == s[|s| - |v|..][|v| - |u|..];
  }

  lemma SuffixOfSuffix(u: Path, v: Path, s: Path)
    requires IsSuffix(u, s) && IsSuffix(v, s) && |u| <= |v|
    ensures IsSuffix(u, v)
  {
    assert v[|v| - |u|..] == s[|s| - |v|..][|v| - |u|..];
  }

  lemma SuffixSnoc(u: Path, s: Path, c: char)
    requires IsSuffix(u, s)
    ensures IsSuffix(u + [c], s + [c])
  {
    assert (s + [c])[|s| + 1 - (|u| + 1)..] == s[|s| - |u|..] + [c];
  }

  /** A non-empty suffix of s + [c] is a suffix of s followed by c. */
  lemma SuffixUnsnoc(a: Path, s: Path, c: char)
    requires IsSuffix(a, s + [c]) && a != []
    ensures a == a[..|a| - 1] + [c] && IsSuffix(a[..|a| - 1], s)
  {
    assert a[..|a| - 1] == (s + [c])[|s| + 1 - |a|..|s|] == s[|s| - (|a| - 1)..];
  }

  lemma TailSnoc(p: Path, c: char)
    requires p != []
    ensures (p + [c])[1..] == p[1..] + [c]
  {
  }

  /** The trie is prefix-closed. */
  lemma InTrieUnsnoc(root: DNode, u: Path, c: char)
    requires InTrie(root, u + [c])
    ensures InTrie(root, u)
  {
    NodeAtPrefix(root, u + [c], u);
  }

  // ---------------------------------------------------------------------------
  // Longest suffixes

  /** The longest suffix s[j..] with j >= k that is a node; the empty suffix,
      the root, always is one. */
  function SuffixFrom(root: DNode, s: Path, k: nat): (r: Path)
    requires k <= |s|
    ensures IsSuffix(r, s) && |r| <= |s| - k && InTrie(root, r)
    ensures forall j | k <= j < |s| - |r| :: !InTrie(root, s[j..])
    decreases |s| - k
  {
    if k == |s| then
      assert s[k..] == [];
      []
    else if InTrie(root, s[k..]) then s[k..]
    else SuffixFrom(root, s, k + 1)
  }

  /** The longest suffix of s that is a node of the trie. */
  function LongestSuffix(root: DNode, s: Path): (r: Path)
    ensures IsSuffix(r, s) && InTrie(root, r)
    ensures forall u | IsSuffix(u, s) && InTrie(root, u) :: |u| <= |r|
  {
    var r := SuffixFrom(root, s, 0);
    assert forall u | IsSuffix(u, s) && |u| > |r| :: u == s[|s| - |u|..];
    r
  }

  /** The failure target Aho-Corasick intends for node p: its longest proper
      suffix that is a node of the trie. */
  function ProperSuffix(root: DNode, p: Path): (r: Path)
    requires p != []
    ensures IsSuffix(r, p) && |r| < |p| && InTrie(root, r)
    ensures forall u | IsSuffix(u, p) && |u| < |p| && InTrie(root, u) :: |u| <= |r|
  {
    var r := LongestSuffix(root, p[1..]);
    SuffixTrans(r, p[1..], p);
    forall u | IsSuffix(u, p) && |u| < |p| && InTrie(root, u)
      ensures |u| <= |r|
    {
      assert IsSuffix(u, p[1..]);
    }
    r
  }

  /** When every node among the suffixes of s that can be extended by c is no
      longer than v, the longest suffix of s + [c] is already a suffix of v + [c]. */
  lemma {:induction false} LongestSnocAgrees(root: DNode, s: Path, v: Path, c: char)
    requires IsSuffix(v, s)
    requires forall u | IsSuffix(u, s) && InTrie(root, u) && InTrie(root, u + [c]) :: |u| <= |v|
    ensures LongestSuffix(root, s + [c]) == LongestSuffix(root, v + [c])
  {
    var a := LongestSuffix(root, s + [c]);
    var b := LongestSuffix(root, v + [c]);
    SuffixSnoc(v, s, c);
    SuffixTrans(b, v + [c], s + [c]);
    assert |b| <= |a|;
    if a != [] {
      SuffixUnsnoc(a, s, c);
      var u := a[..|a| - 1];
      InTrieUnsnoc(root, u, c);
      assert |u| <= |v|;
      SuffixOfSuffix(u, v, s);
      SuffixSnoc(u, v, c);
      assert |a| <= |b|;
    }
    SuffixSameLength(a, b, s + [c]);
  }

  /** The longest suffix of w + [c] only depends on the longest suffix of w. */
  lemma LongestSuffixSnoc(root: DNode, w: Path, c: char)
    ensures LongestSuffix(root, w + [c]) == LongestSuffix(root, LongestSuffix(root, w) + [c])
  {
    LongestSnocAgrees(root, w, LongestSuffix(root, w), c);
  }

  // ---------------------------------------------------------------------------
  // Correct links and the automaton

  /** Every node of length at most n other than the root links to its longest
      proper suffix in the trie. */
  ghost predicate CorrectUpTo(root: DNode, fail: map<Path, Path>, n: nat)
  {
    (forall p | InTrie(root, p) && p != [] && |p| <= n :: p in fail) && Intended(root, fail)
  }

  ghost predicate Correct(root: DNode, fail: map<Path, Path>)
  {
    (forall p | InTrie(root, p) && p != [] :: p in fail) && Intended(root, fail)
  }

  /** Every link the map holds is the intended one. (The trigger is the lookup
      itself, so that knowing a link does not make the solver chase the links of
      all of its suffixes.) */
  ghost predicate Intended(root: DNode, fail: map<Path, Path>)
  {
    forall p {:trigger fail[p]} | p in fail && p != [] :: fail[p] == ProperSuffix(root, p)
  }

  /** With correct links the goto function moves from a node to the longest
      suffix of (node + c) in the trie. */
  lemma {:induction false} NextNodeIsLongestSuffix(root: DNode, fail: map<Path, Path>, curr: Path, c: char)
    requires LinksShrink(fail)
    requires InTrie(root, curr)
    requires CorrectUpTo(root, fail, |curr|)
    ensures NextNode(root, fail, curr, c) == LongestSuffix(root, curr + [c])
    decreases |curr|
  {
    NodeAtSnoc(root, curr, c);
    var s := curr + [c];
    var a := LongestSuffix(root, s);
    if HasChild(root, curr, c) {
      assert IsSuffix(s, s);
      SuffixSameLength(a, s, s);
    } else if curr == [] {
      if a != [] {
        SuffixUnsnoc(a, curr, c);
      }
    } else {
      var f := fail[curr];
      assert FailOf(fail, curr) == f;
      NextNodeIsLongestSuffix(root, fail, f, c);
      forall u | IsSuffix(u, curr) && InTrie(root, u) && InTrie(root, u + [c])
        ensures |u| <= |f|
      {
        if |u| == |curr| {
          SuffixSameLength(u, curr, curr);
        }
      }
      LongestSnocAgrees(root, curr, f, c);
    }
  }

  /** With correct links the state after reading s is the longest suffix of s
      that is a node. */
  lemma {:induction false} RunIsLongestSuffix(t: DTree, s: Path)
    requires LinksShrink(t.failure)
    requires Correct(t.root, t.failure)
    ensures Run(t, s) == LongestSuffix(t.root, s)
    decreases |s|
  {
    if s == [] {
    } else {
      var w := s[..|s| - 1];
      var c := s[|s| - 1];
      assert s == w + [c];
      RunIsLongestSuffix(t, w);
      NextNodeIsLongestSuffix(t.root, t.failure, Run(t, w), c);
      LongestSuffixSnoc(t.root, w, c);
    }
  }

  /** With correct links the failure chain of a node is the list of all of its
      suffixes that are nodes, longest first. */
  lemma {:induction false} ChainIsSuffixes(root: DNode, fail: map<Path, Path>, p: Path)
    requires LinksShrink(fail) && [] !in fail
    requires Correct(root, fail)
    requires InTrie(root, p)
    ensures forall u :: u in Chain(fail, p) <==> IsSuffix(u, p) && InTrie(root, u)
    decreases |p|
  {
    if p != [] {
      var f := fail[p];
      ChainIsSuffixes(root, fail, f);
      assert Chain(fail, p) == [p] + Chain(fail, f);
      forall u
        ensures u in Chain(fail, p) <==> IsSuffix(u, p) && InTrie(root, u)
      {
        if u in Chain(fail, f) {
          SuffixTrans(u, f, p);
        }
        if IsSuffix(u, p) && InTrie(root, u) && u != p {
          SuffixOfSuffix(u, f, p);
        }
      }
    }
  }

  // ---------------------------------------------------------------------------
  // The per-node step of fillFailure, and the links it leaves unchanged

  /** What dynamic.go's fillFailure computes for the child labelled c of
      parent: nextNode from the parent's failure target (the root for the root,
      whose link is the transient self-loop), replaced by the root if it found
      the child itself. */
  function Step(root: DNode, fail: map<Path, Path>, parent: Path, c: char): (r: Path)
    requires LinksShrink(fail) && [] !in fail
    ensures |r| < |parent| + 1
  {
    var q := parent + [c];
    var f := NextNode(root, fail, FailOf(fail, parent), c);
    if f == q then [] else f
  }

  /** The step yields the intended link as soon as every strictly shorter node
      already holds its intended link. */
  lemma StepIsProperSuffix(root: DNode, fail: map<Path, Path>, parent: Path, c: char)
    requires LinksShrink(fail) && [] !in fail
    requires InTrie(root, parent + [c])
    requires CorrectUpTo(root, fail, |parent|)
    ensures Step(root, fail, parent, c) == ProperSuffix(root, parent + [c])
  {
    if parent == [] {
      var q := parent + [c];
      InTrieUnsnoc(root, parent, c);
      NodeAtSnoc(root, [], c);
      assert [] + [c] == q;
      assert ProperSuffix(root, q) == [];
    } else {
      StepBelowRoot(root, fail, parent, c);
    }
  }

  lemma StepBelowRoot(root: DNode, fail: map<Path, Path>, parent: Path, c: char)
    requires LinksShrink(fail) && [] !in fail && parent != []
    requires InTrie(root, parent + [c])
    requires CorrectUpTo(root, fail, |parent|)
    ensures Step(root, fail, parent, c) == ProperSuffix(root, parent + [c])
  {
    InTrieUnsnoc(root, parent, c);
    var pf := fail[parent];
    TailSnoc(parent, c);
    NextNodeIsLongestSuffix(root, fail, pf, c);
    ParentLinkBound(root, parent, pf, c);
    LongestSnocAgrees(root, parent[1..], pf, c);
  }

  /** The parent's intended link is the longest suffix of its tail that is a
      node, so no longer suffix of the tail extends by c in the trie. */
  lemma ParentLinkBound(root: DNode, parent: Path, pf: Path, c: char)
    requires parent != [] && pf == ProperSuffix(root, parent)
    ensures IsSuffix(pf, parent[1..])
    ensures forall u | IsSuffix(u, parent[1..]) && InTrie(root, u) && InTrie(root, u + [c]) :: |u| <= |pf|
  {
    SuffixOfSuffix(pf, parent[1..], parent);
    forall u | IsSuffix(u, parent[1..]) && InTrie(root, u) && InTrie(root, u + [c])
      ensures |u| <= |pf|
    {
      SuffixTrans(u, parent[1..], parent);
    }
  }

  /** The corrected FillFailure: every node other than the root links to its
      longest proper suffix in the trie. */
  function FillFailure(t: DTree): (r: DTree)
    ensures r.root == t.root && r.lastEdgeID == t.lastEdgeID
    ensures [] !in r.failure && LinksShrink(r.failure)
    ensures forall p :: p in r.failure <==> p in AllPaths(t.root) && p != []
  {
    DTree(t.root, t.lastEdgeID, map p | p in AllPaths(t.root) && p != [] :: ProperSuffix(t.root, p))
  }

  /** After the corrected fill the tree is still valid and every node other than
      the root links to its longest proper suffix in the trie (never itself). */
  lemma FillFailureCorrect(t: DTree)
    requires Valid(t)
    ensures Valid(FillFailure(t))
    ensures Correct(t.root, FillFailure(t).failure)
  {
    var r := FillFailure(t);
    forall p | InTrie(t.root, p) && p != []
      ensures p in r.failure
    {
      AllPathsLookup(t.root, p);
    }
    SameRootValid(t, r);
  }

  /** The corrected links are exactly what the per-node step of fillFailure
      computes once the links it reads (those of strictly shorter nodes) are
      final, so an order that fills every shorter node first would reach them;
      the depth-first order of dynamic.go does not (see the example below). */
  lemma FillFailureIsStepFixpoint(t: DTree, parent: Path, c: char)
    requires Valid(t)
    requires parent + [c] in AllPaths(t.root)
    ensures var fail := FillFailure(t).failure;
      Step(t.root, fail, parent, c) == fail[parent + [c]]
  {
    FillFailureCorrect(t);
    AllPathsLookup(t.root, parent + [c]);
    StepIsProperSuffix(t.root, FillFailure(t).failure, parent, c);
  }

  // ---------------------------------------------------------------------------
  // What a scan reports

  /** A node of c contributes its match exactly when it carries an edge id. */
  lemma {:induction false} ChainNodesMember(t: DTree, c: seq<Path>, x: ScanNode)
    ensures x in ChainNodes(t, c) <==>
      exists i | 0 <= i < |c| :: IsKey(t, c[i]) && x == ScanNode(IdAt(t, c[i]), LevelAt(t, c[i]))
    decreases |c|
  {
    if c != [] {
      ChainNodesMember(t, c[1..], x);
      if x in ChainNodes(t, c[1..]) {
        var i :| 0 <= i < |c[1..]| && IsKey(t, c[1..][i]) && x == ScanNode(IdAt(t, c[1..][i]), LevelAt(t, c[1..][i]));
        assert c[i + 1] == c[1..][i];
      }
      forall i | 1 <= i < |c| && IsKey(t, c[i]) && x == ScanNode(IdAt(t, c[i]), LevelAt(t, c[i]))
        ensures x in ChainNodes(t, c[1..])
      {
        assert c[1..][i - 1] == c[i];
      }
    }
  }

  /** Strictly decreasing levels: longest match first. */
  predicate Decreasing(r: seq<ScanNode>)
  {
    forall i, k | 0 <= i < k < |r| :: r[i].level > r[k].level
  }

  /** In a valid tree the matches of one event come longest key first, since
      every failure link is shorter than its node. */
  lemma {:induction false} ChainNodesLongestFirst(t: DTree, c: seq<Path>)
    requires Valid(t)
    requires forall i | 0 < i < |c| :: |c[i]| < |c[i - 1]|
    ensures Decreasing(ChainNodes(t, c))
    ensures forall x | x in ChainNodes(t, c) :: c != [] && x.level <= |c[0]|
    decreases |c|
  {
    if c != [] {
      ChainNodesLongestFirst(t, c[1..]);
      var rest := ChainNodes(t, c[1..]);
      forall x | x in rest
        ensures x.level < |c[0]|
      {
        assert |c[1..][0]| < |c[0]|;
      }
      if IsKey(t, c[0]) {
        assert ChainNodes(t, c) == [ScanNode(IdAt(t, c[0]), LevelAt(t, c[0]))] + rest;
        assert LevelAt(t, c[0]) == |c[0]|;
        DecreasingCons(ScanNode(IdAt(t, c[0]), LevelAt(t, c[0])), rest);
      }
    }
  }

  /** A match longer than every one of a decreasing list can go in front. */
  lemma DecreasingCons(x: ScanNode, rest: seq<ScanNode>)
    requires Decreasing(rest) && forall y | y in rest :: y.level < x.level
    ensures Decreasing([x] + rest)
  {
    var r := [x] + rest;
    forall i, k | 0 <= i < k < |r|
      ensures r[i].level > r[k].level
    {
      assert r[k] == rest[k - 1] && rest[k - 1] in rest;
      if i > 0 {
        assert r[i] == rest[i - 1];
      }
    }
  }

  /** The matches of every scan event come longest first (for any links a
      valid tree can hold, including those of the depth-first pass). */
  lemma ScanNodesLongestFirst(t: DTree, s: seq<char>, j: nat)
    requires Valid(t)
    requires j < |s|
    ensures Decreasing(EventAt(t, s, j).nodes)
  {
    var c := Chain(t.failure, Run(t, s[..j + 1]));
    assert EventAt(t, s, j).nodes == ChainNodes(t, c);
    ChainNodesLongestFirst(t, c);
  }

  /** The Aho-Corasick guarantee for the corrected links: the event for the rune
      at position j reports every key that ends there (is a suffix of s[..j+1]),
      with its id and length, and nothing else. */
  lemma ScanReportsKeysEndingHere(t: DTree, s: seq<char>, j: nat)
    requires Valid(t)
    requires j < |s|
    ensures var ev := EventAt(FillFailure(t), s, j);
      && (forall u | IsSuffix(u, s[..j + 1]) && IsKey(t, u) :: ScanNode(IdAt(t, u), |u|) in ev.nodes)
      && (forall x | x in ev.nodes ::
            exists u :: IsSuffix(u, s[..j + 1]) && IsKey(t, u) && x == ScanNode(IdAt(t, u), |u|))
  {
    ScanReportsEveryKey(t, s, j);
    ScanReportsOnlyKeys(t, s, j);
  }

  /** The first half: every key ending at rune j is in the event. */
  lemma ScanReportsEveryKey(t: DTree, s: seq<char>, j: nat)
    requires Valid(t)
    requires j < |s|
    ensures forall u | IsSuffix(u, s[..j + 1]) && IsKey(t, u) ::
      ScanNode(IdAt(t, u), |u|) in EventAt(FillFailure(t), s, j).nodes
  {
    var f := FillFailure(t);
    var w := s[..j + 1];
    FillFailureCorrect(t);
    RunIsLongestSuffix(f, w);
    var p := Run(f, w);
    ChainIsSuffixes(f.root, f.failure, p);
    var c := Chain(f.failure, p);
    var nodes := EventAt(f, s, j).nodes;
    assert nodes == ChainNodes(f, c);
    forall u | IsSuffix(u, w) && IsKey(t, u)
      ensures ScanNode(IdAt(t, u), |u|) in nodes
    {
      assert InTrie(t.root, u);
      SuffixOfSuffix(u, p, w);
      assert u in c;
      assert IdAt(f, u) == IdAt(t, u) && LevelAt(f, u) == |u|;
      KeyInChainNodes(f, c, u);
    }
  }

  /** A key on the chain is reported with its id and level. */
  lemma KeyInChainNodes(f: DTree, c: seq<Path>, u: Path)
    requires u in c && IsKey(f, u)
    ensures ScanNode(IdAt(f, u), LevelAt(f, u)) in ChainNodes(f, c)
  {
    var i :| 0 <= i < |c| && c[i] == u;
    ChainNodesMember(f, c, ScanNode(IdAt(f, u), LevelAt(f, u)));
  }

  /** The second half: everything in the event is a key ending at rune j. */
  lemma ScanReportsOnlyKeys(t: DTree, s: seq<char>, j: nat)
    requires Valid(t)
    requires j < |s|
    ensures forall x | x in EventAt(FillFailure(t), s, j).nodes ::
      exists u :: IsSuffix(u, s[..j + 1]) && IsKey(t, u) && x == ScanNode(IdAt(t, u), |u|)
  {
    var f := FillFailure(t);
    var w := s[..j + 1];
    FillFailureCorrect(t);
    RunIsLongestSuffix(f, w);
    var p := Run(f, w);
    ChainIsSuffixes(f.root, f.failure, p);
    var c := Chain(f.failure, p);
    var nodes := EventAt(f, s, j).nodes;
    assert nodes == ChainNodes(f, c);
    forall x | x in nodes
      ensures exists u :: IsSuffix(u, w) && IsKey(t, u) && x == ScanNode(IdAt(t, u), |u|)
    {
      ChainNodesMember(f, c, x);
      var i :| 0 <= i < |c| && IsKey(f, c[i]) && x == ScanNode(IdAt(f, c[i]), LevelAt(f, c[i]));
      var u := c[i];
      assert u in c;
      SuffixTrans(u, p, w);
      assert IdAt(f, u) == IdAt(t, u) && LevelAt(f, u) == LevelAt(t, u);
      assert IsKey(t, u);
    }
  }


  // ---------------------------------------------------------------------------
  // The depth-first pass against the intended links

  /** The trie of the keys "abcd", "bc", "cd", put in that order (ids 1, 2, 3). */
  function Example(): DTree
  {
    DTree(DNode(0 as char, Branch(Leaf, ExampleA(), Branch(Leaf, ExampleB(), Branch(Leaf, ExampleC(), Leaf))), 0, 0), 3, map[])
  }

  function ExampleA(): DNode
  {
    DNode('a', Branch(Leaf, DNode('b', Branch(Leaf, DNode('c', Branch(Leaf, DNode('d', Leaf, 1, 4), Leaf), 0, 0), Leaf), 0, 0), Leaf), 0, 0)
  }

  function ExampleB(): DNode
  {
    DNode('b', Branch(Leaf, DNode('c', Leaf, 2, 2), Leaf), 0, 0)
  }

  function ExampleC(): DNode
  {
    DNode('c', Branch(Leaf, DNode('d', Leaf, 3, 2), Leaf), 0, 0)
  }

  lemma ExamplePut1()
    ensures Put(Empty(), "abcd") == (DTree(DNode(0 as char, Branch(Leaf, ExampleA(), Leaf), 0, 0), 1, map[]), 1)
  {
    assert "abcd"[1..] == "bcd" && "bcd"[1..] == "cd" && "cd"[1..] == "d" && "d"[1..] == [];
    var d1 := DNode('d', Leaf, 1, 4);
    assert PutNode(NewNode('d'), [], 4, 0) == (d1, 1, 1);
    var c1 := DNode('c', Branch(Leaf, d1, Leaf), 0, 0);
    assert PutNode(NewNode('c'), "d", 3, 0) == (c1, 1, 1);
    var b1 := DNode('b', Branch(Leaf, c1, Leaf), 0, 0);
    assert PutNode(NewNode('b'), "cd", 2, 0) == (b1, 1, 1);
    assert PutNode(NewNode('a'), "bcd", 1, 0) == (ExampleA(), 1, 1);
  }

  lemma ExamplePut2()
    ensures var t1 := DTree(DNode(0 as char, Branch(Leaf, ExampleA(), Leaf), 0, 0), 1, map[]);
      Put(t1, "bc") == (DTree(DNode(0 as char, Branch(Leaf, ExampleA(), Branch(Leaf, ExampleB(), Leaf)), 0, 0), 2, map[]), 2)
  {
    assert "bc"[1..] == "c" && "c"[1..] == [];
    var c2 := DNode('c', Leaf, 2, 2);
    assert PutNode(NewNode('c'), [], 2, 1) == (c2, 2, 2);
    assert PutNode(NewNode('b'), "c", 1, 1) == (ExampleB(), 2, 2);
  }

  lemma ExamplePut3()
    ensures var t2 := DTree(DNode(0 as char, Branch(Leaf, ExampleA(), Branch(Leaf, ExampleB(), Leaf)), 0, 0), 2, map[]);
      Put(t2, "cd") == (Example(), 3)
  {
    assert "cd"[1..] == "d" && "d"[1..] == [];
    var d3 := DNode('d', Leaf, 3, 2);
    assert PutNode(NewNode('d'), [], 2, 2) == (d3, 3, 3);
    var c3 := DNode('c', Branch(Leaf, d3, Leaf), 0, 0);
    assert PutNode(NewNode('c'), "d", 1, 2) == (c3, 3, 3);
  }

  lemma PutAllCons(t: DTree, keys: seq<Path>)
    requires keys != []
    ensures PutAll(t, keys).0 == PutAll(Put(t, keys[0]).0, keys[1..]).0
    ensures PutAll(t, keys).1 == [Put(t, keys[0]).1] + PutAll(Put(t, keys[0]).0, keys[1..]).1
  {
  }

  /** Example() is what Put builds from the empty tree. */
  lemma ExampleIsPut()
    ensures PutAll(Empty(), ["abcd", "bc", "cd"]) == (Example(), [1, 2, 3])
  {
    ExamplePut1();
    ExamplePut2();
    ExamplePut3();
    var t1 := DTree(DNode(0 as char, Branch(Leaf, ExampleA(), Leaf), 0, 0), 1, map[]);
    var t2 := DTree(DNode(0 as char, Branch(Leaf, ExampleA(), Branch(Leaf, ExampleB(), Leaf)), 0, 0), 2, map[]);
    assert ["abcd", "bc", "cd"][1..] == ["bc", "cd"] && ["bc", "cd"][1..] == ["cd"] && ["cd"][1..] == [];
    assert ["abcd", "bc", "cd"][0] == "abcd" && ["bc", "cd"][0] == "bc" && ["cd"][0] == "cd";
    assert PutAll(Example(), []) == (Example(), []);
    PutAllCons(t2, ["cd"]);
    assert Put(t2, "cd") == (Example(), 3);
    assert Put(t2, ["cd"][0]) == (Example(), 3);
    assert PutAll(Example(), ["cd"][1..]) == (Example(), []);
    assert PutAll(t2, ["cd"]).0 == Example();
    assert PutAll(t2, ["cd"]).1 == [3];
    assert PutAll(t2, ["cd"]) == (Example(), [3]);
    PutAllCons(t1, ["bc", "cd"]);
    assert Put(t1, ["bc", "cd"][0]) == (t2, 2);
    assert PutAll(t1, ["bc", "cd"]).0 == Example();
    assert PutAll(t1, ["bc", "cd"]).1 == [2] + [3] == [2, 3];
    assert PutAll(t1, ["bc", "cd"]) == (Example(), [2, 3]);
    PutAllCons(Empty(), ["abcd", "bc", "cd"]);
    assert Put(Empty(), ["abcd", "bc", "cd"][0]) == (t1, 1);
    assert PutAll(Empty(), ["abcd", "bc", "cd"]).0 == Example();
    assert PutAll(Empty(), ["abcd", "bc", "cd"]).1 == [1] + [2, 3] == [1, 2, 3];
  }

  /** The links the depth-first pass has written after visiting the first k
      nodes of the "a" branch (with the root's transient self-loop). */
  function ExampleDfsLinks(k: nat): map<Path, Path>
  {
    var m: map<Path, Path> := map[[] := []];
    var m := if k >= 1 then m["a" := []] else m;
    var m := if k >= 2 then m["ab" := "b"] else m;
    var m := if k >= 3 then m["abc" := "bc"] else m;
    if k >= 4 then m["abcd" := []] else m
  }

  /** The goto steps the pass takes in the "a" branch. (Here and below the
      root is a parameter so that the solver unfolds the pass step by step
      instead of evaluating it on the literal tree.) */
  lemma ExampleGotoSteps(root: DNode)
    requires root == Example().root
    ensures NextNode(root, ExampleDfsLinks(0), [], 'a') == "a"
    ensures NextNode(root, ExampleDfsLinks(1), [], 'b') == "b"
    ensures NextNode(root, ExampleDfsLinks(2), "b", 'c') == "bc"
    ensures NextNode(root, ExampleDfsLinks(3), "bc", 'd') == []
  {
    assert NodeAt(root, "bc").Some? by {
      assert "bc"[1..] == "c";
    }
    NodeAtSnoc(root, "b", 'c');
    assert "b" + ['c'] == "bc";
    NodeAtSnoc(root, "bc", 'd');
    assert "bc"[1..] == "c" && "c"[1..] == [];
  }

  lemma ExampleFillD(root: DNode)
    requires root == Example().root
    ensures FillSibAsWritten(root, ExampleDfsLinks(3), ExampleA().child.node.child.node.child, "abc", "bc") == ExampleDfsLinks(4)
  {
    ExampleGotoSteps(root);
    ExamplePaths();
  }

  lemma ExampleFillC(root: DNode)
    requires root == Example().root
    ensures FillSibAsWritten(root, ExampleDfsLinks(2), ExampleA().child.node.child, "ab", "b") == ExampleDfsLinks(4)
  {
    ExampleGotoSteps(root);
    ExampleFillD(root);
    ExamplePaths();
    assert ExampleDfsLinks(3)["abc"] == "bc";
  }

  lemma ExampleFillB(root: DNode, sib: Sib, m1: map<Path, Path>, m4: map<Path, Path>)
    requires root == Example().root && sib == ExampleA().child
    requires m1 == ExampleDfsLinks(1) && m4 == ExampleDfsLinks(4)
    ensures FillSibAsWritten(root, m1, sib, "a", []) == m4
  {
    ExampleGotoSteps(root);
    ExampleFillC(root);
    ExamplePaths();
    ExampleLinksFacts();
    OnlyChildPass(root, m1, sib, "a", [], sib.node, "b");
  }

  /** The sibling walk of a node with one child b: b's link is f, then b's
      subtree is filled. */
  lemma OnlyChildPass(root: DNode, m: map<Path, Path>, sib: Sib, parent: Path, pf: Path, b: DNode, f: Path)
    requires LinksShrink(m) && (|pf| < |parent| || (parent == [] && pf == []))
    requires sib == Branch(Leaf, b, Leaf)
    requires NextNode(root, m, pf, b.rune) == f && f != parent + [b.rune]
    ensures LinksShrink(m[parent + [b.rune] := f])
    ensures FillSibAsWritten(root, m, sib, parent, pf) == FillNodeAsWritten(root, m[parent + [b.rune] := f], b, parent + [b.rune])
  {
    assert FillSibAsWritten(root, m, Leaf, parent, pf) == m;
  }

  /** The pass from the root: the "a" branch first, then the rest of the root's
      children. */
  lemma ExampleFillRoot(root: DNode, rest: Sib, m0: map<Path, Path>, m4: map<Path, Path>)
    requires root == Example().root && rest == root.child.high
    requires m0 == ExampleDfsLinks(0) && m4 == ExampleDfsLinks(4)
    ensures FillNodeAsWritten(root, m0, root, []) == FillSibAsWritten(root, m4, rest, [], [])
  {
    var a, m1 := ExampleA(), ExampleDfsLinks(1);
    ExampleGotoSteps(root);
    ExampleLinksFacts();
    assert root.child == Branch(Leaf, a, rest);
    ExampleFillA(root, a, m1, m4);
    FirstChildPass(root, m0, a, rest, m1, m4);
  }

  lemma ExampleFillA(root: DNode, a: DNode, m1: map<Path, Path>, m4: map<Path, Path>)
    requires root == Example().root && a == ExampleA()
    requires m1 == ExampleDfsLinks(1) && m4 == ExampleDfsLinks(4)
    ensures "a" in m1 && LinksShrink(m1)
    ensures FillNodeAsWritten(root, m1, a, "a") == m4
  {
    ExampleFillB(root, a.child, m1, m4);
    ExampleLinksFacts();
  }

  /** One step of the root's sibling walk when the smallest child has nothing
      below it in the sibling tree and falls back to the root. */
  lemma FirstChildPass(root: DNode, m0: map<Path, Path>, a: DNode, rest: Sib, m1: map<Path, Path>, m4: map<Path, Path>)
    requires LinksShrink(m0) && [] in m0 && m0[[]] == []
    requires root.child == Branch(Leaf, a, rest)
    requires NextNode(root, m0, [], a.rune) == [a.rune]
    requires m1 == m0[[a.rune] := []] && LinksShrink(m1)
    requires FillNodeAsWritten(root, m1, a, [a.rune]) == m4
    ensures FillNodeAsWritten(root, m0, root, []) == FillSibAsWritten(root, m4, rest, [], [])
  {
    var q := [] + [a.rune];
    assert q == [a.rune];
    assert FillSibAsWritten(root, m0, Leaf, [], []) == m0;
    assert FillSibAsWritten(root, m0, root.child, [], [])
      == FillSibAsWritten(root, FillNodeAsWritten(root, m1, a, q), rest, [], []);
  }

  lemma ExamplePaths()
    ensures "a" + ['b'] == "ab" && "ab" + ['c'] == "abc" && "abc" + ['d'] == "abcd"
  {
  }

  lemma ExampleLinksFacts()
    ensures ExampleDfsLinks(1)["a"] == []
    ensures ExampleDfsLinks(1)["ab" := "b"] == ExampleDfsLinks(2)
    ensures ExampleDfsLinks(0)["a" := []] == ExampleDfsLinks(1)
    ensures Example().failure[[] := []] == ExampleDfsLinks(0)
    ensures "abcd" in ExampleDfsLinks(4) && ExampleDfsLinks(4)["abcd"] == []
  {
  }

  /** The depth-first pass fills the whole "a" subtree before "b" and "c" have
      links, so "abcd" falls back to the root although "cd" is a node. */
  lemma DepthFirstExampleLink(t: DTree)
    requires t == Example()
    ensures "abcd" in FillFailureAsWritten(t).failure
    ensures FillFailureAsWritten(t).failure["abcd"] == []
  {
    var rest := t.root.child.high;
    var m0, m4 := ExampleDfsLinks(0), ExampleDfsLinks(4);
    ExampleFillRoot(t.root, rest, m0, m4);
    ExampleStart(t, m0);
    ExampleEnd(rest, m4);
    LaterSiblingsKeepLink(t, rest, m4, "abcd");
  }

  lemma ExampleStart(t: DTree, m0: map<Path, Path>)
    requires t == Example() && m0 == ExampleDfsLinks(0)
    ensures LinksShrink(t.failure) && t.failure[[] := []] == m0
  {
    ExampleLinksFacts();
  }

  lemma ExampleEnd(rest: Sib, m4: map<Path, Path>)
    requires rest == Example().root.child.high && m4 == ExampleDfsLinks(4)
    ensures 'a' !in Labels(rest)
    ensures LinksShrink(m4) && "abcd" in m4 && m4["abcd"] == []
  {
    ExampleLinksFacts();
  }

  /** When the root's pass ends with the siblings in rest, a link of a node
      outside those siblings' subtrees is the one it had before them. */
  lemma LaterSiblingsKeepLink(t: DTree, rest: Sib, m: map<Path, Path>, x: Path)
    requires LinksShrink(t.failure) && LinksShrink(m)
    requires FillNodeAsWritten(t.root, t.failure[[] := []], t.root, []) == FillSibAsWritten(t.root, m, rest, [], [])
    requires x != [] && x[0] !in Labels(rest) && x in m
    ensures x in FillFailureAsWritten(t).failure && FillFailureAsWritten(t).failure[x] == m[x]
  {
    FillSibFrame(t.root, m, rest, [], [], x);
  }

  /** Scanning follows the trie as long as the text spells a node. */
  lemma {:induction false} RunFollowsTrie(t: DTree, s: seq<char>)
    requires LinksShrink(t.failure)
    requires NodeAt(t.root, s).Some?
    ensures Run(t, s) == s
    decreases |s|
  {
    if s != [] {
      var p, c := s[..|s| - 1], s[|s| - 1];
      assert s == p + [c];
      NodeAtPrefix(t.root, s, p);
      RunFollowsTrie(t, p);
      NodeAtSnoc(t.root, p, c);
      assert HasChild(t.root, p, c);
    }
  }

  lemma ExampleValid(t: DTree)
    requires t == Example()
    ensures Valid(t)
  {
    var keys: seq<Path> := ["abcd", "bc", "cd"];
    EmptyValid();
    forall i | 0 <= i < |keys|
      ensures !IsKey(Empty(), keys[i])
    {
      assert Get(Empty().root.child, keys[i][0]).None?;
    }
    DistinctKeysGetConsecutiveIds(Empty(), keys);
    ExampleIsPut();
  }

  /** Ids and levels of the example's keys, for any tree sharing its nodes. */
  lemma ExampleKeys(w: DTree)
    requires w.root == Example().root
    ensures NodeAt(w.root, "abcd").Some? && IdAt(w, "abcd") == 1 && LevelAt(w, "abcd") == 4
    ensures IdAt(w, "cd") == 3 && IdAt(w, []) == 0
  {
  }

  /** The event for the last rune of a node's own path, when that node links
      straight to the root: it reports the node alone. */
  lemma RootLinkedEvent(w: DTree, s: seq<char>)
    requires LinksShrink(w.failure) && [] !in w.failure
    requires s != [] && NodeAt(w.root, s).Some?
    requires s in w.failure && w.failure[s] == [] && IdAt(w, []) == 0
    ensures EventAt(w, s, |s| - 1).nodes == Keyed(w, s)
  {
    assert s[..|s|] == s;
    RunFollowsTrie(w, s);
    assert Chain(w.failure, s) == [s, []];
    assert ChainNodes(w, [s, []]) == Keyed(w, s) + Keyed(w, []) + ChainNodes(w, []);
  }

  /** With the depth-first links, the event for the last rune of "abcd" reports
      only "abcd" (id 1, level 4): the key "cd" (id 3) ending there is missed. */
  lemma DepthFirstScanMissesKey(t: DTree, w: DTree)
    requires t == Example() && w == FillFailureAsWritten(t)
    ensures EventAt(w, "abcd", 3).nodes == [ScanNode(1, 4)]
  {
    DepthFirstExampleLink(t);
    ExampleValid(t);
    FillFailureAsWrittenValid(t);
    ExampleKeys(w);
    RootLinkedEvent(w, "abcd");
  }

  /** A key that is a suffix of the text read so far is reported in the event
      for the text's last rune. */
  lemma KeyEndingHereReported(t: DTree, s: seq<char>, u: Path)
    requires Valid(t)
    requires s != [] && IsSuffix(u, s) && IsKey(t, u)
    ensures ScanNode(IdAt(t, u), |u|) in EventAt(FillFailure(t), s, |s| - 1).nodes
  {
    var j := |s| - 1;
    ScanReportsKeysEndingHere(t, s, j);
    assert s[..j + 1] == s;
    assert IsSuffix(u, s[..j + 1]);
  }

  /** With the corrected links the same event also reports "cd" (id 3, level 2). */
  lemma CorrectedScanFindsKey(t: DTree)
    requires t == Example()
    ensures ScanNode(3, 2) in EventAt(FillFailure(t), "abcd", 3).nodes
    ensures ScanNode(1, 4) in EventAt(FillFailure(t), "abcd", 3).nodes
  {
    ExampleValid(t);
    ExampleKeys(t);
    assert IsSuffix("cd", "abcd") && IsSuffix("abcd", "abcd");
    KeyEndingHereReported(t, "abcd", "cd");
    KeyEndingHereReported(t, "abcd", "abcd");
  }
}
