/** The growable trie (dynamic.go): insertion with dense edge ids, exact lookup,
    the goto function, the depth-first failure-link pass, counting, scanning and
    longest-prefix lookup. Nodes are identified by the path that spells them. */
module Dynamic {
  import opened Base
  import opened Siblings

  /** DTree. Go's Failure pointers are the `failure` map from a node's path to the
      path of its failure target; a path missing from the map is a nil pointer. */
  datatype DTree = DTree(root: DNode, lastEdgeID: int, failure: map<Path, Path>)

  /** The zero value `DTree{}`: a childless root labelled with rune 0, no ids, no links. */
  function Empty(): DTree
  {
    DTree(NewNode(0 as char), 0, map[])
  }

  /** Every sibling tree below (and including) n's children is in search-tree order. */
  ghost predicate Sorted(n: DNode)
  {
    Ordered(n.child) && SortedSib(n.child)
  }

  ghost predicate SortedSib(s: Sib)
  {
    match s
    case Leaf => true
    case Branch(l, m, h) => SortedSib(l) && Sorted(m) && SortedSib(h)
  }

  /** The node reached from n by exact child lookup along p, if any. */
  function NodeAt(n: DNode, p: Path): Option<DNode>
    decreases |p|
  {
    if p == [] then Some(n)
    else match Get(n.child, p[0])
      case None => None
      case Some(m) => NodeAt(m, p[1..])
  }

  /** The set of all paths of n's subtree, built by structure (no lookups). */
  function AllPaths(n: DNode): set<Path>
  {
    {[]} + SibPaths(n.child)
  }

  function SibPaths(s: Sib): set<Path>
  {
    match s
    case Leaf => {}
    case Branch(l, m, h) => SibPaths(l) + (set q | q in AllPaths(m) :: [m.rune] + q) + SibPaths(h)
  }

  /** Edge id of the node at p, 0 when there is no node (Go's nil has no id). */
  function IdAt(t: DTree, p: Path): int
  {
    match NodeAt(t.root, p)
    case None => 0
    case Some(n) => n.edgeId
  }

  ghost predicate IsKey(t: DTree, p: Path)
  {
    IdAt(t, p) > 0
  }

  /** The level recorded at the node for p. */
  function LevelAt(t: DTree, p: Path): int
  {
    match NodeAt(t.root, p)
    case None => 0
    case Some(n) => n.level
  }

  /** Some node carries edge id i. */
  ghost predicate IdTaken(t: DTree, i: int)
  {
    exists p :: IdAt(t, p) == i
  }

  /** Failure links only point to strictly shorter paths, except the root's
      transient self-loop during FillFailure. */
  ghost predicate LinksShrink(fail: map<Path, Path>)
  {
    forall p | p in fail && p != [] :: |fail[p]| < |p|
  }

  ghost predicate LinksInTrie(root: DNode, fail: map<Path, Path>)
  {
    forall p | p in fail :: NodeAt(root, fail[p]).Some?
  }

  /** The invariant every DTree reachable through Put and FillFailure keeps:
      ordered siblings, ids 1..lastEdgeID each owned by exactly one node,
      the level of a keyed node equal to its rune count, and failure links
      that point into the trie, to shorter paths, with the root's link nil. */
  ghost predicate Valid(t: DTree)
  {
    && Sorted(t.root)
    && t.lastEdgeID >= 0
    && (forall p :: 0 <= IdAt(t, p) <= t.lastEdgeID)
    && (forall p, q | IsKey(t, p) && IdAt(t, p) == IdAt(t, q) :: p == q)
    && (forall i | 1 <= i <= t.lastEdgeID :: IdTaken(t, i))
    && (forall p | IsKey(t, p) :: LevelAt(t, p) == |p|)
    && LinksShrink(t.failure)
    && [] !in t.failure
    && LinksInTrie(t.root, t.failure)
  }

  // ---------------------------------------------------------------------------
  // Lookup facts

  lemma {:induction false} NodeAtSnoc(n: DNode, p: Path, c: char)
    ensures NodeAt(n, p + [c]) ==
      (match NodeAt(n, p) case None => None case Some(m) => Get(m.child, c))
    decreases |p|
  {
    if p == [] {
      assert p + [c] == [c];
      assert [c][1..] == [];
    } else {
      assert (p + [c])[0] == p[0];
      assert (p + [c])[1..] == p[1..] + [c];
      match Get(n.child, p[0])
      case None =>
      case Some(m) => NodeAtSnoc(m, p[1..], c);
    }
  }

  lemma {:induction false} NodeAtAppend(n: DNode, p: Path, q: Path)
    ensures NodeAt(n, p + q) ==
      (match NodeAt(n, p) case None => None case Some(m) => NodeAt(m, q))
    decreases |p|
  {
    if p == [] {
      assert p + q == q;
    } else {
      assert (p + q)[0] == p[0];
      assert (p + q)[1..] == p[1..] + q;
      match Get(n.child, p[0])
      case None =>
      case Some(m) => NodeAtAppend(m, p[1..], q);
    }
  }

  /** A path exists only if all its prefixes do. */
  lemma NodeAtPrefix(n: DNode, p: Path, q: Path)
    requires q <= p
    requires NodeAt(n, p).Some?
    ensures NodeAt(n, q).Some?
  {
    assert p == q + p[|q|..];
    NodeAtAppend(n, q, p[|q|..]);
  }

  lemma SortedChild(s: Sib, c: char)
    requires SortedSib(s)
    requires Get(s, c).Some?
    ensures Sorted(Get(s, c).value)
  {
    match s
    case Branch(l, m, h) =>
      if c == m.rune {
      } else if c < m.rune {
        SortedChild(l, c);
      } else {
        SortedChild(h, c);
      }
  }

  lemma {:induction false} SortedNodeAt(n: DNode, p: Path)
    requires Sorted(n)
    requires NodeAt(n, p).Some?
    ensures Sorted(NodeAt(n, p).value)
    decreases |p|
  {
    if p != [] {
      var m := Get(n.child, p[0]).value;
      SortedChild(n.child, p[0]);
      SortedNodeAt(m, p[1..]);
    }
  }

  /** Paths of the structure are exactly the paths lookup can follow (in an ordered trie). */
  lemma {:induction false} AllPathsLookup(n: DNode, p: Path)
    requires Sorted(n)
    ensures p in AllPaths(n) <==> NodeAt(n, p).Some?
    decreases |p|
  {
    if p != [] {
      SibPathsLookup(n.child, p[0], p[1..]);
      assert p == [p[0]] + p[1..];
      match Get(n.child, p[0])
      case None =>
      case Some(m) =>
        SortedChild(n.child, p[0]);
        AllPathsLookup(m, p[1..]);
    }
  }

  lemma {:induction false} SibPathsLookup(s: Sib, c: char, q: Path)
    requires Ordered(s) && SortedSib(s)
    ensures [c] + q in SibPaths(s) <==> (Get(s, c).Some? && q in AllPaths(Get(s, c).value))
  {
    match s
    case Leaf =>
    case Branch(l, m, h) =>
      SibPathsLookup(l, c, q);
      SibPathsLookup(h, c, q);
      var mid := set x | x in AllPaths(m) :: [m.rune] + x;
      if [c] + q in mid {
        var x :| x in AllPaths(m) && [m.rune] + x == [c] + q;
        assert ([m.rune] + x)[0] == m.rune && ([c] + q)[0] == c;
        assert ([m.rune] + x)[1..] == x && ([c] + q)[1..] == q;
      }
      if c == m.rune && q in AllPaths(m) {
        assert [c] + q in mid;
      }
      if c < m.rune {
        assert c !in Labels(h);
        if [c] + q in SibPaths(h) {
          SibPathsHead(h, [c] + q);
        }
      }
      if m.rune < c {
        assert c !in Labels(l);
        if [c] + q in SibPaths(l) {
          SibPathsHead(l, [c] + q);
        }
      }
  }

  /** Every non-empty path of a sibling tree starts with one of its labels. */
  lemma {:induction false} SibPathsHead(s: Sib, p: Path)
    requires p in SibPaths(s)
    ensures p != [] && p[0] in Labels(s)
  {
    match s
    case Branch(l, m, h) =>
      if p in SibPaths(l) {
        SibPathsHead(l, p);
      } else if p in SibPaths(h) {
        SibPathsHead(h, p);
      } else {
        var x :| x in AllPaths(m) && p == [m.rune] + x;
      }
  }

  // ---------------------------------------------------------------------------
  // Put

  /** The walk of DTree.Put below n: dig one child per remaining rune, then give the
      end node an id (the next one, last + 1, when it has none) and the level. */
  function PutNode(n: DNode, k: Path, level: int, last: int): (r: (DNode, int, int))
    ensures r.0.rune == n.rune
    ensures var prev := NodeAt(n, k);
      var isNew := !(prev.Some? && prev.value.edgeId > 0);
      && r.1 == (if isNew then last + 1 else prev.value.edgeId)
      && r.2 == (if isNew then last + 1 else last)
    ensures NodeAt(r.0, k).Some?
    ensures NodeAt(r.0, k).value.edgeId == r.1 && NodeAt(r.0, k).value.level == level + |k|
    decreases |k|
  {
    if k == [] then
      var id := if n.edgeId <= 0 then last + 1 else n.edgeId;
      var last' := if n.edgeId <= 0 then last + 1 else last;
      (n.(edgeId := id, level := level), id, last')
    else
      var s := Dig(n.child, k[0]);
      var m := Get(s, k[0]).value;
      assert Get(n.child, k[0]).None? ==> NodeAt(m, k[1..]).Some? ==> k[1..] == [];
      var r := PutNode(m, k[1..], level + 1, last);
      (n.(child := Replace(s, r.0)), r.1, r.2)
  }

  /** DTree.Put: the new tree and the id of k. Put never touches failure links. */
  function Put(t: DTree, k: Path): (r: (DTree, int))
    ensures r.0.failure == t.failure
    ensures r.1 == (if IsKey(t, k) then IdAt(t, k) else t.lastEdgeID + 1)
    ensures r.0.lastEdgeID == (if IsKey(t, k) then t.lastEdgeID else t.lastEdgeID + 1)
    ensures IdAt(r.0, k) == r.1 && LevelAt(r.0, k) == |k|
    ensures t.lastEdgeID >= 0 ==> r.1 > 0
  {
    var x := PutNode(t.root, k, 0, t.lastEdgeID);
    (DTree(x.0, x.2, t.failure), x.1)
  }

  /** What PutNode does to every other path: prefixes of k come into existence with
      no id, every other node keeps its id and level. */
  lemma {:induction false} PutNodeAt(n: DNode, k: Path, level: int, last: int, p: Path)
    ensures var n' := PutNode(n, k, level, last).0;
      && (NodeAt(n', p).Some? <==> NodeAt(n, p).Some? || p <= k)
      && (p != k && NodeAt(n, p).Some? ==>
            NodeAt(n', p).value.edgeId == NodeAt(n, p).value.edgeId
            && NodeAt(n', p).value.level == NodeAt(n, p).value.level)
      && (p != k && NodeAt(n, p).None? && p <= k ==>
            NodeAt(n', p).value.edgeId == 0 && NodeAt(n', p).value.level == 0)
    decreases |k|
  {
    var n' := PutNode(n, k, level, last).0;
    if k == [] || p == [] {
    } else {
      var s := Dig(n.child, k[0]);
      var m := Get(s, k[0]).value;
      var r := PutNode(m, k[1..], level + 1, last);
      assert n'.child == Replace(s, r.0);
      if p[0] == k[0] {
        assert Get(n'.child, p[0]) == Some(r.0);
        PutNodeAt(m, k[1..], level + 1, last, p[1..]);
        PrefixTails(p, k);
        if Get(n.child, k[0]).None? {
          assert m == NewNode(k[0]);
          if p[1..] != [] {
            assert NodeAt(m, p[1..]).None?;
          }
        }
      } else {
        assert Get(n'.child, p[0]) == Get(n.child, p[0]);
        PrefixTails(p, k);
      }
    }
  }

  /** Comparing two non-empty paths by their first labels and their tails. */
  lemma PrefixTails(p: Path, k: Path)
    requires p != [] && k != []
    ensures p[0] != k[0] ==> !(p <= k) && p != k
    ensures p[0] == k[0] ==> (p <= k <==> p[1..] <= k[1..]) && (p != k <==> p[1..] != k[1..])
  {
    if p[0] == k[0] {
      assert p == [p[0]] + p[1..] && k == [k[0]] + k[1..];
    }
  }

  /** Put seen through the id and level of every path. */
  lemma PutEffect(t: DTree, k: Path, p: Path)
    ensures var t' := Put(t, k).0;
      && (NodeAt(t'.root, p).Some? <==> NodeAt(t.root, p).Some? || p <= k)
      && (p != k ==> IdAt(t', p) == IdAt(t, p))
      && (p != k && NodeAt(t.root, p).Some? ==> LevelAt(t', p) == LevelAt(t, p))
  {
    PutNodeAt(t.root, k, 0, t.lastEdgeID, p);
  }

  lemma SortedDig(s: Sib, c: char)
    requires SortedSib(s)
    ensures SortedSib(Dig(s, c))
  {
    match s
    case Leaf =>
    case Branch(l, m, h) =>
      if c < m.rune {
        SortedDig(l, c);
      } else if m.rune < c {
        SortedDig(h, c);
      }
  }

  lemma SortedReplace(s: Sib, n: DNode)
    requires SortedSib(s) && Sorted(n)
    requires Get(s, n.rune).Some?
    ensures SortedSib(Replace(s, n))
  {
    match s
    case Branch(l, m, h) =>
      if n.rune < m.rune {
        SortedReplace(l, n);
      } else if m.rune < n.rune {
        SortedReplace(h, n);
      }
  }

  lemma {:induction false} SortedPutNode(n: DNode, k: Path, level: int, last: int)
    requires Sorted(n)
    ensures Sorted(PutNode(n, k, level, last).0)
    decreases |k|
  {
    if k != [] {
      var s := Dig(n.child, k[0]);
      SortedDig(n.child, k[0]);
      var m := Get(s, k[0]).value;
      SortedChild(s, k[0]);
      SortedPutNode(m, k[1..], level + 1, last);
      var r := PutNode(m, k[1..], level + 1, last);
      SortedReplace(s, r.0);
    }
  }

  /** Re-inserting a key whose node already has an id and the right level changes nothing. */
  lemma {:induction false} PutNodeUnchanged(n: DNode, k: Path, level: int, last: int)
    requires NodeAt(n, k).Some?
    requires NodeAt(n, k).value.edgeId > 0 && NodeAt(n, k).value.level == level + |k|
    ensures PutNode(n, k, level, last).0 == n
    decreases |k|
  {
    if k != [] {
      var m := Get(n.child, k[0]).value;
      PutNodeUnchanged(m, k[1..], level + 1, last);
    }
  }

  /** Put keeps the DTree invariant: in particular ids stay dense (1..lastEdgeID) and unique. */
  lemma PutValid(t: DTree, k: Path)
    requires Valid(t)
    ensures Valid(Put(t, k).0)
  {
    var t' := Put(t, k).0;
    var id := Put(t, k).1;
    SortedPutNode(t.root, k, 0, t.lastEdgeID);
    forall p
      ensures 0 <= IdAt(t', p) <= t'.lastEdgeID
    {
      PutEffect(t, k, p);
    }
    forall p, q | IsKey(t', p) && IdAt(t', p) == IdAt(t', q)
      ensures p == q
    {
      PutEffect(t, k, p);
      PutEffect(t, k, q);
      assert 0 <= IdAt(t, p) <= t.lastEdgeID;
      assert 0 <= IdAt(t, q) <= t.lastEdgeID;
    }
    forall i | 1 <= i <= t'.lastEdgeID
      ensures IdTaken(t', i)
    {
      if i <= t.lastEdgeID {
        assert IdTaken(t, i);
        var p :| IdAt(t, p) == i;
        PutEffect(t, k, p);
        if p == k {
          assert IdAt(t', k) == i;
        } else {
          assert IdAt(t', p) == i;
        }
      } else {
        assert IdAt(t', k) == i;
      }
    }
    forall p | IsKey(t', p)
      ensures LevelAt(t', p) == |p|
    {
      PutEffect(t, k, p);
    }
    forall p | p in t'.failure
      ensures NodeAt(t'.root, t'.failure[p]).Some?
    {
      PutEffect(t, k, t.failure[p]);
    }
  }

  /** Inserting the same key twice: the second Put returns the same id and changes nothing. */
  lemma PutIdempotent(t: DTree, k: Path)
    requires Valid(t)
    ensures var (t1, id1) := Put(t, k);
      Put(t1, k) == (t1, id1)
  {
    var (t1, id1) := Put(t, k);
    assert t.lastEdgeID >= 0;
    assert NodeAt(t1.root, k).Some? && NodeAt(t1.root, k).value.edgeId > 0;
    PutNodeUnchanged(t1.root, k, 0, t1.lastEdgeID);
  }

  lemma EmptyValid()
    ensures Valid(Empty())
  {
    var t := Empty();
    forall p
      ensures IdAt(t, p) == 0
    {
      if p != [] {
        assert Get(t.root.child, p[0]).None?;
      }
    }
  }

  /** Put of every key in order, collecting the returned ids. */
  function PutAll(t: DTree, keys: seq<Path>): (r: (DTree, seq<int>))
    ensures |r.1| == |keys|
    decreases |keys|
  {
    if keys == [] then (t, [])
    else
      var (t1, id) := Put(t, keys[0]);
      var (t2, ids) := PutAll(t1, keys[1..]);
      (t2, [id] + ids)
  }

  /** N distinct new keys receive the ids lastEdgeID+1 .. lastEdgeID+N in insertion order;
      from the empty tree that is 1..N. */
  lemma {:induction false} DistinctKeysGetConsecutiveIds(t: DTree, keys: seq<Path>)
    requires Valid(t)
    requires forall i, j | 0 <= i < j < |keys| :: keys[i] != keys[j]
    requires forall i | 0 <= i < |keys| :: !IsKey(t, keys[i])
    ensures forall i | 0 <= i < |keys| :: PutAll(t, keys).1[i] == t.lastEdgeID + 1 + i
    ensures PutAll(t, keys).0.lastEdgeID == t.lastEdgeID + |keys|
    ensures Valid(PutAll(t, keys).0)
    decreases |keys|
  {
    if keys != [] {
      var t1 := FirstPutKeepsNew(t, keys);
      DistinctKeysGetConsecutiveIds(t1, keys[1..]);
      var ids := PutAll(t1, keys[1..]).1;
      assert PutAll(t, keys).1 == [t.lastEdgeID + 1] + ids;
    }
  }

  /** After the first of distinct new keys is put, the others are still
      distinct and new. */
  lemma FirstPutKeepsNew(t: DTree, keys: seq<Path>) returns (t1: DTree)
    requires Valid(t) && keys != []
    requires forall i, j | 0 <= i < j < |keys| :: keys[i] != keys[j]
    requires forall i | 0 <= i < |keys| :: !IsKey(t, keys[i])
    ensures t1 == Put(t, keys[0]).0 && Put(t, keys[0]).1 == t.lastEdgeID + 1
    ensures Valid(t1) && t1.lastEdgeID == t.lastEdgeID + 1
    ensures forall i, j | 0 <= i < j < |keys[1..]| :: keys[1..][i] != keys[1..][j]
    ensures forall i | 0 <= i < |keys[1..]| :: !IsKey(t1, keys[1..][i])
  {
    t1 := Put(t, keys[0]).0;
    PutValid(t, keys[0]);
    forall i | 0 <= i < |keys[1..]|
      ensures !IsKey(t1, keys[1..][i])
    {
      PutEffect(t, keys[0], keys[1..][i]);
      assert keys[1..][i] == keys[i + 1];
    }
    forall i, j | 0 <= i < j < |keys[1..]|
      ensures keys[1..][i] != keys[1..][j]
    {
      assert keys[1..][i] == keys[i + 1] && keys[1..][j] == keys[j + 1];
    }
  }

  lemma DenseIdsFromEmpty(keys: seq<Path>)
    requires forall i, j | 0 <= i < j < |keys| :: keys[i] != keys[j]
    ensures forall i | 0 <= i < |keys| :: PutAll(Empty(), keys).1[i] == i + 1
  {
    EmptyValid();
    forall i | 0 <= i < |keys|
      ensures !IsKey(Empty(), keys[i])
    {
      if keys[i] != [] {
        assert Get(Empty().root.child, keys[i][0]).None?;
      }
    }
    DistinctKeysGetConsecutiveIds(Empty(), keys);
  }

  /** DTree.Get: descend rune by rune, giving up at the first rune without a child. */
  method Lookup(t: DTree, k: Path) returns (r: Option<DNode>)
    ensures r == NodeAt(t.root, k)
    ensures Sorted(t.root) ==> (r.Some? <==> k in AllPaths(t.root))
  {
    if Sorted(t.root) {
      AllPathsLookup(t.root, k);
    }
    var n := t.root;
    var i := 0;
    while i < |k|
      invariant 0 <= i <= |k|
      invariant NodeAt(t.root, k[..i]) == Some(n)
    {
      NodeAtSnoc(t.root, k[..i], k[i]);
      assert k[..i] + [k[i]] == k[..i + 1];
      match Get(n.child, k[i])
      case None =>
        if NodeAt(t.root, k).Some? {
          NodeAtPrefix(t.root, k, k[..i + 1]);
          assert false;
        }
        return None;
      case Some(m) =>
        n := m;
      i := i + 1;
    }
    assert k[..i] == k;
    r := Some(n);
  }

  // ---------------------------------------------------------------------------
  // Goto function and the failure pass as written

  /** Whether the node at curr has a child labelled c. */
  predicate HasChild(root: DNode, curr: Path, c: char)
  {
    match NodeAt(root, curr)
    case None => false
    case Some(n) => Get(n.child, c).Some?
  }

  /** A nil failure pointer reads as the root. */
  function FailOf(fail: map<Path, Path>, p: Path): Path
  {
    if p in fail then fail[p] else []
  }

  /** DTree.nextNode: the direct child for c if there is one; the root when the
      current node is the root; otherwise retry from the failure target. The
      result is never more than one rune longer than curr, always ends in c
      unless it is the root, and stays inside the trie. */
  function NextNode(root: DNode, fail: map<Path, Path>, curr: Path, c: char): (r: Path)
    requires LinksShrink(fail)
    ensures |r| <= |curr| + 1
    ensures r == [] || r[|r| - 1] == c
    ensures NodeAt(root, curr).Some? && LinksInTrie(root, fail) ==> NodeAt(root, r).Some?
    decreases |curr|
  {
    if HasChild(root, curr, c) then
      NodeAtSnoc(root, curr, c);
      curr + [c]
    else if curr == [] then []
    else NextNode(root, fail, FailOf(fail, curr), c)
  }

  /** fillFailure(parent) exactly as written: the failure of each child, visited in
      label order, is nextNode(parent.Failure, label) (the root if that finds the
      child itself), and each child's subtree is filled before the next sibling.
      Nodes in later sibling subtrees still hold their old (usually nil) links
      when nextNode reads them. */
  function FillNodeAsWritten(root: DNode, fail: map<Path, Path>, n: DNode, p: Path): (r: map<Path, Path>)
    requires LinksShrink(fail)
    requires p in fail
    requires p == [] ==> fail[p] == []
    ensures LinksShrink(r)
    decreases n
  {
    if n.child == Leaf then fail
    else FillSibAsWritten(root, fail, n.child, p, fail[p])
  }

  function FillSibAsWritten(root: DNode, fail: map<Path, Path>, s: Sib, parent: Path, pf: Path): (r: map<Path, Path>)
    requires LinksShrink(fail)
    requires |pf| < |parent| || (parent == [] && pf == [])
    ensures LinksShrink(r)
    decreases s
  {
    match s
    case Leaf => fail
    case Branch(l, m, h) =>
      var f1 := FillSibAsWritten(root, fail, l, parent, pf);
      var q := parent + [m.rune];
      var f := NextNode(root, f1, pf, m.rune);
      var f' := if f == q then [] else f;
      var f2 := FillNodeAsWritten(root, f1[q := f'], m, q);
      FillSibAsWritten(root, f2, h, parent, pf)
  }

  /** The pass only adds or changes links of nodes strictly below p. */
  lemma {:induction false} FillNodeKeeps(root: DNode, fail: map<Path, Path>, n: DNode, p: Path)
    requires LinksShrink(fail)
    requires p in fail
    requires p == [] ==> fail[p] == []
    ensures var r := FillNodeAsWritten(root, fail, n, p);
      && fail.Keys <= r.Keys
      && (forall x | x in fail && |x| <= |p| :: r[x] == fail[x])
    decreases n
  {
    if n.child != Leaf {
      FillSibKeeps(root, fail, n.child, p, fail[p]);
    }
  }

  lemma {:induction false} FillSibKeeps(root: DNode, fail: map<Path, Path>, s: Sib, parent: Path, pf: Path)
    requires LinksShrink(fail)
    requires |pf| < |parent| || (parent == [] && pf == [])
    ensures var r := FillSibAsWritten(root, fail, s, parent, pf);
      && fail.Keys <= r.Keys
      && (forall x | x in fail && |x| <= |parent| :: r[x] == fail[x])
    decreases s
  {
    match s
    case Leaf =>
    case Branch(l, m, h) =>
      var f1 := FillSibAsWritten(root, fail, l, parent, pf);
      FillSibKeeps(root, fail, l, parent, pf);
      var q := parent + [m.rune];
      var f := NextNode(root, f1, pf, m.rune);
      var g := f1[q := if f == q then [] else f];
      FillNodeKeeps(root, g, m, q);
      var f2 := FillNodeAsWritten(root, g, m, q);
      FillSibKeeps(root, f2, h, parent, pf);
  }

  /** x lies strictly below the node p. */
  predicate Below(x: Path, p: Path)
  {
    |x| > |p| && x[..|p|] == p
  }

  /** The pass from p writes no link outside p's subtree. */
  lemma {:induction false} FillNodeFrame(root: DNode, fail: map<Path, Path>, n: DNode, p: Path, x: Path)
    requires LinksShrink(fail)
    requires p in fail
    requires p == [] ==> fail[p] == []
    requires !Below(x, p)
    ensures var r := FillNodeAsWritten(root, fail, n, p);
      (x in r <==> x in fail) && (x in fail ==> r[x] == fail[x])
    decreases n
  {
    if n.child != Leaf {
      FillSibFrame(root, fail, n.child, p, fail[p], x);
    }
  }

  lemma {:induction false} FillSibFrame(root: DNode, fail: map<Path, Path>, s: Sib, parent: Path, pf: Path, x: Path)
    requires LinksShrink(fail)
    requires |pf| < |parent| || (parent == [] && pf == [])
    requires !(Below(x, parent) && x[|parent|] in Labels(s))
    ensures var r := FillSibAsWritten(root, fail, s, parent, pf);
      (x in r <==> x in fail) && (x in fail ==> r[x] == fail[x])
    decreases s
  {
    match s
    case Leaf =>
    case Branch(l, m, h) =>
      var f1 := FillSibAsWritten(root, fail, l, parent, pf);
      FillSibFrame(root, fail, l, parent, pf, x);
      var q := parent + [m.rune];
      var f := NextNode(root, f1, pf, m.rune);
      var g := f1[q := if f == q then [] else f];
      FillNodeFrame(root, g, m, q, x);
      var f2 := FillNodeAsWritten(root, g, m, q);
      FillSibFrame(root, f2, h, parent, pf, x);
  }

  /** After the pass every node strictly below p has a link. */
  lemma {:induction false} FillNodeCovers(root: DNode, fail: map<Path, Path>, n: DNode, p: Path)
    requires LinksShrink(fail)
    requires p in fail
    requires p == [] ==> fail[p] == []
    ensures forall x | x in AllPaths(n) && x != [] :: p + x in FillNodeAsWritten(root, fail, n, p)
    decreases n
  {
    if n.child != Leaf {
      FillSibCovers(root, fail, n.child, p, fail[p]);
    }
  }

  lemma {:induction false} FillSibCovers(root: DNode, fail: map<Path, Path>, s: Sib, parent: Path, pf: Path)
    requires LinksShrink(fail)
    requires |pf| < |parent| || (parent == [] && pf == [])
    ensures forall x | x in SibPaths(s) :: parent + x in FillSibAsWritten(root, fail, s, parent, pf)
    decreases s
  {
    match s
    case Leaf =>
    case Branch(l, m, h) =>
      var f1 := FillSibAsWritten(root, fail, l, parent, pf);
      FillSibCovers(root, fail, l, parent, pf);
      var q := parent + [m.rune];
      var f := NextNode(root, f1, pf, m.rune);
      var g := f1[q := if f == q then [] else f];
      FillNodeCovers(root, g, m, q);
      FillNodeKeeps(root, g, m, q);
      var f2 := FillNodeAsWritten(root, g, m, q);
      FillSibCovers(root, f2, h, parent, pf);
      FillSibKeeps(root, f2, h, parent, pf);
      var r := FillSibAsWritten(root, f2, h, parent, pf);
      assert f1.Keys <= g.Keys <= f2.Keys <= r.Keys;
      assert q in g;
      forall x | x in SibPaths(s)
        ensures parent + x in r
      {
        if x in SibPaths(l) {
          assert parent + x in f1;
        } else if x !in SibPaths(h) {
          SibPathsMiddle(l, m, h, x);
          var y :| y in AllPaths(m) && x == [m.rune] + y;
          AppendAssoc(parent, [m.rune], y);
          if y == [] {
            assert q + y == q;
          } else {
            assert q + y in f2;
          }
        }
      }
  }

  lemma AppendAssoc<T>(a: seq<T>, b: seq<T>, c: seq<T>)
    ensures a + (b + c) == (a + b) + c
  {
  }

  lemma SibPathsMiddle(l: Sib, m: DNode, h: Sib, x: Path)
    requires x in SibPaths(Branch(l, m, h)) && x !in SibPaths(l) && x !in SibPaths(h)
    ensures exists y :: y in AllPaths(m) && x == [m.rune] + y
  {
  }

  /** The pass links only to nodes of the trie. */
  lemma {:induction false} FillNodeInTrie(root: DNode, fail: map<Path, Path>, n: DNode, p: Path)
    requires LinksShrink(fail)
    requires p in fail
    requires p == [] ==> fail[p] == []
    requires LinksInTrie(root, fail)
    ensures LinksInTrie(root, FillNodeAsWritten(root, fail, n, p))
    decreases n
  {
    if n.child != Leaf {
      FillSibInTrie(root, fail, n.child, p, fail[p]);
    }
  }

  lemma {:induction false} FillSibInTrie(root: DNode, fail: map<Path, Path>, s: Sib, parent: Path, pf: Path)
    requires LinksShrink(fail)
    requires |pf| < |parent| || (parent == [] && pf == [])
    requires LinksInTrie(root, fail) && NodeAt(root, pf).Some?
    ensures LinksInTrie(root, FillSibAsWritten(root, fail, s, parent, pf))
    decreases s
  {
    match s
    case Leaf =>
    case Branch(l, m, h) =>
      var f1 := FillSibAsWritten(root, fail, l, parent, pf);
      FillSibInTrie(root, fail, l, parent, pf);
      var q := parent + [m.rune];
      var f := NextNode(root, f1, pf, m.rune);
      var g := f1[q := if f == q then [] else f];
      assert NodeAt(root, []).Some?;
      assert LinksInTrie(root, g);
      FillNodeInTrie(root, g, m, q);
      var f2 := FillNodeAsWritten(root, g, m, q);
      FillSibInTrie(root, f2, h, parent, pf);
  }

  /** DTree.FillFailure as written: the root gets a transient self-loop, the
      depth-first pass runs from the root, and the root's link is cleared again. */
  function FillFailureAsWritten(t: DTree): (r: DTree)
    requires LinksShrink(t.failure)
    ensures r.root == t.root && r.lastEdgeID == t.lastEdgeID
    ensures [] !in r.failure
  {
    var f := FillNodeAsWritten(t.root, t.failure[[] := []], t.root, []);
    DTree(t.root, t.lastEdgeID, f - {[]})
  }

  /** After FillFailure the root's link is nil, every other node has a link,
      no node links to itself, and the tree invariant still holds. */
  lemma FillFailureAsWrittenValid(t: DTree)
    requires Valid(t)
    ensures var r := FillFailureAsWritten(t);
      && Valid(r)
      && (forall p | p in AllPaths(t.root) && p != [] :: p in r.failure && r.failure[p] != p)
  {
    var f0 := t.failure[[] := []];
    var f := FillNodeAsWritten(t.root, f0, t.root, []);
    var r := FillFailureAsWritten(t);
    assert LinksInTrie(t.root, f0);
    FillNodeInTrie(t.root, f0, t.root, []);
    FillNodeCovers(t.root, f0, t.root, []);
    forall p | p in AllPaths(t.root) && p != []
      ensures p in r.failure && r.failure[p] != p
    {
      assert [] + p == p;
    }
    SameRootValid(t, r);
  }

  /** Validity depends on the failure map only through its three link conditions. */
  lemma SameRootValid(t: DTree, r: DTree)
    requires Valid(t)
    requires r.root == t.root && r.lastEdgeID == t.lastEdgeID
    requires LinksShrink(r.failure) && [] !in r.failure && LinksInTrie(r.root, r.failure)
    ensures Valid(r)
  {
    assert forall p :: IdAt(r, p) == IdAt(t, p) && LevelAt(r, p) == LevelAt(t, p);
    forall i | 1 <= i <= r.lastEdgeID
      ensures IdTaken(r, i)
    {
      assert IdTaken(t, i);
      var p :| IdAt(t, p) == i;
      assert IdAt(r, p) == i;
    }
  }

  // ---------------------------------------------------------------------------
  // Failure chains and scanning

  /** The failure chain from p: p, its failure target, that target's, and so on
      up to the first nil link. Each step is strictly shorter. */
  function Chain(fail: map<Path, Path>, p: Path): (r: seq<Path>)
    requires LinksShrink(fail) && [] !in fail
    ensures r != [] && r[0] == p
    ensures forall i | 0 < i < |r| :: |r[i]| < |r[i - 1]|
    decreases |p|
  {
    if p in fail then [p] + Chain(fail, fail[p]) else [p]
  }

  /** The (id, level) of each node of c that carries an edge id, in order. */
  function ChainNodes(t: DTree, c: seq<Path>): (r: seq<ScanNode>)
    ensures |r| <= |c|
    ensures forall x | x in r :: x.id > 0
  {
    if c == [] then [] else Keyed(t, c[0]) + ChainNodes(t, c[1..])
  }

  /** The match a node contributes: its (id, level) when it carries an edge id. */
  function Keyed(t: DTree, p: Path): (r: seq<ScanNode>)
    ensures |r| <= 1
  {
    if IdAt(t, p) > 0 then [ScanNode(IdAt(t, p), LevelAt(t, p))] else []
  }

  lemma ChainNodesStep(t: DTree, fail: map<Path, Path>, p: Path, acc: seq<ScanNode>)
    requires LinksShrink(fail) && [] !in fail
    ensures acc + ChainNodes(t, Chain(fail, p)) ==
      acc + Keyed(t, p) + (if p in fail then ChainNodes(t, Chain(fail, fail[p])) else [])
  {
    var c := Chain(fail, p);
    assert c[1..] == if p in fail then Chain(fail, fail[p]) else [];
  }

  /** The goto-automaton state after consuming s from the root. */
  function Run(t: DTree, s: seq<char>): (r: Path)
    requires LinksShrink(t.failure)
    ensures |r| <= |s|
    ensures LinksInTrie(t.root, t.failure) ==> NodeAt(t.root, r).Some?
    decreases |s|
  {
    if s == [] then [] else NextNode(t.root, t.failure, Run(t, s[..|s| - 1]), s[|s| - 1])
  }

  /** The event reported for the rune at position j of s. */
  function EventAt(t: DTree, s: seq<char>, j: nat): ScanEvent
    requires LinksShrink(t.failure) && [] !in t.failure
    requires j < |s|
  {
    ScanEvent(ByteLen(s[..j]), s[j], ChainNodes(t, Chain(t.failure, Run(t, s[..j + 1]))))
  }

  /** The inner loop of ScanContext: walk the failure chain from n to nil and
      collect each node with an edge id. */
  method CollectChain(t: DTree, n: Path) returns (nodes: seq<ScanNode>)
    requires LinksShrink(t.failure) && [] !in t.failure
    ensures nodes == ChainNodes(t, Chain(t.failure, n))
  {
    nodes := [];
    var p := n;
    while true
      invariant nodes + ChainNodes(t, Chain(t.failure, p)) == ChainNodes(t, Chain(t.failure, n))
      decreases |p|
    {
      ChainNodesStep(t, t.failure, p, nodes);
      nodes := nodes + Keyed(t, p);
      if p !in t.failure {
        return;
      }
      p := t.failure[p];
    }
  }

  /** One step of the scan: from the state and offset after s[..i], the next
      state is the one after s[..i + 1] and appending the event for rune i
      keeps the events those of the prefix. */
  lemma EventStep(t: DTree, s: seq<char>, events: seq<ScanEvent>, i: nat, curr: Path, off: int, nodes: seq<ScanNode>)
    requires LinksShrink(t.failure) && [] !in t.failure && i < |s|
    requires curr == Run(t, s[..i]) && off == ByteLen(s[..i])
    requires nodes == ChainNodes(t, Chain(t.failure, NextNode(t.root, t.failure, curr, s[i])))
    requires |events| == i && forall j | 0 <= j < i :: events[j] == EventAt(t, s, j)
    ensures NextNode(t.root, t.failure, curr, s[i]) == Run(t, s[..i + 1])
    ensures forall j | 0 <= j < i + 1 :: (events + [ScanEvent(off, s[i], nodes)])[j] == EventAt(t, s, j)
  {
    assert s[..i + 1][..i] == s[..i];
  }

  /** DTree.ScanContext: one event per rune, in order, whose nodes are the keyed
      nodes on the failure chain of the state reached; the context is checked
      after each event, and a cancelled context ends the scan with an error. */
  method Scan(t: DTree, s: seq<char>, cancelAt: Option<nat>) returns (events: seq<ScanEvent>, err: bool)
    requires LinksShrink(t.failure) && [] !in t.failure
    ensures err <==> cancelAt.Some? && 1 <= |s| && cancelAt.value <= |s|
    ensures |events| == if err then (if cancelAt.value == 0 then 1 else cancelAt.value) else |s|
    ensures forall j | 0 <= j < |events| :: events[j] == EventAt(t, s, j)
  {
    events := [];
    err := false;
    var curr: Path := [];
    var off := 0;
    var i := 0;
    while i < |s|
      invariant 0 <= i <= |s|
      invariant |events| == i
      invariant curr == Run(t, s[..i])
      invariant off == ByteLen(s[..i])
      invariant forall j | 0 <= j < i :: events[j] == EventAt(t, s, j)
      invariant i == 0 || !Cancelled(cancelAt, i)
    {
      var next := NextNode(t.root, t.failure, curr, s[i]);
      var nodes := CollectChain(t, next);
      EventStep(t, s, events, i, curr, off, nodes);
      events := events + [ScanEvent(off, s[i], nodes)];
      ByteLenSnoc(s, i);
      off := off + RuneLen(s[i]);
      if Cancelled(cancelAt, i + 1) {
        err := true;
        return;
      }
      curr := next;
      i := i + 1;
    }
  }

  // ---------------------------------------------------------------------------
  // Longest prefix and counting

  /** prefix is the longest non-empty prefix of s that is a key and id its
      edge id, or ("", 0) when no non-empty prefix of s is a key. */
  ghost predicate LongestKeyPrefix(t: DTree, s: seq<char>, prefix: seq<char>, id: int)
  {
    && (id == 0 ==> prefix == [] && forall k | 1 <= k <= |s| :: IdAt(t, s[..k]) <= 0)
    && (id != 0 ==>
          && 1 <= |prefix| <= |s| && prefix == s[..|prefix|]
          && id == IdAt(t, prefix) > 0
          && forall k | |prefix| < k <= |s| :: IdAt(t, s[..k]) <= 0)
  }

  /** DTree.LongestPrefix: follow exact children along s and remember the last
      node with an edge id. The result is the longest non-empty prefix of s that
      is a key, with its id, or ("", 0) when no non-empty prefix is a key. */
  method LongestPrefix(t: DTree, s: seq<char>) returns (prefix: seq<char>, id: int)
    ensures LongestKeyPrefix(t, s, prefix, id)
  {
    prefix := [];
    id := 0;
    var n := t.root;
    var i := 0;
    while i < |s|
      invariant 0 <= i <= |s|
      invariant NodeAt(t.root, s[..i]) == Some(n)
      invariant id == 0 ==> prefix == [] && forall k | 1 <= k <= i :: IdAt(t, s[..k]) <= 0
      invariant id != 0 ==>
        && 1 <= |prefix| <= i && prefix == s[..|prefix|]
        && id == IdAt(t, prefix) > 0
        && forall k | |prefix| < k <= i :: IdAt(t, s[..k]) <= 0
    {
      NodeAtSnoc(t.root, s[..i], s[i]);
      assert s[..i] + [s[i]] == s[..i + 1];
      match Get(n.child, s[i])
      case None =>
        forall k | i < k <= |s|
          ensures IdAt(t, s[..k]) <= 0
        {
          if NodeAt(t.root, s[..k]).Some? {
            NodeAtPrefix(t.root, s[..k], s[..i + 1]);
          }
        }
        return;
      case Some(m) =>
        if m.edgeId > 0 {
          prefix := s[..i + 1];
          id := m.edgeId;
        }
        n := m;
        i := i + 1;
    }
  }

  /** DNode.CountAll: the node itself plus, over the in-order sibling walk, the
      count of each child's subtree. */
  function CountAll(n: DNode): (r: nat)
    ensures r >= 1 && (r == 1 <==> n.child == Leaf)
    decreases n
  {
    1 + CountAllSib(n.child)
  }

  function CountAllSib(s: Sib): (r: nat)
    ensures r == 0 <==> s == Leaf
    decreases s
  {
    match s
    case Leaf => 0
    case Branch(l, m, h) => CountAllSib(l) + CountAll(m) + CountAllSib(h)
  }

  /** In an ordered trie CountAll is the number of distinct paths, i.e. of nodes. */
  lemma {:induction false} CountAllIsNodeCount(n: DNode)
    requires Sorted(n)
    ensures CountAll(n) == |AllPaths(n)|
    decreases n
  {
    CountAllSibIsPathCount(n.child);
    assert [] !in SibPaths(n.child) by {
      if [] in SibPaths(n.child) {
        SibPathsHead(n.child, []);
      }
    }
  }

  lemma {:induction false} CountAllSibIsPathCount(s: Sib)
    requires Ordered(s) && SortedSib(s)
    ensures CountAllSib(s) == |SibPaths(s)|
    decreases s
  {
    match s
    case Leaf =>
    case Branch(l, m, h) =>
      CountAllSibIsPathCount(l);
      CountAllIsNodeCount(m);
      CountAllSibIsPathCount(h);
      var mid := set q | q in AllPaths(m) :: [m.rune] + q;
      PrefixedCard(AllPaths(m), m.rune);
      assert SibPaths(l) !! mid by {
        forall x | x in SibPaths(l) ensures x !in mid {
          SibPathsHead(l, x);
        }
      }
      assert (SibPaths(l) + mid) !! SibPaths(h) by {
        forall x | x in SibPaths(h) ensures x !in SibPaths(l) + mid {
          SibPathsHead(h, x);
          if x in SibPaths(l) {
            SibPathsHead(l, x);
          }
        }
      }
  }

  /** Prefixing every path of a set with the same rune keeps the set's size. */
  lemma {:induction false} PrefixedCard(a: set<Path>, c: char)
    ensures |set q | q in a :: [c] + q| == |a|
    decreases |a|
  {
    if a != {} {
      var x :| x in a;
      var rest := a - {x};
      PrefixedCard(rest, c);
      var img := set q | q in a :: [c] + q;
      var imgRest := set q | q in rest :: [c] + q;
      assert img == imgRest + {[c] + x};
      forall y | y in rest
        ensures [c] + y != [c] + x
      {
        assert ([c] + y)[1..] == y && ([c] + x)[1..] == x;
      }
      assert [c] + x !in imgRest;
    }
  }
}
