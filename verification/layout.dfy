/** The node array Freeze (static.go) lays out from the growable trie. The
    array is described by where procNode puts each node: the root at index 0,
    then, whenever a node with children is visited, a fresh contiguous range
    for its children (in the in-order sibling walk) at the next free index,
    with the children's own ranges allocated while they are visited in turn. */
module Layout {
  import opened Base
  import opened Siblings
  import opened Dynamic
  import opened Failure
  import opened Static

  /** One slot of the array as procNode fills it: the SNode it writes, together
      with the path of the trie node it copies and that node's level. */
  datatype Entry = Entry(node: SNode, path: Path, level: int)

  // ---------------------------------------------------------------------------
  // Layout

  /** The children of n in the order eachSiblings visits them. */
  function Kids(n: DNode): seq<DNode>
  {
    InOrder(n.child)
  }

  /** Total number of nodes in the subtrees of ns. */
  function SumAll(ns: seq<DNode>): nat
  {
    if ns == [] then 0 else CountAll(ns[0]) + SumAll(ns[1..])
  }

  lemma {:induction false} SumAllAppend(a: seq<DNode>, b: seq<DNode>)
    ensures SumAll(a + b) == SumAll(a) + SumAll(b)
  {
    if a != [] {
      assert (a + b)[0] == a[0];
      assert (a + b)[1..] == a[1..] + b;
      SumAllAppend(a[1..], b);
    } else {
      assert a + b == b;
    }
  }

  /** The subtrees of the children account for every node below n. */
  lemma {:induction false} SumAllKids(s: Sib)
    ensures SumAll(InOrder(s)) == CountAllSib(s)
  {
    match s
    case Leaf =>
    case Branch(l, m, h) =>
      SumAllKids(l);
      SumAllKids(h);
      assert InOrder(s) == InOrder(l) + ([m] + InOrder(h));
      SumAllAppend(InOrder(l), [m] + InOrder(h));
      assert ([m] + InOrder(h))[1..] == InOrder(h);
  }

  /** The SNode procNode writes for n when n's children range starts at z:
      [z, z + CountChild) for a node with children, [0, 0) otherwise, the
      label and edge id copied, the failure index not yet filled. */
  function SNodeOf(n: DNode, z: int): (r: SNode)
    ensures r.rune == n.rune as int && r.edgeId == n.edgeId && r.fail == 0
    ensures |Kids(n)| == 0 ==> r.start == 0 && r.end == 0
    ensures |Kids(n)| > 0 ==> r.start == z && r.end == z + |Kids(n)|
  {
    var k := |Kids(n)|;
    if k > 0 then SNode(n.rune as int, z, z + k, 0, n.edgeId)
    else SNode(n.rune as int, 0, 0, 0, n.edgeId)
  }

  /** The slots of the siblings ns (children of the node at parent), one per
      sibling as procNode(y, dn2, j) visits them with y++; z is where the
      first sibling's own children range will be allocated. */
  function Row(ns: seq<DNode>, parent: Path, z: int): (r: seq<Entry>)
    ensures |r| == |ns|
  {
    if ns == [] then []
    else [Entry(SNodeOf(ns[0], z), parent + [ns[0].rune], ns[0].level)] + Row(ns[1..], parent, z + CountAll(ns[0]) - 1)
  }

  /** The slots below the siblings ns, one subtree after another, from index z. */
  function Blocks(ns: seq<DNode>, parent: Path, z: int): seq<Entry>
    decreases SumAll(ns), 1
  {
    if ns == [] then []
    else Sub(ns[0], parent + [ns[0].rune], z) + Blocks(ns[1..], parent, z + CountAll(ns[0]) - 1)
  }

  /** The slots below n (at path p), from index z: n's children range first,
      then each child's subtree. */
  function Sub(n: DNode, p: Path, z: int): seq<Entry>
    decreases CountAll(n), 0
  {
    SumAllKids(n.child);
    var k := |Kids(n)|;
    Row(Kids(n), p, z + k) + Blocks(Kids(n), p, z + k)
  }

  lemma {:induction false} BlocksLength(ns: seq<DNode>, parent: Path, z: int)
    ensures |Blocks(ns, parent, z)| == SumAll(ns) - |ns|
    decreases SumAll(ns), 1
  {
    if ns != [] {
      SubLength(ns[0], parent + [ns[0].rune], z);
      BlocksLength(ns[1..], parent, z + CountAll(ns[0]) - 1);
    }
  }

  lemma {:induction false} SubLength(n: DNode, p: Path, z: int)
    ensures |Sub(n, p, z)| == CountAll(n) - 1
    decreases CountAll(n), 0
  {
    SumAllKids(n.child);
    CountSibSize(n.child);
    BlocksLength(Kids(n), p, z + |Kids(n)|);
  }

  /** procNode(0, &src.Root, 0) with z starting at 1: the whole array, of
      Root.CountAll() slots with the root first. */
  function Flatten(t: DTree): (r: seq<Entry>)
    ensures |r| == CountAll(t.root)
    ensures r[0].path == [] && r[0].level == t.root.level
  {
    SubLength(t.root, [], 1);
    [Entry(SNodeOf(t.root, 1), [], t.root.level)] + Sub(t.root, [], 1)
  }

  /** piece occupies E from index at on. */
  ghost predicate Placed(E: seq<Entry>, piece: seq<Entry>, at: int)
  {
    0 <= at && at + |piece| <= |E| && forall j | 0 <= j < |piece| :: E[at + j] == piece[j]
  }

  lemma PlacedSplit(E: seq<Entry>, a: seq<Entry>, b: seq<Entry>, at: int)
    requires Placed(E, a + b, at)
    ensures Placed(E, a, at) && Placed(E, b, at + |a|)
  {
    forall j | 0 <= j < |a|
      ensures E[at + j] == a[j]
    {
      assert (a + b)[j] == a[j];
    }
    forall j | 0 <= j < |b|
      ensures E[at + |a| + j] == b[j]
    {
      assert (a + b)[|a| + j] == b[j];
    }
  }

  /** The j-th slot of a row belongs to the j-th sibling. */
  lemma {:induction false} RowPaths(ns: seq<DNode>, parent: Path, z: int)
    ensures forall j | 0 <= j < |ns| :: Row(ns, parent, z)[j].path == parent + [ns[j].rune]
  {
    if ns != [] {
      var rest := Row(ns[1..], parent, z + CountAll(ns[0]) - 1);
      RowPaths(ns[1..], parent, z + CountAll(ns[0]) - 1);
      forall j | 1 <= j < |ns|
        ensures Row(ns, parent, z)[j].path == parent + [ns[j].rune]
      {
        assert Row(ns, parent, z)[j] == rest[j - 1];
        assert ns[1..][j - 1] == ns[j];
      }
    }
  }

  /** A placed subtree starts with the row of its children. */
  lemma SubRow(E: seq<Entry>, n: DNode, p: Path, z: int)
    requires Placed(E, Sub(n, p, z), z)
    ensures Placed(E, Row(Kids(n), p, z + |Kids(n)|), z)
  {
    var k := |Kids(n)|;
    PlacedSplit(E, Row(Kids(n), p, z + k), Blocks(Kids(n), p, z + k), z);
  }

  /** A row placed at a holds, slot by slot, the paths of the siblings. */
  lemma RowSlots(E: seq<Entry>, ns: seq<DNode>, parent: Path, z: int, a: int)
    requires Placed(E, Row(ns, parent, z), a)
    ensures a + |ns| <= |E|
    ensures forall y | a <= y < a + |ns| :: E[y].path == parent + [ns[y - a].rune]
  {
    var R := Row(ns, parent, z);
    RowPaths(ns, parent, z);
    forall y | a <= y < a + |ns|
      ensures E[y].path == parent + [ns[y - a].rune]
    {
      assert E[a + (y - a)] == R[y - a];
    }
  }

  // ---------------------------------------------------------------------------
  // Every slot represents its trie node

  /** Slot x copies the trie node its path spells: label, edge id and level;
      its range is [0, 0) for a leaf and otherwise lies after x, inside the
      array, with one slot per child holding that child's path in walk order.
      Only slot 0 is the root. */
  ghost predicate Represents(E: seq<Entry>, root: DNode, x: int)
    requires 0 <= x < |E|
  {
    var e := E[x];
    match NodeAt(root, e.path)
    case None => false
    case Some(n) =>
      && e.node == SNodeOf(n, e.node.start)
      && e.level == n.level
      && (x == 0 <==> e.path == [])
      && (|Kids(n)| > 0 ==>
            && x < e.node.start && e.node.end <= |E|
            && forall y | e.node.start <= y < e.node.end ::
                 E[y].path == e.path + [Kids(n)[y - e.node.start].rune])
  }

  ghost predicate AllRepresent(E: seq<Entry>, root: DNode)
  {
    forall x | 0 <= x < |E| :: Represents(E, root, x)
  }

  /** Each of ns is the node found at parent + its label. */
  ghost predicate ChildrenAt(root: DNode, parent: Path, ns: seq<DNode>)
  {
    forall i | 0 <= i < |ns| :: NodeAt(root, parent + [ns[i].rune]) == Some(ns[i])
  }

  lemma ChildrenOf(root: DNode, p: Path, n: DNode)
    requires Sorted(root) && NodeAt(root, p) == Some(n)
    ensures ChildrenAt(root, p, Kids(n))
  {
    SortedNodeAt(root, p);
    forall i | 0 <= i < |Kids(n)|
      ensures NodeAt(root, p + [Kids(n)[i].rune]) == Some(Kids(n)[i])
    {
      GetInOrder(n.child, i);
      NodeAtSnoc(root, p, Kids(n)[i].rune);
    }
  }

  /** The first sibling's slot and subtree, and where the rest go. */
  lemma Pieces(E: seq<Entry>, ns: seq<DNode>, parent: Path, a: int, z: int)
    requires ns != []
    requires Placed(E, Row(ns, parent, z), a) && Placed(E, Blocks(ns, parent, z), z)
    ensures E[a] == Entry(SNodeOf(ns[0], z), parent + [ns[0].rune], ns[0].level)
    ensures Placed(E, Row(ns[1..], parent, z + CountAll(ns[0]) - 1), a + 1)
    ensures Placed(E, Sub(ns[0], parent + [ns[0].rune], z), z)
    ensures Placed(E, Blocks(ns[1..], parent, z + CountAll(ns[0]) - 1), z + CountAll(ns[0]) - 1)
  {
    var e := Entry(SNodeOf(ns[0], z), parent + [ns[0].rune], ns[0].level);
    PlacedSplit(E, [e], Row(ns[1..], parent, z + CountAll(ns[0]) - 1), a);
    assert [e][0] == e;
    SubLength(ns[0], parent + [ns[0].rune], z);
    PlacedSplit(E, Sub(ns[0], parent + [ns[0].rune], z), Blocks(ns[1..], parent, z + CountAll(ns[0]) - 1), z);
  }

  /** The slot procNode writes for a node whose subtree is placed after it. */
  lemma EntryRepresents(E: seq<Entry>, root: DNode, m: DNode, pm: Path, x: int, zm: int)
    requires NodeAt(root, pm) == Some(m) && pm != []
    requires 1 <= x < zm && x < |E|
    requires E[x] == Entry(SNodeOf(m, zm), pm, m.level)
    requires Placed(E, Sub(m, pm, zm), zm)
    ensures Represents(E, root, x)
  {
    var k := |Kids(m)|;
    if k > 0 {
      SubRow(E, m, pm, zm);
      RowSlots(E, Kids(m), pm, zm + k, zm);
      RepresentsIntro(E, root, x, m, zm);
    } else {
      assert SNodeOf(m, zm) == SNodeOf(m, 0);
      RepresentsIntro(E, root, x, m, 0);
    }
  }

  /** Represents, from its parts with the node and its range start named. */
  lemma RepresentsIntro(E: seq<Entry>, root: DNode, x: int, n: DNode, s: int)
    requires 0 <= x < |E| && NodeAt(root, E[x].path) == Some(n)
    requires E[x].node == SNodeOf(n, s) && E[x].level == n.level
    requires x == 0 <==> E[x].path == []
    requires |Kids(n)| > 0 ==>
               && x < s && s + |Kids(n)| <= |E|
               && forall y | s <= y < s + |Kids(n)| :: E[y].path == E[x].path + [Kids(n)[y - s].rune]
    ensures Represents(E, root, x)
  {
  }

  /** The slots of a placed subtree represent their nodes. */
  lemma {:induction false} SubPlaced(E: seq<Entry>, root: DNode, n: DNode, p: Path, z: int)
    requires Sorted(root) && NodeAt(root, p) == Some(n)
    requires 1 <= z && Placed(E, Sub(n, p, z), z)
    ensures z + CountAll(n) - 1 <= |E|
    ensures forall x | z <= x < z + CountAll(n) - 1 :: Represents(E, root, x)
    decreases CountAll(n), 0
  {
    var k := |Kids(n)|;
    SumAllKids(n.child);
    SubLength(n, p, z);
    BlocksLength(Kids(n), p, z + k);
    if k > 0 {
      ChildrenOf(root, p, n);
      PlacedSplit(E, Row(Kids(n), p, z + k), Blocks(Kids(n), p, z + k), z);
      RowsPlaced(E, root, Kids(n), p, z, z + k);
    }
  }

  /** The slots of a placed row (at a) and of the subtrees below it (at z)
      represent their nodes. */
  lemma {:induction false} RowsPlaced(E: seq<Entry>, root: DNode, ns: seq<DNode>, parent: Path, a: int, z: int)
    requires Sorted(root) && ChildrenAt(root, parent, ns)
    requires 1 <= a && a + |ns| <= z
    requires Placed(E, Row(ns, parent, z), a) && Placed(E, Blocks(ns, parent, z), z)
    ensures z + SumAll(ns) - |ns| <= |E|
    ensures forall x | a <= x < a + |ns| :: Represents(E, root, x)
    ensures forall x | z <= x < z + SumAll(ns) - |ns| :: Represents(E, root, x)
    decreases SumAll(ns), 1
  {
    BlocksLength(ns, parent, z);
    if ns != [] {
      var m := ns[0];
      var zn := z + CountAll(m) - 1;
      Pieces(E, ns, parent, a, z);
      assert ChildrenAt(root, parent, ns[1..]) by {
        forall i | 0 <= i < |ns| - 1
          ensures NodeAt(root, parent + [ns[1..][i].rune]) == Some(ns[1..][i])
        {
          assert ns[1..][i] == ns[i + 1];
        }
      }
      SubPlaced(E, root, m, parent + [m.rune], z);
      RowsPlaced(E, root, ns[1..], parent, a + 1, zn);
      EntryRepresents(E, root, m, parent + [m.rune], a, z);
    }
  }

  /** Every slot of the frozen layout represents the trie node its path spells. */
  lemma LayoutRepresents(t: DTree)
    requires Sorted(t.root)
    ensures AllRepresent(Flatten(t), t.root)
  {
    var E := Flatten(t);
    FlattenPlaced(t);
    SubPlaced(E, t.root, t.root, [], 1);
    RootRepresents(t);
    forall x | 0 <= x < |E|
      ensures Represents(E, t.root, x)
    {
    }
  }

  /** Below the root slot, the array is the root's subtree from index 1. */
  lemma FlattenPlaced(t: DTree)
    ensures Placed(Flatten(t), Sub(t.root, [], 1), 1)
    ensures |Flatten(t)| == 1 + |Sub(t.root, [], 1)|
  {
    var E := Flatten(t);
    var S := Sub(t.root, [], 1);
    SubLength(t.root, [], 1);
    assert forall j | 0 <= j < |S| :: E[1 + j] == S[j];
  }

  /** The root slot: its children range is the row written right after it. */
  lemma RootRepresents(t: DTree)
    requires Sorted(t.root)
    ensures Represents(Flatten(t), t.root, 0)
  {
    var E := Flatten(t);
    var root := t.root;
    var k := |Kids(root)|;
    FlattenPlaced(t);
    if k > 0 {
      PlacedSplit(E, Row(Kids(root), [], 1 + k), Blocks(Kids(root), [], 1 + k), 1);
      RowSlots(E, Kids(root), [], 1 + k, 1);
    }
  }

  // ---------------------------------------------------------------------------
  // The array walk follows the trie

  /** An array whose nodes are the layout's, whatever their failure indices. */
  ghost predicate Carries(st: STree, E: seq<Entry>)
  {
    && |st.nodes| == |E|
    && forall x | 0 <= x < |E| :: st.nodes[x] == E[x].node.(fail := st.nodes[x].fail)
  }

  lemma RangesOf(st: STree, E: seq<Entry>, root: DNode)
    requires AllRepresent(E, root) && Carries(st, E) && |E| > 0
    ensures Ranges(st)
  {
    forall x | 0 <= x < |st.nodes|
      ensures RangeOk(st, st.nodes[x].start, st.nodes[x].end)
    {
      assert Represents(E, root, x);
    }
  }

  /** The children range of slot i lists the labels of its node's children
      in ascending order. */
  lemma RangeRunes(st: STree, E: seq<Entry>, root: DNode, i: int)
    requires Sorted(root) && AllRepresent(E, root) && Carries(st, E) && 0 <= i < |E|
    requires NodeAt(root, E[i].path).Some? && |Kids(NodeAt(root, E[i].path).value)| > 0
    ensures var n := NodeAt(root, E[i].path).value;
      && st.nodes[i].start == E[i].node.start
      && st.nodes[i].end == st.nodes[i].start + |Kids(n)| <= |st.nodes|
      && 0 <= st.nodes[i].start
      && (forall y | st.nodes[i].start <= y < st.nodes[i].end ::
            st.nodes[y].rune == Kids(n)[y - st.nodes[i].start].rune as int)
      && SortedRange(st, st.nodes[i].start, st.nodes[i].end)
  {
    assert Represents(E, root, i);
    var p := E[i].path;
    var n := NodeAt(root, p).value;
    var K := Kids(n);
    var a, b := st.nodes[i].start, st.nodes[i].end;
    SortedNodeAt(root, p);
    ChildrenOf(root, p, n);
    forall y | a <= y < b
      ensures st.nodes[y].rune == K[y - a].rune as int
    {
      assert Represents(E, root, y);
      assert NodeAt(root, p + [K[y - a].rune]) == Some(K[y - a]);
    }
    InOrderSorted(n.child);
  }

  /** The children range of slot i, searched for c, finds exactly the slot of
      the child labelled c. */
  lemma ChildFind(st: STree, E: seq<Entry>, root: DNode, i: int, c: char)
    requires Sorted(root) && AllRepresent(E, root) && Carries(st, E) && 0 <= i < |E|
    ensures RangeOk(st, st.nodes[i].start, st.nodes[i].end)
    ensures var j := Find(st, st.nodes[i].start, st.nodes[i].end, c as int);
      && (j == -1 <==> !HasChild(root, E[i].path, c))
      && (j != -1 ==> E[j].path == E[i].path + [c])
  {
    RangesOf(st, E, root);
    assert Represents(E, root, i);
    var p := E[i].path;
    var n := NodeAt(root, p).value;
    var K := Kids(n);
    if |K| == 0 {
      assert n.child == Leaf;
    } else {
      var a, b := st.nodes[i].start, st.nodes[i].end;
      RangeRunes(st, E, root, i);
      SortedNodeAt(root, p);
      InOrderLabels(n.child);
      FindComplete(st, a, b, c as int);
      if Get(n.child, c).Some? {
        var j :| 0 <= j < |K| && K[j].rune == c;
        assert st.nodes[a + j].rune == c as int;
      }
      var j := Find(st, a, b, c as int);
      if j != -1 {
        ChildSlot(E, root, i, j);
        assert K[j - a].rune == c;
      }
    }
  }

  /** A slot in the children range of slot i holds i's path extended by the
      label of the matching child. */
  lemma ChildSlot(E: seq<Entry>, root: DNode, i: int, j: int)
    requires AllRepresent(E, root) && 0 <= i < |E|
    requires NodeAt(root, E[i].path).Some? && |Kids(NodeAt(root, E[i].path).value)| > 0
    requires E[i].node.start <= j < E[i].node.end
    ensures var K := Kids(NodeAt(root, E[i].path).value);
      0 <= j - E[i].node.start < |K| && 0 <= j < |E| && E[j].path == E[i].path + [K[j - E[i].node.start].rune]
  {
    assert Represents(E, root, i);
  }

  /** Walking the array along p succeeds exactly when p spells a trie node,
      and then ends at a slot holding p. */
  lemma {:induction false} WalkMatches(st: STree, E: seq<Entry>, root: DNode, p: Path)
    requires Sorted(root) && AllRepresent(E, root) && Carries(st, E) && |E| > 0
    ensures Ranges(st)
    ensures Walk(st, p).Some? <==> NodeAt(root, p).Some?
    ensures Walk(st, p).Some? ==> E[Walk(st, p).value].path == p
    decreases |p|
  {
    RangesOf(st, E, root);
    if p == [] {
      assert Represents(E, root, 0);
    } else {
      var q, c := p[..|p| - 1], p[|p| - 1];
      assert p == q + [c];
      WalkFromSnoc(st, 0, q, c);
      NodeAtSnoc(root, q, c);
      WalkMatches(st, E, root, q);
      if Walk(st, q).Some? {
        ChildFind(st, E, root, Walk(st, q).value, c);
      }
    }
  }

  // ---------------------------------------------------------------------------
  // One slot per node

  /** No two slots hold the same path. */
  ghost predicate Distinct(E: seq<Entry>)
  {
    forall x, y | 0 <= x < |E| && 0 <= y < |E| && x != y :: E[x].path != E[y].path
  }

  /** The paths held by the first n slots. */
  ghost function Held(E: seq<Entry>, n: nat): set<Path>
    requires n <= |E|
  {
    set x | 0 <= x < n :: E[x].path
  }

  /** n slots hold at most n paths, and fewer when two of them agree. */
  lemma {:induction false} HeldBound(E: seq<Entry>, n: nat, x: int, y: int)
    requires n <= |E|
    ensures |Held(E, n)| <= n
    ensures 0 <= x < y < n && E[x].path == E[y].path ==> |Held(E, n)| < n
  {
    if n > 0 {
      assert Held(E, n) == Held(E, n - 1) + {E[n - 1].path};
      HeldBound(E, n - 1, x, y);
      if 0 <= x < y == n - 1 && E[x].path == E[y].path {
        assert E[y].path in Held(E, n - 1);
      }
    }
  }

  /** No two slots hold the same path: there are as many slots as trie nodes
      and every node has one. */
  lemma PathsDistinct(st: STree, E: seq<Entry>, root: DNode)
    requires Sorted(root) && AllRepresent(E, root) && Carries(st, E)
    requires |E| == CountAll(root)
    ensures Distinct(E)
  {
    assert Represents(E, root, 0);
    forall x, y | 0 <= x < |E| && 0 <= y < |E| && x != y
      ensures E[x].path != E[y].path
    {
      if E[x].path == E[y].path {
        assert Held(E, |E|) == AllPaths(root) by {
          forall q | q in AllPaths(root)
            ensures q in Held(E, |E|)
          {
            AllPathsLookup(root, q);
            WalkMatches(st, E, root, q);
          }
          forall q | q in Held(E, |E|)
            ensures q in AllPaths(root)
          {
            var z :| 0 <= z < |E| && E[z].path == q;
            assert Represents(E, root, z);
            AllPathsLookup(root, q);
          }
        }
        CountAllIsNodeCount(root);
        if x < y {
          HeldBound(E, |E|, x, y);
        } else {
          HeldBound(E, |E|, y, x);
        }
      }
    }
  }

  /** The slot of the trie node p, when the walk reaches it. */
  lemma WalkFindsSlot(st: STree, E: seq<Entry>, root: DNode, x: int)
    requires Sorted(root) && AllRepresent(E, root) && Carries(st, E)
    requires |E| == CountAll(root) && 0 <= x < |E|
    ensures Ranges(st) && Walk(st, E[x].path) == Some(x)
  {
    assert Represents(E, root, x);
    WalkMatches(st, E, root, E[x].path);
    PathsDistinct(st, E, root);
  }

  /** A slot inside the children ranges of x and of y extends both their paths
      by one label, so x and y hold the same path. */
  lemma SharedChild(E: seq<Entry>, root: DNode, x: int, y: int, z: int)
    requires AllRepresent(E, root)
    requires 0 <= x < |E| && 0 <= y < |E|
    requires E[x].node.start <= z < E[x].node.end && E[y].node.start <= z < E[y].node.end
    ensures E[x].path == E[y].path
  {
    assert Represents(E, root, x) && Represents(E, root, y);
    var px, py := E[x].path, E[y].path;
    var nx, ny := NodeAt(root, px).value, NodeAt(root, py).value;
    assert |Kids(nx)| > 0 && |Kids(ny)| > 0;
    var w := E[z].path;
    assert w == px + [Kids(nx)[z - E[x].node.start].rune];
    assert w == py + [Kids(ny)[z - E[y].node.start].rune];
    assert px == w[..|w| - 1] == py;
  }

  /** Children ranges of two different slots never overlap. */
  lemma RangesApart(E: seq<Entry>, root: DNode, x: int, y: int)
    requires AllRepresent(E, root) && Distinct(E)
    requires 0 <= x < |E| && 0 <= y < |E| && x != y
    requires E[x].node.start < E[x].node.end && E[y].node.start < E[y].node.end
    ensures E[x].node.end <= E[y].node.start || E[y].node.end <= E[x].node.start
  {
    var ax, bx, ay, yb := E[x].node.start, E[x].node.end, E[y].node.start, E[y].node.end;
    if !(bx <= ay || yb <= ax) {
      SharedChild(E, root, x, y, if ax < ay then ay else ax);
      assert false;
    }
  }

  // ---------------------------------------------------------------------------
  // The layout of the example trie

  lemma RowCons(n: DNode, ns: seq<DNode>, p: Path, z: int)
    ensures Row([n] + ns, p, z) == [Entry(SNodeOf(n, z), p + [n.rune], n.level)] + Row(ns, p, z + CountAll(n) - 1)
  {
    assert ([n] + ns)[1..] == ns;
  }

  lemma BlocksCons(n: DNode, ns: seq<DNode>, p: Path, z: int)
    ensures Blocks([n] + ns, p, z) == Sub(n, p + [n.rune], z) + Blocks(ns, p, z + CountAll(n) - 1)
  {
    assert ([n] + ns)[1..] == ns;
  }

  /** A node with one child m: m's slot, then m's subtree. */
  lemma SubOnlyChild(n: DNode, p: Path, z: int, e: Entry, rest: seq<Entry>)
    requires n.child.Branch? && n.child.low == Leaf && n.child.high == Leaf
    requires var m := n.child.node; e == Entry(SNodeOf(m, z + 1), p + [m.rune], m.level)
    requires Sub(n.child.node, p + [n.child.node.rune], z + 1) == rest
    ensures Sub(n, p, z) == [e] + rest
  {
    var m := n.child.node;
    assert Kids(n) == InOrder(Leaf) + [m] + InOrder(Leaf) == [m] + [];
    RowCons(m, [], p, z + 1);
    BlocksCons(m, [], p, z + 1);
  }

  lemma SubLeaf(n: DNode, p: Path, z: int)
    requires n.child == Leaf
    ensures Sub(n, p, z) == []
  {
    assert Kids(n) == [];
  }

  /** A node whose only child m is a leaf: one slot below it. */
  lemma SubOneLeaf(n: DNode, m: DNode, p: Path, z: int)
    requires n.child == Branch(Leaf, m, Leaf) && m.child == Leaf
    ensures Sub(n, p, z) == [Entry(SNode(m.rune as int, 0, 0, 0, m.edgeId), p + [m.rune], m.level)]
    ensures |Kids(n)| == 1 && CountAll(n) == 2
  {
    assert Kids(m) == [];
    SubLeaf(m, p + [m.rune], z + 1);
    SubOnlyChild(n, p, z, Entry(SNode(m.rune as int, 0, 0, 0, m.edgeId), p + [m.rune], m.level), []);
    assert Kids(n) == InOrder(Leaf) + [m] + InOrder(Leaf);
    assert CountAll(m) == 1;
    assert CountAllSib(n.child) == CountAll(m);
  }

  /** A chain n - m1 - m2 - m3 ending in a leaf: three slots below n, each
      but the last with its one child right after it. */
  lemma SubChain(n: DNode, m1: DNode, m2: DNode, m3: DNode, p: Path, z: int)
    requires n.child == Branch(Leaf, m1, Leaf) && m1.child == Branch(Leaf, m2, Leaf)
    requires m2.child == Branch(Leaf, m3, Leaf) && m3.child == Leaf
    ensures Sub(n, p, z) ==
      [Entry(SNode(m1.rune as int, z + 1, z + 2, 0, m1.edgeId), p + [m1.rune], m1.level),
       Entry(SNode(m2.rune as int, z + 2, z + 3, 0, m2.edgeId), p + [m1.rune, m2.rune], m2.level),
       Entry(SNode(m3.rune as int, 0, 0, 0, m3.edgeId), p + [m1.rune, m2.rune, m3.rune], m3.level)]
    ensures |Kids(n)| == 1 && CountAll(n) == 4
  {
    var p2 := p + [m1.rune, m2.rune];
    assert p2 == p + [m1.rune] + [m2.rune];
    assert p + [m1.rune, m2.rune, m3.rune] == p2 + [m3.rune];
    SubOneLeaf(m2, m3, p2, z + 2);
    assert Kids(m2) == InOrder(Leaf) + [m3] + InOrder(Leaf);
    var e2 := Entry(SNode(m2.rune as int, z + 2, z + 3, 0, m2.edgeId), p2, m2.level);
    SubOnlyChild(m1, p + [m1.rune], z + 1, e2, Sub(m2, p2, z + 2));
    assert Kids(m1) == InOrder(Leaf) + [m2] + InOrder(Leaf);
    var e1 := Entry(SNode(m1.rune as int, z + 1, z + 2, 0, m1.edgeId), p + [m1.rune], m1.level);
    SubOnlyChild(n, p, z, e1, Sub(m1, p + [m1.rune], z + 1));
    assert Kids(n) == InOrder(Leaf) + [m1] + InOrder(Leaf);
    assert CountAll(m1) == 1 + CountAllSib(m1.child) == 1 + CountAll(m2) == 3;
    assert CountAllSib(n.child) == CountAll(m1);
  }

  /** The row of three siblings a, b and c under p, from z. */
  lemma RowThree(a: DNode, b: DNode, c: DNode, p: Path, z: int)
    ensures var za := z + CountAll(a) - 1; var zb := za + CountAll(b) - 1;
      Row([a] + ([b] + ([c] + [])), p, z) ==
        [Entry(SNodeOf(a, z), p + [a.rune], a.level), Entry(SNodeOf(b, za), p + [b.rune], b.level),
         Entry(SNodeOf(c, zb), p + [c.rune], c.level)]
  {
    var za := z + CountAll(a) - 1;
    RowCons(a, [b] + ([c] + []), p, z);
    RowCons(b, [c] + [], p, za);
    RowCons(c, [], p, za + CountAll(b) - 1);
  }

  /** The subtrees of three siblings a, b and c under p, from z. */
  lemma BlocksThree(a: DNode, b: DNode, c: DNode, p: Path, z: int)
    ensures var za := z + CountAll(a) - 1; var zb := za + CountAll(b) - 1;
      Blocks([a] + ([b] + ([c] + [])), p, z) == Sub(a, p + [a.rune], z) + Sub(b, p + [b.rune], za) + Sub(c, p + [c.rune], zb)
  {
    var za := z + CountAll(a) - 1;
    BlocksCons(a, [b] + ([c] + []), p, z);
    BlocksCons(b, [c] + [], p, za);
    BlocksCons(c, [], p, za + CountAll(b) - 1);
  }

  lemma InOrderThree(a: DNode, b: DNode, c: DNode)
    ensures InOrder(Branch(Leaf, a, Branch(Leaf, b, Branch(Leaf, c, Leaf)))) == [a] + ([b] + ([c] + []))
  {
    var s2 := Branch(Leaf, c, Leaf);
    var s1 := Branch(Leaf, b, s2);
    assert InOrder(s2) == [] + [c] + [] == [c] + [];
    assert InOrder(s1) == [] + [b] + InOrder(s2) == [b] + ([c] + []);
  }

  /** The root's row of three siblings a, b and c, then their subtrees. */
  lemma FlattenThree(t: DTree, a: DNode, b: DNode, c: DNode, R: seq<Entry>, B: seq<Entry>)
    requires Kids(t.root) == [a] + ([b] + ([c] + []))
    requires R == Row([a] + ([b] + ([c] + [])), [], 4) && B == Blocks([a] + ([b] + ([c] + [])), [], 4)
    ensures Flatten(t) == [Entry(SNodeOf(t.root, 1), [], t.root.level)] + R + B
  {
    assert Sub(t.root, [], 1) == R + B;
  }

  lemma Concat9(e0: Entry, e1: Entry, e2: Entry, e3: Entry, e4: Entry, e5: Entry, e6: Entry, e7: Entry, e8: Entry)
    ensures [e0, e1, e2, e3] + ([e4, e5, e6] + [e7] + [e8]) == [e0, e1, e2, e3, e4, e5, e6, e7, e8]
  {
  }

  /** The layout of a root with children a, b and c, where a heads the chain
      a-ab-abc-abcd and b and c each have one leaf child. */
  lemma FlattenShape(t: DTree, a: DNode, ab: DNode, abc: DNode, abcd: DNode, b: DNode, bc: DNode, c: DNode, cd: DNode)
    requires t.root.child == Branch(Leaf, a, Branch(Leaf, b, Branch(Leaf, c, Leaf)))
    requires a.child == Branch(Leaf, ab, Leaf) && ab.child == Branch(Leaf, abc, Leaf)
    requires abc.child == Branch(Leaf, abcd, Leaf) && abcd.child == Leaf
    requires b.child == Branch(Leaf, bc, Leaf) && bc.child == Leaf
    requires c.child == Branch(Leaf, cd, Leaf) && cd.child == Leaf
    ensures Flatten(t) ==
      [Entry(SNode(t.root.rune as int, 1, 4, 0, t.root.edgeId), [], t.root.level),
       Entry(SNode(a.rune as int, 4, 5, 0, a.edgeId), [a.rune], a.level),
       Entry(SNode(b.rune as int, 7, 8, 0, b.edgeId), [b.rune], b.level),
       Entry(SNode(c.rune as int, 8, 9, 0, c.edgeId), [c.rune], c.level),
       Entry(SNode(ab.rune as int, 5, 6, 0, ab.edgeId), [a.rune, ab.rune], ab.level),
       Entry(SNode(abc.rune as int, 6, 7, 0, abc.edgeId), [a.rune, ab.rune, abc.rune], abc.level),
       Entry(SNode(abcd.rune as int, 0, 0, 0, abcd.edgeId), [a.rune, ab.rune, abc.rune, abcd.rune], abcd.level),
       Entry(SNode(bc.rune as int, 0, 0, 0, bc.edgeId), [b.rune, bc.rune], bc.level),
       Entry(SNode(cd.rune as int, 0, 0, 0, cd.edgeId), [c.rune, cd.rune], cd.level)]
  {
    SubChain(a, ab, abc, abcd, [a.rune], 4);
    SubOneLeaf(b, bc, [b.rune], 7);
    SubOneLeaf(c, cd, [c.rune], 8);
    FlattenRoot(t, a, b, c);
    assert [a.rune] + [ab.rune] == [a.rune, ab.rune] && [a.rune] + [ab.rune, abc.rune] == [a.rune, ab.rune, abc.rune];
    assert [a.rune] + [ab.rune, abc.rune, abcd.rune] == [a.rune, ab.rune, abc.rune, abcd.rune];
    assert [b.rune] + [bc.rune] == [b.rune, bc.rune] && [c.rune] + [cd.rune] == [c.rune, cd.rune];
    Concat9(Entry(SNode(t.root.rune as int, 1, 4, 0, t.root.edgeId), [], t.root.level),
      Entry(SNode(a.rune as int, 4, 5, 0, a.edgeId), [a.rune], a.level),
      Entry(SNode(b.rune as int, 7, 8, 0, b.edgeId), [b.rune], b.level),
      Entry(SNode(c.rune as int, 8, 9, 0, c.edgeId), [c.rune], c.level),
      Entry(SNode(ab.rune as int, 5, 6, 0, ab.edgeId), [a.rune, ab.rune], ab.level),
      Entry(SNode(abc.rune as int, 6, 7, 0, abc.edgeId), [a.rune, ab.rune, abc.rune], abc.level),
      Entry(SNode(abcd.rune as int, 0, 0, 0, abcd.edgeId), [a.rune, ab.rune, abc.rune, abcd.rune], abcd.level),
      Entry(SNode(bc.rune as int, 0, 0, 0, bc.edgeId), [b.rune, bc.rune], bc.level),
      Entry(SNode(cd.rune as int, 0, 0, 0, cd.edgeId), [c.rune, cd.rune], cd.level));
  }

  /** The root's slot and the row of its children a, b and c, of 4, 2 and 2
      nodes with one child each, then their subtrees. */
  lemma FlattenRoot(t: DTree, a: DNode, b: DNode, c: DNode)
    requires t.root.child == Branch(Leaf, a, Branch(Leaf, b, Branch(Leaf, c, Leaf)))
    requires |Kids(a)| == 1 && |Kids(b)| == 1 && |Kids(c)| == 1 && CountAll(a) == 4 && CountAll(b) == 2
    ensures Flatten(t) ==
      [Entry(SNode(t.root.rune as int, 1, 4, 0, t.root.edgeId), [], t.root.level),
       Entry(SNode(a.rune as int, 4, 5, 0, a.edgeId), [a.rune], a.level),
       Entry(SNode(b.rune as int, 7, 8, 0, b.edgeId), [b.rune], b.level),
       Entry(SNode(c.rune as int, 8, 9, 0, c.edgeId), [c.rune], c.level)]
      + (Sub(a, [a.rune], 4) + Sub(b, [b.rune], 7) + Sub(c, [c.rune], 8))
  {
    var ns := [a] + ([b] + ([c] + []));
    InOrderThree(a, b, c);
    RowThree(a, b, c, [], 4);
    BlocksThree(a, b, c, [], 4);
    FlattenThree(t, a, b, c, Row(ns, [], 4), Blocks(ns, [], 4));
    assert [] + [a.rune] == [a.rune] && [] + [b.rune] == [b.rune] && [] + [c.rune] == [c.rune];
    var E0 := Entry(SNode(t.root.rune as int, 1, 4, 0, t.root.edgeId), [], t.root.level);
    var Ea := Entry(SNode(a.rune as int, 4, 5, 0, a.edgeId), [a.rune], a.level);
    var Eb := Entry(SNode(b.rune as int, 7, 8, 0, b.edgeId), [b.rune], b.level);
    var Ec := Entry(SNode(c.rune as int, 8, 9, 0, c.edgeId), [c.rune], c.level);
    assert SNodeOf(t.root, 1) == E0.node;
    assert SNodeOf(a, 4) == Ea.node && SNodeOf(b, 7) == Eb.node && SNodeOf(c, 8) == Ec.node;
    assert Row(ns, [], 4) == [Ea, Eb, Ec];
    assert Blocks(ns, [], 4) == Sub(a, [a.rune], 4) + Sub(b, [b.rune], 7) + Sub(c, [c.rune], 8);
    assert [E0] + [Ea, Eb, Ec] == [E0, Ea, Eb, Ec];
  }

  /** procNode over the trie of "abcd", "bc" and "cd": the root, its row a, b,
      c, then the subtrees of a, b and c, every failure index 0. */
  lemma ExampleFlatten()
    ensures Flatten(Example()) ==
      [Entry(SNode(0, 1, 4, 0, 0), [], 0),
       Entry(SNode('a' as int, 4, 5, 0, 0), "a", 0), Entry(SNode('b' as int, 7, 8, 0, 0), "b", 0),
       Entry(SNode('c' as int, 8, 9, 0, 0), "c", 0),
       Entry(SNode('b' as int, 5, 6, 0, 0), "ab", 0), Entry(SNode('c' as int, 6, 7, 0, 0), "abc", 0),
       Entry(SNode('d' as int, 0, 0, 0, 1), "abcd", 4),
       Entry(SNode('c' as int, 0, 0, 0, 2), "bc", 2), Entry(SNode('d' as int, 0, 0, 0, 3), "cd", 2)]
  {
    var abcd := DNode('d', Leaf, 1, 4);
    var abc := DNode('c', Branch(Leaf, abcd, Leaf), 0, 0);
    var ab := DNode('b', Branch(Leaf, abc, Leaf), 0, 0);
    FlattenShape(Example(), ExampleA(), ab, abc, abcd, ExampleB(), DNode('c', Leaf, 2, 2), ExampleC(), DNode('d', Leaf, 3, 2));
  }
}
