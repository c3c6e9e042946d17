/** The children of one growable-trie node: a binary search tree of siblings
    ordered by rune (dynamic.go, DNode.Low / DNode.High, dig, Get, eachSiblings). */
module Siblings {
  import opened Base

  /** A node of the growable trie. Go's DNode also carries the Low/High links of
      the sibling tree it sits in; here those links belong to the enclosing Branch. */
  datatype DNode = DNode(rune: char, child: Sib, edgeId: int, level: int)

  /** The sibling search tree of one node's children: Low subtree, the node, High subtree. */
  datatype Sib = Leaf | Branch(low: Sib, node: DNode, high: Sib)

  /** The node `&DNode{Label: c}` that dig allocates. */
  function NewNode(c: char): DNode
  {
    DNode(c, Leaf, 0, 0)
  }

  function Labels(s: Sib): set<char>
  {
    match s
    case Leaf => {}
    case Branch(l, m, h) => Labels(l) + {m.rune} + Labels(h)
  }

  /** Search-tree order: every rune in a Low subtree is smaller, every rune in a High subtree larger. */
  ghost predicate Ordered(s: Sib)
  {
    match s
    case Leaf => true
    case Branch(l, m, h) =>
      && Ordered(l)
      && Ordered(h)
      && (forall x | x in Labels(l) :: x < m.rune)
      && (forall x | x in Labels(h) :: m.rune < x)
  }

  /** DNode.Get: descends the sibling tree by comparing labels. */
  function Get(s: Sib, c: char): (r: Option<DNode>)
    ensures r.Some? ==> r.value.rune == c && c in Labels(s)
    ensures Ordered(s) && c in Labels(s) ==> r.Some?
  {
    match s
    case Leaf => None
    case Branch(l, m, h) =>
      if c == m.rune then Some(m)
      else if c < m.rune then
        assert Ordered(s) && c in Labels(h) ==> m.rune < c;
        Get(l, c)
      else
        assert Ordered(s) && c in Labels(l) ==> c < m.rune;
        Get(h, c)
  }

  /** DNode.dig: returns the sibling tree in which a child labelled c exists,
      adding a fresh leaf where the search for c fell off the tree. */
  function Dig(s: Sib, c: char): (r: Sib)
    ensures Labels(r) == Labels(s) + {c}
    ensures Ordered(s) ==> Ordered(r)
    ensures Get(r, c) == (if Get(s, c).Some? then Get(s, c) else Some(NewNode(c)))
    ensures forall d | d != c :: Get(r, d) == Get(s, d)
    ensures Get(s, c).Some? ==> r == s
  {
    match s
    case Leaf => Branch(Leaf, NewNode(c), Leaf)
    case Branch(l, m, h) =>
      if c == m.rune then s
      else if c < m.rune then Branch(Dig(l, c), m, h)
      else Branch(l, m, Dig(h, c))
  }

  /** Writes an updated child back at the position where its rune is found
      (the pointer write-through that Go gets for free). */
  function Replace(s: Sib, n: DNode): (r: Sib)
    requires Get(s, n.rune).Some?
    ensures Labels(r) == Labels(s)
    ensures Ordered(s) ==> Ordered(r)
    ensures Get(r, n.rune) == Some(n)
    ensures forall d | d != n.rune :: Get(r, d) == Get(s, d)
    ensures CountSib(r) == CountSib(s)
    ensures Get(s, n.rune) == Some(n) ==> r == s
  {
    match s
    case Branch(l, m, h) =>
      if n.rune == m.rune then Branch(l, n, h)
      else if n.rune < m.rune then Branch(Replace(l, n), m, h)
      else Branch(l, m, Replace(h, n))
  }

  /** DNode.eachSiblings: the siblings in in-order (Low, node, High). */
  function InOrder(s: Sib): seq<DNode>
  {
    match s
    case Leaf => []
    case Branch(l, m, h) => InOrder(l) + [m] + InOrder(h)
  }

  /** Number of siblings, counted along the in-order walk. */
  function CountSib(s: Sib): nat
  {
    match s
    case Leaf => 0
    case Branch(l, _, h) => CountSib(l) + 1 + CountSib(h)
  }

  /** DNode.CountChild: the number of children equals the number of distinct child labels. */
  function CountChild(n: DNode): (k: nat)
    ensures k == |InOrder(n.child)|
    ensures Ordered(n.child) ==> k == |Labels(n.child)|
    ensures k == 0 <==> n.child == Leaf
  {
    CountSibSize(n.child);
    CountSib(n.child)
  }

  lemma {:induction false} CountSibSize(s: Sib)
    ensures CountSib(s) == |InOrder(s)|
    ensures Ordered(s) ==> CountSib(s) == |Labels(s)|
  {
    match s
    case Leaf =>
    case Branch(l, m, h) =>
      CountSibSize(l);
      CountSibSize(h);
      if !Ordered(s) {
        return;
      }
      assert m.rune !in Labels(l) && m.rune !in Labels(h);
      assert Labels(l) !! Labels(h) by {
        forall x | x in Labels(l) ensures x !in Labels(h) {
          assert x < m.rune;
        }
      }
      assert |Labels(l) + {m.rune}| == |Labels(l)| + 1;
  }

  /** Every sibling the walk visits carries a rune of the tree, and every rune is visited. */
  lemma {:induction false} InOrderLabels(s: Sib)
    ensures forall i | 0 <= i < |InOrder(s)| :: InOrder(s)[i].rune in Labels(s)
    ensures forall c | c in Labels(s) :: exists i :: 0 <= i < |InOrder(s)| && InOrder(s)[i].rune == c
  {
    match s
    case Leaf =>
    case Branch(l, m, h) =>
      InOrderLabels(l);
      InOrderLabels(h);
      var L, H := InOrder(l), InOrder(h);
      assert InOrder(s) == L + [m] + H;
      forall c | c in Labels(s)
        ensures exists i :: 0 <= i < |InOrder(s)| && InOrder(s)[i].rune == c
      {
        var i := InOrderVisits(s, c);
      }
  }

  /** Where the walk visits a rune of the tree. */
  lemma {:induction false} InOrderVisits(s: Sib, c: char) returns (i: nat)
    requires c in Labels(s)
    ensures i < |InOrder(s)| && InOrder(s)[i].rune == c
  {
    match s
    case Branch(l, m, h) =>
      var L, H := InOrder(l), InOrder(h);
      assert InOrder(s) == L + [m] + H;
      if c in Labels(l) {
        i := InOrderVisits(l, c);
        assert InOrder(s)[i] == L[i];
      } else if c == m.rune {
        i := |L|;
        assert InOrder(s)[i] == m;
      } else {
        var k := InOrderVisits(h, c);
        i := |L| + 1 + k;
        assert InOrder(s)[i] == H[k];
      }
  }

  /** The in-order walk of an ordered sibling tree lists labels in strictly ascending order. */
  lemma {:induction false} InOrderSorted(s: Sib)
    requires Ordered(s)
    ensures forall i, j | 0 <= i < j < |InOrder(s)| :: InOrder(s)[i].rune < InOrder(s)[j].rune
  {
    match s
    case Leaf =>
    case Branch(l, m, h) =>
      InOrderSorted(l);
      InOrderSorted(h);
      InOrderLabels(l);
      InOrderLabels(h);
      var L, H := InOrder(l), InOrder(h);
      var S := InOrder(s);
      assert S == L + [m] + H;
      forall i, j | 0 <= i < j < |S|
        ensures S[i].rune < S[j].rune
      {
        if j < |L| {
          assert S[i] == L[i] && S[j] == L[j];
        } else if i >= |L| + 1 {
          assert S[i] == H[i - |L| - 1] && S[j] == H[j - |L| - 1];
        } else if i < |L| {
          assert S[i] == L[i] && S[i].rune in Labels(l);
          if j == |L| {
            assert S[j] == m;
          } else {
            assert S[j] == H[j - |L| - 1] && S[j].rune in Labels(h);
          }
        } else {
          assert S[i] == m;
          assert S[j] == H[j - |L| - 1] && S[j].rune in Labels(h);
        }
      }
  }

  /** In an ordered sibling tree, Get(c) returns exactly the sibling the in-order walk lists with rune c. */
  lemma {:induction false} GetInOrder(s: Sib, i: nat)
    requires Ordered(s)
    requires i < |InOrder(s)|
    ensures Get(s, InOrder(s)[i].rune) == Some(InOrder(s)[i])
  {
    match s
    case Branch(l, m, h) =>
      InOrderLabels(l);
      InOrderLabels(h);
      var L, H := InOrder(l), InOrder(h);
      assert InOrder(s) == L + [m] + H;
      if i < |L| {
        assert InOrder(s)[i] == L[i];
        assert L[i].rune in Labels(l);
        GetInOrder(l, i);
      } else if i == |L| {
        assert InOrder(s)[i] == m;
      } else {
        assert InOrder(s)[i] == H[i - |L| - 1];
        assert H[i - |L| - 1].rune in Labels(h);
        GetInOrder(h, i - |L| - 1);
      }
  }
}
