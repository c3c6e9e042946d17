/** STree.Write and Read (static.go): the node count, five varints per node,
    the levels count and one varint per level. */
module Serial {
  import opened Base
  import opened Static
  import opened Codec

  /** The values of one node in the order SNode.write emits them. */
  function NodeWords(n: SNode): seq<int>
  {
    [n.rune, n.start, n.end, n.fail, n.edgeId]
  }

  /** A node Go can hold on a platform with the given int width. */
  predicate NodeFits(intSize: IntSize, n: SNode)
  {
    IsInt32(n.rune) && FitsInt(intSize, n.start) && FitsInt(intSize, n.end)
      && FitsInt(intSize, n.fail) && FitsInt(intSize, n.edgeId)
  }

  predicate NodesFit(intSize: IntSize, ns: seq<SNode>)
  {
    forall j | 0 <= j < |ns| :: NodeFits(intSize, ns[j])
  }

  /** A tree Go can hold with the given int width: fields and lengths are ints. */
  predicate TreeFits(intSize: IntSize, st: STree)
  {
    && FitsInt(intSize, |st.nodes|) && FitsInt(intSize, |st.levels|)
    && NodesFit(intSize, st.nodes)
    && (forall j | 0 <= j < |st.levels| :: FitsInt(intSize, st.levels[j]))
  }

  lemma NodesFitWiden(intSize: IntSize, ns: seq<SNode>)
    requires NodesFit(intSize, ns)
    ensures NodesFit(64, ns)
  {
  }

  lemma NodesFitTail(intSize: IntSize, ns: seq<SNode>)
    requires NodesFit(intSize, ns) && ns != []
    ensures NodeFits(intSize, ns[0]) && NodesFit(intSize, ns[1..])
  {
  }

  lemma FitsWiden(intSize: IntSize, st: STree)
    requires TreeFits(intSize, st)
    ensures TreeFits(64, st)
  {
    NodesFitWiden(intSize, st.nodes);
  }

  // ---------------------------------------------------------------------------
  // Encoding

  /** The bytes SNode.write emits. */
  function NodeBytes(n: SNode): seq<Byte>
    requires NodeFits(64, n)
  {
    Varint(n.rune) + Varint(n.start) + Varint(n.end) + Varint(n.fail) + Varint(n.edgeId)
  }

  lemma NodeBytesAreVarints(n: SNode)
    requires NodeFits(64, n)
    ensures NodeBytes(n) == Varints(NodeWords(n))
  {
    var a, b, c, d, e := Varint(n.rune), Varint(n.start), Varint(n.end), Varint(n.fail), Varint(n.edgeId);
    var t4 := [n.edgeId];
    var t3 := [n.fail] + t4;
    var t2 := [n.end] + t3;
    var t1 := [n.start] + t2;
    assert NodeWords(n) == [n.rune] + t1;
    assert t4 == [n.edgeId] + [];
    VarintsCons(n.edgeId, []);
    VarintsCons(n.fail, t4);
    VarintsCons(n.end, t3);
    VarintsCons(n.start, t2);
    VarintsCons(n.rune, t1);
    assert Varints(NodeWords(n)) == a + (b + (c + (d + (e + []))));
    assert e + [] == e;
    Regroup(a + b + c, d, e);
    Regroup(a + b, c, d + e);
    Regroup(a, b, c + (d + e));
  }

  function NodesBytes(ns: seq<SNode>): seq<Byte>
    requires NodesFit(64, ns)
  {
    if ns == [] then [] else
      NodesFitTail(64, ns);
      NodeBytes(ns[0]) + NodesBytes(ns[1..])
  }

  /** The node count, then the nodes. */
  function NodesPart(ns: seq<SNode>): seq<Byte>
    requires IsInt64(|ns|) && NodesFit(64, ns)
  {
    Varint(|ns|) + NodesBytes(ns)
  }

  /** The levels count, then the levels. */
  function LevelsPart(ls: seq<int>): seq<Byte>
    requires IsInt64(|ls|) && AllInt64(ls)
  {
    Varint(|ls|) + Varints(ls)
  }

  /** The stream Write produces for st. */
  function Encode(st: STree): seq<Byte>
    requires TreeFits(64, st)
  {
    NodesPart(st.nodes) + LevelsPart(st.levels)
  }

  /** SNode.write: label, start, end, fail, edge id. */
  function WriteNode(w: Writer, n: SNode): (r: Writer)
    requires NodeFits(64, n)
    ensures Appends(w, r, NodeBytes(n))
  {
    var w1 := WriteRune(w, n.rune);
    var w2 := WriteInt(w1, n.start);
    AppendsTwice(w, w1, w2, Varint(n.rune), Varint(n.start));
    var w3 := WriteInt(w2, n.end);
    AppendsTwice(w, w2, w3, Varint(n.rune) + Varint(n.start), Varint(n.end));
    var w4 := WriteInt(w3, n.fail);
    AppendsTwice(w, w3, w4, Varint(n.rune) + Varint(n.start) + Varint(n.end), Varint(n.fail));
    var w5 := WriteInt(w4, n.edgeId);
    AppendsTwice(w, w4, w5, Varint(n.rune) + Varint(n.start) + Varint(n.end) + Varint(n.fail), Varint(n.edgeId));
    w5
  }

  /** The node loop of STree.Write: stop at the first failing node. */
  function WriteNodes(w: Writer, ns: seq<SNode>): (r: Writer)
    requires NodesFit(64, ns)
    ensures Appends(w, r, NodesBytes(ns))
    decreases |ns|
  {
    if ns == [] then
      assert w.out + [] == w.out;
      w
    else
      NodesFitTail(64, ns);
      var m := WriteNode(w, ns[0]);
      if m.err.Some? then
        AppendsFailed(w, m, NodeBytes(ns[0]), NodesBytes(ns[1..]));
        m
      else
        var r := WriteNodes(m, ns[1..]);
        AppendsTwice(w, m, r, NodeBytes(ns[0]), NodesBytes(ns[1..]));
        r
  }

  /** The first half of STree.Write: the node count, then the nodes. */
  function WriteNodesPart(w: Writer, ns: seq<SNode>): (r: Writer)
    requires IsInt64(|ns|) && NodesFit(64, ns)
    ensures Appends(w, r, NodesPart(ns))
  {
    var w1 := WriteInt(w, |ns|);
    if w1.err.Some? then
      AppendsFailed(w, w1, Varint(|ns|), NodesBytes(ns));
      w1
    else
      var w2 := WriteNodes(w1, ns);
      AppendsTwice(w, w1, w2, Varint(|ns|), NodesBytes(ns));
      w2
  }

  /** The second half of STree.Write: the levels count, then the levels. */
  function WriteLevelsPart(w: Writer, ls: seq<int>): (r: Writer)
    requires IsInt64(|ls|) && AllInt64(ls)
    ensures Appends(w, r, LevelsPart(ls))
  {
    var w1 := WriteInt(w, |ls|);
    if w1.err.Some? then
      AppendsFailed(w, w1, Varint(|ls|), Varints(ls));
      w1
    else
      var w2 := WriteInts(w1, ls);
      AppendsTwice(w, w1, w2, Varint(|ls|), Varints(ls));
      w2
  }

  /** STree.Write: the bytes of Encode(st) reach the sink exactly when it has
      room for all of them, and otherwise the write reports ShortWrite. The
      error Write returns is the final writer's. */
  function Write(w: Writer, st: STree): (r: Writer)
    requires TreeFits(64, st)
    ensures Appends(w, r, Encode(st))
  {
    var w1 := WriteNodesPart(w, st.nodes);
    if w1.err.Some? then
      AppendsFailed(w, w1, NodesPart(st.nodes), LevelsPart(st.levels));
      w1
    else
      var w2 := WriteLevelsPart(w1, st.levels);
      AppendsTwice(w, w1, w2, NodesPart(st.nodes), LevelsPart(st.levels));
      w2
  }

  // ---------------------------------------------------------------------------
  // Decoding

  /** What Read ends with: the tree and the bytes after it, an error, or a
      run-time panic. */
  datatype Outcome = Ok(tree: STree, rest: seq<Byte>) | Failed(err: IoErr) | Panic

  /** SNode.read: readRune, then four readInt; the error stays in the reader. */
  function ReadNode(intSize: IntSize, r: Reader): (res: (SNode, Reader))
    ensures r.err.Some? ==> res.1 == r
  {
    var (ws, r1) := ReadInt64s(r, 5);
    (SNode(Wrap32(ws[0]), IntOf(intSize, ws[1]), IntOf(intSize, ws[2]), IntOf(intSize, ws[3]), IntOf(intSize, ws[4])), r1)
  }

  /** The node loop of Read: stop at the first node that fails. */
  function ReadNodes(intSize: IntSize, r: Reader, k: nat): (res: (seq<SNode>, Reader))
    ensures r.err.Some? ==> res.1 == r
    decreases k
  {
    if k == 0 then ([], r)
    else
      var (n, r1) := ReadNode(intSize, r);
      if r1.err.Some? then ([], r1)
      else
        var (ns, r2) := ReadNodes(intSize, r1, k - 1);
        ([n] + ns, r2)
  }

  /** A count as Read takes it: readInt64, the 32-bit limit check, then the
      conversion to int that make() receives. */
  datatype Count = Count(n: int, r: Reader) | BadCount(err: IoErr)

  function ReadCount(intSize: IntSize, r: Reader, tooLarge: IoErr): (c: Count)
    ensures c.Count? ==> c.r.err.None? && FitsInt(intSize, c.n)
  {
    var (n, r1) := ReadInt64(r);
    if r1.err.Some? then BadCount(r1.err.value)
    else if intSize == 32 && n > MaxInt32 then BadCount(tooLarge)
    else Count(IntOf(intSize, n), r1)
  }

  /** The second half of Read: the levels count and the levels, after the
      nodes were read into r. */
  function ReadLevels(intSize: IntSize, r: Reader, nodes: seq<SNode>, negative: Outcome): (o: Outcome)
  {
    match ReadCount(intSize, r, TooLargeLevels)
    case BadCount(e) => Failed(e)
    case Count(m, r1) =>
      if m < 0 then negative
      else
        var (ws, r2) := ReadInt64s(r1, m);
        if r2.err.Some? then Failed(r2.err.value)
        else Ok(STree(nodes, seq(|ws|, j requires 0 <= j < |ws| => IntOf(intSize, ws[j]))), r2.data)
  }

  /** Read with the outcome of a negative count left open: make() with a
      negative length panics in Go. */
  function ReadWith(intSize: IntSize, data: seq<Byte>, negative: Outcome): (o: Outcome)
  {
    match ReadCount(intSize, Reader(data, None), TooLargeTree)
    case BadCount(e) => Failed(e)
    case Count(n, r1) =>
      if n < 0 then negative
      else
        var (nodes, r2) := ReadNodes(intSize, r1, n);
        if r2.err.Some? then Failed(r2.err.value)
        else ReadLevels(intSize, r2, nodes, negative)
  }

  /** Read as written: a negative count reaches make() and panics. */
  function ReadAsWritten(intSize: IntSize, data: seq<Byte>): Outcome
  {
    ReadWith(intSize, data, Panic)
  }

  /** Read with a negative count reported as an error. */
  function Read(intSize: IntSize, data: seq<Byte>): Outcome
  {
    ReadWith(intSize, data, Failed(NegativeLength))
  }

  // ---------------------------------------------------------------------------
  // Round trip and truncation

  lemma PrefixOfAppend(a: seq<Byte>, b: seq<Byte>, k: nat)
    requires k <= |a| + |b|
    ensures k <= |a| ==> (a + b)[..k] == a[..k]
    ensures k >= |a| ==> (a + b)[..k] == a + b[..k - |a|]
  {
  }

  lemma ReadNodeRoundTrip(intSize: IntSize, n: SNode, rest: seq<Byte>)
    requires NodeFits(intSize, n)
    ensures NodeFits(64, n)
    ensures ReadNode(intSize, Reader(NodeBytes(n) + rest, None)) == (n, Reader(rest, None))
  {
    NodeBytesAreVarints(n);
    ReadInt64sRoundTrip(NodeWords(n), rest);
  }

  lemma ReadNodeTruncated(intSize: IntSize, n: SNode, k: nat)
    requires NodeFits(64, n) && k < |NodeBytes(n)|
    ensures ReadNode(intSize, Reader(NodeBytes(n)[..k], None)).1.err in {Some(EOF), Some(UnexpectedEOF)}
  {
    NodeBytesAreVarints(n);
    ReadInt64sTruncated(NodeWords(n), k);
  }

  lemma Regroup(a: seq<Byte>, b: seq<Byte>, c: seq<Byte>)
    ensures (a + b) + c == a + (b + c)
  {
  }

  lemma ConsTail<T>(s: seq<T>)
    requires s != []
    ensures [s[0]] + s[1..] == s
  {
  }

  lemma ReadNodesCons(intSize: IntSize, r: Reader, k: nat, n: SNode, r1: Reader)
    requires k > 0 && ReadNode(intSize, r) == (n, r1) && r1.err.None?
    ensures ReadNodes(intSize, r, k) == ([n] + ReadNodes(intSize, r1, k - 1).0, ReadNodes(intSize, r1, k - 1).1)
  {
  }

  lemma {:induction false} ReadNodesRoundTrip(intSize: IntSize, ns: seq<SNode>, rest: seq<Byte>)
    requires NodesFit(intSize, ns)
    ensures NodesFit(64, ns)
    ensures ReadNodes(intSize, Reader(NodesBytes(ns) + rest, None), |ns|) == (ns, Reader(rest, None))
  {
    NodesFitWiden(intSize, ns);
    if ns != [] {
      NodesFitTail(intSize, ns);
      NodesFitTail(64, ns);
      var tail := NodesBytes(ns[1..]) + rest;
      Regroup(NodeBytes(ns[0]), NodesBytes(ns[1..]), rest);
      ReadNodeRoundTrip(intSize, ns[0], tail);
      ReadNodesCons(intSize, Reader(NodesBytes(ns) + rest, None), |ns|, ns[0], Reader(tail, None));
      ReadNodesRoundTrip(intSize, ns[1..], rest);
      ConsTail(ns);
    } else {
      assert NodesBytes(ns) + rest == rest;
    }
  }

  lemma {:induction false} ReadNodesTruncated(intSize: IntSize, ns: seq<SNode>, k: nat)
    requires NodesFit(intSize, ns)
    ensures NodesFit(64, ns)
    ensures k < |NodesBytes(ns)| ==>
      ReadNodes(intSize, Reader(NodesBytes(ns)[..k], None), |ns|).1.err in {Some(EOF), Some(UnexpectedEOF)}
  {
    NodesFitWiden(intSize, ns);
    if k < |NodesBytes(ns)| {
      NodesFitTail(intSize, ns);
      NodesFitTail(64, ns);
      var a, b := NodeBytes(ns[0]), NodesBytes(ns[1..]);
      PrefixOfAppend(a, b, k);
      if k < |a| {
        ReadNodeTruncated(intSize, ns[0], k);
      } else {
        ReadNodeRoundTrip(intSize, ns[0], b[..k - |a|]);
        ReadNodesCons(intSize, Reader(NodesBytes(ns)[..k], None), |ns|, ns[0], Reader(b[..k - |a|], None));
        ReadNodesTruncated(intSize, ns[1..], k - |a|);
      }
    }
  }

  lemma ReadCountRoundTrip(intSize: IntSize, n: nat, rest: seq<Byte>, tooLarge: IoErr)
    requires FitsInt(intSize, n)
    ensures IsInt64(n)
    ensures ReadCount(intSize, Reader(Varint(n) + rest, None), tooLarge) == Count(n, Reader(rest, None))
  {
    ReadInt64RoundTrip(n, rest);
  }

  lemma ReadCountTruncated(intSize: IntSize, n: nat, k: nat, tooLarge: IoErr)
    requires IsInt64(n) && k < |Varint(n)|
    ensures ReadCount(intSize, Reader(Varint(n)[..k], None), tooLarge) in {BadCount(EOF), BadCount(UnexpectedEOF)}
  {
    ReadInt64Truncated(n, k);
  }

  lemma LevelsRoundTrip(intSize: IntSize, ls: seq<int>, rest: seq<Byte>, nodes: seq<SNode>, negative: Outcome)
    requires FitsInt(intSize, |ls|) && forall j | 0 <= j < |ls| :: FitsInt(intSize, ls[j])
    ensures IsInt64(|ls|) && AllInt64(ls)
    ensures ReadLevels(intSize, Reader(LevelsPart(ls) + rest, None), nodes, negative) == Ok(STree(nodes, ls), rest)
  {
    Regroup(Varint(|ls|), Varints(ls), rest);
    ReadCountRoundTrip(intSize, |ls|, Varints(ls) + rest, TooLargeLevels);
    ReadInt64sRoundTrip(ls, rest);
    var back := seq(|ls|, j requires 0 <= j < |ls| => IntOf(intSize, ls[j]));
    assert back == ls;
  }

  lemma LevelsTruncated(intSize: IntSize, ls: seq<int>, k: nat, nodes: seq<SNode>, negative: Outcome)
    requires FitsInt(intSize, |ls|) && forall j | 0 <= j < |ls| :: FitsInt(intSize, ls[j])
    ensures IsInt64(|ls|) && AllInt64(ls)
    ensures k < |LevelsPart(ls)| ==>
      ReadLevels(intSize, Reader(LevelsPart(ls)[..k], None), nodes, negative) in {Failed(EOF), Failed(UnexpectedEOF)}
  {
    if k < |LevelsPart(ls)| {
      var c, d := Varint(|ls|), Varints(ls);
      PrefixOfAppend(c, d, k);
      var data := LevelsPart(ls)[..k];
      if k < |c| {
        assert data == c[..k];
        LevelsCountCut(intSize, |ls|, k, nodes, negative, data);
      } else {
        assert data == c + d[..k - |c|];
        LevelsBodyCut(intSize, ls, k - |c|, nodes, negative, data);
      }
    }
  }

  /** A cut inside the levels count. */
  lemma LevelsCountCut(intSize: IntSize, m: nat, k: nat, nodes: seq<SNode>, negative: Outcome, data: seq<Byte>)
    requires IsInt64(m) && k < |Varint(m)| && data == Varint(m)[..k]
    ensures ReadLevels(intSize, Reader(data, None), nodes, negative) in {Failed(EOF), Failed(UnexpectedEOF)}
  {
    ReadCountTruncated(intSize, m, k, TooLargeLevels);
  }

  /** A cut after the levels count: the count reads, the levels do not. */
  lemma LevelsBodyCut(intSize: IntSize, ls: seq<int>, k: nat, nodes: seq<SNode>, negative: Outcome, data: seq<Byte>)
    requires FitsInt(intSize, |ls|) && AllInt64(ls) && k < |Varints(ls)|
    requires IsInt64(|ls|) && data == Varint(|ls|) + Varints(ls)[..k]
    ensures ReadLevels(intSize, Reader(data, None), nodes, negative) in {Failed(EOF), Failed(UnexpectedEOF)}
  {
    ReadCountRoundTrip(intSize, |ls|, Varints(ls)[..k], TooLargeLevels);
    ReadInt64sTruncated(ls, k);
  }

  /** ReadWith once the node count n >= 0 was read: the nodes, then the levels. */
  lemma ReadWithNodes(intSize: IntSize, data: seq<Byte>, negative: Outcome, n: int, r1: Reader)
    requires ReadCount(intSize, Reader(data, None), TooLargeTree) == Count(n, r1) && n >= 0
    ensures ReadWith(intSize, data, negative) ==
      var (nodes, r2) := ReadNodes(intSize, r1, n);
      if r2.err.Some? then Failed(r2.err.value) else ReadLevels(intSize, r2, nodes, negative)
  {
  }

  /** Read gives back what Write wrote, on either int width, and leaves the
      bytes that follow unread. */
  lemma RoundTrip(intSize: IntSize, st: STree, rest: seq<Byte>)
    requires TreeFits(intSize, st)
    ensures TreeFits(64, st)
    ensures Read(intSize, Encode(st) + rest) == Ok(st, rest)
    ensures ReadAsWritten(intSize, Encode(st) + rest) == Ok(st, rest)
  {
    var ns, ls := st.nodes, st.levels;
    FitsWiden(intSize, st);
    var tail := LevelsPart(ls) + rest;
    Regroup(Varint(|ns|), NodesBytes(ns), LevelsPart(ls));
    Regroup(Varint(|ns|) + NodesBytes(ns), LevelsPart(ls), rest);
    Regroup(Varint(|ns|), NodesBytes(ns), tail);
    assert Encode(st) + rest == Varint(|ns|) + (NodesBytes(ns) + tail);
    ReadCountRoundTrip(intSize, |ns|, NodesBytes(ns) + tail, TooLargeTree);
    ReadNodesRoundTrip(intSize, ns, tail);
    LevelsRoundTrip(intSize, ls, rest, ns, Panic);
    LevelsRoundTrip(intSize, ls, rest, ns, Failed(NegativeLength));
    ReadWithNodes(intSize, Encode(st) + rest, Panic, |ns|, Reader(NodesBytes(ns) + tail, None));
    ReadWithNodes(intSize, Encode(st) + rest, Failed(NegativeLength), |ns|, Reader(NodesBytes(ns) + tail, None));
  }

  /** Any proper prefix of what Write wrote makes Read fail with EOF or
      UnexpectedEOF. */
  /** A cut inside the node part: the count reads, then the nodes fail or,
      when all of them are there, the levels do. */
  lemma TruncatedAfterCount(intSize: IntSize, st: STree, k1: nat, negative: Outcome)
    requires TreeFits(intSize, st) && TreeFits(64, st)
    requires k1 < |NodesBytes(st.nodes) + LevelsPart(st.levels)|
    ensures
      var data := Varint(|st.nodes|) + (NodesBytes(st.nodes) + LevelsPart(st.levels))[..k1];
      ReadWith(intSize, data, negative) in {Failed(EOF), Failed(UnexpectedEOF)}
  {
    var a, b, c := Varint(|st.nodes|), NodesBytes(st.nodes), LevelsPart(st.levels);
    var data := a + (b + c)[..k1];
    PrefixOfAppend(b, c, k1);
    if k1 < |b| {
      assert data == a + b[..k1];
      TruncatedInNodes(intSize, st.nodes, k1, negative, data);
    } else {
      assert data == a + (b + c[..k1 - |b|]);
      TruncatedInLevels(intSize, st, k1 - |b|, negative, data);
    }
  }

  /** A cut inside the nodes: the count reads, a node does not. */
  lemma TruncatedInNodes(intSize: IntSize, ns: seq<SNode>, k: nat, negative: Outcome, data: seq<Byte>)
    requires FitsInt(intSize, |ns|) && NodesFit(intSize, ns) && NodesFit(64, ns) && IsInt64(|ns|)
    requires k < |NodesBytes(ns)| && data == Varint(|ns|) + NodesBytes(ns)[..k]
    ensures ReadWith(intSize, data, negative) in {Failed(EOF), Failed(UnexpectedEOF)}
  {
    var rd := Reader(NodesBytes(ns)[..k], None);
    ReadCountRoundTrip(intSize, |ns|, rd.data, TooLargeTree);
    var res := ReadNodes(intSize, rd, |ns|);
    AfterNodes(intSize, data, negative, |ns|, rd, res.0, res.1);
    ReadNodesTruncated(intSize, ns, k);
  }

  /** A cut inside the levels: the count and the nodes read, the levels do not. */
  lemma TruncatedInLevels(intSize: IntSize, st: STree, k: nat, negative: Outcome, data: seq<Byte>)
    requires TreeFits(intSize, st) && TreeFits(64, st)
    requires k < |LevelsPart(st.levels)|
    requires data == Varint(|st.nodes|) + (NodesBytes(st.nodes) + LevelsPart(st.levels)[..k])
    ensures ReadWith(intSize, data, negative) in {Failed(EOF), Failed(UnexpectedEOF)}
  {
    var cut := LevelsPart(st.levels)[..k];
    var rd := Reader(NodesBytes(st.nodes) + cut, None);
    ReadCountRoundTrip(intSize, |st.nodes|, rd.data, TooLargeTree);
    ReadNodesRoundTrip(intSize, st.nodes, cut);
    AfterNodes(intSize, data, negative, |st.nodes|, rd, st.nodes, Reader(cut, None));
    LevelsTruncated(intSize, st.levels, k, st.nodes, negative);
  }

  /** ReadWith once the count n was read into r1 and the nodes into r2. */
  lemma AfterNodes(intSize: IntSize, data: seq<Byte>, negative: Outcome, n: int, r1: Reader,
                   nodes: seq<SNode>, r2: Reader)
    requires ReadCount(intSize, Reader(data, None), TooLargeTree) == Count(n, r1) && n >= 0
    requires ReadNodes(intSize, r1, n) == (nodes, r2)
    ensures r2.err.Some? ==> ReadWith(intSize, data, negative) == Failed(r2.err.value)
    ensures r2.err.None? ==> ReadWith(intSize, data, negative) == ReadLevels(intSize, r2, nodes, negative)
  {
  }

  lemma TruncatedInCount(intSize: IntSize, st: STree, k: nat, negative: Outcome)
    requires TreeFits(intSize, st) && TreeFits(64, st)
    requires k < |Varint(|st.nodes|)|
    ensures k < |Encode(st)| && ReadWith(intSize, Encode(st)[..k], negative) in {Failed(EOF), Failed(UnexpectedEOF)}
  {
    var e, a := Encode(st), Varint(|st.nodes|);
    assert e == a + (NodesBytes(st.nodes) + LevelsPart(st.levels));
    assert e[..k] == a[..k];
    CountCut(intSize, |st.nodes|, k, negative, e[..k]);
  }

  /** A cut inside the node count. */
  lemma CountCut(intSize: IntSize, n: nat, k: nat, negative: Outcome, data: seq<Byte>)
    requires IsInt64(n) && k < |Varint(n)| && data == Varint(n)[..k]
    ensures ReadWith(intSize, data, negative) in {Failed(EOF), Failed(UnexpectedEOF)}
  {
    ReadCountTruncated(intSize, n, k, TooLargeTree);
  }

  lemma TruncatedPastCount(intSize: IntSize, st: STree, k: nat, negative: Outcome)
    requires TreeFits(intSize, st) && TreeFits(64, st)
    requires |Varint(|st.nodes|)| <= k < |Encode(st)|
    ensures ReadWith(intSize, Encode(st)[..k], negative) in {Failed(EOF), Failed(UnexpectedEOF)}
  {
    var e, a, bc := Encode(st), Varint(|st.nodes|), NodesBytes(st.nodes) + LevelsPart(st.levels);
    Regroup(a, NodesBytes(st.nodes), LevelsPart(st.levels));
    assert e == a + bc;
    PrefixOfAppend(a, bc, k);
    assert e[..k] == a + bc[..k - |a|];
    TruncatedAfterCount(intSize, st, k - |a|, negative);
  }

  lemma Truncated(intSize: IntSize, st: STree, k: nat, negative: Outcome)
    requires TreeFits(intSize, st)
    ensures TreeFits(64, st)
    ensures k < |Encode(st)| ==> ReadWith(intSize, Encode(st)[..k], negative) in {Failed(EOF), Failed(UnexpectedEOF)}
  {
    FitsWiden(intSize, st);
    if k < |Varint(|st.nodes|)| {
      TruncatedInCount(intSize, st, k, negative);
    } else if k < |Encode(st)| {
      TruncatedPastCount(intSize, st, k, negative);
    }
  }

  /** Both Read and the as-written Read reject every proper prefix. */
  lemma TruncatedFails(intSize: IntSize, st: STree, k: nat)
    requires TreeFits(intSize, st)
    ensures TreeFits(64, st)
    ensures k < |Encode(st)| ==>
      && Read(intSize, Encode(st)[..k]) in {Failed(EOF), Failed(UnexpectedEOF)}
      && ReadAsWritten(intSize, Encode(st)[..k]) in {Failed(EOF), Failed(UnexpectedEOF)}
  {
    Truncated(intSize, st, k, Panic);
    Truncated(intSize, st, k, Failed(NegativeLength));
  }

  // ---------------------------------------------------------------------------
  // Counts Read refuses

  /** A negative node count: the as-written Read hands it to make(), which
      panics; Read reports NegativeLength instead. */
  lemma NegativeNodeCount(intSize: IntSize, n: int, rest: seq<Byte>)
    requires FitsInt(intSize, n) && n < 0
    ensures IsInt64(n)
    ensures ReadAsWritten(intSize, Varint(n) + rest) == Panic
    ensures Read(intSize, Varint(n) + rest) == Failed(NegativeLength)
  {
    ReadInt64RoundTrip(n, rest);
  }

  /** The one-byte stream 0x01 (the zigzag varint of -1) already makes the
      as-written Read panic. */
  lemma NegativeCountPanics(intSize: IntSize)
    ensures ReadAsWritten(intSize, [0x01]) == Panic
    ensures Read(intSize, [0x01]) == Failed(NegativeLength)
  {
    assert Varint(-1) == [0x01];
    assert Varint(-1) + [] == [0x01];
    NegativeNodeCount(intSize, -1, []);
  }

  /** Whatever the bytes, Read ends in a tree or an error, never a panic. */
  lemma ReadNeverPanics(intSize: IntSize, data: seq<Byte>)
    ensures !Read(intSize, data).Panic?
  {
  }

  /** On a 32-bit platform a node count above MaxInt32 is ErrTooLargeTree. */
  lemma TooLargeNodeCount(n: int, rest: seq<Byte>)
    requires IsInt64(n) && n > MaxInt32
    ensures Read(32, Varint(n) + rest) == Failed(TooLargeTree)
    ensures ReadAsWritten(32, Varint(n) + rest) == Failed(TooLargeTree)
  {
    ReadInt64RoundTrip(n, rest);
  }

  /** On a 32-bit platform a levels count above MaxInt32, after well-formed
      nodes, is ErrTooLargeLevels. */
  lemma TooLargeLevelCount(ns: seq<SNode>, m: int, rest: seq<Byte>)
    requires FitsInt(32, |ns|) && NodesFit(32, ns)
    requires IsInt64(m) && m > MaxInt32
    ensures IsInt64(|ns|) && NodesFit(64, ns)
    ensures Read(32, NodesPart(ns) + (Varint(m) + rest)) == Failed(TooLargeLevels)
  {
    NodesFitWiden(32, ns);
    var tail := Varint(m) + rest;
    Regroup(Varint(|ns|), NodesBytes(ns), tail);
    ReadCountRoundTrip(32, |ns|, NodesBytes(ns) + tail, TooLargeTree);
    ReadNodesRoundTrip(32, ns, tail);
    ReadWithNodes(32, NodesPart(ns) + tail, Failed(NegativeLength), |ns|, Reader(NodesBytes(ns) + tail, None));
    ReadInt64RoundTrip(m, rest);
  }
}
