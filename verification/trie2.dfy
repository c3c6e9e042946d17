/** Package trie2 (trie2/trie2.go, trie2/predict.go): a trie that maps keys to
    values. values[id-1] holds the value of the key whose edge id is id. */
module Trie2 {
  import opened Base
  import opened Codec
  import Dynamic
  import Static
  import Failure
  import Fz = Freeze
  import Serial
  import P = Predict
  import Adapters

  // ---------------------------------------------------------------------------
  // DTrie

  datatype DTrie<T> = DTrie(tree: Dynamic.DTree, values: seq<T>)

  /** Put keeps one value per id: values is as long as the id counter. */
  ghost predicate Inv<T>(dt: DTrie<T>)
  {
    Dynamic.Valid(dt.tree) && |dt.values| == dt.tree.lastEdgeID
  }

  /** The zero DTrie. */
  function NewDTrie<T>(): (r: DTrie<T>)
    ensures Inv(r)
    ensures forall u :: Lookup(r, u) == None
  {
    Dynamic.EmptyValid();
    DTrie(Dynamic.Empty(), [])
  }

  /** The value stored for key u, if u is a key. */
  ghost function Lookup<T>(dt: DTrie<T>, u: seq<char>): Option<T>
    requires Inv(dt)
  {
    if Dynamic.IsKey(dt.tree, u) then Some(dt.values[Dynamic.IdAt(dt.tree, u) - 1]) else None
  }

  /** DTrie.Put: a new id appends v, a known id overwrites its slot. Seen
      through Lookup, Put is a map update: k now holds v and every other key
      keeps its value. */
  function Put<T>(dt: DTrie<T>, k: seq<char>, v: T): (r: DTrie<T>)
    requires Inv(dt)
    ensures Inv(r)
    ensures Lookup(r, k) == Some(v)
    ensures forall u | u != k :: Lookup(r, u) == Lookup(dt, u)
  {
    var (t, id) := Dynamic.Put(dt.tree, k);
    Dynamic.PutValid(dt.tree, k);
    var r := if id - 1 == |dt.values| then DTrie(t, dt.values + [v]) else DTrie(t, dt.values[id - 1 := v]);
    PutLookup(dt, k, v, r);
    r
  }

  lemma PutLookup<T>(dt: DTrie<T>, k: seq<char>, v: T, r: DTrie<T>)
    requires Inv(dt)
    requires var (t, id) := Dynamic.Put(dt.tree, k);
      r == if id - 1 == |dt.values| then DTrie(t, dt.values + [v]) else DTrie(t, dt.values[id - 1 := v])
    ensures Inv(r)
    ensures Lookup(r, k) == Some(v)
    ensures forall u | u != k :: Lookup(r, u) == Lookup(dt, u)
  {
    var (t, id) := Dynamic.Put(dt.tree, k);
    Dynamic.PutValid(dt.tree, k);
    forall u | u != k
      ensures Lookup(r, u) == Lookup(dt, u)
    {
      PutKeepsOther(dt, k, v, r, u);
    }
  }

  lemma PutKeepsOther<T>(dt: DTrie<T>, k: seq<char>, v: T, r: DTrie<T>, u: seq<char>)
    requires Inv(dt) && Inv(r) && u != k
    requires var (t, id) := Dynamic.Put(dt.tree, k);
      r == if id - 1 == |dt.values| then DTrie(t, dt.values + [v]) else DTrie(t, dt.values[id - 1 := v])
    ensures Lookup(r, u) == Lookup(dt, u)
  {
    Dynamic.PutEffect(dt.tree, k, u);
    if Dynamic.IsKey(dt.tree, u) {
      SlotUntouched(dt, k, v, r, u);
    }
  }

  /** The slot of another key is neither the one overwritten nor the one appended. */
  lemma SlotUntouched<T>(dt: DTrie<T>, k: seq<char>, v: T, r: DTrie<T>, u: seq<char>)
    requires Inv(dt) && u != k && Dynamic.IsKey(dt.tree, u)
    requires var (t, id) := Dynamic.Put(dt.tree, k);
      r == if id - 1 == |dt.values| then DTrie(t, dt.values + [v]) else DTrie(t, dt.values[id - 1 := v])
    ensures Dynamic.IdAt(dt.tree, u) <= |dt.values| <= |r.values|
    ensures r.values[Dynamic.IdAt(dt.tree, u) - 1] == dt.values[Dynamic.IdAt(dt.tree, u) - 1]
  {
    var id := Dynamic.Put(dt.tree, k).1;
    var i := Dynamic.IdAt(dt.tree, u);
    if Dynamic.IsKey(dt.tree, k) {
      assert id == Dynamic.IdAt(dt.tree, k);
      assert i != id;
    } else {
      assert i <= dt.tree.lastEdgeID < id;
    }
  }

  /** The value Lookup gives for a key is the slot of its id. */
  lemma LookupKey<T>(dt: DTrie<T>, u: seq<char>, id: int)
    requires Inv(dt) && Dynamic.IsKey(dt.tree, u) && Dynamic.IdAt(dt.tree, u) == id
    ensures 1 <= id <= |dt.values| && Lookup(dt, u) == Some(dt.values[id - 1])
  {
  }

  /** DTrie.FillFailure: the links of the tree, values untouched. */
  function FillFailure<T>(dt: DTrie<T>): (r: DTrie<T>)
    requires Inv(dt)
    ensures Inv(r) && Filled(r)
    ensures r.values == dt.values && forall u :: Lookup(r, u) == Lookup(dt, u)
  {
    FilledTrie(dt);
    DTrie(Failure.FillFailure(dt.tree), dt.values)
  }

  lemma FilledTrie<T>(dt: DTrie<T>)
    requires Inv(dt)
    ensures var r := DTrie(Failure.FillFailure(dt.tree), dt.values);
      Inv(r) && Filled(r) && forall u :: Lookup(r, u) == Lookup(dt, u)
  {
    var r := DTrie(Failure.FillFailure(dt.tree), dt.values);
    Failure.FillFailureCorrect(dt.tree);
    assert r.tree.root == dt.tree.root;
    forall u
      ensures Lookup(r, u) == Lookup(dt, u)
    {
      assert Dynamic.IdAt(r.tree, u) == Dynamic.IdAt(dt.tree, u);
    }
  }

  /** The failure links are the ones FillFailure computes for the current
      keys, i.e. no Put came after the last FillFailure. */
  predicate Filled<T>(dt: DTrie<T>)
  {
    dt.tree == Failure.FillFailure(dt.tree)
  }

  /** The result of a longest-prefix search: Go's (zero, "", false) is NotFound. */
  datatype Found<T> = NotFound | Found(value: T, prefix: seq<char>)

  /** r answers a longest-prefix search of s: the longest non-empty prefix of
      s that is a key, with its value, or NotFound when there is none. */
  ghost predicate LongestMatch<T>(dt: DTrie<T>, s: seq<char>, r: Found<T>)
    requires Inv(dt)
  {
    && (r.NotFound? <==> forall k | 1 <= k <= |s| :: Lookup(dt, s[..k]).None?)
    && (r.Found? ==>
          && 1 <= |r.prefix| <= |s| && r.prefix == s[..|r.prefix|]
          && Lookup(dt, r.prefix) == Some(r.value)
          && forall k | |r.prefix| < k <= |s| :: Lookup(dt, s[..k]).None?)
  }

  /** DTrie.LongestPrefix. */
  method LongestPrefix<T>(dt: DTrie<T>, s: seq<char>) returns (r: Found<T>)
    requires Inv(dt)
    ensures LongestMatch(dt, s, r)
  {
    var prefix, id := Dynamic.LongestPrefix(dt.tree, s);
    if id == 0 {
      return NotFound;
    }
    r := Found(dt.values[id - 1], prefix);
  }

  // ---------------------------------------------------------------------------
  // STrie

  datatype STrie<T> = STrie(tree: Static.STree, values: seq<T>)

  /** DTrie.Freeze: the frozen tree and the same values. Whether the slice is
      copied or shared is aliasing, which immutable sequences do not have:
      both give the same contents. The frozen trie keeps one value per level
      and its tree answers array lookups. */
  function Freeze<T>(dt: DTrie<T>, copyValues: bool): (r: STrie<T>)
    requires Inv(dt)
    ensures r.values == dt.values && |r.values| == |r.tree.levels|
    ensures Static.Ranges(r.tree)
  {
    Fz.FrozenIdsAgree(dt.tree);
    STrie(Fz.Freeze(dt.tree), dt.values)
  }

  /** The frozen trie holds the same keys with the same ids, so every id it
      reads indexes its values. */
  lemma FreezeKeepsIds<T>(dt: DTrie<T>, copyValues: bool)
    requires Inv(dt)
    ensures forall p :: Static.IdOf(Freeze(dt, copyValues).tree, p) == Dynamic.IdAt(dt.tree, p)
    ensures IdsWithin(Freeze(dt, copyValues))
  {
    Fz.FrozenIdsAgree(dt.tree);
  }

  /** The value STrie.LongestPrefix reads for id: Go indexes values[id-1]. */
  ghost predicate IdsWithin<T>(st: STrie<T>)
  {
    Static.Ranges(st.tree) && forall p :: Static.IdOf(st.tree, p) <= |st.values|
  }

  ghost predicate SLongestMatch<T>(st: STrie<T>, s: seq<char>, r: Found<T>)
    requires Static.Ranges(st.tree)
  {
    && (r.NotFound? ==> Static.LongestSlotPrefix(st.tree, s, [], 0))
    && (r.Found? ==>
          var id := Static.IdOf(st.tree, r.prefix);
          && Static.LongestSlotPrefix(st.tree, s, r.prefix, id)
          && 1 <= id <= |st.values| && r.value == st.values[id - 1])
  }

  /** STrie.LongestPrefix: the same contract over the array walk. */
  method SLongestPrefix<T>(st: STrie<T>, s: seq<char>) returns (r: Found<T>)
    requires IdsWithin(st)
    ensures SLongestMatch(st, s, r)
  {
    var prefix, id := Static.LongestPrefix(st.tree, s);
    if id == 0 {
      return NotFound;
    }
    r := Found(st.values[id - 1], prefix);
  }

  /** Freezing keeps every longest-prefix answer: the frozen trie finds the
      same prefix and the same value. */
  lemma FrozenLongestPrefixAgrees<T>(dt: DTrie<T>, copyValues: bool, s: seq<char>, r1: Found<T>, r2: Found<T>)
    requires Inv(dt)
    requires LongestMatch(dt, s, r1)
    requires SLongestMatch(Freeze(dt, copyValues), s, r2)
    ensures r1 == r2
  {
    var p, id := DynamicAnswer(dt, s, r1);
    FreezeKeepsIds(dt, copyValues);
    SameIdsAnswer(dt.tree, dt.values, Freeze(dt, copyValues), s, r2, p, id);
    SameAnswer(r1, r2, dt.values, p, id);
  }

  /** An STrie holding the values and reading the ids of a trie answers as the
      trie's contract says, with the same prefix and id. */
  lemma SameIdsAnswer<T>(t: Dynamic.DTree, values: seq<T>, st: STrie<T>, s: seq<char>, r: Found<T>, p: seq<char>, id: int)
    requires st.values == values && Static.Ranges(st.tree)
    requires forall q :: Static.IdOf(st.tree, q) == Dynamic.IdAt(t, q)
    requires Dynamic.LongestKeyPrefix(t, s, p, id) && SLongestMatch(st, s, r)
    ensures r.Found? <==> id != 0
    ensures r.Found? ==> r.prefix == p && 1 <= id <= |values| && r.value == values[id - 1]
  {
    var p2, id2 := StaticAnswer(st, s, r);
    Fz.SameIdsSameAnswer(t, st.tree, s, p2, id2, p, id);
  }

  /** The prefix and id behind a DTrie answer. */
  lemma DynamicAnswer<T>(dt: DTrie<T>, s: seq<char>, r: Found<T>) returns (p: seq<char>, id: int)
    requires Inv(dt) && LongestMatch(dt, s, r)
    ensures Dynamic.LongestKeyPrefix(dt.tree, s, p, id)
    ensures r.Found? <==> id != 0
    ensures r.Found? ==> r.prefix == p && 1 <= id <= |dt.values| && r.value == dt.values[id - 1]
  {
    p := if r.Found? then r.prefix else [];
    id := if r.Found? then Dynamic.IdAt(dt.tree, p) else 0;
  }

  /** The prefix and id behind an STrie answer. */
  lemma StaticAnswer<T>(st: STrie<T>, s: seq<char>, r: Found<T>) returns (p: seq<char>, id: int)
    requires Static.Ranges(st.tree) && SLongestMatch(st, s, r)
    ensures Static.LongestSlotPrefix(st.tree, s, p, id)
    ensures r.Found? <==> id != 0
    ensures r.Found? ==> r.prefix == p && 1 <= id <= |st.values| && r.value == st.values[id - 1]
  {
    p := if r.Found? then r.prefix else [];
    id := if r.Found? then Static.IdOf(st.tree, p) else 0;
  }

  /** Two answers with the same prefix and id read the same slot. */
  lemma SameAnswer<T>(r1: Found<T>, r2: Found<T>, vs: seq<T>, p: seq<char>, id: int)
    requires r1.Found? <==> id != 0
    requires r2.Found? <==> id != 0
    requires r1.Found? ==> r1.prefix == p && 1 <= id <= |vs| && r1.value == vs[id - 1]
    requires r2.Found? ==> r2.prefix == p && 1 <= id <= |vs| && r2.value == vs[id - 1]
    ensures r1 == r2
  {
  }


  // ---------------------------------------------------------------------------
  // Marshal and Unmarshal

  /** An io.Writer taking bytes, as the value codec uses it. */
  function WriteBytes(w: Writer, b: seq<Byte>): (r: Writer)
    ensures Appends(w, r, b)
  {
    if w.err.Some? then w
    else if |b| <= w.room then Writer(w.out + b, w.room - |b|, None)
    else w.(err := Some(ShortWrite))
  }

  datatype MarshalError =
    | Unmatched(values: int, levels: int)  // counts differ: nothing is written
    | TreeWriteFailed(err: IoErr)
    | ValuesWriteFailed(err: IoErr)

  /** STrie.Marshal with the value codec given as an encoder: refuse before
      writing anything when values and levels differ in number; otherwise the
      tree's bytes, then the encoded values. */
  function Marshal<T>(st: STrie<T>, w: Writer, encode: seq<T> -> seq<Byte>): (r: (Writer, Option<MarshalError>))
    requires Serial.TreeFits(64, st.tree)
    ensures |st.values| != |st.tree.levels| ==> r == (w, Some(Unmatched(|st.values|, |st.tree.levels|)))
    ensures |st.values| == |st.tree.levels| ==>
      exists m :: Appends(w, m, Serial.Encode(st.tree)) &&
        if m.err.Some? then r == (m, Some(TreeWriteFailed(m.err.value)))
        else Appends(m, r.0, encode(st.values)) && (r.1.None? <==> r.0.err.None?)
  {
    if |st.values| != |st.tree.levels| then (w, Some(Unmatched(|st.values|, |st.tree.levels|)))
    else
      var w1 := Serial.Write(w, st.tree);
      if w1.err.Some? then (w1, Some(TreeWriteFailed(w1.err.value)))
      else
        var w2 := WriteBytes(w1, encode(st.values));
        if w2.err.Some? then (w2, Some(ValuesWriteFailed(w2.err.value))) else (w2, None)
  }

  /** What a value decoder gives for n values: the values and the bytes
      after them, or a failure. */
  datatype ValuesRead<T> = ValuesOk(values: seq<T>, rest: seq<Byte>) | ValuesFailed

  datatype LoadError = TreeReadFailed(err: IoErr) | ValuesReadFailed

  datatype Loaded<T> = Loaded(trie: STrie<T>, rest: seq<Byte>) | LoadFailed(err: LoadError)

  /** Unmarshal with the value codec given as a decoder: read the tree; with
      an empty levels table stop there, with no values; otherwise decode
      len(Levels) values from what follows. */
  function Unmarshal<T>(intSize: IntSize, data: seq<Byte>, decode: (seq<Byte>, nat) -> ValuesRead<T>): (r: Loaded<T>)
    ensures Serial.Read(intSize, data).Failed? ==> r == LoadFailed(TreeReadFailed(Serial.Read(intSize, data).err))
    ensures Serial.Read(intSize, data).Ok? && Serial.Read(intSize, data).tree.levels == [] ==>
      r == Loaded(STrie(Serial.Read(intSize, data).tree, []), Serial.Read(intSize, data).rest)
  {
    match Serial.Read(intSize, data)
    case Failed(e) => LoadFailed(TreeReadFailed(e))
    case Panic =>
      Serial.ReadNeverPanics(intSize, data);
      assert false;
      LoadFailed(ValuesReadFailed)
    case Ok(tree, rest) =>
      if |tree.levels| == 0 then Loaded(STrie(tree, []), rest)
      else
        match decode(rest, |tree.levels|)
        case ValuesFailed => LoadFailed(ValuesReadFailed)
        case ValuesOk(vs, rest2) => Loaded(STrie(tree, vs), rest2)
  }

  /** With an empty levels table the value decoder is never consulted. */
  lemma EmptyLevelsSkipValues<T>(intSize: IntSize, st: Static.STree, rest: seq<Byte>,
                                 d1: (seq<Byte>, nat) -> ValuesRead<T>, d2: (seq<Byte>, nat) -> ValuesRead<T>)
    requires Serial.TreeFits(intSize, st) && st.levels == []
    ensures Unmarshal(intSize, Serial.Encode(st) + rest, d1) == Unmarshal(intSize, Serial.Encode(st) + rest, d2)
    ensures Unmarshal(intSize, Serial.Encode(st) + rest, d1) == Loaded(STrie(st, []), rest)
  {
    Serial.RoundTrip(intSize, st, rest);
  }

  /** A value codec whose decoder reads back what its encoder wrote. */
  ghost predicate CodecRoundTrips<T(!new)>(encode: seq<T> -> seq<Byte>, decode: (seq<Byte>, nat) -> ValuesRead<T>)
  {
    forall vs: seq<T>, rest: seq<Byte> ::
      decode(encode(vs) + rest, |vs|) == ValuesOk(vs, rest)
  }

  /** Unmarshal reads back what a successful Marshal wrote. With no levels the
      encoded empty value list stays unread, in front of what follows. */
  lemma MarshalRoundTrip<T(!new)>(st: STrie<T>, w: Writer, rest: seq<Byte>,
                            encode: seq<T> -> seq<Byte>, decode: (seq<Byte>, nat) -> ValuesRead<T>)
    requires Serial.TreeFits(64, st.tree) && |st.values| == |st.tree.levels|
    requires CodecRoundTrips(encode, decode)
    requires w.out == [] && w.err.None?
    requires Marshal(st, w, encode).1.None?
    ensures var out := Marshal(st, w, encode).0.out;
      Unmarshal(64, out + rest, decode) ==
        Loaded(st, if st.tree.levels == [] then encode(st.values) + rest else rest)
  {
    var w1 := Serial.Write(w, st.tree);
    var enc := Serial.Encode(st.tree);
    var vals := encode(st.values);
    assert w1.out == enc;
    var out := Marshal(st, w, encode).0.out;
    assert out == enc + vals;
    Serial.Regroup(enc, vals, rest);
    Serial.RoundTrip(64, st.tree, vals + rest);
    if st.tree.levels != [] {
      assert decode(vals + rest, |st.values|) == ValuesOk(st.values, rest);
    } else {
      assert st.values == [];
    }
  }

  // ---------------------------------------------------------------------------
  // Predictions with keys and values

  datatype KeyPrediction<T> = KeyPrediction(start: int, end: int, key: seq<char>, value: T)

  /** query[start:end] for byte offsets on rune boundaries. */
  function Slice(q: seq<char>, start: int, end: int): seq<char>
  {
    var a := |P.Cut(q, start)|;
    var b := |P.Cut(q, end)|;
    if a <= b then q[a..b] else []
  }

  /** One call of the wrapped iterator: a key/value prediction, nil, or the
      core iterator's panic, which the wrapper does not catch. */
  datatype KeyCall<T> = KeyYields(kp: KeyPrediction<T>) | KeyDone | KeyPanics

  /** The closure predictIter wraps around the core iterator: nil stays nil;
      otherwise the span is kept, the key is the query's bytes in the span and
      the value is values[ID-1]. */
  function Wrap<T>(q: seq<char>, values: seq<T>, c: P.Call): (r: KeyCall<T>)
    requires c.Yields? ==> 1 <= c.p.id <= |values|
    ensures r.KeyDone? <==> c.Done?
    ensures r.KeyPanics? <==> c.Panics?
    ensures r.KeyYields? ==>
      && r.kp.start == c.p.start && r.kp.end == c.p.end
      && r.kp.key == Slice(q, c.p.start, c.p.end)
      && r.kp.value == values[c.p.id - 1]
  {
    match c
    case Done => KeyDone
    case Panics => KeyPanics
    case Yields(x) => KeyYields(KeyPrediction(x.start, x.end, Slice(q, x.start, x.end), values[x.id - 1]))
  }

  /** The span of a match of key u ending after rune j covers exactly u. */
  lemma SpanCoversKey(q: seq<char>, j: nat, u: seq<char>, id: int)
    requires j < |q| && Failure.IsSuffix(u, q[..j + 1])
    ensures var x := P.Span(q, ByteLen(q[..j + 1]), ScanNode(id, |u|));
      x.id == id && Slice(q, x.start, x.end) == u
  {
    var w := q[..j + 1];
    var a := j + 1 - |u|;
    P.CutAtBoundary(q, j + 1);
    assert w[..a] == q[..a];
    P.CutAtBoundary(q, a);
    ByteLenPrefix(q, a, j + 1);
  }

  lemma {:induction false} InSpans(q: seq<char>, end: int, ms: seq<ScanNode>, x: P.Prediction)
    requires x in P.Spans(q, end, ms)
    ensures exists m :: m in ms && x == P.Span(q, end, m)
    decreases |ms|
  {
    if x != P.Span(q, end, ms[0]) {
      InSpans(q, end, ms[1..], x);
      var m :| m in ms[1..] && x == P.Span(q, end, m);
      assert m in ms;
    }
  }

  lemma {:induction false} InFrom<T(!new)>(tr: P.Tree<T>, q: seq<char>, k: nat, x: P.Prediction)
    requires P.Walkable(tr) && x in P.From(tr, q, k)
    ensures exists j :: k <= j < |q| && x in P.RuneMatches(tr, q, j)
    decreases |q| - k
  {
    if x !in P.RuneMatches(tr, q, k) {
      InFrom(tr, q, k + 1, x);
    }
  }

  /** What DTrie.PredictIter's core iterator yields, once the links are filled. */
  function Predictions<T>(dt: DTrie<T>, q: seq<char>): seq<P.Prediction>
    requires Inv(dt)
  {
    Adapters.DynamicWalkable(dt.tree);
    P.Expected(Adapters.DynamicTree(dt.tree), q)
  }

  /** Every prediction of a filled DTrie names a key that occurs in the query
      at [Start, End) with its id: so ID-1 indexes values, and the value the
      wrapper reads is the one Put stored for that key. */
  lemma PredictionIsKey<T>(dt: DTrie<T>, q: seq<char>, x: P.Prediction)
    requires Inv(dt) && Filled(dt) && x in Predictions(dt, q)
    ensures 1 <= x.id <= |dt.values|
    ensures Lookup(dt, Slice(q, x.start, x.end)) == Some(dt.values[x.id - 1])
    ensures Dynamic.IdAt(dt.tree, Slice(q, x.start, x.end)) == x.id
  {
    Adapters.DynamicWalkable(dt.tree);
    var u := KeyOfPrediction(dt.tree, q, x);
    LookupKey(dt, u, x.id);
  }

  /** The key a prediction of a filled tree spans. */
  lemma KeyOfPrediction(t: Dynamic.DTree, q: seq<char>, x: P.Prediction) returns (u: seq<char>)
    requires Dynamic.Valid(t) && t == Failure.FillFailure(t)
    requires Dynamic.LinksShrink(t.failure) && [] !in t.failure
    requires P.Walkable(Adapters.DynamicTree(t)) && x in P.Expected(Adapters.DynamicTree(t), q)
    ensures Dynamic.IsKey(t, u) && Dynamic.IdAt(t, u) == x.id && Slice(q, x.start, x.end) == u
  {
    var tr := Adapters.DynamicTree(t);
    var j, m := MatchOfPrediction(t, q, x);
    Failure.ScanReportsKeysEndingHere(t, q, j);
    u :| Failure.IsSuffix(u, q[..j + 1]) && Dynamic.IsKey(t, u) && m == ScanNode(Dynamic.IdAt(t, u), |u|);
    SpanCoversKey(q, j, u, Dynamic.IdAt(t, u));
  }

  /** The rune and the scan match a prediction comes from. */
  lemma MatchOfPrediction(t: Dynamic.DTree, q: seq<char>, x: P.Prediction) returns (j: nat, m: ScanNode)
    requires Dynamic.LinksShrink(t.failure) && [] !in t.failure
    requires P.Walkable(Adapters.DynamicTree(t)) && x in P.Expected(Adapters.DynamicTree(t), q)
    ensures j < |q| && m in Dynamic.EventAt(t, q, j).nodes && x == P.Span(q, ByteLen(q[..j + 1]), m)
  {
    var tr := Adapters.DynamicTree(t);
    InFrom(tr, q, 0, x);
    j :| 0 <= j < |q| && x in P.RuneMatches(tr, q, j);
    Adapters.DynamicMatches(t, q, j);
    InSpans(q, ByteLen(q[..j + 1]), Dynamic.EventAt(t, q, j).nodes, x);
    m :| m in Dynamic.EventAt(t, q, j).nodes && x == P.Span(q, ByteLen(q[..j + 1]), m);
  }

  /** Call i of the wrapped iterator, given that the core calls follow an
      outlook whose predictions lead the filled DTrie's predictions. */
  lemma PredictIterAt<T>(dt: DTrie<T>, q: seq<char>, o: P.Outlook, core: seq<P.Call>, i: nat)
    requires Inv(dt) && Filled(dt) && i < |core| && core == P.Owed(o, |core|)
    requires |o.preds| <= |Predictions(dt, q)| && o.preds == Predictions(dt, q)[..|o.preds|]
    ensures core[i].Yields? ==> 1 <= core[i].p.id <= |dt.values|
    ensures var xs := Predictions(dt, q);
      && (i < |o.preds| ==> core[i] == P.Yields(xs[i]))
      && (i >= |o.preds| ==> core[i] == if o.panics then P.Panics else P.Done)
      && (i < |o.preds| ==> var kp := Wrap(q, dt.values, core[i]).kp;
            kp.start == xs[i].start && kp.end == xs[i].end && Lookup(dt, kp.key) == Some(kp.value))
  {
    P.OwedAt(o, |core|, i);
    if i < |o.preds| {
      var xs := Predictions(dt, q);
      assert o.preds[i] == xs[i];
      WrapIsKey(dt, q, xs[i]);
    }
  }

  /** The wrapper turns a prediction of a filled DTrie into its key and the
      value stored for that key. */
  lemma WrapIsKey<T>(dt: DTrie<T>, q: seq<char>, x: P.Prediction)
    requires Inv(dt) && Filled(dt) && x in Predictions(dt, q)
    ensures 1 <= x.id <= |dt.values|
    ensures var kp := Wrap(q, dt.values, P.Yields(x)).kp;
      kp.start == x.start && kp.end == x.end && Lookup(dt, kp.key) == Some(kp.value)
  {
    PredictionIsKey(dt, q, x);
    var v := dt.values[x.id - 1];
    assert Wrap(q, dt.values, P.Yields(x)) == KeyYields(KeyPrediction(x.start, x.end, Slice(q, x.start, x.end), v));
  }

  /** What the core iterator of a filled DTrie does: all its predictions and
      then nil, unless the empty key is present; then Failure of the root is
      nil and the iterator panics after the predictions of the first rune. */
  lemma FilledOutlook<T>(dt: DTrie<T>, q: seq<char>)
    requires Inv(dt) && Filled(dt)
    ensures P.Walkable(Adapters.DynamicTree(dt.tree))
    ensures var tr := Adapters.DynamicTree(dt.tree);
      var o := P.PullOutlook(tr, q);
      && (o.panics <==> Dynamic.IdAt(dt.tree, []) > 0 && q != [])
      && (o.panics ==> o.preds == P.RuneMatches(tr, q, 0))
      && (!o.panics ==> o.preds == Predictions(dt, q))
  {
    var tr := Adapters.DynamicTree(dt.tree);
    Adapters.DynamicWalkable(dt.tree);
    Failure.FillFailureCorrect(dt.tree);
    forall j | 0 <= j < |q|
      ensures P.RuneDangles(tr, q, j) <==> Dynamic.IdAt(dt.tree, []) > 0
    {
      Adapters.FilledDangles(dt.tree, q, j);
    }
    if P.PullOutlook(tr, q).panics {
      var j := P.OutlookPanicPoint(tr, q, 0);
    } else {
      P.OutlookCalm(tr, q, 0);
    }
  }

  /** The wrapped iterator of a filled DTrie: while the core iterator yields,
      each call gives a key/value pair found in the query, spanning the core
      prediction, whose value is the one stored for its key. Without the
      empty key that is every prediction, then nil; with it, the predictions
      of the first rune, then a panic. */
  lemma DTriePredictIter<T>(dt: DTrie<T>, q: seq<char>, n: nat)
    requires Inv(dt) && Filled(dt)
    ensures P.Walkable(Adapters.DynamicTree(dt.tree))
    ensures var tr := Adapters.DynamicTree(dt.tree);
      var core := P.Calls(tr, q, P.Start(tr, q), n);
      var xs := Predictions(dt, q);
      var panics := Dynamic.IdAt(dt.tree, []) > 0 && q != [];
      var m := if panics then |P.RuneMatches(tr, q, 0)| else |xs|;
      && m <= |xs|
      && forall i | 0 <= i < n ::
        && (core[i].Yields? ==> 1 <= core[i].p.id <= |dt.values|)
        && (i < m ==> core[i] == P.Yields(xs[i]))
        && (i >= m ==> core[i] == if panics then P.Panics else P.Done)
        && (i < m ==> var kp := Wrap(q, dt.values, core[i]).kp;
              kp.start == xs[i].start && kp.end == xs[i].end
              && Lookup(dt, kp.key) == Some(kp.value))
  {
    var tr := Adapters.DynamicTree(dt.tree);
    Adapters.DynamicWalkable(dt.tree);
    FilledOutlook(dt, q);
    var o := P.PullOutlook(tr, q);
    P.PredictIterYields(tr, q, n);
    var core := P.Calls(tr, q, P.Start(tr, q), n);
    forall i | 0 <= i < n {
      PredictIterAt(dt, q, o, core, i);
    }
  }

  /** An STrie frozen from a filled DTrie without the empty key predicts the
      same spans and ids, so it wraps them into the same key/value pairs. */
  lemma FrozenPredictionsAgree<T>(dt: DTrie<T>, copyValues: bool, q: seq<char>)
    requires Inv(dt) && Filled(dt) && Dynamic.IdAt(dt.tree, []) == 0
    ensures Static.Acyclic(Freeze(dt, copyValues).tree)
    ensures P.Walkable(Adapters.StaticTree(Freeze(dt, copyValues).tree))
    ensures P.Expected(Adapters.StaticTree(Freeze(dt, copyValues).tree), q) == Predictions(dt, q)
  {
    Adapters.FrozenPredictsAlike(dt.tree, q);
  }
}
