/** Package trie (trie/trie.go): a keyword set that is growable until it is
    frozen. A Trie holds at most one of a DTree (growable) and an STree
    (frozen); Put and Freeze on a frozen Trie fail with ErrFreezedAlready. */
module Trie {
  import opened Base
  import opened Codec
  import Dynamic
  import Static
  import Failure
  import Fz = Freeze
  import Serial

  /** Trie{dy, st}: None stands for a nil pointer. */
  datatype Trie = Trie(dy: Option<Dynamic.DTree>, st: Option<Static.STree>)

  datatype Error = FreezedAlready

  /** A call that returns, or a run-time panic. */
  datatype Outcome<T> = Returned(value: T) | Panicked

  /** New: neither tree exists yet. */
  function New(): (r: Trie)
    ensures Inv(r) && Grown(r) == Dynamic.Empty()
  {
    Trie(None, None)
  }

  /** The first key put into a new Trie is accepted and gets id 1. */
  lemma NewFirstPut(s: seq<char>)
    ensures Put(New(), s).2.None? && Put(New(), s).1 == 1
  {
    Dynamic.EmptyValid();
    assert !Dynamic.IsKey(Dynamic.Empty(), s);
  }

  /** Put builds dy only through DTree.Put and nothing here fills failure
      links, so a growable tree is valid and carries no links. */
  ghost predicate Inv(tr: Trie)
  {
    tr.dy.Some? ==> Dynamic.Valid(tr.dy.value) && tr.dy.value.failure == map[]
  }

  /** The growable tree, with a nil dy read as the zero DTree. */
  function Grown(tr: Trie): (t: Dynamic.DTree)
    requires Inv(tr)
    ensures Dynamic.Valid(t) && t.failure == map[]
  {
    Dynamic.EmptyValid();
    if tr.dy.Some? then tr.dy.value else Dynamic.Empty()
  }

  // ---------------------------------------------------------------------------
  // Put and Freeze

  /** Trie.Put: refused once frozen; otherwise creates dy on first use and
      returns the id DTree.Put gives the key (its old id, or the next one). */
  function Put(tr: Trie, s: seq<char>): (r: (Trie, int, Option<Error>))
    requires Inv(tr)
    ensures Inv(r.0)
    ensures tr.st.Some? ==> r == (tr, 0, Some(FreezedAlready))
    ensures tr.st.None? ==>
      && r.2.None? && r.0.st.None? && r.0.dy.Some?
      && r.1 == (if Dynamic.IsKey(Grown(tr), s) then Dynamic.IdAt(Grown(tr), s) else Grown(tr).lastEdgeID + 1)
      && r.1 > 0
      && Dynamic.IdAt(r.0.dy.value, s) == r.1
      && r.0.dy.value.lastEdgeID == (if Dynamic.IsKey(Grown(tr), s) then Grown(tr).lastEdgeID else r.1)
  {
    if tr.st.Some? then (tr, 0, Some(FreezedAlready))
    else
      var (t, id) := Dynamic.Put(Grown(tr), s);
      Dynamic.PutValid(Grown(tr), s);
      (Trie(Some(t), None), id, None)
  }

  /** The tree a frozen Trie holds, or the one freezing would produce. */
  function Frozen(tr: Trie): Static.STree
    requires Inv(tr)
  {
    if tr.st.Some? then tr.st.value else Fz.Freeze(Grown(tr))
  }

  /** Trie.Freeze as written: trietree.Freeze(tr.dy) dereferences dy, which
      is still nil when Put was never called. */
  function FreezeAsWritten(tr: Trie): (r: Outcome<(Trie, Option<Error>)>)
    requires Inv(tr)
    ensures r.Panicked? <==> tr.st.None? && tr.dy.None?
    ensures r.Returned? ==> r.value == Freeze(tr)
  {
    if tr.st.Some? then Returned((tr, Some(FreezedAlready)))
    else if tr.dy.None? then Panicked
    else Returned((Trie(None, Some(Fz.Freeze(tr.dy.value))), None))
  }

  /** Trie.Freeze with a nil dy read as the empty tree: refused once frozen;
      otherwise the Trie moves to the frozen state, holding an acyclic array
      with one slot per node and one level per id, and drops dy. */
  function Freeze(tr: Trie): (r: (Trie, Option<Error>))
    requires Inv(tr)
    ensures Inv(r.0)
    ensures tr.st.Some? ==> r == (tr, Some(FreezedAlready))
    ensures tr.st.None? ==>
      && r.1.None? && r.0.dy.None? && r.0.st == Some(Frozen(tr))
      && Static.Acyclic(r.0.st.value)
      && |r.0.st.value.nodes| == Dynamic.CountAll(Grown(tr).root)
      && |r.0.st.value.levels| == Grown(tr).lastEdgeID
  {
    if tr.st.Some? then (tr, Some(FreezedAlready))
    else
      Fz.FreezeAcyclic(Grown(tr));
      (Trie(None, Some(Fz.Freeze(Grown(tr)))), None)
  }

  /** New().Freeze() panics as written. */
  lemma NewTrieFreezePanics()
    ensures Inv(New())
    ensures FreezeAsWritten(New()) == Panicked
  {
  }

  /** With nil read as the empty tree, freezing a new Trie gives the frozen
      tree of no keys: one slot (the root) and no levels. */
  lemma FreezeNewTrie()
    ensures Inv(New())
    ensures var r := Freeze(New());
      && r.1.None? && r.0.st.Some?
      && |r.0.st.value.nodes| == 1 && r.0.st.value.levels == []
  {
    assert Dynamic.CountAllSib(Dynamic.Empty().root.child) == 0;
  }

  // ---------------------------------------------------------------------------
  // The lifecycle

  datatype Op = PutOp(key: seq<char>) | FreezeOp

  /** The Trie after a sequence of calls. */
  function Apply(tr: Trie, ops: seq<Op>): (r: Trie)
    requires Inv(tr)
    ensures Inv(r)
    decreases |ops|
  {
    if ops == [] then tr
    else
      var next := match ops[0]
        case PutOp(k) => Put(tr, k).0
        case FreezeOp => Freeze(tr).0;
      Apply(next, ops[1..])
  }

  /** Once frozen, a Trie stays as it is: every later Put and Freeze is
      refused and changes nothing. */
  lemma {:induction false} FrozenIsFinal(tr: Trie, ops: seq<Op>)
    requires Inv(tr) && tr.st.Some?
    ensures Apply(tr, ops) == tr
    ensures forall k :: Put(tr, k) == (tr, 0, Some(FreezedAlready))
    ensures Freeze(tr) == (tr, Some(FreezedAlready))
    decreases |ops|
  {
    if ops != [] {
      FrozenIsFinal(tr, ops[1..]);
    }
  }

  /** A Freeze that succeeds ends growth for good: whatever follows, the
      Trie holds exactly the array that Freeze produced. */
  lemma FreezeIsFinal(tr: Trie, ops: seq<Op>)
    requires Inv(tr) && tr.st.None?
    ensures Apply(Freeze(tr).0, ops) == Trie(None, Some(Frozen(tr)))
  {
    FrozenIsFinal(Freeze(tr).0, ops);
  }

  // ---------------------------------------------------------------------------
  // Scan

  /** ReportEvent: the core event with its matches copied in order, nil when
      there are none. */
  datatype ReportEvent = ReportEvent(index: int, rune: char, nodes: Option<seq<ScanNode>>)

  function ToReport(ev: ScanEvent): (r: ReportEvent)
    ensures r.index == ev.index && r.rune == ev.rune
    ensures r.nodes.None? <==> ev.nodes == []
    ensures r.nodes.Some? ==> r.nodes.value == ev.nodes
  {
    ReportEvent(ev.index, ev.rune, NilIfEmpty(ev.nodes))
  }

  /** The event the Trie's current tree produces for rune j. */
  function CoreEvent(tr: Trie, s: seq<char>, j: nat): ScanEvent
    requires Inv(tr) && j < |s|
    requires tr.st.Some? ==> Static.Acyclic(tr.st.value)
  {
    if tr.st.Some? then Static.EventAt(tr.st.value, s, j) else Dynamic.EventAt(Grown(tr), s, j)
  }

  /** Trie.Scan: the frozen array scans when there is one, else the growable
      tree; each event reaches the Reporter converted by ToReport. */
  method Scan(tr: Trie, s: seq<char>, cancelAt: Option<nat>) returns (events: seq<ReportEvent>, err: bool)
    requires Inv(tr)
    requires tr.st.Some? ==> Static.Acyclic(tr.st.value)
    ensures err <==> cancelAt.Some? && 1 <= |s| && cancelAt.value <= |s|
    ensures |events| == if err then (if cancelAt.value == 0 then 1 else cancelAt.value) else |s|
    ensures forall j | 0 <= j < |events| :: events[j] == ToReport(CoreEvent(tr, s, j))
  {
    var core: seq<ScanEvent>;
    if tr.st.Some? {
      core, err := Static.Scan(tr.st.value, s, cancelAt);
    } else {
      core, err := Dynamic.Scan(Grown(tr), s, cancelAt);
    }
    events := seq(|core|, j requires 0 <= j < |core| => ToReport(core[j]));
  }

  /** Before Freeze no failure links exist, so a scan reports at most the one
      node the exact walk reached: "bab" over {ab, bab} reports bab but not ab. */
  lemma UnfrozenScanExactOnly(tr: Trie, s: seq<char>, j: nat)
    requires Inv(tr) && tr.st.None? && j < |s|
    ensures var t := Grown(tr);
      CoreEvent(tr, s, j).nodes == Dynamic.Keyed(t, Dynamic.Run(t, s[..j + 1]))
  {
    var t := Grown(tr);
    var p := Dynamic.Run(t, s[..j + 1]);
    assert Dynamic.Chain(t.failure, p) == [p];
    assert Dynamic.ChainNodes(t, [p]) == Dynamic.Keyed(t, p) + Dynamic.ChainNodes(t, []);
  }

  /** After Freeze the scan reports, for each rune, every key that ends there
      with its id and length, and nothing else (for a Trie without the empty
      key). */
  lemma FrozenScanReportsKeys(tr: Trie, s: seq<char>, j: nat)
    requires Inv(tr) && tr.st.None? && j < |s|
    requires Dynamic.IdAt(Grown(tr), []) == 0
    ensures var f := Freeze(tr).0;
      var t := Grown(tr);
      var ns := CoreEvent(f, s, j).nodes;
      && (forall u | Failure.IsSuffix(u, s[..j + 1]) && Dynamic.IsKey(t, u) :: ScanNode(Dynamic.IdAt(t, u), |u|) in ns)
      && (forall x | x in ns :: exists u :: Failure.IsSuffix(u, s[..j + 1]) && Dynamic.IsKey(t, u) && x == ScanNode(Dynamic.IdAt(t, u), |u|))
  {
    Fz.ScanAgrees(Grown(tr), s, j);
    Failure.ScanReportsKeysEndingHere(Grown(tr), s, j);
  }

  // ---------------------------------------------------------------------------
  // Marshal and Unmarshal

  /** Trie.Marshal: writes the frozen array, freezing a copy first when the
      Trie is still growable; the Trie itself is not changed. */
  function Marshal(tr: Trie, w: Writer): (r: Writer)
    requires Inv(tr) && Serial.TreeFits(64, Frozen(tr))
    ensures Appends(w, r, Serial.Encode(Frozen(tr)))
  {
    Serial.Write(w, Frozen(tr))
  }

  /** Unmarshal: a frozen Trie and the bytes after it, or the read error. */
  datatype Loaded = Loaded(trie: Trie, rest: seq<Byte>) | LoadFailed(err: IoErr)

  function Unmarshal(intSize: IntSize, data: seq<Byte>): (r: Loaded)
    ensures r.LoadFailed? <==> Serial.Read(intSize, data).Failed?
    ensures r.LoadFailed? ==> r.err == Serial.Read(intSize, data).err
    ensures r.Loaded? ==> r.trie.dy.None? && r.trie.st == Some(Serial.Read(intSize, data).tree)
  {
    match Serial.Read(intSize, data)
    case Ok(st, rest) => Loaded(Trie(None, Some(st)), rest)
    case Failed(e) => LoadFailed(e)
    case Panic =>
      Serial.ReadNeverPanics(intSize, data);
      assert false;
      LoadFailed(EOF)
  }

  /** Unmarshal gives back the frozen Trie Marshal wrote, growable or not,
      and leaves what follows unread. */
  lemma MarshalRoundTrip(tr: Trie, w: Writer, rest: seq<Byte>)
    requires Inv(tr) && Serial.TreeFits(64, Frozen(tr))
    ensures Unmarshal(64, Serial.Encode(Frozen(tr)) + rest) == Loaded(Trie(None, Some(Frozen(tr))), rest)
  {
    Serial.RoundTrip(64, Frozen(tr), rest);
  }

  /** Unmarshal of an empty stream is an error and yields no Trie. */
  lemma UnmarshalEmptyFails(intSize: IntSize)
    ensures Unmarshal(intSize, []) == LoadFailed(EOF)
  {
  }
}
