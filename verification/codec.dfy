/** Go's signed varint codec as io.go uses it (binary.PutVarint and
    binary.ReadVarint over a byte stream), wrapped in writers and readers whose
    first error is sticky. */
module Codec {
  import opened Base

  type Byte = b: int | 0 <= b < 0x100

  /** binary.MaxVarintLen64. */
  const MaxVarintLen64: nat := 10

  const Two64: nat := 0x1_0000_0000_0000_0000

  /** The stream errors the codec distinguishes. */
  datatype IoErr =
    | EOF            // io.EOF: no byte where a value should start
    | UnexpectedEOF  // io.ErrUnexpectedEOF: the stream ends inside a value
    | Overflow       // a varint longer than 64 bits
    | ShortWrite     // the sink refused the bytes
    | TooLargeTree   // a node count a 32-bit int cannot hold
    | TooLargeLevels // a levels count a 32-bit int cannot hold
    | NegativeLength // a negative count

  // ---------------------------------------------------------------------------
  // Zigzag

  /** PutVarint's `ux := uint64(x) << 1; if x < 0 { ux = ^ux }`: non-negative
      values to even numbers, negative ones to odd numbers. */
  function ZigZag(v: int): (u: nat)
    requires IsInt64(v)
    ensures u < Two64
    ensures u % 2 == 0 <==> v >= 0
  {
    if v >= 0 then 2 * v else -2 * v - 1
  }

  /** ReadVarint's `x := int64(ux >> 1); if ux&1 != 0 { x = ^x }`. */
  function UnZigZag(u: nat): (v: int)
    ensures u < Two64 ==> IsInt64(v)
  {
    if u % 2 == 0 then u / 2 else -(u / 2) - 1
  }

  lemma ZigZagRoundTrip(v: int)
    requires IsInt64(v)
    ensures UnZigZag(ZigZag(v)) == v
  {
  }

  // ---------------------------------------------------------------------------
  // Unsigned varint

  function Pow128(i: nat): (r: nat)
    ensures r >= 1
  {
    if i == 0 then 1 else 128 * Pow128(i - 1)
  }

  /** PutUvarint: 7-bit groups, least significant first, every byte but the
      last with the continuation bit 0x80 set. */
  function Uvarint(u: nat): (r: seq<Byte>)
    ensures 1 <= |r|
    ensures r[|r| - 1] < 0x80
    ensures forall j | 0 <= j < |r| - 1 :: r[j] >= 0x80
  {
    if u < 0x80 then [u] else [u % 0x80 + 0x80] + Uvarint(u / 0x80)
  }

  lemma Pow128Tail()
    ensures Pow128(1) == 0x80
    ensures Pow128(9) == 0x8000_0000_0000_0000
    ensures Pow128(10) == 0x40_0000_0000_0000_0000
  {
  }

  /** A value below 128^k takes at most k bytes. */
  lemma {:induction false} UvarintFits(u: nat, k: nat)
    requires 1 <= k && u < Pow128(k)
    ensures |Uvarint(u)| <= k
  {
    Pow128Tail();
    if u >= 0x80 {
      assert k != 1;
      assert u / 0x80 < Pow128(k - 1);
      UvarintFits(u / 0x80, k - 1);
    }
  }

  /** binary.MaxVarintLen64 bounds every encoding of a 64-bit value. */
  lemma UvarintAtMostTen(u: nat)
    requires u < Two64
    ensures |Uvarint(u)| <= MaxVarintLen64
  {
    Pow128Tail();
    UvarintFits(u, 10);
  }

  /** One 7-bit group of u at position i: the rest of u, one position further
      on, still fits in 64 bits and before the tenth byte. */
  lemma GroupStep(u: nat, i: nat)
    requires u >= 0x80 && i < MaxVarintLen64 && u * Pow128(i) < Two64
    ensures i + 1 < MaxVarintLen64
    ensures (u / 0x80) * Pow128(i + 1) < Two64
    ensures (u % 0x80) * Pow128(i) + (u / 0x80) * Pow128(i + 1) == u * Pow128(i)
  {
    var p, q, m := Pow128(i), u / 0x80, u % 0x80;
    assert u == 0x80 * q + m;
    assert Pow128(i + 1) == 0x80 * p;
    assert u * p == q * (0x80 * p) + m * p;
    assert 0x80 * p <= q * (0x80 * p) by {
      MulMono(1, q, 0x80 * p);
    }
    if i + 1 == MaxVarintLen64 {
      Pow128Tail();
      assert false;
    }
  }

  /** The outcome of decoding one varint: the value and the unread bytes, or
      the error and the bytes left after it. */
  datatype Decoded = Decoded(value: int, rest: seq<Byte>) | Undecodable(err: IoErr, rest: seq<Byte>)

  /** binary.ReadUvarint from byte i of a value on, x holding the groups read
      so far: EOF on an empty stream, UnexpectedEOF inside a value, Overflow at
      a tenth byte above 1 or an eleventh byte. */
  function UvarintFrom(data: seq<Byte>, i: nat, x: nat): (r: Decoded)
    requires i <= MaxVarintLen64
    ensures r.Decoded? ==> r.value >= 0 && |r.rest| < |data|
    ensures r.Undecodable? && r.err == EOF ==> i == 0 && data == []
    decreases MaxVarintLen64 - i
  {
    if i == MaxVarintLen64 then Undecodable(Overflow, data)
    else if data == [] then Undecodable(if i > 0 then UnexpectedEOF else EOF, [])
    else
      var b := data[0];
      if b < 0x80 then
        if i == MaxVarintLen64 - 1 && b > 1 then Undecodable(Overflow, data[1..])
        else
          MulMono(0, b, Pow128(i));
          Decoded(x + b * Pow128(i), data[1..])
      else
        MulMono(0, b - 0x80, Pow128(i));
        UvarintFrom(data[1..], i + 1, x + (b - 0x80) * Pow128(i))
  }

  function ReadUvarint(data: seq<Byte>): Decoded
  {
    UvarintFrom(data, 0, 0)
  }

  /** Every decoded value fits in 64 bits. */
  lemma {:induction false} UvarintFromBound(data: seq<Byte>, i: nat, x: nat)
    requires i <= MaxVarintLen64 && x < Pow128(i)
    ensures UvarintFrom(data, i, x).Decoded? ==> UvarintFrom(data, i, x).value < Two64
    decreases MaxVarintLen64 - i
  {
    if i < MaxVarintLen64 && data != [] {
      var b := data[0];
      if b < 0x80 {
        if i < MaxVarintLen64 - 1 || b <= 1 {
          LastGroupBound(x, b, i);
        }
      } else {
        GroupBound(x, b - 0x80, i);
        UvarintFromBound(data[1..], i + 1, x + (b - 0x80) * Pow128(i));
      }
    }
  }

  /** Adding a group below 128 at position i keeps the value below 128^(i+1). */
  lemma GroupBound(x: nat, g: nat, i: nat)
    requires x < Pow128(i) && g < 0x80
    ensures x + g * Pow128(i) < Pow128(i + 1)
  {
    MulMono(g, 0x7f, Pow128(i));
  }

  /** The final group of a value that decodes keeps it below 2^64. */
  lemma LastGroupBound(x: nat, b: nat, i: nat)
    requires i < MaxVarintLen64 && x < Pow128(i) && b < 0x80
    requires i == MaxVarintLen64 - 1 ==> b <= 1
    ensures x + b * Pow128(i) < Two64
  {
    Pow128Tail();
    if i < MaxVarintLen64 - 1 {
      GroupBound(x, b, i);
      Pow128Mono(i + 1, 9);
    } else {
      MulMono(b, 1, Pow128(i));
    }
  }

  lemma {:induction false} Pow128Mono(i: nat, j: nat)
    requires i <= j
    ensures Pow128(i) <= Pow128(j)
    decreases j
  {
    if i < j {
      Pow128Mono(i, j - 1);
    }
  }

  /** Decoding the encoding of u from byte i on adds u's groups to x and leaves
      exactly the bytes that follow. */
  lemma {:induction false} UvarintFromEncoding(u: nat, rest: seq<Byte>, i: nat, x: nat)
    requires i < MaxVarintLen64 && u * Pow128(i) < Two64
    ensures UvarintFrom(Uvarint(u) + rest, i, x) == Decoded(x + u * Pow128(i), rest)
    decreases u
  {
    if u < 0x80 {
      EncodingLastByte(u, rest, i, x);
    } else {
      var q := u / 0x80;
      GroupStep(u, i);
      EncodingStep(u, rest, i, x);
      UvarintFromEncoding(q, rest, i + 1, x + (u % 0x80) * Pow128(i));
    }
  }

  /** A value below 128 is one final byte. */
  lemma EncodingLastByte(u: nat, rest: seq<Byte>, i: nat, x: nat)
    requires u < 0x80 && i < MaxVarintLen64 && u * Pow128(i) < Two64
    ensures UvarintFrom(Uvarint(u) + rest, i, x) == Decoded(x + u * Pow128(i), rest)
  {
    var d := Uvarint(u) + rest;
    assert d[0] == u && d[1..] == rest;
    if i == MaxVarintLen64 - 1 {
      Pow128Tail();
    }
  }

  /** A larger value starts with its low group, continuation bit set. */
  lemma EncodingStep(u: nat, rest: seq<Byte>, i: nat, x: nat)
    requires u >= 0x80 && i < MaxVarintLen64
    ensures UvarintFrom(Uvarint(u) + rest, i, x)
      == UvarintFrom(Uvarint(u / 0x80) + rest, i + 1, x + (u % 0x80) * Pow128(i))
  {
    var d := Uvarint(u) + rest;
    assert d[0] == u % 0x80 + 0x80;
    assert d[1..] == Uvarint(u / 0x80) + rest;
    UvarintFromStep(d, i, x);
  }

  lemma MulMono(a: nat, b: nat, c: nat)
    requires a <= b
    ensures a * c <= b * c
  {
  }

  /** Bytes that all carry the continuation bit, fewer than the tenth, run out
      before a value ends: EOF when there are none, UnexpectedEOF otherwise. */
  lemma {:induction false} UvarintFromUnfinished(d: seq<Byte>, i: nat, x: nat)
    requires i + |d| < MaxVarintLen64
    requires forall j | 0 <= j < |d| :: d[j] >= 0x80
    ensures UvarintFrom(d, i, x) == Undecodable(if i + |d| > 0 then UnexpectedEOF else EOF, [])
    decreases |d|
  {
    if d != [] {
      var g: nat := d[0] - 0x80;
      MulMono(0, g, Pow128(i));
      var y: nat := x + g * Pow128(i);
      UvarintFromStep(d, i, x);
      UvarintFromUnfinished(d[1..], i + 1, y);
    }
  }

  /** Decoding a proper prefix of an encoding runs out of bytes. */
  lemma UvarintTruncated(u: nat, k: nat)
    requires u < Two64 && k < |Uvarint(u)|
    ensures ReadUvarint(Uvarint(u)[..k]) == Undecodable(if k > 0 then UnexpectedEOF else EOF, [])
  {
    UvarintAtMostTen(u);
    UvarintFromUnfinished(Uvarint(u)[..k], 0, 0);
  }

  /** A byte with the continuation bit adds its group and moves to the next byte. */
  lemma UvarintFromStep(d: seq<Byte>, i: nat, x: nat)
    requires i < MaxVarintLen64 && d != [] && d[0] >= 0x80
    ensures UvarintFrom(d, i, x) == UvarintFrom(d[1..], i + 1, x + (d[0] - 0x80) * Pow128(i))
  {
  }

  // ---------------------------------------------------------------------------
  // Signed varint

  /** binary.PutVarint: zigzag, then the unsigned encoding. */
  function Varint(v: int): (r: seq<Byte>)
    requires IsInt64(v)
    ensures 1 <= |r| <= MaxVarintLen64
  {
    UvarintAtMostTen(ZigZag(v));
    Uvarint(ZigZag(v))
  }

  /** binary.ReadVarint: the unsigned decoding, then zigzag back. */
  function ReadVarint(data: seq<Byte>): Decoded
  {
    match ReadUvarint(data)
    case Decoded(u, rest) => Decoded(UnZigZag(u), rest)
    case Undecodable(e, rest) => Undecodable(e, rest)
  }

  lemma VarintRoundTrip(v: int, rest: seq<Byte>)
    requires IsInt64(v)
    ensures ReadVarint(Varint(v) + rest) == Decoded(v, rest)
  {
    var u := ZigZag(v);
    assert u * Pow128(0) == u;
    UvarintFromEncoding(u, rest, 0, 0);
    assert ReadUvarint(Varint(v) + rest) == Decoded(u, rest);
    ZigZagRoundTrip(v);
  }

  lemma VarintTruncated(v: int, k: nat)
    requires IsInt64(v) && k < |Varint(v)|
    ensures ReadVarint(Varint(v)[..k]) == Undecodable(if k > 0 then UnexpectedEOF else EOF, [])
  {
    UvarintTruncated(ZigZag(v), k);
  }

  // ---------------------------------------------------------------------------
  // Go's int width

  /** intSize: the width of Go's int on the platform, 32 or 64 bits. */
  type IntSize = n: int | n == 32 || n == 64 witness 64

  /** Go's `int(v)` for an int64 v: unchanged on 64 bits, wrapped on 32. */
  function IntOf(intSize: IntSize, v: int): (r: int)
    ensures IsInt64(v) ==> IsInt64(r)
    ensures FitsInt(intSize, v) ==> r == v
  {
    if intSize == 32 then Wrap32(v) else v
  }

  predicate FitsInt(intSize: IntSize, v: int)
  {
    if intSize == 32 then IsInt32(v) else IsInt64(v)
  }

  predicate AllInt64(ws: seq<int>)
  {
    forall j | 0 <= j < |ws| :: IsInt64(ws[j])
  }

  // ---------------------------------------------------------------------------
  // The sticky writer

  /** writer: the bytes the sink has taken, how many more it takes, and the
      first error. The capacity stands for whatever makes the io.Writer fail. */
  datatype Writer = Writer(out: seq<Byte>, room: nat, err: Option<IoErr>)

  /** r is w after trying to append bytes: after an earlier error nothing
      changes; otherwise the bytes are appended exactly when they fit, and the
      write fails with ShortWrite when they do not. */
  ghost predicate Appends(w: Writer, r: Writer, bytes: seq<Byte>)
  {
    if w.err.Some? then r == w
    else if |bytes| <= w.room then r == Writer(w.out + bytes, w.room - |bytes|, None)
    else r.err == Some(ShortWrite)
  }

  /** Two appends in a row append the concatenation. */
  lemma AppendsTwice(w: Writer, m: Writer, r: Writer, a: seq<Byte>, b: seq<Byte>)
    requires Appends(w, m, a) && Appends(m, r, b)
    ensures Appends(w, r, a + b)
  {
    if w.err.None? && |a| <= w.room && |b| <= m.room {
      assert w.out + a + b == w.out + (a + b);
    }
  }

  /** A write that failed fails whatever would have followed it. */
  lemma AppendsFailed(w: Writer, r: Writer, a: seq<Byte>, more: seq<Byte>)
    requires Appends(w, r, a) && r.err.Some?
    ensures Appends(w, r, a + more)
  {
  }

  /** writer.writeInt64: nothing after an error; otherwise the varint of v. */
  function WriteInt64(w: Writer, v: int): (r: Writer)
    requires IsInt64(v)
    ensures Appends(w, r, Varint(v))
  {
    if w.err.Some? then w
    else
      var b := Varint(v);
      if |b| <= w.room then Writer(w.out + b, w.room - |b|, None)
      else w.(err := Some(ShortWrite))
  }

  /** writer.writeRune: a rune widened to int64. */
  function WriteRune(w: Writer, c: int): (r: Writer)
    requires IsInt32(c)
    ensures Appends(w, r, Varint(c))
  {
    WriteInt64(w, c)
  }

  /** writer.writeInt: an int widened to int64. */
  function WriteInt(w: Writer, v: int): (r: Writer)
    requires IsInt64(v)
    ensures Appends(w, r, Varint(v))
  {
    WriteInt64(w, v)
  }

  /** The varints of ws, one after another. */
  function Varints(ws: seq<int>): seq<Byte>
    requires AllInt64(ws)
  {
    if ws == [] then [] else Varint(ws[0]) + Varints(ws[1..])
  }

  lemma VarintsCons(v: int, ws: seq<int>)
    requires IsInt64(v) && AllInt64(ws)
    ensures Varints([v] + ws) == Varint(v) + Varints(ws)
  {
    assert ([v] + ws)[1..] == ws;
  }

  /** writeInt for each of ws in turn. */
  function WriteInts(w: Writer, ws: seq<int>): (r: Writer)
    requires AllInt64(ws)
    ensures Appends(w, r, Varints(ws))
    decreases |ws|
  {
    if ws == [] then
      assert w.out + [] == w.out;
      w
    else
      var m := WriteInt(w, ws[0]);
      var r := WriteInts(m, ws[1..]);
      AppendsTwice(w, m, r, Varint(ws[0]), Varints(ws[1..]));
      r
  }

  // ---------------------------------------------------------------------------
  // The sticky reader

  /** reader: the bytes not read yet and the first error. */
  datatype Reader = Reader(data: seq<Byte>, err: Option<IoErr>)

  /** reader.readInt64: after an error, (0, that error) without reading;
      otherwise one varint, or 0 and the new, now sticky, error. */
  function ReadInt64(r: Reader): (res: (int, Reader))
    ensures r.err.Some? ==> res == (0, r)
    ensures res.1.err.Some? ==> res.0 == 0
    ensures res.1.err.None? ==> r.err.None? && |res.1.data| < |r.data|
    ensures IsInt64(res.0)
  {
    UvarintFromBound(r.data, 0, 0);
    if r.err.Some? then (0, r)
    else match ReadVarint(r.data)
      case Decoded(v, rest) => (v, Reader(rest, None))
      case Undecodable(e, rest) => (0, Reader(rest, Some(e)))
  }

  /** reader.readRune: an int64 narrowed to a rune. */
  function ReadRune(r: Reader): (int, Reader)
  {
    var (v, r1) := ReadInt64(r);
    (Wrap32(v), r1)
  }

  /** reader.readInt: an int64 narrowed to Go's int. */
  function ReadInt(intSize: IntSize, r: Reader): (int, Reader)
  {
    var (v, r1) := ReadInt64(r);
    (IntOf(intSize, v), r1)
  }

  /** k calls of readInt64 in a row, errors left in the reader. */
  function ReadInt64s(r: Reader, k: nat): (res: (seq<int>, Reader))
    ensures |res.0| == k
    ensures r.err.Some? ==> res.1 == r
    decreases k
  {
    if k == 0 then ([], r)
    else
      var (v, r1) := ReadInt64(r);
      var (vs, r2) := ReadInt64s(r1, k - 1);
      ([v] + vs, r2)
  }

  /** The varint of v, then rest: readInt64 gives back v and leaves rest. */
  lemma ReadInt64RoundTrip(v: int, rest: seq<Byte>)
    requires IsInt64(v)
    ensures ReadInt64(Reader(Varint(v) + rest, None)) == (v, Reader(rest, None))
  {
    VarintRoundTrip(v, rest);
  }

  /** A cut varint: readInt64 fails with EOF when nothing of it is there and
      UnexpectedEOF otherwise, and the error stays. */
  lemma ReadInt64Truncated(v: int, k: nat)
    requires IsInt64(v) && k < |Varint(v)|
    ensures ReadInt64(Reader(Varint(v)[..k], None))
      == (0, Reader([], Some(if k > 0 then UnexpectedEOF else EOF)))
  {
    VarintTruncated(v, k);
  }

  /** Reading back what WriteInts wrote gives the same values. */
  lemma {:induction false} ReadInt64sRoundTrip(ws: seq<int>, rest: seq<Byte>)
    requires AllInt64(ws)
    ensures ReadInt64s(Reader(Varints(ws) + rest, None), |ws|) == (ws, Reader(rest, None))
  {
    if ws != [] {
      assert Varints(ws) + rest == Varint(ws[0]) + (Varints(ws[1..]) + rest);
      var r1 := Reader(Varints(ws[1..]) + rest, None);
      ReadInt64RoundTrip(ws[0], Varints(ws[1..]) + rest);
      ReadInt64sRoundTrip(ws[1..], rest);
      assert ReadInt64s(r1, |ws| - 1) == (ws[1..], Reader(rest, None));
      assert [ws[0]] + ws[1..] == ws;
    } else {
      assert Varints(ws) + rest == rest;
    }
  }

  /** Reading them back from a proper prefix of what WriteInts wrote fails
      with EOF or UnexpectedEOF. */
  lemma {:induction false} ReadInt64sTruncated(ws: seq<int>, k: nat)
    requires AllInt64(ws) && k < |Varints(ws)|
    ensures ReadInt64s(Reader(Varints(ws)[..k], None), |ws|).1.err in {Some(EOF), Some(UnexpectedEOF)}
  {
    var a, b := Varint(ws[0]), Varints(ws[1..]);
    if k < |a| {
      assert Varints(ws)[..k] == a[..k];
      ReadInt64Truncated(ws[0], k);
    } else {
      assert Varints(ws)[..k] == a + b[..k - |a|];
      ReadInt64RoundTrip(ws[0], b[..k - |a|]);
      ReadInt64sTruncated(ws[1..], k - |a|);
    }
  }
}
