/** Shared vocabulary: optional values, paths of runes, UTF-8 widths and the
    fixed-width integer ranges of the Go types the model mirrors. */
module Base {

  /** Go's nil-or-value, used for pointers and "found / not found". */
  datatype Option<T> = None | Some(value: T)

  /** Go's habit of handing over an empty list as a nil slice. */
  function NilIfEmpty<T>(s: seq<T>): (r: Option<seq<T>>)
    ensures r.None? <==> s == []
    ensures r.Some? ==> r.value == s
  {
    if s == [] then None else Some(s)
  }

  /** The runes spelled on the way from the root to a node; the empty path is the root. */
  type Path = seq<char>

  const MaxInt32: int := 0x7fff_ffff
  const MinInt32: int := -0x8000_0000
  const MaxInt64: int := 0x7fff_ffff_ffff_ffff
  const MinInt64: int := -0x8000_0000_0000_0000

  predicate IsInt32(x: int) { MinInt32 <= x <= MaxInt32 }
  predicate IsInt64(x: int) { MinInt64 <= x <= MaxInt64 }

  /** Two's-complement narrowing of an int64 to int32, as Go's `int32(v)` / `rune(v)` conversion. */
  function Wrap32(x: int): (r: int)
    ensures IsInt32(r)
    ensures (r - x) % 0x1_0000_0000 == 0
    ensures IsInt32(x) ==> r == x
  {
    var m := x % 0x1_0000_0000;
    if m <= MaxInt32 then m else m - 0x1_0000_0000
  }

  /** Number of bytes UTF-8 uses for one code point (section 3 of RFC 3629). */
  function RuneLen(c: char): (n: nat)
    ensures 1 <= n <= 4
    ensures (c as int < 0x80) <==> n == 1
  {
    if c as int < 0x80 then 1
    else if c as int < 0x800 then 2
    else if c as int < 0x1_0000 then 3
    else 4
  }

  /** Number of bytes of the UTF-8 encoding of a rune sequence: Go's `len(s)`. */
  function ByteLen(s: seq<char>): nat
  {
    if s == [] then 0 else RuneLen(s[0]) + ByteLen(s[1..])
  }

  lemma {:induction false} ByteLenAppend(a: seq<char>, b: seq<char>)
    ensures ByteLen(a + b) == ByteLen(a) + ByteLen(b)
    decreases |a|
  {
    if a == [] {
      assert a + b == b;
    } else {
      assert (a + b)[1..] == a[1..] + b;
      ByteLenAppend(a[1..], b);
    }
  }

  /** A longer prefix never has fewer bytes, and each extra rune adds at least one. */
  lemma ByteLenPrefix(s: seq<char>, i: nat, j: nat)
    requires i <= j <= |s|
    ensures ByteLen(s[..i]) + (j - i) <= ByteLen(s[..j])
  {
    assert s[..j] == s[..i] + s[i..j];
    ByteLenAppend(s[..i], s[i..j]);
    ByteLenAtLeastLength(s[i..j]);
  }

  lemma {:induction false} ByteLenAtLeastLength(s: seq<char>)
    ensures |s| <= ByteLen(s) <= 4 * |s|
    decreases |s|
  {
    if s != [] {
      ByteLenAtLeastLength(s[1..]);
    }
  }

  /** Byte offset of the rune at position i: the Go `i` of `for i, r := range s`. */
  lemma ByteLenSnoc(s: seq<char>, i: nat)
    requires i < |s|
    ensures ByteLen(s[..i+1]) == ByteLen(s[..i]) + RuneLen(s[i])
  {
    assert s[..i+1] == s[..i] + [s[i]];
    ByteLenAppend(s[..i], [s[i]]);
    assert [s[i]][1..] == [];
  }

  /** One match reported for a scanned rune: the key's edge id and its level (rune count). */
  datatype ScanNode = ScanNode(id: int, level: int)

  /** What a scan reports for the rune at byte offset `index`; `nodes` is empty
      when nothing ends there. */
  datatype ScanEvent = ScanEvent(index: int, rune: char, nodes: seq<ScanNode>)

  /** The cancellation a scan observes, abstracted: `Some(k)` means the context
      reports an error at every check made once at least k events were emitted;
      `None` is a context that is never cancelled. */
  predicate Cancelled(cancelAt: Option<nat>, emitted: nat)
  {
    cancelAt.Some? && emitted >= cancelAt.value
  }
}
