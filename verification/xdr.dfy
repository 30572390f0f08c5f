/**
  The XDR primitives (RFC 4506) that the RPC record codec is built from:
  unsigned 32-bit integers (section 4.2), enumerations (section 4.3, encoded
  as their unsigned value), variable-length opaque data and strings
  (sections 4.10 and 4.11) and variable-length arrays of unsigned integers
  (section 4.13).

  Encoders are total functions to bytes. Decoders take the bytes still to be
  read and return the value together with the bytes that follow it, or an
  error; they never look past the end of their input.
*/
module Xdr {

  type byte = b: int | 0 <= b < 0x100
  type uint32 = x: int | 0 <= x < 0x1_0000_0000

  const MAX_UINT32: uint32 := 0xFFFF_FFFF

  /** Variable-length opaque data: its length must fit the 4-byte length prefix. */
  type Opaque = s: seq<byte> | |s| <= MAX_UINT32 witness []
  /** A variable-length array of unsigned integers, bounded in the same way. */
  type Uint32Array = s: seq<uint32> | |s| <= MAX_UINT32 witness []

  /** The ways a decode can fail. */
  datatype DecodeError =
    | Underrun                        // fewer than 4 bytes left where a word is expected
    | LengthOverrun(length: uint32)   // an opaque or array length beyond the bytes left
    | UnmappedDiscriminant(tag: uint32) // a union tag with no alternative

  datatype Result<+T> = Ok(value: T) | Err(error: DecodeError) {
    predicate IsFailure() { Err? }
    function PropagateFailure<U>(): Result<U> requires Err? { Err(error) }
    function Extract(): T requires Ok? { value }
  }

  /** `rest` is what is left of `s` after some prefix was read. */
  predicate IsSuffix(rest: seq<byte>, s: seq<byte>) {
    |rest| <= |s| && rest == s[|s| - |rest|..]
  }

  /** Concatenation regroups freely; stated once so that encodings built
      from parts need not be compared byte by byte. */
  lemma AppendAssoc(a: seq<byte>, b: seq<byte>, c: seq<byte>)
    ensures a + b + c == a + (b + c)
  {
  }

  lemma SuffixTransitive(r: seq<byte>, m: seq<byte>, s: seq<byte>)
    requires IsSuffix(r, m) && IsSuffix(m, s)
    ensures IsSuffix(r, s)
  {
    assert s[|s| - |r|..] == s[|s| - |m|..][|m| - |r|..];
  }

  // ---------------------------------------------------------------- uint32

  /** Big-endian, most significant byte first (section 4.2). */
  function EncodeUint32(x: uint32): (e: seq<byte>)
    ensures |e| == 4
  {
    [x / 0x100_0000, (x / 0x1_0000) % 0x100, (x / 0x100) % 0x100, x % 0x100]
  }

  /** The word whose big-endian bytes are b0 b1 b2 b3. */
  function BigEndianWord(b0: byte, b1: byte, b2: byte, b3: byte): uint32
  {
    b0 as int * 0x100_0000 + b1 as int * 0x1_0000 + b2 as int * 0x100 + b3
  }

  function DecodeUint32(s: seq<byte>): (r: Result<(uint32, seq<byte>)>)
    ensures r.Ok? <==> |s| >= 4
    ensures r.Err? ==> r.error == Underrun
    ensures r.Ok? ==> r.value.1 == s[4..]
  {
    if |s| < 4 then Err(Underrun)
    else Ok((BigEndianWord(s[0], s[1], s[2], s[3]), s[4..]))
  }

  /** Every unsigned integer is read back from its four bytes. */
  lemma Uint32RoundTrip(x: uint32, rest: seq<byte>)
    ensures DecodeUint32(EncodeUint32(x) + rest) == Ok((x, rest))
  {
    var e := EncodeUint32(x);
    var s := e + rest;
    assert s[..4] == e;
    assert s[4..] == rest;
    var a := x / 0x100;
    var b := a / 0x100;
    var c := b / 0x100;
    assert x == a * 0x100 + x % 0x100;
    assert a == b * 0x100 + a % 0x100;
    assert b == c * 0x100 + b % 0x100;
    assert a == x / 0x100 && b == x / 0x1_0000 && c == x / 0x100_0000;
  }

  /** Conversely every four bytes are the encoding of the word they decode to:
      the 4-byte encoding is a bijection. */
  lemma Uint32Canonical(s: seq<byte>)
    requires |s| >= 4
    ensures DecodeUint32(s).Ok? && s == EncodeUint32(DecodeUint32(s).value.0) + s[4..]
  {
    var x := DecodeUint32(s).value.0;
    var low := s[1] as int * 0x1_0000 + s[2] as int * 0x100 + s[3];
    assert x == s[0] as int * 0x100_0000 + low && low < 0x100_0000;
    assert x / 0x100_0000 == s[0];
    var mid := s[2] as int * 0x100 + s[3];
    assert x / 0x1_0000 == s[0] as int * 0x100 + s[1] && mid < 0x1_0000;
    assert (x / 0x1_0000) % 0x100 == s[1];
    assert x / 0x100 == s[0] as int * 0x1_0000 + s[1] as int * 0x100 + s[2];
    assert (x / 0x100) % 0x100 == s[2];
    assert x % 0x100 == s[3];
    assert s == s[..4] + s[4..];
  }

  // ---------------------------------------------------------------- opaque

  /** Number of zero bytes after `n` data bytes (sections 4.10 and 4.11). */
  function Pad(n: nat): (p: nat)
    ensures p < 4 && (n + p) % 4 == 0
  {
    (4 - n % 4) % 4
  }

  function Zeros(n: nat): (z: seq<byte>)
    ensures |z| == n && forall i | 0 <= i < n :: z[i] == 0
  {
    seq(n, _ => 0)
  }

  /** Length word, the bytes, then zero padding to a multiple of four. */
  function EncodeOpaque(b: Opaque): (e: seq<byte>)
  {
    EncodeUint32(|b|) + b + Zeros(Pad(|b|))
  }

  function DecodeOpaque(s: seq<byte>): (r: Result<(Opaque, seq<byte>)>)
    ensures r.Ok? ==> IsSuffix(r.value.1, s)
  {
    var (n, afterLength) :- DecodeUint32(s);
    if |afterLength| < n + Pad(n) then Err(LengthOverrun(n))
    else Ok((afterLength[..n], afterLength[n + Pad(n)..]))
  }

  /** Opaque data is read back, and the bytes after it are left untouched. */
  lemma OpaqueRoundTrip(b: Opaque, rest: seq<byte>)
    ensures DecodeOpaque(EncodeOpaque(b) + rest) == Ok((b, rest))
  {
    var tail := b + Zeros(Pad(|b|)) + rest;
    assert EncodeOpaque(b) + rest == EncodeUint32(|b|) + tail;
    Uint32RoundTrip(|b|, tail);
    assert tail[..|b|] == b;
    assert tail[|b| + Pad(|b|)..] == rest;
  }

  /** The encoded size is the 4-byte header plus the data rounded up to a
      multiple of four: lengths 1, 2, 3, 4, 5 give 8, 8, 8, 8, 12. */
  lemma OpaqueEncodedLength(b: Opaque)
    ensures |EncodeOpaque(b)| == 4 + 4 * ((|b| + 3) / 4)
    ensures |EncodeOpaque(b)| % 4 == 0
  {
    var words := (|b| + 3) / 4;
    PaddedLength(|b|);
    assert |EncodeOpaque(b)| == 4 + |b| + Pad(|b|);
    WordsAreAligned(words + 1);
  }

  lemma WordsAreAligned(k: nat)
    ensures (4 * k) % 4 == 0
  {
  }

  /** Data and its padding fill exactly the whole words the data needs. */
  lemma PaddedLength(n: nat)
    ensures n + Pad(n) == 4 * ((n + 3) / 4)
  {
    var q, r := n / 4, n % 4;
    assert n == 4 * q + r && r < 4;
    if r == 0 {
      assert Pad(n) == 0;
      assert (n + 3) / 4 == q;
    } else {
      assert Pad(n) == 4 - r;
      assert (n + 3) / 4 == q + 1;
    }
  }

  /** Sums of whole 4-byte units are whole 4-byte units. */
  lemma AlignedSum(x: nat, y: nat)
    requires x % 4 == 0 && y % 4 == 0
    ensures (x + y) % 4 == 0
  {
  }

  /** A successful decode consumed exactly as many bytes as the value's
      encoding occupies (padding bytes are skipped, not inspected). */
  lemma OpaqueDecodeConsumes(s: seq<byte>)
    requires DecodeOpaque(s).Ok?
    ensures |s| - |DecodeOpaque(s).value.1| == |EncodeOpaque(DecodeOpaque(s).value.0)|
  {
  }

  /** A length word claiming more bytes than remain is reported as such. */
  lemma OpaqueOverrun(n: uint32, data: seq<byte>)
    requires |data| < n + Pad(n)
    ensures DecodeOpaque(EncodeUint32(n) + data) == Err(LengthOverrun(n))
  {
    Uint32RoundTrip(n, data);
  }

  // ---------------------------------------------------------------- uint32 arrays

  /** The elements of a variable-length array, one word each. */
  function EncodeUint32s(xs: seq<uint32>): (e: seq<byte>)
    ensures |e| == 4 * |xs|
  {
    if xs == [] then [] else EncodeUint32(xs[0]) + EncodeUint32s(xs[1..])
  }

  lemma {:induction false} EncodeUint32sAppend(xs: seq<uint32>, x: uint32)
    ensures EncodeUint32s(xs + [x]) == EncodeUint32s(xs) + EncodeUint32(x)
  {
    if xs != [] {
      assert (xs + [x])[1..] == xs[1..] + [x];
      EncodeUint32sAppend(xs[1..], x);
    }
  }

  /** Length word, then the elements (section 4.13). */
  function EncodeUint32Array(xs: Uint32Array): (e: seq<byte>)
  {
    EncodeUint32(|xs|) + EncodeUint32s(xs)
  }

  /** Reads `n` words, in order. */
  function DecodeUint32s(s: seq<byte>, n: nat): (r: Result<(seq<uint32>, seq<byte>)>)
    ensures r.Ok? <==> |s| >= 4 * n
    ensures r.Ok? ==> |r.value.0| == n && IsSuffix(r.value.1, s) && |r.value.1| == |s| - 4 * n
    decreases n
  {
    if n == 0 then Ok(([], s))
    else
      var (x, afterX) :- DecodeUint32(s);
      var (xs, afterXs) :- DecodeUint32s(afterX, n - 1);
      SuffixTransitive(afterXs, afterX, s);
      Ok(([x] + xs, afterXs))
  }

  /** The length word, then that many words; a length claiming more words
      than remain is a malformed length, not a cut-short word. */
  function DecodeUint32Array(s: seq<byte>): (r: Result<(Uint32Array, seq<byte>)>)
    ensures r.Ok? ==> IsSuffix(r.value.1, s)
    ensures r.Ok? <==> |s| >= 4 && |s| - 4 >= 4 * DecodeUint32(s).value.0
    ensures |s| < 4 ==> r == Err(Underrun)
    ensures r.Err? && |s| >= 4 ==> r == Err(LengthOverrun(DecodeUint32(s).value.0))
    ensures r.Ok? ==> |s| >= 4 && |r.value.0| == DecodeUint32(s).value.0 && |r.value.1| == |s| - 4 - 4 * |r.value.0|
  {
    var (n, afterLength) :- DecodeUint32(s);
    if |afterLength| < 4 * (n as int) then Err(LengthOverrun(n))
    else
      var (xs, rest) := DecodeUint32s(afterLength, n).value;
      Ok((xs, rest))
  }

  /** A length word claiming more words than remain is a malformed length. */
  lemma Uint32ArrayOverrun(n: uint32, data: seq<byte>)
    requires |data| < 4 * (n as int)
    ensures DecodeUint32Array(EncodeUint32(n) + data) == Err(LengthOverrun(n))
  {
    Uint32RoundTrip(n, data);
  }

  lemma {:induction false} Uint32sRoundTrip(xs: seq<uint32>, rest: seq<byte>)
    ensures DecodeUint32s(EncodeUint32s(xs) + rest, |xs|) == Ok((xs, rest))
  {
    if xs != [] {
      var tail := EncodeUint32s(xs[1..]) + rest;
      assert EncodeUint32s(xs) + rest == EncodeUint32(xs[0]) + tail;
      Uint32RoundTrip(xs[0], tail);
      Uint32sRoundTrip(xs[1..], rest);
      assert [xs[0]] + xs[1..] == xs;
    }
  }

  /** A variable-length array of words is read back with its length. */
  lemma Uint32ArrayRoundTrip(xs: Uint32Array, rest: seq<byte>)
    ensures DecodeUint32Array(EncodeUint32Array(xs) + rest) == Ok((xs, rest))
  {
    var tail := EncodeUint32s(xs) + rest;
    assert EncodeUint32Array(xs) + rest == EncodeUint32(|xs|) + tail;
    Uint32RoundTrip(|xs|, tail);
    Uint32sRoundTrip(xs, rest);
  }

}
