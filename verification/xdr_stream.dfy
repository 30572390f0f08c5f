/**
  The two buffers the generated codecs work on: an appender that
  serializers write to, and a cursor that deserializers read from and
  advance. Each primitive operation is proved against the pure XDR
  functions of module Xdr.
*/
module XdrStream {
  import opened Xdr

  /** A deserializer's outcome `r`, and the cursor's remaining bytes
      afterwards, are those the pure decoder `spec` describes. */
  ghost predicate Tracks<T>(spec: Result<(T, seq<byte>)>, r: Result<T>, remaining: seq<byte>)
  {
    match spec
    case Ok((v, rest)) => r == Ok(v) && remaining == rest
    case Err(e) => r == Err(e)
  }

  /** Output buffer: everything serialized so far. */
  class Appender {
    var bytes: seq<byte>

    constructor ()
      ensures bytes == []
    {
      bytes := [];
    }

    method WriteUint32(x: uint32)
      modifies this
      ensures bytes == old(bytes) + EncodeUint32(x)
    {
      bytes := bytes + EncodeUint32(x);
    }

    method WriteOpaque(b: Opaque)
      modifies this
      ensures bytes == old(bytes) + EncodeOpaque(b)
    {
      WriteUint32(|b|);
      bytes := bytes + b + Zeros(Pad(|b|));
    }

    method WriteUint32Array(xs: Uint32Array)
      modifies this
      ensures bytes == old(bytes) + EncodeUint32Array(xs)
    {
      WriteUint32(|xs|);
      for i := 0 to |xs|
        invariant bytes == old(bytes) + EncodeUint32(|xs|) + EncodeUint32s(xs[..i])
      {
        EncodeUint32sAppend(xs[..i], xs[i]);
        assert xs[..i + 1] == xs[..i] + [xs[i]];
        WriteUint32(xs[i]);
      }
      assert xs[..|xs|] == xs;
    }
  }

  /** Input buffer: the received bytes and the read position. */
  class Cursor {
    const data: seq<byte>
    var pos: nat

    ghost predicate Valid()
      reads this
    {
      pos <= |data|
    }

    /** The bytes not yet read. */
    ghost function Remaining(): seq<byte>
      reads this
      requires Valid()
    {
      data[pos..]
    }

    constructor (received: seq<byte>)
      ensures Valid() && data == received && Remaining() == received
    {
      data := received;
      pos := 0;
    }

    method ReadUint32() returns (r: Result<uint32>)
      requires Valid()
      modifies this
      ensures Valid()
      ensures Tracks(DecodeUint32(old(Remaining())), r, Remaining())
    {
      if |data| - pos < 4 {
        return Err(Underrun);
      }
      r := Ok(BigEndianWord(data[pos], data[pos + 1], data[pos + 2], data[pos + 3]));
      pos := pos + 4;
      assert data[pos..] == old(Remaining())[4..];
    }

    method ReadOpaque() returns (r: Result<Opaque>)
      requires Valid()
      modifies this
      ensures Valid()
      ensures Tracks(DecodeOpaque(old(Remaining())), r, Remaining())
    {
      var n :- ReadUint32();
      if |data| - pos < n + Pad(n) {
        return Err(LengthOverrun(n));
      }
      ghost var afterLength := Remaining();
      assert afterLength[..n] == data[pos..pos + n];
      r := Ok(data[pos..pos + n]);
      pos := pos + n + Pad(n);
      assert data[pos..] == afterLength[n + Pad(n)..];
    }

    /** Reads `n` words, one at a time. */
    method ReadUint32s(n: nat) returns (r: Result<seq<uint32>>)
      requires Valid()
      modifies this
      ensures Valid()
      ensures Tracks(DecodeUint32s(old(Remaining()), n), r, Remaining())
    {
      ghost var spec := DecodeUint32s(Remaining(), n);
      var xs: seq<uint32> := [];
      var i: nat := 0;
      PrependNothing(spec);
      while i < n
        invariant Valid() && i <= n && |xs| == i
        invariant spec == Prepend(xs, DecodeUint32s(Remaining(), n - i))
      {
        ghost var before := Remaining();
        var x := ReadUint32();
        if x.Err? {
          return Err(x.error);
        }
        PrependStep(xs, x.value, before, Remaining(), n - i);
        xs := xs + [x.value];
        i := i + 1;
      }
      assert xs + [] == xs;
      r := Ok(xs);
    }

    method ReadUint32Array() returns (r: Result<Uint32Array>)
      requires Valid()
      modifies this
      ensures Valid()
      ensures Tracks(DecodeUint32Array(old(Remaining())), r, Remaining())
    {
      var n :- ReadUint32();
      if |data| - pos < 4 * (n as int) {
        return Err(LengthOverrun(n));
      }
      var xs := ReadUint32s(n);
      r := Ok(xs.value);
    }
  }

  /** The words `xs` already read, followed by what the rest of the read yields. */
  function Prepend(xs: seq<uint32>, r: Result<(seq<uint32>, seq<byte>)>): Result<(seq<uint32>, seq<byte>)>
  {
    match r
    case Ok((ys, rest)) => Ok((xs + ys, rest))
    case Err(e) => Err(e)
  }

  lemma PrependNothing(r: Result<(seq<uint32>, seq<byte>)>)
    ensures Prepend([], r) == r
  {
    if r.Ok? {
      assert [] + r.value.0 == r.value.0;
    }
  }

  /** Reading one more word moves it from the pending read to the words read. */
  lemma PrependStep(xs: seq<uint32>, x: uint32, s: seq<byte>, afterX: seq<byte>, k: nat)
    requires k > 0 && DecodeUint32(s) == Ok((x, afterX))
    ensures Prepend(xs, DecodeUint32s(s, k)) == Prepend(xs + [x], DecodeUint32s(afterX, k - 1))
  {
    match DecodeUint32s(afterX, k - 1)
    case Ok((ys, rest)) =>
      assert xs + ([x] + ys) == xs + [x] + ys;
    case Err(e) =>
  }
}
