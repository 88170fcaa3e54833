/** Unsigned LEB128 varints (DWARF version 4, section 7.6, "Variable Length Data"): seven value
    bits per byte, least significant group first, the high bit set on every byte but the last. */
module Varint {
  import opened Wrappers
  import opened Bytes

  /** `varint.encode(n)`. */
  function Encode(n: nat): (r: seq<byte>)
    ensures 1 <= |r|
    ensures r[|r| - 1] < 128
    ensures forall i :: 0 <= i < |r| - 1 ==> r[i] >= 128
    ensures |r| > 1 ==> r[|r| - 1] > 0
    ensures n < 128 <==> |r| == 1
    decreases n
  {
    if n < 128 then [n] else [n % 128 + 128] + Encode(n / 128)
  }

  /** `varint.decode(b)` together with `varint.decode.bytes`: the value of the varint at the
      front of `b` and the number of bytes it occupies, or `None` when `b` ends inside it. */
  function DecodeOne(b: seq<byte>): (r: Option<(nat, nat)>)
    ensures r.Some? ==> 1 <= r.value.1 <= |b|
    ensures r.Some? ==> b[r.value.1 - 1] < 128 && forall i :: 0 <= i < r.value.1 - 1 ==> b[i] >= 128
    ensures r.None? <==> forall i :: 0 <= i < |b| ==> b[i] >= 128
    decreases |b|
  {
    if |b| == 0 then None
    else if b[0] < 128 then Some((b[0], 1))
    else match DecodeOne(b[1..])
      case None =>
        assert forall i :: 1 <= i < |b| ==> b[i] == b[1..][i - 1];
        None
      case Some((v, k)) =>
        assert forall i :: 1 <= i < k + 1 ==> b[i] == b[1..][i - 1];
        Some((b[0] - 128 + 128 * v, k + 1))
  }

  /** Reading a varint back yields the encoded value and consumes exactly its bytes, whatever
      follows it. */
  lemma {:induction false} DecodeEncode(n: nat, rest: seq<byte>)
    ensures DecodeOne(Encode(n) + rest) == Some((n, |Encode(n)|))
    decreases n
  {
    if n >= 128 {
      var e := Encode(n);
      assert (e + rest)[1..] == Encode(n / 128) + rest;
      DecodeEncode(n / 128, rest);
    }
  }

  /** The concatenated encodings of `ns`, in order. */
  function EncodeAll(ns: seq<nat>): (r: seq<byte>)
    ensures Terminators(r) == |ns|
    ensures |ns| > 0 ==> |r| > 0 && r[|r| - 1] < 128
  {
    if |ns| == 0 then []
    else
      var e := Encode(ns[0]);
      SingleTerminator(e);
      TerminatorsAppend(e, EncodeAll(ns[1..]));
      e + EncodeAll(ns[1..])
  }

  /** Reads varints until the bytes are exhausted; `None` when the last one is cut short. The
      stream decodes exactly when it is empty or ends with a final (high-bit clear) byte. */
  function DecodeAll(b: seq<byte>): (r: Option<seq<nat>>)
    ensures r.Some? <==> |b| == 0 || b[|b| - 1] < 128
    decreases |b|
  {
    if |b| == 0 then Some([])
    else match DecodeOne(b)
      case None => None
      case Some((v, k)) =>
        match DecodeAll(b[k..])
        case None => None
        case Some(vs) => Some([v] + vs)
  }

  lemma {:induction false} DecodeAllEncodeAll(ns: seq<nat>)
    ensures DecodeAll(EncodeAll(ns)) == Some(ns)
    decreases |ns|
  {
    if |ns| > 0 {
      var e, rest := Encode(ns[0]), EncodeAll(ns[1..]);
      assert e + rest == EncodeAll(ns);
      DecodeEncode(ns[0], rest);
      DecodeAllEncodeAll(ns[1..]);
      DecodeAllStep(e, rest, ns[0], ns[1..]);
      assert ns == [ns[0]] + ns[1..];
    }
  }

  /** One step of `DecodeAll`: a leading varint `e` that decodes whole is followed by the rest. */
  lemma DecodeAllStep(e: seq<byte>, rest: seq<byte>, n: nat, ns: seq<nat>)
    requires DecodeOne(e + rest) == Some((n, |e|))
    requires DecodeAll(rest) == Some(ns)
    ensures DecodeAll(e + rest) == Some([n] + ns)
  {
    assert (e + rest)[|e|..] == rest;
  }

  /** The number of varints in a byte stream: one per final (high-bit clear) byte. */
  function Terminators(b: seq<byte>): nat
  {
    if |b| == 0 then 0 else (if b[0] < 128 then 1 else 0) + Terminators(b[1..])
  }

  lemma {:induction false} TerminatorsAppend(a: seq<byte>, b: seq<byte>)
    ensures Terminators(a + b) == Terminators(a) + Terminators(b)
    decreases |a|
  {
    if |a| > 0 {
      assert (a + b)[1..] == a[1..] + b;
      TerminatorsAppend(a[1..], b);
    } else {
      assert a + b == b;
    }
  }

  lemma {:induction false} SingleTerminator(b: seq<byte>)
    requires |b| > 0 && b[|b| - 1] < 128 && forall i :: 0 <= i < |b| - 1 ==> b[i] >= 128
    ensures Terminators(b) == 1
    decreases |b|
  {
    if |b| > 1 {
      SingleTerminator(b[1..]);
    }
  }

  /** A decoded stream yields one value per varint it contains. */
  lemma {:induction false} DecodeAllCount(b: seq<byte>)
    requires DecodeAll(b).Some?
    ensures |DecodeAll(b).value| == Terminators(b)
    decreases |b|
  {
    if |b| > 0 {
      var k := DecodeOne(b).value.1;
      var head, tail := b[..k], b[k..];
      assert b == head + tail;
      HeadTerminator(b);
      TerminatorsAppend(head, tail);
      DecodeAllCount(tail);
      assert |DecodeAll(b).value| == 1 + |DecodeAll(tail).value|;
    }
  }

  /** The bytes of the varint at the front of a stream hold exactly one final byte. */
  lemma HeadTerminator(b: seq<byte>)
    requires DecodeOne(b).Some?
    ensures Terminators(b[..DecodeOne(b).value.1]) == 1
  {
    SingleTerminator(b[..DecodeOne(b).value.1]);
  }
}
