/** Base 64 encoding with padding, as in section 4 of RFC 4648: every three bytes become four
    characters of the 64-letter alphabet, and a final one or two bytes are padded with `=`. */
module Base64 {
  import opened Wrappers
  import opened Bytes

  /** The 6-bit value of an alphabet letter; `None` for any other character, `=` included. */
  function ValueOf(c: char): (r: Option<int>)
    ensures r.Some? ==> 0 <= r.value < 64
  {
    if 'A' <= c <= 'Z' then Some(c as int - 'A' as int)
    else if 'a' <= c <= 'z' then Some(c as int - 'a' as int + 26)
    else if '0' <= c <= '9' then Some(c as int - '0' as int + 52)
    else if c == '+' then Some(62)
    else if c == '/' then Some(63)
    else None
  }

  /** The alphabet letter of a 6-bit value: `A`-`Z`, `a`-`z`, `0`-`9`, `+`, `/`. */
  function CharOf(v: int): (c: char)
    requires 0 <= v < 64
    ensures ValueOf(c) == Some(v)
  {
    if v < 26 then ('A' as int + v) as char
    else if v < 52 then ('a' as int + (v - 26)) as char
    else if v < 62 then ('0' as int + (v - 52)) as char
    else if v == 62 then '+'
    else '/'
  }

  /** Every letter is the image of its own value, so `CharOf` and `ValueOf` are inverse. */
  lemma CharOfValueOf(c: char)
    requires ValueOf(c).Some?
    ensures CharOf(ValueOf(c).value) == c
  {
  }

  predicate IsLetter(c: char) { ValueOf(c).Some? }

  /** Three bytes as four letters. */
  function EncodeTriple(a: byte, b: byte, c: byte): (r: string)
    ensures |r| == 4 && forall j :: 0 <= j < 4 ==> IsLetter(r[j])
  {
    [CharOf(a / 4), CharOf((a % 4) * 16 + b / 16), CharOf((b % 16) * 4 + c / 64), CharOf(c % 64)]
  }

  /** A final two bytes as three letters and one `=`. */
  function EncodePair(a: byte, b: byte): (r: string)
    ensures |r| == 4 && r[3] == '=' && forall j :: 0 <= j < 3 ==> IsLetter(r[j])
  {
    [CharOf(a / 4), CharOf((a % 4) * 16 + b / 16), CharOf((b % 16) * 4), '=']
  }

  /** A final single byte as two letters and `==`. */
  function EncodeSingle(a: byte): (r: string)
    ensures |r| == 4 && r[2] == '=' && r[3] == '=' && IsLetter(r[0]) && IsLetter(r[1])
  {
    [CharOf(a / 4), CharOf((a % 4) * 16), '=', '=']
  }

  /** The bit regrouping of a triple is undone by the regrouping of its four sextets. */
  lemma SextetArithmetic(a: byte, b: byte, c: byte)
    ensures (a / 4) * 4 + ((a % 4) * 16 + b / 16) / 16 == a
    ensures (((a % 4) * 16 + b / 16) % 16) * 16 + ((b % 16) * 4 + c / 64) / 4 == b
    ensures (((b % 16) * 4 + c / 64) % 4) * 64 + c % 64 == c
  {
  }

  lemma TripleRoundTrip(a: byte, b: byte, c: byte)
    ensures var r := EncodeTriple(a, b, c);
      r[3] != '=' && DecodeQuad(r[0], r[1], r[2], r[3]) == Some([a, b, c])
  {
    var v0, v1, v2, v3 := a / 4, (a % 4) * 16 + b / 16, (b % 16) * 4 + c / 64, c % 64;
    var r := EncodeTriple(a, b, c);
    assert r == [CharOf(v0), CharOf(v1), CharOf(v2), CharOf(v3)];
    assert ValueOf(r[0]) == Some(v0) && ValueOf(r[1]) == Some(v1);
    assert ValueOf(r[2]) == Some(v2) && ValueOf(r[3]) == Some(v3);
    SextetArithmetic(a, b, c);
  }

  lemma PairRoundTrip(a: byte, b: byte)
    ensures var r := EncodePair(a, b);
      r[2] != '=' && r[3] == '=' && DecodeTriple(r[0], r[1], r[2]) == Some([a, b])
  {
    var v0, v1, v2 := a / 4, (a % 4) * 16 + b / 16, (b % 16) * 4;
    var r := EncodePair(a, b);
    assert r == [CharOf(v0), CharOf(v1), CharOf(v2), '='];
    assert ValueOf(r[0]) == Some(v0) && ValueOf(r[1]) == Some(v1) && ValueOf(r[2]) == Some(v2);
    PairArithmetic(a, b);
    assert DecodeTriple(r[0], r[1], r[2]) == Some([v0 * 4 + v1 / 16, (v1 % 16) * 16 + v2 / 4]);
  }

  /** `SextetArithmetic` for a final pair, whose third sextet is padded with zero bits. */
  lemma PairArithmetic(a: byte, b: byte)
    ensures (a / 4) * 4 + ((a % 4) * 16 + b / 16) / 16 == a
    ensures (((a % 4) * 16 + b / 16) % 16) * 16 + ((b % 16) * 4) / 4 == b
  {
  }

  lemma SingleRoundTrip(a: byte)
    ensures var r := EncodeSingle(a);
      r[2] == '=' && r[3] == '=' && DecodePair(r[0], r[1]) == Some([a])
  {
    var v0, v1 := a / 4, (a % 4) * 16;
    var r := EncodeSingle(a);
    assert r == [CharOf(v0), CharOf(v1), '=', '='];
    assert ValueOf(r[0]) == Some(v0) && ValueOf(r[1]) == Some(v1);
    SextetArithmetic(a, 0, 0);
  }

  function DecodeQuad(w: char, x: char, y: char, z: char): Option<seq<byte>>
  {
    match (ValueOf(w), ValueOf(x), ValueOf(y), ValueOf(z))
    case (Some(v0), Some(v1), Some(v2), Some(v3)) =>
      Some([v0 * 4 + v1 / 16, (v1 % 16) * 16 + v2 / 4, (v2 % 4) * 64 + v3])
    case _ => None
  }

  function DecodeTriple(w: char, x: char, y: char): Option<seq<byte>>
  {
    match (ValueOf(w), ValueOf(x), ValueOf(y))
    case (Some(v0), Some(v1), Some(v2)) => Some([v0 * 4 + v1 / 16, (v1 % 16) * 16 + v2 / 4])
    case _ => None
  }

  function DecodePair(w: char, x: char): Option<seq<byte>>
  {
    match (ValueOf(w), ValueOf(x))
    case (Some(v0), Some(v1)) => Some([v0 * 4 + v1 / 16])
    case _ => None
  }

  /** `bytesToBase64`: the output is a whole number of four-character groups. */
  function Encode(b: seq<byte>): (r: string)
    ensures |r| == 4 * ((|b| + 2) / 3)
    decreases |b|
  {
    if |b| == 0 then ""
    else if |b| == 1 then EncodeSingle(b[0])
    else if |b| == 2 then EncodePair(b[0], b[1])
    else
      assert (|b| + 2) / 3 == (|b[3..]| + 2) / 3 + 1;
      EncodeTriple(b[0], b[1], b[2]) + Encode(b[3..])
  }

  /** The last group of a token: up to two trailing `=` mark a short final group. */
  function DecodeLast(w: char, x: char, y: char, z: char): (r: Option<seq<byte>>)
    ensures r.Some? ==> 1 <= |r.value| <= 3 && IsLetter(w) && IsLetter(x)
  {
    if z == '=' then
      if y == '=' then DecodePair(w, x) else DecodeTriple(w, x, y)
    else DecodeQuad(w, x, y, z)
  }

  /** `base64ToBytes`: `None` when the length is not a multiple of four or a character is
      neither a letter nor trailing padding. */
  function Decode(s: string): (r: Option<seq<byte>>)
    ensures r.Some? ==> |s| % 4 == 0
    ensures r.Some? ==> |r.value| <= 3 * (|s| / 4) <= |r.value| + 2
    ensures r.Some? ==> forall i :: 0 <= i < |s| - 2 ==> IsLetter(s[i])
    decreases |s|
  {
    if |s| == 0 then Some([])
    else if |s| < 4 then None
    else if |s| == 4 then DecodeLast(s[0], s[1], s[2], s[3])
    else match DecodeQuad(s[0], s[1], s[2], s[3])
      case None => None
      case Some(q) =>
        match Decode(s[4..])
        case None => None
        case Some(rest) =>
          assert |s| / 4 == |s[4..]| / 4 + 1;
          assert forall i :: 4 <= i < |s| ==> s[i] == s[4..][i - 4];
          Some(q + rest)
  }

  /** Encoded text is a whole number of four-character groups. */
  lemma WholeGroups(b: seq<byte>)
    ensures |Encode(b)| % 4 == 0
  {
    FourTimes((|b| + 2) / 3);
  }

  lemma FourTimes(k: int)
    ensures (4 * k) % 4 == 0
  {
  }

  /** Encoded text consists of alphabet letters and padding only. */
  lemma {:induction false} EncodeAlphabet(b: seq<byte>)
    ensures forall i :: 0 <= i < |Encode(b)| ==> IsLetter(Encode(b)[i]) || Encode(b)[i] == '='
    decreases |b|
  {
    if |b| > 2 {
      EncodeAlphabet(b[3..]);
      var t, e, rest := EncodeTriple(b[0], b[1], b[2]), Encode(b), Encode(b[3..]);
      assert e == t + rest;
      forall i | 0 <= i < |e|
        ensures IsLetter(e[i]) || e[i] == '='
      {
        if i >= 4 {
          assert e[i] == rest[i - 4];
        }
      }
    }
  }

  /** Decoding inverts encoding on every byte sequence. */
  lemma {:induction false} DecodeEncode(b: seq<byte>)
    ensures Decode(Encode(b)) == Some(b)
    decreases |b|
  {
    if |b| <= 3 {
      DecodeEncodeShort(b);
    } else {
      DecodeEncode(b[3..]);
      DecodeEncodeStep(b);
    }
  }

  lemma DecodeEncodeShort(b: seq<byte>)
    requires |b| <= 3
    ensures Decode(Encode(b)) == Some(b)
  {
    if |b| == 1 {
      var e := EncodeSingle(b[0]);
      SingleRoundTrip(b[0]);
      DecodeLastGroup(e);
      SplitShort(b);
    } else if |b| == 2 {
      var e := EncodePair(b[0], b[1]);
      PairRoundTrip(b[0], b[1]);
      DecodeLastGroup(e);
      SplitShort(b);
    } else if |b| == 3 {
      var e := EncodeTriple(b[0], b[1], b[2]);
      assert Encode(b) == e + Encode([]);
      TripleRoundTrip(b[0], b[1], b[2]);
      DecodeLastGroup(e);
      SplitShort(b);
    }
  }

  lemma DecodeLastGroup(e: string)
    requires |e| == 4
    ensures Decode(e) == DecodeLast(e[0], e[1], e[2], e[3])
  {
  }

  lemma SplitShort(b: seq<byte>)
    ensures |b| == 1 ==> b == [b[0]]
    ensures |b| == 2 ==> b == [b[0], b[1]]
    ensures |b| == 3 ==> b == [b[0], b[1], b[2]]
  {
  }

  /** A full group in front of a non-empty valid remainder decodes to its three bytes followed by
      the remainder's bytes. */
  lemma DecodeCons(t: string, rest: string, q: seq<byte>, r: seq<byte>)
    requires |t| == 4 && |rest| > 0
    requires DecodeQuad(t[0], t[1], t[2], t[3]) == Some(q) && Decode(rest) == Some(r)
    ensures Decode(t + rest) == Some(q + r)
  {
    var s := t + rest;
    assert s[4..] == rest;
    assert s[0] == t[0] && s[1] == t[1] && s[2] == t[2] && s[3] == t[3];
  }

  lemma DecodeEncodeStep(b: seq<byte>)
    requires |b| > 3 && Decode(Encode(b[3..])) == Some(b[3..])
    ensures Decode(Encode(b)) == Some(b)
  {
    var t := EncodeTriple(b[0], b[1], b[2]);
    assert Encode(b) == t + Encode(b[3..]);
    TripleRoundTrip(b[0], b[1], b[2]);
    SplitFront(b);
    DecodeCons(t, Encode(b[3..]), [b[0], b[1], b[2]], b[3..]);
  }

  lemma SplitFront(b: seq<byte>)
    requires |b| >= 3
    ensures b == [b[0], b[1], b[2]] + b[3..]
  {
  }
}
