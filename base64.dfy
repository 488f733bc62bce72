/** Standard base64 as section 4 of RFC 4648 defines it, with `=` padding: the
    encoding Go's `base64.StdEncoding.EncodeToString` produces. The decoder is the
    reference inverse that the round-trip lemmas are stated against. */
module Base64 {
  import opened Types

  const Pad: byte := '='

  /** The 64 characters of the standard alphabet: A-Z, a-z, 0-9, '+' and '/'. */
  predicate IsAlphabet(c: byte) {
    ('A' <= c <= 'Z') || ('a' <= c <= 'z') || ('0' <= c <= '9') || c == '+' || c == '/'
  }

  /** The alphabet character for the 6-bit value `v`. */
  function CharOf(v: int): (c: byte)
    requires 0 <= v < 64
    ensures IsAlphabet(c)
  {
    if v < 26 then ('A' as int + v) as char
    else if v < 52 then ('a' as int + (v - 26)) as char
    else if v < 62 then ('0' as int + (v - 52)) as char
    else if v == 62 then '+'
    else '/'
  }

  /** The 6-bit value of an alphabet character; None for any other byte. */
  function ValueOf(c: byte): (r: Option<int>)
    ensures r.Some? <==> IsAlphabet(c)
    ensures r.Some? ==> 0 <= r.value < 64 && CharOf(r.value) == c
  {
    if 'A' <= c <= 'Z' then Some(c as int - 'A' as int)
    else if 'a' <= c <= 'z' then Some(c as int - 'a' as int + 26)
    else if '0' <= c <= '9' then Some(c as int - '0' as int + 52)
    else if c == '+' then Some(62)
    else if c == '/' then Some(63)
    else None
  }

  lemma ValueOfCharOf(v: int)
    requires 0 <= v < 64
    ensures ValueOf(CharOf(v)) == Some(v)
  {
  }

  /** The four characters for the 24 bits of `a`, `b`, `c`, most significant first. */
  function Quad(a: byte, b: byte, c: byte): Bytes {
    [CharOf(a as int / 4), CharOf(a as int % 4 * 16 + b as int / 16),
     CharOf(b as int % 16 * 4 + c as int / 64), CharOf(c as int % 64)]
  }

  /** Every full group of three bytes becomes four characters; a final group of one
      or two bytes is zero-filled to a whole character and padded with `=`. */
  function Encode(data: Bytes): (s: Bytes)
    ensures |s| == (|data| + 2) / 3 * 4
    ensures forall i :: 0 <= i < |s| ==> IsAlphabet(s[i]) || (s[i] == Pad && |s| - 2 <= i)
    decreases |data|
  {
    if |data| == 0 then []
    else if |data| == 1 then
      [CharOf(data[0] as int / 4), CharOf(data[0] as int % 4 * 16), Pad, Pad]
    else if |data| == 2 then
      [CharOf(data[0] as int / 4), CharOf(data[0] as int % 4 * 16 + data[1] as int / 16),
       CharOf(data[1] as int % 16 * 4), Pad]
    else
      var q, rest := Quad(data[0], data[1], data[2]), Encode(data[3..]);
      assert IsAlphabet(q[0]) && IsAlphabet(q[1]) && IsAlphabet(q[2]) && IsAlphabet(q[3]);
      assert forall i :: 4 <= i < |q + rest| ==> (q + rest)[i] == rest[i - 4];
      q + rest
  }

  /** Four alphabet characters back to the three bytes they carry. */
  function DecodeQuad(s: Bytes): Option<Bytes>
    requires |s| == 4
  {
    match (ValueOf(s[0]), ValueOf(s[1]), ValueOf(s[2]), ValueOf(s[3]))
    case (Some(v0), Some(v1), Some(v2), Some(v3)) =>
      Some([(v0 * 4 + v1 / 16) as char, (v1 % 16 * 16 + v2 / 4) as char, (v2 % 4 * 64 + v3) as char])
    case _ => None
  }

  /** The last group of four characters, which may end in one or two `=`; the bits
      that the padding leaves over must be zero, as the encoder writes them. */
  function DecodeLast(s: Bytes): Option<Bytes>
    requires |s| == 4
  {
    if s[3] != Pad then DecodeQuad(s)
    else if s[2] == Pad then
      match (ValueOf(s[0]), ValueOf(s[1]))
      case (Some(v0), Some(v1)) =>
        if v1 % 16 == 0 then Some([(v0 * 4 + v1 / 16) as char]) else None
      case _ => None
    else
      match (ValueOf(s[0]), ValueOf(s[1]), ValueOf(s[2]))
      case (Some(v0), Some(v1), Some(v2)) =>
        if v2 % 4 == 0 then Some([(v0 * 4 + v1 / 16) as char, (v1 % 16 * 16 + v2 / 4) as char]) else None
      case _ => None
  }

  /** Standard base64 decoding; None for text the encoder could not have written. */
  function Decode(s: Bytes): Option<Bytes>
    decreases |s|
  {
    if |s| == 0 then Some([])
    else if |s| < 4 then None
    else if |s| == 4 then DecodeLast(s)
    else
      match DecodeQuad(s[..4])
      case None => None
      case Some(q) =>
        match Decode(s[4..])
        case None => None
        case Some(rest) => Some(q + rest)
  }

  /** Three bytes cut into four 6-bit values and joined again. */
  lemma JoinArith(a: int, b: int, c: int)
    requires 0 <= a < 256 && 0 <= b < 256 && 0 <= c < 256
    ensures var v0, v1, v2, v3 := a / 4, a % 4 * 16 + b / 16, b % 16 * 4 + c / 64, c % 64;
      0 <= v0 < 64 && 0 <= v1 < 64 && 0 <= v2 < 64 && 0 <= v3 < 64 &&
      v0 * 4 + v1 / 16 == a && v1 % 16 * 16 + v2 / 4 == b && v2 % 4 * 64 + v3 == c
  {
  }

  /** Four 6-bit values joined into three bytes and cut again. */
  lemma SplitArith(v0: int, v1: int, v2: int, v3: int)
    requires 0 <= v0 < 64 && 0 <= v1 < 64 && 0 <= v2 < 64 && 0 <= v3 < 64
    ensures var a, b, c := v0 * 4 + v1 / 16, v1 % 16 * 16 + v2 / 4, v2 % 4 * 64 + v3;
      0 <= a < 256 && 0 <= b < 256 && 0 <= c < 256 &&
      a / 4 == v0 && a % 4 * 16 + b / 16 == v1 && b % 16 * 4 + c / 64 == v2 && c % 64 == v3
  {
  }

  lemma QuadRoundTrip(a: byte, b: byte, c: byte)
    ensures DecodeQuad(Quad(a, b, c)) == Some([a, b, c])
  {
    var v0, v1, v2, v3 := a as int / 4, a as int % 4 * 16 + b as int / 16, b as int % 16 * 4 + c as int / 64, c as int % 64;
    JoinArith(a as int, b as int, c as int);
    ValueOfCharOf(v0);
    ValueOfCharOf(v1);
    ValueOfCharOf(v2);
    ValueOfCharOf(v3);
    var s := Quad(a, b, c);
    assert s == [CharOf(v0), CharOf(v1), CharOf(v2), CharOf(v3)];
    assert ValueOf(s[0]) == Some(v0) && ValueOf(s[1]) == Some(v1);
    assert ValueOf(s[2]) == Some(v2) && ValueOf(s[3]) == Some(v3);
    assert DecodeQuad(s) == Some([(v0 * 4 + v1 / 16) as char, (v1 % 16 * 16 + v2 / 4) as char, (v2 % 4 * 64 + v3) as char]);
  }

  lemma OneByteRoundTrip(a: byte)
    ensures Decode(Encode([a])) == Some([a])
  {
    JoinArith(a as int, 0, 0);
    ValueOfCharOf(a as int / 4);
    ValueOfCharOf(a as int % 4 * 16);
    assert DecodeLast(Encode([a])) == Some([a]);
  }

  lemma TwoBytesRoundTrip(a: byte, b: byte)
    ensures Decode(Encode([a, b])) == Some([a, b])
  {
    var v0, v1, v2 := a as int / 4, a as int % 4 * 16 + b as int / 16, b as int % 16 * 4;
    JoinArith(a as int, b as int, 0);
    ValueOfCharOf(v0);
    ValueOfCharOf(v1);
    ValueOfCharOf(v2);
    var s := Encode([a, b]);
    assert s == [CharOf(v0), CharOf(v1), CharOf(v2), Pad];
    assert DecodeLast(s) == Some([(v0 * 4 + v1 / 16) as char, (v1 % 16 * 16 + v2 / 4) as char]);
  }

  /** Decoding undoes encoding, for every byte sequence including the empty one. */
  lemma {:induction false} DecodeEncode(data: Bytes)
    ensures Decode(Encode(data)) == Some(data)
    decreases |data|
  {
    var s := Encode(data);
    if |data| == 0 {
    } else if |data| == 1 {
      assert data == [data[0]];
      OneByteRoundTrip(data[0]);
    } else if |data| == 2 {
      assert data == [data[0], data[1]];
      TwoBytesRoundTrip(data[0], data[1]);
    } else {
      var q := Quad(data[0], data[1], data[2]);
      QuadRoundTrip(data[0], data[1], data[2]);
      assert data == [data[0], data[1], data[2]] + data[3..];
      if |data| == 3 {
        assert s == q && q[3] != Pad;
        assert data == [data[0], data[1], data[2]];
      } else {
        DecodeEncode(data[3..]);
        assert s[..4] == q;
        assert s[4..] == Encode(data[3..]);
      }
    }
  }

  lemma QuadCanonical(s: Bytes, d: Bytes)
    requires |s| == 4 && DecodeQuad(s) == Some(d)
    ensures |d| == 3 && Quad(d[0], d[1], d[2]) == s
  {
    SplitArith(ValueOf(s[0]).value, ValueOf(s[1]).value, ValueOf(s[2]).value, ValueOf(s[3]).value);
  }

  lemma OnePadCanonical(s: Bytes, d: Bytes)
    requires |s| == 4 && s[3] == Pad && s[2] != Pad && DecodeLast(s) == Some(d)
    ensures Encode(d) == s
  {
    var v0, v1, v2 := ValueOf(s[0]).value, ValueOf(s[1]).value, ValueOf(s[2]).value;
    SplitArith(v0, v1, v2, 0);
    assert |d| == 2;
    assert Encode(d) == [CharOf(v0), CharOf(v1), CharOf(v2), Pad];
  }

  lemma TwoPadsCanonical(s: Bytes, d: Bytes)
    requires |s| == 4 && s[3] == Pad && s[2] == Pad && DecodeLast(s) == Some(d)
    ensures Encode(d) == s
  {
    var v0, v1 := ValueOf(s[0]).value, ValueOf(s[1]).value;
    SplitArith(v0, v1, 0, 0);
    assert |d| == 1;
    assert Encode(d) == [CharOf(v0), CharOf(v1), Pad, Pad];
  }

  lemma LastCanonical(s: Bytes, d: Bytes)
    requires |s| == 4 && DecodeLast(s) == Some(d)
    ensures Encode(d) == s
  {
    if s[3] != Pad {
      QuadCanonical(s, d);
      assert Encode(d) == Quad(d[0], d[1], d[2]) + Encode(d[3..]);
    } else if s[2] == Pad {
      TwoPadsCanonical(s, d);
    } else {
      OnePadCanonical(s, d);
    }
  }

  /** Decoding accepts only what the encoder writes: any text that decodes is the
      encoding of what it decodes to. */
  lemma {:induction false} EncodeDecode(s: Bytes, data: Bytes)
    requires Decode(s) == Some(data)
    ensures Encode(data) == s
    decreases |s|
  {
    if |s| == 4 {
      LastCanonical(s, data);
    } else if |s| > 4 {
      var q := DecodeQuad(s[..4]).value;
      var rest := Decode(s[4..]).value;
      QuadCanonical(s[..4], q);
      EncodeDecode(s[4..], rest);
      assert data == q + rest;
      assert data[3..] == rest;
      assert s == s[..4] + s[4..];
    }
  }

  /** Encoding is injective: distinct byte sequences never share an encoding. */
  lemma EncodeInjective(a: Bytes, b: Bytes)
    ensures Encode(a) == Encode(b) <==> a == b
  {
    if Encode(a) == Encode(b) {
      DecodeEncode(a);
      DecodeEncode(b);
    }
  }

  /** The test vectors of section 10 of RFC 4648, up to one full group. */
  lemma Rfc4648ShortVectors()
    ensures Encode("") == ""
    ensures Encode("f") == "Zg=="
    ensures Encode("fo") == "Zm8="
    ensures Encode("foo") == "Zm9v"
  {
  }

  lemma FooGroup()
    ensures Quad('f', 'o', 'o') == "Zm9v"
  {
    var foo: Bytes := "foo";
    assert Encode(foo) == Quad('f', 'o', 'o') + Encode([]);
    Rfc4648ShortVectors();
  }

  /** The test vectors of section 10 of RFC 4648 that span two groups: the first
      group is `foo` again, the second is the remaining one to three bytes. */
  lemma Rfc4648FoobVector()
    ensures Encode("foob") == "Zm9vYg=="
  {
    var b: Bytes := "b";
    FooGroup();
    assert Encode("foob") == Quad('f', 'o', 'o') + Encode(b);
  }

  lemma Rfc4648FoobaVector()
    ensures Encode("fooba") == "Zm9vYmE="
  {
    var ba: Bytes := "ba";
    FooGroup();
    assert Encode("fooba") == Quad('f', 'o', 'o') + Encode(ba);
  }

  lemma Rfc4648FoobarVector()
    ensures Encode("foobar") == "Zm9vYmFy"
  {
    var bar: Bytes := "bar";
    FooGroup();
    assert Encode("foobar") == Quad('f', 'o', 'o') + Encode(bar);
  }
}
