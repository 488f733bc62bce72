/** JSON string literals as Go's encoding/json writes a `string`, with a reader
    beside the writer; the round-trip lemma shows the text determines the string. */
module Json {
  import opened Types

  /** encoding/json's table of lower-case hexadecimal digits. */
  const Hex: Bytes := "0123456789abcdef"

  /** Bytes encoding/json writes as a six-byte `\u00XX` escape: control bytes other
      than newline, carriage return and tab, and the HTML-sensitive `<`, `>`, `&`. */
  predicate NeedsUnicodeEscape(b: byte) {
    (b as int < 0x20 && b != '\n' && b != '\r' && b != '\t') || b == '<' || b == '>' || b == '&'
  }

  /** A byte json.Marshal may write unescaped inside a document: no control byte
      and none of the HTML-sensitive `<`, `>`, `&`. */
  predicate SafeByte(b: byte) {
    b as int >= 0x20 && b != '<' && b != '>' && b != '&'
  }

  predicate HtmlSafe(s: Bytes) {
    forall i :: 0 <= i < |s| ==> SafeByte(s[i])
  }

  lemma HtmlSafeConcat(a: Bytes, b: Bytes)
    requires HtmlSafe(a) && HtmlSafe(b)
    ensures HtmlSafe(a + b)
  {
    forall i | 0 <= i < |a + b|
      ensures SafeByte((a + b)[i])
    {
      if i < |a| {
        assert (a + b)[i] == a[i];
      } else {
        assert (a + b)[i] == b[i - |a|];
      }
    }
  }

  /** How encoding/json writes one byte of a string's contents: the byte itself, or
      an escape of two or six bytes that starts with a backslash. */
  function EscapeByte(b: byte): (r: Bytes)
    ensures 1 <= |r| <= 6 && (r[0] == '\\' <==> |r| > 1)
    ensures r[0] != '"'
    ensures |r| == 1 <==> r == [b]
    ensures HtmlSafe(r)
  {
    if b == '"' || b == '\\' then ['\\', b]
    else if b == '\n' then ['\\', 'n']
    else if b == '\r' then ['\\', 'r']
    else if b == '\t' then ['\\', 't']
    else if NeedsUnicodeEscape(b) then ['\\', 'u', '0', '0', Hex[b as int / 16], Hex[b as int % 16]]
    else [b]
  }

  /** The contents of a string literal: each byte escaped in turn. The result
      grows by at most six bytes per byte and holds no control byte, `<`, `>` or `&`. */
  function Escape(s: Bytes): (r: Bytes)
    ensures |s| <= |r| <= 6 * |s|
    ensures HtmlSafe(r)
    decreases |s|
  {
    if s == [] then [] else EscapeByte(s[0]) + Escape(s[1..])
  }

  /** A Go string as json.Marshal writes it: quoted, with its contents escaped. The
      reader finds the closing quote at the very end and recovers `s`. */
  function Quote(s: Bytes): (r: Bytes)
    ensures 2 <= |r| && r[0] == '"' && r[|r| - 1] == '"'
    ensures HtmlSafe(r)
    ensures ReadString(r[1..]) == Some((s, []))
  {
    ReadEscape(s, []);
    assert (['"'] + Escape(s) + ['"'])[1..] == Escape(s) + ['"'] + [];
    ['"'] + Escape(s) + ['"']
  }

  function HexValue(c: byte): (r: Option<int>)
    ensures r.Some? ==> 0 <= r.value < 16
  {
    if '0' <= c <= '9' then Some(c as int - '0' as int)
    else if 'a' <= c <= 'f' then Some(c as int - 'a' as int + 10)
    else if 'A' <= c <= 'F' then Some(c as int - 'A' as int + 10)
    else None
  }

  /** The byte an escape stands for, read from the text after its backslash, and the
      number of bytes of that text the escape takes up. */
  function Unescape(t: Bytes): (r: Option<(byte, nat)>)
    ensures r.Some? ==> 1 <= r.value.1 <= |t|
  {
    if |t| == 0 then None
    else if t[0] == '"' || t[0] == '\\' || t[0] == '/' then Some((t[0], 1))
    else if t[0] == 'n' then Some(('\n', 1))
    else if t[0] == 'r' then Some(('\r', 1))
    else if t[0] == 't' then Some(('\t', 1))
    else if t[0] == 'u' && |t| >= 5 && t[1] == '0' && t[2] == '0' then
      match (HexValue(t[3]), HexValue(t[4]))
      case (Some(h), Some(l)) => Some(((h * 16 + l) as char, 5))
      case _ => None
    else None
  }

  /** Reads the contents of a string literal up to its closing quote: the bytes the
      contents stand for, and the text after the quote. */
  function ReadString(t: Bytes): (r: Option<(Bytes, Bytes)>)
    ensures r.Some? ==> |r.value.1| < |t|
    decreases |t|
  {
    if |t| == 0 then None
    else if t[0] == '"' then Some(([], t[1..]))
    else if t[0] == '\\' then
      match Unescape(t[1..])
      case None => None
      case Some((b, k)) =>
        match ReadString(t[1 + k..])
        case None => None
        case Some((s, rest)) => Some(([b] + s, rest))
    else
      match ReadString(t[1..])
      case None => None
      case Some((s, rest)) => Some(([t[0]] + s, rest))
  }

  /** `b` in front of the contents a successful read returned. */
  function Prepend(b: byte, r: Option<(Bytes, Bytes)>): Option<(Bytes, Bytes)> {
    match r
    case None => None
    case Some((s, rest)) => Some(([b] + s, rest))
  }

  lemma HexDigitValue(v: int)
    requires 0 <= v < 16
    ensures HexValue(Hex[v]) == Some(v)
  {
  }

  lemma ReadEscapedByte(b: byte, tail: Bytes)
    ensures ReadString(EscapeByte(b) + tail) == Prepend(b, ReadString(tail))
  {
    var t := EscapeByte(b) + tail;
    if NeedsUnicodeEscape(b) && b != '"' && b != '\\' {
      var h, l := b as int / 16, b as int % 16;
      HexDigitValue(h);
      HexDigitValue(l);
      assert t[1..][..5] == ['u', '0', '0', Hex[h], Hex[l]];
      assert Unescape(t[1..]) == Some((b, 5));
      assert t[6..] == tail;
    } else if |EscapeByte(b)| == 2 {
      assert Unescape(t[1..]) == Some((b, 1));
      assert t[2..] == tail;
    } else {
      assert t[1..] == tail;
    }
  }

  /** The reader recovers exactly the bytes the writer escaped, and leaves the text
      after the closing quote untouched. */
  lemma {:induction false} ReadEscape(s: Bytes, rest: Bytes)
    ensures ReadString(Escape(s) + ['"'] + rest) == Some((s, rest))
    decreases |s|
  {
    if s == [] {
      assert Escape(s) + ['"'] + rest == ['"'] + rest;
    } else {
      var tail := Escape(s[1..]) + ['"'] + rest;
      assert Escape(s) == EscapeByte(s[0]) + Escape(s[1..]);
      assert Escape(s) + ['"'] + rest == EscapeByte(s[0]) + tail;
      ReadEscapedByte(s[0], tail);
      ReadEscape(s[1..], rest);
      assert [s[0]] + s[1..] == s;
    }
  }

  /** A quoted string determines its contents: Quote is injective. */
  lemma QuoteInjective(a: Bytes, b: Bytes)
    ensures Quote(a) == Quote(b) <==> a == b
  {
    if Quote(a) == Quote(b) {
      ReadEscape(a, []);
      ReadEscape(b, []);
      assert Quote(a)[1..] == Escape(a) + ['"'] + [];
      assert Quote(b)[1..] == Escape(b) + ['"'] + [];
    }
  }
}
