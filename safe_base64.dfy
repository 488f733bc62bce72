/** The encoding every binary output of the signer goes through: standard base64,
    then `base64Replacer`, which rewrites `=` as `_`, `+` as `-` and `/` as `~`
    (cloudfront/cloudfront.go:22, applied at :78 and :96). */
module SafeBase64 {
  import opened Types
  import Base64

  /** The replacer's table, one byte at a time. */
  function ReplaceByte(c: byte): byte {
    if c == '=' then '_' else if c == '+' then '-' else if c == '/' then '~' else c
  }

  /** The table read backwards. */
  function RestoreByte(c: byte): byte {
    if c == '_' then '=' else if c == '-' then '+' else if c == '~' then '/' else c
  }

  /** `base64Replacer.Replace`: every `=`, `+` and `/` is rewritten, nothing else moves. */
  function Replace(s: Bytes): (r: Bytes)
    ensures |r| == |s|
    ensures Free(r, '=') && Free(r, '+') && Free(r, '/')
    ensures forall i :: 0 <= i < |s| ==>
      (s[i] == '=' ==> r[i] == '_') && (s[i] == '+' ==> r[i] == '-') && (s[i] == '/' ==> r[i] == '~')
    ensures forall i :: 0 <= i < |s| && s[i] != '=' && s[i] != '+' && s[i] != '/' ==> r[i] == s[i]
    decreases |s|
  {
    if s == [] then [] else [ReplaceByte(s[0])] + Replace(s[1..])
  }

  /** The inverse substitution: `_` to `=`, `-` to `+`, `~` to `/`. */
  function Restore(s: Bytes): (r: Bytes)
    ensures |r| == |s|
    ensures Free(r, '_') && Free(r, '-') && Free(r, '~')
    decreases |s|
  {
    if s == [] then [] else [RestoreByte(s[0])] + Restore(s[1..])
  }

  /** None of `_`, `-`, `~` occurs in `s`: the bytes Replace writes are not already there. */
  predicate ReplaceFree(s: Bytes) {
    Free(s, '_') && Free(s, '-') && Free(s, '~')
  }

  /** Replace is undone by Restore on text that holds none of the replacement bytes. */
  lemma {:induction false} RestoreReplace(s: Bytes)
    requires ReplaceFree(s)
    ensures Restore(Replace(s)) == s
    decreases |s|
  {
    if s != [] {
      RestoreReplace(s[1..]);
      assert Replace(s) == [ReplaceByte(s[0])] + Replace(s[1..]);
    }
  }

  /** Restore is undone by Replace on text that holds none of `=`, `+`, `/`. */
  lemma {:induction false} ReplaceRestore(s: Bytes)
    requires Free(s, '=') && Free(s, '+') && Free(s, '/')
    ensures Replace(Restore(s)) == s
    decreases |s|
  {
    if s != [] {
      ReplaceRestore(s[1..]);
      assert Restore(s) == [RestoreByte(s[0])] + Restore(s[1..]);
    }
  }

  /** The bytes the encoding can produce: letters, digits, `-`, `~` and `_`, all of
      which stand for themselves in a URL query. */
  predicate IsSafe(c: byte) {
    ('A' <= c <= 'Z') || ('a' <= c <= 'z') || ('0' <= c <= '9') || c == '-' || c == '~' || c == '_'
  }

  /** `base64Replacer.Replace(base64.StdEncoding.EncodeToString(data))`. */
  function Encode(data: Bytes): (s: Bytes)
    ensures |s| == |Base64.Encode(data)| == (|data| + 2) / 3 * 4
    ensures forall i :: 0 <= i < |s| ==> IsSafe(s[i])
    ensures forall i :: 0 <= i < |s| && s[i] == '_' ==> |s| - 2 <= i
    ensures Free(s, '&') && Free(s, '=') && Free(s, '+') && Free(s, '/')
  {
    Replace(Base64.Encode(data))
  }

  /** What a verifier does with the text: reverse the substitution, then decode. */
  function Decode(s: Bytes): Option<Bytes> {
    Base64.Decode(Restore(s))
  }

  lemma Base64ReplaceFree(data: Bytes)
    ensures ReplaceFree(Base64.Encode(data))
  {
    var e := Base64.Encode(data);
    forall i | 0 <= i < |e|
      ensures e[i] != '_' && e[i] != '-' && e[i] != '~'
    {
      assert Base64.IsAlphabet(e[i]) || e[i] == Base64.Pad;
    }
  }

  /** Reversing the substitution and decoding recovers exactly the encoded bytes,
      the empty sequence included. */
  lemma DecodeEncode(data: Bytes)
    ensures Decode(Encode(data)) == Some(data)
  {
    Base64ReplaceFree(data);
    RestoreReplace(Base64.Encode(data));
    Base64.DecodeEncode(data);
  }

  /** Text that decodes and holds none of `=`, `+`, `/` is the encoding of what it
      decodes to; with DecodeEncode, Decode and Encode are inverse bijections. */
  lemma EncodeDecode(s: Bytes, data: Bytes)
    requires Free(s, '=') && Free(s, '+') && Free(s, '/')
    requires Decode(s) == Some(data)
    ensures Encode(data) == s
  {
    Base64.EncodeDecode(Restore(s), data);
    ReplaceRestore(s);
  }

  /** Distinct byte sequences never share an encoding: the substitution is undone
      by Restore, and the standard encoding is injective. */
  lemma EncodeInjective(a: Bytes, b: Bytes)
    ensures Encode(a) == Encode(b) <==> a == b
  {
    if Encode(a) == Encode(b) {
      Base64ReplaceFree(a);
      Base64ReplaceFree(b);
      RestoreReplace(Base64.Encode(a));
      RestoreReplace(Base64.Encode(b));
      Base64.EncodeInjective(a, b);
    }
  }
}
