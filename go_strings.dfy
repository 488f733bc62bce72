/** The byte-string operations of Go's `strings` package that the signer relies on:
    TrimSuffix and TrimPrefix build the signed resource; Split is how a reader of
    the signed URL's query takes its parameters apart. */
module GoStrings {
  import opened Types

  predicate HasPrefix(s: Bytes, prefix: Bytes) {
    |prefix| <= |s| && s[..|prefix|] == prefix
  }

  predicate HasSuffix(s: Bytes, suffix: Bytes) {
    |suffix| <= |s| && s[|s| - |suffix|..] == suffix
  }

  /** `strings.TrimSuffix`: `s` without one trailing `suffix`, if it ends in one. */
  function TrimSuffix(s: Bytes, suffix: Bytes): (r: Bytes)
    ensures HasSuffix(s, suffix) ==> r + suffix == s
    ensures !HasSuffix(s, suffix) ==> r == s
  {
    if HasSuffix(s, suffix) then s[..|s| - |suffix|] else s
  }

  /** `strings.TrimPrefix`: `s` without one leading `prefix`, if it starts with one. */
  function TrimPrefix(s: Bytes, prefix: Bytes): (r: Bytes)
    ensures HasPrefix(s, prefix) ==> prefix + r == s
    ensures !HasPrefix(s, prefix) ==> r == s
  {
    if HasPrefix(s, prefix) then s[|prefix|..] else s
  }

  /** Trimming a one-byte suffix removes at most one copy: a string ending in two
      slashes still ends in a slash afterwards. */
  lemma TrimSuffixOnce(s: Bytes, c: byte)
    ensures |s| - 1 <= |TrimSuffix(s, [c])| <= |s|
    ensures HasSuffix(s, [c, c]) ==> HasSuffix(TrimSuffix(s, [c]), [c])
  {
    if HasSuffix(s, [c, c]) {
      assert s[|s| - 1..] == [c];
      assert TrimSuffix(s, [c])[|s| - 2..] == [c];
    }
  }

  /** Trimming a one-byte prefix removes at most one copy. */
  lemma TrimPrefixOnce(s: Bytes, c: byte)
    ensures |s| - 1 <= |TrimPrefix(s, [c])| <= |s|
    ensures HasPrefix(s, [c, c]) ==> HasPrefix(TrimPrefix(s, [c]), [c])
  {
    if HasPrefix(s, [c, c]) {
      assert s[..2] == [c, c];
      assert s[0] == c && s[1] == c;
      assert s[..1] == [c];
      var t := TrimPrefix(s, [c]);
      assert t == s[1..];
      assert t[0] == c;
      assert t[..1] == [c];
    }
  }

  /** `strings.Split(s, string(sep))`: the pieces between the separators; one empty
      piece for the empty string. */
  function Split(s: Bytes, sep: byte): (parts: seq<Bytes>)
    ensures |parts| >= 1
    ensures forall i :: 0 <= i < |parts| ==> Free(parts[i], sep)
    decreases |s|
  {
    if s == [] then [[]]
    else
      var rest := Split(s[1..], sep);
      if s[0] == sep then [[]] + rest else [[s[0]] + rest[0]] + rest[1..]
  }

  /** `strings.Join(parts, string(sep))`. */
  function Join(parts: seq<Bytes>, sep: byte): Bytes
    decreases |parts|
  {
    if parts == [] then []
    else if |parts| == 1 then parts[0]
    else parts[0] + [sep] + Join(parts[1..], sep)
  }

  /** Text without the separator is a single piece. */
  lemma {:induction false} SplitFree(s: Bytes, sep: byte)
    requires Free(s, sep)
    ensures Split(s, sep) == [s]
    decreases |s|
  {
    if s != [] {
      SplitFree(s[1..], sep);
      assert [s[0]] + s[1..] == s;
    }
  }

  /** Splitting at a separator splits each side on its own. */
  lemma {:induction false} SplitAppend(a: Bytes, b: Bytes, sep: byte)
    ensures Split(a + [sep] + b, sep) == Split(a, sep) + Split(b, sep)
    decreases |a|
  {
    var t := a + [sep] + b;
    if a == [] {
      assert t == [sep] + b;
      assert t[1..] == b;
    } else {
      assert t[0] == a[0];
      assert t[1..] == a[1..] + [sep] + b;
      SplitAppend(a[1..], b, sep);
    }
  }

  /** Join puts back together what Split takes apart. */
  lemma {:induction false} JoinSplit(s: Bytes, sep: byte)
    ensures Join(Split(s, sep), sep) == s
    decreases |s|
  {
    if s != [] {
      var rest := Split(s[1..], sep);
      JoinSplit(s[1..], sep);
      if s[0] == sep {
        assert Join([[]] + rest, sep) == [] + [sep] + Join(rest, sep);
      } else {
        var parts := [[s[0]] + rest[0]] + rest[1..];
        if |rest| == 1 {
          assert Join(parts, sep) == [s[0]] + rest[0];
        } else {
          assert parts[1..] == rest[1..];
          assert Join(parts, sep) == [s[0]] + rest[0] + [sep] + Join(rest[1..], sep);
          assert Join(rest, sep) == rest[0] + [sep] + Join(rest[1..], sep);
        }
      }
      assert [s[0]] + s[1..] == s;
    }
  }
}
