/** Option, the one wrapper the model needs. */
module Wrappers {
  datatype Option<+T> = None | Some(value: T)
}

/**
 * The parts of Go's `strings` and `unicode` packages that the server relies on.
 * A Go string is modelled by the sequence of code points it encodes; Go's `len`
 * (a count of UTF-8 bytes) is `ByteLen`.
 */
module Strings {

  /** `unicode.IsSpace`: the Latin-1 spaces and the other White_Space code points. */
  predicate IsSpace(c: char) {
    c == ' ' || c == '\t' || c == '\n' || c == '\r' || c == '\U{000B}' || c == '\U{000C}'
    || c == '\U{0085}' || c == '\U{00A0}' || c == '\U{1680}'
    || ('\U{2000}' <= c && c <= '\U{200A}')
    || c == '\U{2028}' || c == '\U{2029}' || c == '\U{202F}' || c == '\U{205F}' || c == '\U{3000}'
  }

  /**
   * Below U+0100 the spaces are exactly the eight Latin-1 spaces that
   * `unicode.IsSpace` names; no other ASCII character is one.
   */
  lemma Latin1Spaces(c: char)
    requires c as int < 0x100
    ensures IsSpace(c) <==> (c == '\t' || c == '\n' || c == '\U{000B}' || c == '\U{000C}' || c == '\r'
                             || c == ' ' || c == '\U{0085}' || c == '\U{00A0}')
    ensures c as int < 0x80 && IsSpace(c) ==> c as int <= 0x20
  {
  }

  /** `strings.HasPrefix`. */
  predicate HasPrefix(s: string, prefix: string) {
    |prefix| <= |s| && s[..|prefix|] == prefix
  }

  /** `s` has the prefix exactly when it is the prefix followed by something. */
  lemma HasPrefixIff(s: string, prefix: string)
    ensures HasPrefix(s, prefix) ==> s == prefix + s[|prefix|..]
    ensures forall t :: s == prefix + t ==> HasPrefix(s, prefix)
  {
    forall t | s == prefix + t
      ensures HasPrefix(s, prefix)
    {
      assert s[..|prefix|] == prefix;
    }
  }

  /** `strings.TrimPrefix`: drops `prefix` once when `s` starts with it. */
  function TrimPrefix(s: string, prefix: string): (r: string)
    ensures HasPrefix(s, prefix) ==> prefix + r == s
    ensures !HasPrefix(s, prefix) ==> r == s
  {
    if HasPrefix(s, prefix) then s[|prefix|..] else s
  }

  /** Leading whitespace removed: a suffix of `s` that does not start with a space. */
  function TrimLeft(s: string): (r: string)
    ensures |r| <= |s| && r == s[|s| - |r|..]
    ensures r == "" || !IsSpace(r[0])
    decreases |s|
  {
    if |s| > 0 && IsSpace(s[0]) then TrimLeft(s[1..]) else s
  }

  /** Everything `TrimLeft` removes is whitespace. */
  lemma {:induction false} TrimLeftRemovesSpaces(s: string)
    ensures forall k :: 0 <= k < |s| - |TrimLeft(s)| ==> IsSpace(s[k])
    decreases |s|
  {
    if |s| > 0 && IsSpace(s[0]) {
      TrimLeftRemovesSpaces(s[1..]);
      assert forall k :: 1 <= k < |s| ==> s[k] == s[1..][k - 1];
    }
  }

  /** Trailing whitespace removed: a prefix of `s` that does not end with a space. */
  function TrimRight(s: string): (r: string)
    ensures |r| <= |s| && r == s[..|r|]
    ensures r == "" || !IsSpace(r[|r| - 1])
    decreases |s|
  {
    if |s| > 0 && IsSpace(s[|s| - 1]) then TrimRight(s[..|s| - 1]) else s
  }

  /** Everything `TrimRight` removes is whitespace. */
  lemma {:induction false} TrimRightRemovesSpaces(s: string)
    ensures forall k :: |TrimRight(s)| <= k < |s| ==> IsSpace(s[k])
    decreases |s|
  {
    if |s| > 0 && IsSpace(s[|s| - 1]) {
      TrimRightRemovesSpaces(s[..|s| - 1]);
    }
  }

  /** Neither starts nor ends with whitespace. */
  predicate Trimmed(s: string) {
    s == "" || (!IsSpace(s[0]) && !IsSpace(s[|s| - 1]))
  }

  /**
   * `strings.TrimSpace`: what is left of `s` once the whitespace at both ends
   * is gone. It neither starts nor ends with a space, and it leaves a string
   * that does not either as it is.
   */
  function TrimSpace(s: string): (r: string)
    ensures Trimmed(r)
    ensures Trimmed(s) ==> r == s
  {
    TrimRight(TrimLeft(s))
  }

  /** `TrimSpace` leaves nothing exactly when the input is all whitespace. */
  lemma TrimSpaceEmpty(s: string)
    ensures TrimSpace(s) == "" <==> forall k :: 0 <= k < |s| ==> IsSpace(s[k])
  {
    var i, j := TrimSpaceWindow(s);
    if TrimSpace(s) == "" {
      assert i == j;
    } else {
      assert !IsSpace(s[i]);
    }
  }

  /**
   * `TrimSpace(s)` is the window `s[i..j]`, and everything outside the window is
   * whitespace.
   */
  lemma TrimSpaceWindow(s: string) returns (i: nat, j: nat)
    ensures i <= j <= |s| && TrimSpace(s) == s[i..j]
    ensures forall k :: 0 <= k < i ==> IsSpace(s[k])
    ensures forall k :: j <= k < |s| ==> IsSpace(s[k])
  {
    var left := TrimLeft(s);
    var r := TrimRight(left);
    TrimLeftRemovesSpaces(s);
    TrimRightRemovesSpaces(left);
    i, j := |s| - |left|, |s| - |left| + |r|;
    assert left == s[i..];
    assert r == left[..|r|];
    assert r == s[i..j];
    forall k | j <= k < |s|
      ensures IsSpace(s[k])
    {
      assert s[k] == left[k - i];
    }
  }

  /** A piece of a string cannot hold a character the whole string does not. */
  lemma SliceKeepsAbsence(s: string, i: nat, j: nat, c: char)
    requires i <= j <= |s| && c !in s
    ensures c !in s[i..j]
  {
  }

  /** What `TrimSpace` returns holds no character absent from its input. */
  lemma TrimSpaceKeepsAbsence(s: string, c: char)
    requires c !in s
    ensures c !in TrimSpace(s)
  {
    var i, j := TrimSpaceWindow(s);
    SliceKeepsAbsence(s, i, j, c);
  }

  /** A non-empty sequence is its front followed by its last element. */
  lemma FrontLast<T>(s: seq<T>)
    requires |s| > 0
    ensures s[..|s| - 1] + [s[|s| - 1]] == s
  {
  }

  /** Membership in a concatenation. */
  lemma InConcat<T>(x: T, a: seq<T>, b: seq<T>)
    ensures x in a + b <==> x in a || x in b
  {
  }

  /** The inverse of `Split`: the parts glued back together with `sep`. */
  function Join(parts: seq<string>, sep: char): string
    decreases |parts|
  {
    if |parts| == 0 then ""
    else if |parts| == 1 then parts[0]
    else parts[0] + [sep] + Join(parts[1..], sep)
  }

  /**
   * `strings.Split` with a one-character separator: never empty (the empty
   * string splits into one empty part), no part holds the separator, and
   * joining the parts with it gives back the input.
   */
  function Split(s: string, sep: char): (parts: seq<string>)
    ensures |parts| >= 1
    ensures forall i :: 0 <= i < |parts| ==> sep !in parts[i]
    ensures Join(parts, sep) == s
    decreases |s|
  {
    if s == "" then [""]
    else
      var rest := Split(s[1..], sep);
      if s[0] == sep then
        assert Join([""] + rest, sep) == [sep] + Join(rest, sep);
        [""] + rest
      else
        var parts := [[s[0]] + rest[0]] + rest[1..];
        assert parts[1..] == rest[1..];
        assert |rest| > 1 ==> Join(rest, sep) == rest[0] + [sep] + Join(rest[1..], sep);
        parts
  }

  /** A string without the separator is a single part. */
  lemma {:induction false} SplitWithoutSep(a: string, sep: char)
    requires sep !in a
    ensures Split(a, sep) == [a]
    decreases |a|
  {
    if a != "" {
      SplitWithoutSep(a[1..], sep);
      assert [a[0]] + a[1..] == a;
    }
  }

  /** A separator-free head followed by the separator splits off as the first part. */
  lemma {:induction false} SplitAfterHead(a: string, sep: char, t: string)
    requires sep !in a
    ensures Split(a + [sep] + t, sep) == [a] + Split(t, sep)
    decreases |a|
  {
    var s := a + [sep] + t;
    if a == "" {
      assert s[0] == sep && s[1..] == t;
    } else {
      assert s[0] == a[0] && s[1..] == a[1..] + [sep] + t;
      SplitAfterHead(a[1..], sep, t);
      assert [a[0]] + a[1..] == a;
    }
  }

  /** Splitting what `Join` glued gives back the parts, when no part holds `sep`. */
  lemma {:induction false} SplitJoin(parts: seq<string>, sep: char)
    requires |parts| >= 1
    requires forall i :: 0 <= i < |parts| ==> sep !in parts[i]
    ensures Split(Join(parts, sep), sep) == parts
    decreases |parts|
  {
    if |parts| == 1 {
      SplitWithoutSep(parts[0], sep);
    } else {
      SplitJoin(parts[1..], sep);
      SplitAfterHead(parts[0], sep, Join(parts[1..], sep));
      assert [parts[0]] + parts[1..] == parts;
    }
  }

  /** Number of bytes UTF-8 needs for one code point. */
  function Utf8Width(c: char): (n: nat)
    ensures 1 <= n <= 4
    ensures n == 1 <==> c as int < 0x80
  {
    if c as int < 0x80 then 1
    else if c as int < 0x800 then 2
    else if c as int < 0x1_0000 then 3
    else 4
  }

  /**
   * Go's `len` of a string: its UTF-8 byte count. Never below the number of
   * code points, and equal to it exactly when the string is ASCII.
   */
  function ByteLen(s: string): (n: nat)
    ensures n >= |s|
    ensures n == |s| <==> forall i :: 0 <= i < |s| ==> s[i] as int < 0x80
    decreases |s|
  {
    if s == "" then 0
    else
      var n := Utf8Width(s[0]) + ByteLen(s[1..]);
      assert forall i :: 1 <= i < |s| ==> s[i] == s[1..][i - 1];
      n
  }
}
