/**
 * The few Python `str` operations the server relies on, on `string` (a
 * sequence of Unicode scalar values): `strip()`, `split(sep)`, `split()`,
 * `startswith`, the `in` substring test and `lower()`.
 */
module PyStr {

  /** Python's `str.isspace()` for a single character. */
  predicate IsSpace(c: char) {
    || ('\t' <= c <= '\r')
    || ('\U{1C}' <= c <= ' ')
    || c == '\U{85}' || c == '\U{A0}' || c == '\U{1680}'
    || ('\U{2000}' <= c <= '\U{200A}')
    || c == '\U{2028}' || c == '\U{2029}' || c == '\U{202F}' || c == '\U{205F}' || c == '\U{3000}'
  }

  predicate AllSpace(s: string) {
    forall i :: 0 <= i < |s| ==> IsSpace(s[i])
  }

  predicate NoSpace(s: string) {
    forall i :: 0 <= i < |s| ==> !IsSpace(s[i])
  }

  /** `s.lstrip()`: drop leading whitespace. */
  function TrimLeft(s: string): string {
    if s != [] && IsSpace(s[0]) then TrimLeft(s[1..]) else s
  }

  /** `s.rstrip()`: drop trailing whitespace. */
  function TrimRight(s: string): string {
    if s != [] && IsSpace(s[|s| - 1]) then TrimRight(s[..|s| - 1]) else s
  }

  /** `s.strip()`. */
  function Strip(s: string): string {
    TrimRight(TrimLeft(s))
  }

  /** `lstrip` keeps a suffix, removes only whitespace, and leaves no leading whitespace. */
  lemma {:induction false} TrimLeftShape(s: string)
    ensures var r := TrimLeft(s);
      && |r| <= |s| && r == s[|s| - |r|..]
      && AllSpace(s[..|s| - |r|])
      && (r == [] || !IsSpace(r[0]))
  {
    if s != [] && IsSpace(s[0]) {
      TrimLeftShape(s[1..]);
      var r := TrimLeft(s[1..]);
      assert s[..|s| - |r|] == [s[0]] + s[1..][..|s| - 1 - |r|];
    }
  }

  /** `rstrip` keeps a prefix, removes only whitespace, and leaves no trailing whitespace. */
  lemma {:induction false} TrimRightShape(s: string)
    ensures var r := TrimRight(s);
      && |r| <= |s| && r == s[..|r|]
      && AllSpace(s[|r|..])
      && (r == [] || !IsSpace(r[|r| - 1]))
  {
    if s != [] && IsSpace(s[|s| - 1]) {
      var t := s[..|s| - 1];
      TrimRightShape(t);
      var r := TrimRight(t);
      assert s[|r|..] == t[|r|..] + [s[|s| - 1]];
    }
  }

  /**
   * `strip` keeps a middle slice of `s`, removes only whitespace on either
   * side, leaves none at either end, and is empty exactly for blank text.
   */
  lemma {:induction false} StripShape(s: string)
    ensures var r := Strip(s);
      && (exists i :: 0 <= i <= |s| - |r| && r == s[i..i + |r|] && AllSpace(s[..i]) && AllSpace(s[i + |r|..]))
      && (r == [] || (!IsSpace(r[0]) && !IsSpace(r[|r| - 1])))
      && (r == [] <==> AllSpace(s))
  {
    TrimLeftShape(s);
    var t := TrimLeft(s);
    TrimRightShape(t);
    var r := TrimRight(t);
    var i := |s| - |t|;
    assert r == s[i..i + |r|] && AllSpace(s[i + |r|..]) by {
      assert s[i..] == t;
      assert s[i + |r|..] == t[|r|..];
    }
    if r != [] {
      assert r[0] == s[i];
      assert !AllSpace(s) by {
        assert !IsSpace(s[i]);
      }
    } else {
      assert AllSpace(s) by {
        assert s == s[..i] + s[i..];
      }
    }
  }

  /** `lstrip` drops exactly the whitespace before the first non-blank character. */
  lemma {:induction false} TrimLeftSkips(s: string, n: nat)
    requires n < |s| && !IsSpace(s[n])
    requires forall k :: 0 <= k < n ==> IsSpace(s[k])
    ensures TrimLeft(s) == s[n..]
  {
    if n > 0 {
      assert IsSpace(s[0]);
      forall k | 0 <= k < n - 1
        ensures IsSpace(s[1..][k])
      {
        assert s[1..][k] == s[k + 1];
      }
      TrimLeftSkips(s[1..], n - 1);
      assert s[1..][n - 1..] == s[n..];
    }
  }

  /** `rstrip` keeps the first character when it is not whitespace. */
  lemma {:induction false} TrimRightKeepsFirst(t: string)
    requires t != [] && !IsSpace(t[0])
    ensures TrimRight(t) != [] && TrimRight(t)[0] == t[0]
  {
    if IsSpace(t[|t| - 1]) {
      assert |t| > 1;
      TrimRightKeepsFirst(t[..|t| - 1]);
    }
  }

  /** Text whose first non-blank character sits at `n` strips to text that starts with that character. */
  lemma StripStartsAt(s: string, n: nat)
    requires n < |s| && !IsSpace(s[n])
    requires forall k :: 0 <= k < n ==> IsSpace(s[k])
    ensures Strip(s) != [] && Strip(s)[0] == s[n]
  {
    TrimLeftSkips(s, n);
    TrimRightKeepsFirst(s[n..]);
  }

  /** Text with no whitespace at either end strips to itself. */
  lemma StripKeepsTrimmed(s: string)
    requires s != [] && !IsSpace(s[0]) && !IsSpace(s[|s| - 1])
    ensures Strip(s) == s
  {
  }

  /** A character of the stripped text is a character of the text. */
  lemma StripKeepsCharacters(s: string, c: char)
    requires c in Strip(s)
    ensures c in s
  {
    StripShape(s);
  }

  /** A character absent from the text is absent from the stripped text. */
  lemma StripKeepsAbsent(s: string, c: char)
    requires c !in s
    ensures c !in Strip(s)
  {
    StripShape(s);
  }

  /** Stripping twice is stripping once. */
  lemma StripIdempotent(s: string)
    ensures Strip(Strip(s)) == Strip(s)
  {
    var r := Strip(s);
    StripShape(s);
    if r != [] {
      assert TrimLeft(r) == r;
      assert TrimRight(r) == r;
    }
  }

  /** `s.startswith(prefix)`. */
  predicate StartsWith(s: string, prefix: string) {
    |prefix| <= |s| && s[..|prefix|] == prefix
  }

  /** `sub in s`. */
  predicate Contains(s: string, sub: string) {
    exists i :: 0 <= i <= |s| - |sub| && StartsWith(s[i..], sub)
  }

  /** `s.split(sep)` for a one-character separator: never empty, and the parts hold no separator. */
  function Split(s: string, sep: char): (parts: seq<string>)
    ensures |parts| >= 1
    ensures forall k :: 0 <= k < |parts| ==> sep !in parts[k]
    ensures |parts| == 1 <==> sep !in s
  {
    if s == [] then [[]]
    else
      var rest := Split(s[1..], sep);
      if s[0] == sep then [[]] + rest
      else [[s[0]] + rest[0]] + rest[1..]
  }

  /** `sep.join(parts)` for a one-character separator. */
  function Join(parts: seq<string>, sep: char): string
    requires |parts| >= 1
  {
    if |parts| == 1 then parts[0] else parts[0] + [sep] + Join(parts[1..], sep)
  }

  /** `s.index(c)`: where `c` first occurs in `s`. */
  function IndexOf(s: string, c: char): (i: nat)
    requires c in s
    ensures i < |s| && s[i] == c && c !in s[..i]
  {
    if s[0] == c then 0 else
      assert c in s[1..];
      var j := IndexOf(s[1..], c);
      assert s[..j + 1] == [s[0]] + s[1..][..j];
      j + 1
  }

  /** Joining the parts of a split with the separator gives back the text. */
  lemma {:induction false} JoinSplit(s: string, sep: char)
    ensures Join(Split(s, sep), sep) == s
    decreases |s|
  {
    if sep !in s {
      SplitNoSeparator(s, sep);
    } else {
      var i := IndexOf(s, sep);
      var rest := s[i + 1..];
      assert s == s[..i] + [sep] + rest;
      SplitAtSeparator(s[..i], rest, sep);
      SplitNoSeparator(s[..i], sep);
      JoinSplit(rest, sep);
      assert Split(s, sep) == [s[..i]] + Split(rest, sep);
      assert ([s[..i]] + Split(rest, sep))[1..] == Split(rest, sep);
    }
  }

  /** Splitting text that begins with a separator-free piece `a` keeps `a` at the head of the first part. */
  lemma {:induction false} SplitAfterPiece(a: string, b: string, sep: char)
    requires sep !in a
    ensures Split(a + b, sep) == [a + Split(b, sep)[0]] + Split(b, sep)[1..]
  {
    if a != [] {
      assert (a + b)[0] == a[0] && a[0] != sep;
      assert (a + b)[1..] == a[1..] + b;
      SplitAfterPiece(a[1..], b, sep);
      assert [a[0]] + (a[1..] + Split(b, sep)[0]) == a + Split(b, sep)[0];
    } else {
      var parts := Split(b, sep);
      assert a + b == b;
      assert a + parts[0] == parts[0];
      assert parts == [parts[0]] + parts[1..];
    }
  }

  /** Text joined at a separator splits into the parts of each side. */
  lemma {:induction false} SplitAtSeparator(a: string, b: string, sep: char)
    ensures Split(a + [sep] + b, sep) == Split(a, sep) + Split(b, sep)
  {
    if a == [] {
      assert a + [sep] + b == [sep] + b;
      assert ([sep] + b)[1..] == b;
    } else {
      assert (a + [sep] + b)[1..] == a[1..] + [sep] + b;
      SplitAtSeparator(a[1..], b, sep);
    }
  }

  /** Splitting the joined parts gives back the parts, when no part holds the separator. */
  lemma {:induction false} SplitJoin(parts: seq<string>, sep: char)
    requires |parts| >= 1
    requires forall k :: 0 <= k < |parts| ==> sep !in parts[k]
    ensures Split(Join(parts, sep), sep) == parts
  {
    if |parts| == 1 {
      SplitNoSeparator(parts[0], sep);
    } else {
      SplitJoin(parts[1..], sep);
      SplitAtSeparator(parts[0], Join(parts[1..], sep), sep);
      SplitNoSeparator(parts[0], sep);
      assert parts == [parts[0]] + parts[1..];
    }
  }

  /** Three separator-free pieces joined by the separator split back into those pieces. */
  lemma SplitThree(a: string, b: string, c: string, sep: char)
    requires sep !in a && sep !in b && sep !in c
    ensures Split(a + [sep] + (b + [sep] + c), sep) == [a, b, c]
  {
    SplitAtSeparator(a, b + [sep] + c, sep);
    SplitAtSeparator(b, c, sep);
    SplitNoSeparator(a, sep);
    SplitNoSeparator(b, sep);
    SplitNoSeparator(c, sep);
  }

  /** Text without the separator splits into itself. */
  lemma {:induction false} SplitNoSeparator(s: string, sep: char)
    requires sep !in s
    ensures Split(s, sep) == [s]
  {
    SplitAfterPiece(s, [], sep);
    assert s + [] == s;
  }

  /** The longest prefix of `s` without whitespace. */
  function Word(s: string): (w: string)
    ensures |w| <= |s| && w == s[..|w|] && NoSpace(w)
    ensures |w| == |s| || IsSpace(s[|w|])
  {
    if s == [] || IsSpace(s[0]) then [] else [s[0]] + Word(s[1..])
  }

  /** A blank-free word followed by a blank (or nothing) is the longest blank-free prefix. */
  lemma {:induction false} WordOfPrefix(w: string, rest: string)
    requires NoSpace(w) && (rest == [] || IsSpace(rest[0]))
    ensures Word(w + rest) == w
  {
    if w == [] {
      assert w + rest == rest;
    } else {
      assert (w + rest)[1..] == w[1..] + rest;
      WordOfPrefix(w[1..], rest);
    }
  }

  /** `s.split()`: the maximal runs of non-whitespace characters, in order. */
  function SplitWs(s: string): (words: seq<string>)
    ensures words == [] <==> AllSpace(s)
    decreases |s|
  {
    var t := TrimLeft(s);
    TrimLeftShape(s);
    if t == [] then
      assert s[..|s|] == s;
      []
    else
      assert s[|s| - |t|] == t[0];
      var w := Word(t);
      [w] + SplitWs(t[|w|..])
  }

  /** Text that starts with blanks, then a blank-free word and a blank (or its end), splits with that word first. */
  lemma {:induction false} FirstWordAfterBlanks(sp: string, w: string, rest: string)
    requires AllSpace(sp) && w != [] && NoSpace(w) && (rest == [] || IsSpace(rest[0]))
    ensures SplitWs(sp + w + rest) != [] && SplitWs(sp + w + rest)[0] == w
  {
    var s := sp + w + rest;
    assert TrimLeft(s) == w + rest by {
      assert s[|sp|] == w[0];
      assert forall k :: 0 <= k < |sp| ==> s[k] == sp[k];
      TrimLeftSkips(s, |sp|);
      assert s[|sp|..] == w + rest;
    }
    WordOfPrefix(w, rest);
  }

  /**
   * Text that is not blank splits with a first word that sits after a run of
   * blanks and is followed by a blank or by the end of the text.
   */
  lemma FirstWordSplit(s: string) returns (sp: string, rest: string)
    requires !AllSpace(s)
    ensures var w := SplitWs(s)[0];
      && s == sp + w + rest && AllSpace(sp)
      && w != [] && NoSpace(w) && (rest == [] || IsSpace(rest[0]))
  {
    var t := TrimLeft(s);
    TrimLeftShape(s);
    var w := Word(t);
    assert SplitWs(s)[0] == w;
    sp, rest := s[..|s| - |t|], t[|w|..];
    assert s == sp + t;
    assert t == w + rest;
    assert w != [] by {
      assert t != [] && !IsSpace(t[0]);
    }
  }

  function LowerChar(c: char): char {
    if 'A' <= c <= 'Z' then (c as int + 32) as char else c
  }

  /** `s.lower()` on ASCII letters; every other character is kept. */
  function Lower(s: string): (r: string)
    ensures |r| == |s|
    ensures forall i :: 0 <= i < |s| ==> r[i] == LowerChar(s[i])
  {
    seq(|s|, i requires 0 <= i < |s| => LowerChar(s[i]))
  }

  /**
   * What a case-insensitive test needs of `lower()`: each capital becomes
   * its small letter, no capital letter survives, every other character is
   * kept, lowering twice is lowering once, and it works piece by piece.
   */
  lemma LowerFolds(s: string, t: string)
    ensures forall i :: 0 <= i < |s| && 'A' <= s[i] <= 'Z' ==> Lower(s)[i] as int == s[i] as int - 'A' as int + 'a' as int
    ensures forall i :: 0 <= i < |s| ==> !('A' <= Lower(s)[i] <= 'Z')
    ensures forall i :: 0 <= i < |s| && !('A' <= s[i] <= 'Z') ==> Lower(s)[i] == s[i]
    ensures Lower(Lower(s)) == Lower(s)
    ensures Lower(s + t) == Lower(s) + Lower(t)
  {
    assert Lower(Lower(s)) == Lower(s);
    assert Lower(s + t) == Lower(s) + Lower(t);
  }

}
