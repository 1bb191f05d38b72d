/**
 * The Python string operations the extractor relies on (lower, capitalize,
 * startswith, endswith, `in`, split, join), over ASCII characters.
 */
module Text {

  predicate IsUpperChar(c: char) { 'A' <= c <= 'Z' }

  predicate IsLowerChar(c: char) { 'a' <= c <= 'z' }

  predicate IsDigit(c: char) { '0' <= c <= '9' }

  predicate IsLetter(c: char) { IsUpperChar(c) || IsLowerChar(c) }

  function LowerChar(c: char): char {
    if IsUpperChar(c) then (c as int + 32) as char else c
  }

  function UpperChar(c: char): char {
    if IsLowerChar(c) then (c as int - 32) as char else c
  }

  /** str.lower() */
  function Lower(s: string): string {
    seq(|s|, i requires 0 <= i < |s| => LowerChar(s[i]))
  }

  /** No upper-case letter anywhere in s. */
  predicate IsLower(s: string) {
    forall i :: 0 <= i < |s| ==> !IsUpperChar(s[i])
  }

  lemma LowerIsLower(s: string)
    ensures IsLower(Lower(s))
  {
  }

  lemma LowerOfLower(s: string)
    requires IsLower(s)
    ensures Lower(s) == s
  {
  }

  lemma LowerTwice(s: string)
    ensures Lower(Lower(s)) == Lower(s)
  {
  }

  lemma LowerSlice(s: string, i: nat, j: nat)
    requires i <= j <= |s|
    ensures Lower(s)[i..j] == Lower(s[i..j])
  {
  }

  lemma LowerConcat(a: string, b: string)
    ensures Lower(a + b) == Lower(a) + Lower(b)
  {
  }

  /** str.capitalize(): first character upper-cased, the rest lower-cased. */
  function Capitalize(s: string): string {
    if s == [] then [] else [UpperChar(s[0])] + Lower(s[1..])
  }

  /** Capitalizing changes only the case of letters: the first is not lower-case, the rest are not upper-case. */
  lemma CapitalizeCase(s: string)
    ensures |Capitalize(s)| == |s|
    ensures Lower(Capitalize(s)) == Lower(s)
    ensures s != [] ==> !IsLowerChar(Capitalize(s)[0]) && IsLower(Capitalize(s)[1..])
  {
    if s != [] {
      var head := [UpperChar(s[0])];
      var tail := Lower(s[1..]);
      assert Capitalize(s) == head + tail;
      assert (head + tail)[1..] == tail;
      LowerIsLower(s[1..]);
      LowerConcat(head, tail);
      LowerTwice(s[1..]);
      LowerUpperChar(s[0]);
      assert Lower(head) == Lower([s[0]]);
      LowerConcat([s[0]], s[1..]);
      assert [s[0]] + s[1..] == s;
    }
  }

  /** Upper-casing a character and lower-casing it again is lower-casing it. */
  lemma LowerUpperChar(c: char)
    ensures LowerChar(UpperChar(c)) == LowerChar(c) && !IsLowerChar(UpperChar(c))
  {
  }

  predicate StartsWith(s: string, prefix: string) {
    |prefix| <= |s| && s[..|prefix|] == prefix
  }

  predicate EndsWith(s: string, suffix: string) {
    |suffix| <= |s| && s[|s| - |suffix|..] == suffix
  }

  /** pattern occurs in s starting at index i. */
  predicate OccursAt(s: string, pattern: string, i: int) {
    0 <= i <= |s| - |pattern| && s[i..i + |pattern|] == pattern
  }

  /** Python's `pattern in s` for strings: pattern occurs in s as a substring. */
  predicate Contains(s: string, pattern: string) {
    exists i :: 0 <= i <= |s| - |pattern| && OccursAt(s, pattern, i)
  }

  /** pattern occurs in s at index i when the case of letters is ignored on both sides. */
  predicate OccursIgnoringCaseAt(s: string, pattern: string, i: int) {
    0 <= i <= |s| - |pattern| && Lower(s[i..i + |pattern|]) == Lower(pattern)
  }

  predicate ContainsIgnoringCase(s: string, pattern: string) {
    exists i :: 0 <= i <= |s| - |pattern| && OccursIgnoringCaseAt(s, pattern, i)
  }

  /**
   * Lower-casing the text before a substring test with a lower-case pattern
   * is exactly a case-insensitive search.
   */
  lemma CaseInsensitiveSearch(s: string, pattern: string)
    requires IsLower(pattern)
    ensures Contains(Lower(s), pattern) <==> ContainsIgnoringCase(s, pattern)
  {
    LowerOfLower(pattern);
    if Contains(Lower(s), pattern) {
      var i :| 0 <= i <= |s| - |pattern| && OccursAt(Lower(s), pattern, i);
      LowerSlice(s, i, i + |pattern|);
      assert OccursIgnoringCaseAt(s, pattern, i);
    }
    if ContainsIgnoringCase(s, pattern) {
      var i :| 0 <= i <= |s| - |pattern| && OccursIgnoringCaseAt(s, pattern, i);
      LowerSlice(s, i, i + |pattern|);
      assert OccursAt(Lower(s), pattern, i);
    }
  }

  /** A substring of a substring is a substring. */
  lemma ContainsTransitive(s: string, t: string, pattern: string)
    requires Contains(s, t) && Contains(t, pattern)
    ensures Contains(s, pattern)
  {
    var i :| 0 <= i <= |s| - |t| && OccursAt(s, t, i);
    var j :| 0 <= j <= |t| - |pattern| && OccursAt(t, pattern, j);
    var inner := s[i..i + |t|][j..j + |pattern|];
    assert forall k :: 0 <= k < |pattern| ==> inner[k] == s[i + j + k];
    assert inner == s[i + j..i + j + |pattern|];
    assert OccursAt(s, pattern, i + j);
  }

  /** Each side of a concatenation is contained in it. */
  lemma ContainsParts(a: string, b: string)
    ensures Contains(a + b, a) && Contains(a + b, b)
  {
    assert OccursAt(a + b, a, 0);
    assert OccursAt(a + b, b, |a|);
  }

  /** Contains survives lower-casing both sides. */
  lemma ContainsLower(s: string, pattern: string)
    requires Contains(s, pattern)
    ensures Contains(Lower(s), Lower(pattern))
  {
    var i :| 0 <= i <= |s| - |pattern| && OccursAt(s, pattern, i);
    LowerSlice(s, i, i + |pattern|);
    assert OccursAt(Lower(s), Lower(pattern), i);
  }

  /** str.split(sep) with a one-character separator. */
  function Split(s: string, sep: char): (parts: seq<string>)
    ensures |parts| >= 1
    ensures forall i :: 0 <= i < |parts| ==> sep !in parts[i]
    ensures sep in s <==> |parts| > 1
  {
    if s == [] then [[]]
    else
      var rest := Split(s[1..], sep);
      if s[0] == sep then [[]] + rest else [[s[0]] + rest[0]] + rest[1..]
  }

  /** sep.join(parts) with a one-character separator. */
  function Join(parts: seq<string>, sep: char): string
    requires |parts| >= 1
  {
    if |parts| == 1 then parts[0] else parts[0] + [sep] + Join(parts[1..], sep)
  }

  /** Joining the pieces of a split gives back the original string. */
  lemma {:induction false} JoinSplit(s: string, sep: char)
    ensures Join(Split(s, sep), sep) == s
  {
    if s != [] {
      JoinSplit(s[1..], sep);
      var rest := Split(s[1..], sep);
      if s[0] == sep {
        assert Split(s, sep) == [[]] + rest;
        assert ([[]] + rest)[1..] == rest;
      } else if |rest| == 1 {
        assert Split(s, sep) == [[s[0]] + rest[0]];
      } else {
        var parts := Split(s, sep);
        assert parts[1..] == rest[1..];
        assert Join(rest, sep) == rest[0] + [sep] + Join(rest[1..], sep);
      }
    }
  }

  lemma {:induction false} SplitPrefix(a: string, b: string, sep: char)
    requires sep !in a
    ensures Split(a + b, sep) == [a + Split(b, sep)[0]] + Split(b, sep)[1..]
  {
    if a != [] {
      SplitPrefix(a[1..], b, sep);
      assert (a + b)[0] == a[0] && (a + b)[1..] == a[1..] + b;
      assert [a[0]] + (a[1..] + Split(b, sep)[0]) == a + Split(b, sep)[0];
    } else {
      var parts := Split(b, sep);
      assert a + b == b && a + parts[0] == parts[0];
      assert [parts[0]] + parts[1..] == parts;
    }
  }

  lemma {:induction false} SplitWithoutSep(a: string, sep: char)
    requires sep !in a
    ensures Split(a, sep) == [a]
  {
    if a != [] {
      SplitWithoutSep(a[1..], sep);
      assert [a[0]] + a[1..] == a;
    }
  }

  /** Splitting pieces joined by a separator they do not contain gives the pieces back. */
  lemma {:induction false} SplitJoin(parts: seq<string>, sep: char)
    requires |parts| >= 1
    requires forall i :: 0 <= i < |parts| ==> sep !in parts[i]
    ensures Split(Join(parts, sep), sep) == parts
  {
    if |parts| == 1 {
      SplitWithoutSep(parts[0], sep);
    } else {
      var tail := Join(parts[1..], sep);
      SplitJoin(parts[1..], sep);
      SplitPrefix(parts[0], [sep] + tail, sep);
      assert parts[0] + [sep] + tail == parts[0] + ([sep] + tail);
      assert ([sep] + tail)[0] == sep && ([sep] + tail)[1..] == tail;
      assert Split([sep] + tail, sep) == [[]] + parts[1..];
      assert parts[0] + [] == parts[0];
      assert [parts[0]] + parts[1..] == parts;
    }
  }

  /** The last piece of a split is a suffix of the string. */
  lemma {:induction false} LastPieceIsSuffix(s: string, sep: char)
    ensures LastPieceFits(s, sep)
  {
    if s != [] {
      LastPieceIsSuffix(s[1..], sep);
      LastPieceStep(s, sep);
    }
  }

  /** The last piece of the split is a suffix of s, and the whole of s or preceded by the separator. */
  predicate LastPieceFits(s: string, sep: char) {
    var parts := Split(s, sep);
    var last := parts[|parts| - 1];
    EndsWith(s, last) && (|last| == |s| || s[|s| - |last| - 1] == sep)
  }

  /** What holds of the tail's split holds of the split of s. */
  lemma LastPieceStep(s: string, sep: char)
    requires s != [] && LastPieceFits(s[1..], sep)
    ensures LastPieceFits(s, sep)
  {
    var rest := Split(s[1..], sep);
    SplitLastPiece(s, sep);
    if s[0] != sep && |rest| == 1 {
      LastPieceWhole(s, sep);
    } else {
      LastPieceAfter(s, sep);
    }
  }

  /** Without a separator after the first character, the last piece is all of s. */
  lemma LastPieceWhole(s: string, sep: char)
    requires s != [] && s[0] != sep && |Split(s[1..], sep)| == 1 && LastPieceFits(s[1..], sep)
    ensures var parts := Split(s, sep); parts[|parts| - 1] == s
  {
    var t := s[1..];
    var rest := Split(t, sep);
    var last := rest[0];
    assert sep !in t;
    WholeSuffix(t, last, sep);
    SplitLastPiece(s, sep);
    assert [s[0]] + t == s;
  }

  /** Otherwise the last piece of s is the last piece of its tail. */
  lemma LastPieceAfter(s: string, sep: char)
    requires s != [] && (s[0] == sep || |Split(s[1..], sep)| > 1) && LastPieceFits(s[1..], sep)
    ensures LastPieceFits(s, sep)
  {
    var t := s[1..];
    var rest := Split(t, sep);
    var last := rest[|rest| - 1];
    assert EndsWith(s, last) && (|last| == |s| || s[|s| - |last| - 1] == sep) by {
      if s[0] != sep {
        LastPieceNotWhole(t, sep);
      }
      SuffixOfTail(s, last, sep);
    }
    var parts := Split(s, sep);
    assert parts[|parts| - 1] == last by {
      SplitLastPiece(s, sep);
    }
  }

  /** When s holds the separator, the last piece of its split is not all of s. */
  lemma LastPieceNotWhole(s: string, sep: char)
    requires |Split(s, sep)| > 1
    ensures var parts := Split(s, sep); parts[|parts| - 1] != s
  {
    var parts := Split(s, sep);
    assert sep in s && sep !in parts[|parts| - 1];
  }

  /** The last piece of a split, from the last piece of the split of the tail. */
  lemma SplitLastPiece(s: string, sep: char)
    requires s != []
    ensures var rest := Split(s[1..], sep);
      var parts := Split(s, sep);
      parts[|parts| - 1] == if s[0] != sep && |rest| == 1 then [s[0]] + rest[0] else rest[|rest| - 1]
  {
    var rest := Split(s[1..], sep);
    if s[0] == sep {
      assert Split(s, sep) == [[]] + rest;
    } else {
      assert Split(s, sep) == [[s[0]] + rest[0]] + rest[1..];
    }
  }

  /** A suffix that is all of s or follows a separator is all of s when s has no separator. */
  lemma WholeSuffix(s: string, last: string, sep: char)
    requires EndsWith(s, last) && (|last| == |s| || s[|s| - |last| - 1] == sep) && sep !in s
    ensures last == s
  {
  }

  /** A suffix of s[1..] that follows a separator, or that is all of s[1..] after a leading separator, does so in s too. */
  lemma SuffixOfTail(s: string, last: string, sep: char)
    requires s != [] && EndsWith(s[1..], last)
    requires |last| == |s| - 1 || s[1..][|s| - 1 - |last| - 1] == sep
    requires last != s[1..] || s[0] == sep
    ensures EndsWith(s, last) && (|last| == |s| || s[|s| - |last| - 1] == sep)
  {
    assert |last| == |s| - 1 ==> last == s[1..][|s| - 1 - |last|..] == s[1..];
    assert s[|s| - |last|..] == s[1..][|s| - 1 - |last|..];
    if |last| < |s| - 1 {
      assert s[|s| - |last| - 1] == s[1..][|s| - 1 - |last| - 1];
    }
  }
}
