/**
 * Python's str.strip(), over the ASCII whitespace characters: only the
 * whitespace around the text is removed.
 */
module Whitespace {
  import opened Text

  /** Characters Python's str.strip() removes (the ASCII ones). */
  predicate IsSpace(c: char) {
    c == ' ' || c == '\t' || c == '\n' || c == '\r' || c == '\U{0B}' || c == '\U{0C}'
    || c == '\U{1C}' || c == '\U{1D}' || c == '\U{1E}' || c == '\U{1F}'
  }

  /** The index of the first character of s that is not whitespace, or |s|. */
  function TextStart(s: string): (i: nat)
    ensures i <= |s| && (i < |s| ==> !IsSpace(s[i]))
    ensures forall k :: 0 <= k < i ==> IsSpace(s[k])
  {
    if s == [] || !IsSpace(s[0]) then 0
    else
      var i := 1 + TextStart(s[1..]);
      assert forall k :: 1 <= k < i ==> s[k] == s[1..][k - 1];
      i
  }

  /** One past the last character of s that is not whitespace, or 0. */
  function TextEnd(s: string): (j: nat)
    ensures j <= |s| && (j > 0 ==> !IsSpace(s[j - 1]))
    ensures forall k :: j <= k < |s| ==> IsSpace(s[k])
  {
    if s == [] || !IsSpace(s[|s| - 1]) then |s|
    else
      var j := TextEnd(s[..|s| - 1]);
      assert forall k :: j <= k < |s| - 1 ==> s[k] == s[..|s| - 1][k];
      j
  }

  /** Everything of s outside s[a..b] is whitespace. */
  predicate SpaceAround(s: string, a: nat, b: nat)
    requires a <= b <= |s|
  {
    (forall k :: 0 <= k < a ==> IsSpace(s[k])) && (forall k :: b <= k < |s| ==> IsSpace(s[k]))
  }

  /** str.strip(): only the whitespace around the text is removed. */
  function Strip(s: string): (r: string)
    ensures r == [] || (!IsSpace(r[0]) && !IsSpace(r[|r| - 1]))
    ensures exists a: nat, b: nat :: a <= b <= |s| && r == s[a..b] && SpaceAround(s, a, b)
  {
    var a := TextStart(s);
    var b := TextEnd(s);
    if a < b then
      assert SpaceAround(s, a, b);
      s[a..b]
    else
      assert a == |s|;
      assert SpaceAround(s, a, a);
      []
  }

  /** A string without whitespace at either end is its own str.strip(). */
  lemma StripStripped(s: string)
    requires s == [] || (!IsSpace(s[0]) && !IsSpace(s[|s| - 1]))
    ensures Strip(s) == s
  {
    assert s[0..|s|] == s;
  }

  /** What str.strip() returns is a piece of its input. */
  lemma StripWithin(s: string)
    ensures Contains(s, Strip(s))
  {
    var a := TextStart(s);
    var b := TextEnd(s);
    if a < b {
      assert Strip(s) == s[a..b];
      assert 0 <= a <= |s| - |Strip(s)| && OccursAt(s, Strip(s), a);
    } else {
      assert Strip(s) == [];
      assert 0 <= |s| - |Strip(s)| && OccursAt(s, Strip(s), 0);
    }
  }
}
