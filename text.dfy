/**
 * The .NET string and char operations the handlers use: `string.IsNullOrWhiteSpace`,
 * `char.IsUpper`, ordinal `Contains`, and the ordinal case-insensitive comparison
 * (`StringComparison.OrdinalIgnoreCase`). Case is folded over ASCII letters only.
 */
module Text {

  /** `char.IsWhiteSpace`: the Unicode space, line and paragraph separators and the
      control characters U+0009..U+000D and U+0085. */
  predicate IsWhiteSpace(c: char)
    ensures IsWhiteSpace(c) ==> !('0' <= c <= '9' || 'A' <= c <= 'Z' || 'a' <= c <= 'z')
    ensures c == ' ' || c == '\t' || c == '\n' || c == '\r' ==> IsWhiteSpace(c)
  {
    var n := c as int;
    || 0x09 <= n <= 0x0D || n == 0x20 || n == 0x85 || n == 0xA0
    || n == 0x1680 || 0x2000 <= n <= 0x200A || n == 0x2028 || n == 0x2029
    || n == 0x202F || n == 0x205F || n == 0x3000
  }

  /** `string.IsNullOrWhiteSpace` on a present string: it is empty or every character is white space. */
  function IsNullOrWhiteSpace(s: string): (r: bool)
    ensures r <==> forall i :: 0 <= i < |s| ==> IsWhiteSpace(s[i])
  {
    s == [] || (IsWhiteSpace(s[0]) && IsNullOrWhiteSpace(s[1..]))
  }

  /** `char.IsUpper`, restricted to ASCII letters. */
  predicate IsUpper(c: char)
  {
    'A' <= c <= 'Z'
  }

  /** The upper-case form of a character under ASCII case folding. */
  function ToUpper(c: char): (r: char)
    ensures !('a' <= r <= 'z')
    ensures 'A' <= c <= 'Z' || 'a' <= c <= 'z' <==> 'A' <= r <= 'Z'
    ensures !('a' <= c <= 'z') ==> r == c
    ensures 'a' <= c <= 'z' ==> r as int == c as int - 32
  {
    if 'a' <= c <= 'z' then (c as int - 32) as char else c
  }

  /** The key under which `OrdinalIgnoreCase` compares a string: every character upper-cased. */
  function Fold(s: string): (r: string)
    ensures |r| == |s|
    ensures forall i :: 0 <= i < |s| ==> r[i] == ToUpper(s[i])
  {
    seq(|s|, i requires 0 <= i < |s| => ToUpper(s[i]))
  }

  /** Folding a slice is slicing the folded string. */
  lemma FoldSlice(s: string, lo: int, hi: int)
    requires 0 <= lo <= hi <= |s|
    ensures Fold(s[lo..hi]) == Fold(s)[lo..hi]
  {
  }

  /** Case folding never turns white space into something else or back, so blankness ignores case. */
  lemma BlankIgnoresCase(a: string, b: string)
    requires Fold(a) == Fold(b)
    ensures IsNullOrWhiteSpace(a) == IsNullOrWhiteSpace(b)
  {
    forall i | 0 <= i < |a| ensures IsWhiteSpace(a[i]) == IsWhiteSpace(b[i]) {
      assert ToUpper(a[i]) == ToUpper(b[i]);
    }
  }

  /** Two characters are the same, or the same ASCII letter in the other case. */
  predicate SameIgnoringCase(x: char, y: char) {
    || x == y
    || ('a' <= x <= 'z' && y as int == x as int - 32)
    || ('a' <= y <= 'z' && x as int == y as int - 32)
  }

  /** `a.Equals(b, StringComparison.OrdinalIgnoreCase)`. */
  predicate EqualsIgnoreCase(a: string, b: string)
    ensures a == b ==> EqualsIgnoreCase(a, b)
    ensures EqualsIgnoreCase(a, b) <==> |a| == |b| && forall i :: 0 <= i < |a| ==> SameIgnoringCase(a[i], b[i])
    ensures EqualsIgnoreCase(a, b) <==> |a| == |b| && forall i :: 0 <= i < |a| ==> ToUpper(a[i]) == ToUpper(b[i])
  {
    Fold(a) == Fold(b)
  }

  /** `needle` occurs in `hay` starting at offset `i`. */
  predicate OccursAt(hay: string, needle: string, i: int) {
    0 <= i <= |hay| - |needle| && hay[i..i + |needle|] == needle
  }

  /** Ordinal `hay.Contains(needle)`: `needle` occurs in `hay` at some offset. */
  function Contains(hay: string, needle: string): (r: bool)
    ensures r <==> exists i :: OccursAt(hay, needle, i)
    decreases |hay|
  {
    if needle <= hay then
      assert OccursAt(hay, needle, 0);
      true
    else if |hay| <= |needle| then
      false
    else
      var r := Contains(hay[1..], needle);
      assert r ==> exists i :: OccursAt(hay, needle, i) by {
        if r {
          var i :| OccursAt(hay[1..], needle, i);
          assert hay[i + 1..i + 1 + |needle|] == hay[1..][i..i + |needle|];
          assert OccursAt(hay, needle, i + 1);
        }
      }
      assert (exists i :: OccursAt(hay, needle, i)) ==> r by {
        if i :| OccursAt(hay, needle, i) {
          assert i != 0;
          assert hay[1..][i - 1..i - 1 + |needle|] == hay[i..i + |needle|];
          assert OccursAt(hay[1..], needle, i - 1);
        }
      }
      r
  }

  /** The window of `hay` at offset `i` equals `needle` ignoring case. */
  predicate MatchesIgnoreCaseAt(hay: string, needle: string, i: int) {
    0 <= i <= |hay| - |needle| && EqualsIgnoreCase(hay[i..i + |needle|], needle)
  }

  /** A case-insensitive match of a window is an occurrence in the folded strings, and back. */
  lemma FoldedOccurrences(hay: string, needle: string)
    ensures forall i :: MatchesIgnoreCaseAt(hay, needle, i) <==> OccursAt(Fold(hay), Fold(needle), i)
  {
    forall i | 0 <= i <= |hay| - |needle|
      ensures MatchesIgnoreCaseAt(hay, needle, i) <==> OccursAt(Fold(hay), Fold(needle), i)
    {
      FoldSlice(hay, i, i + |needle|);
    }
  }

  /** `hay.Contains(needle, StringComparison.OrdinalIgnoreCase)`. */
  predicate ContainsIgnoreCase(hay: string, needle: string)
    ensures ContainsIgnoreCase(hay, needle) ==> |needle| <= |hay|
    ensures ContainsIgnoreCase(hay, needle) <==> exists i :: OccursAt(Fold(hay), Fold(needle), i)
    ensures ContainsIgnoreCase(hay, needle) <==> exists i :: MatchesIgnoreCaseAt(hay, needle, i)
  {
    FoldedOccurrences(hay, needle);
    Contains(Fold(hay), Fold(needle))
  }

  /** An occurrence of an occurrence is an occurrence. */
  lemma ContainsTransitive(a: string, b: string, c: string)
    requires Contains(a, b) && Contains(b, c)
    ensures Contains(a, c)
  {
    var i :| OccursAt(a, b, i);
    var j :| OccursAt(b, c, j);
    forall k | 0 <= k < |c| ensures a[i + j..i + j + |c|][k] == c[k] {
      assert c[k] == b[j + k] == a[i + j + k];
    }
    assert OccursAt(a, c, i + j);
  }

  /**
   * Typing more of a name only narrows a case-insensitive match: a name that
   * contains the longer query contains every query the longer one contains.
   */
  lemma ContainsIgnoreCaseNarrows(name: string, longer: string, shorter: string)
    requires ContainsIgnoreCase(longer, shorter)
    requires ContainsIgnoreCase(name, longer)
    ensures ContainsIgnoreCase(name, shorter)
  {
    ContainsTransitive(Fold(name), Fold(longer), Fold(shorter));
  }

  /** A needle whose first character never occurs in the haystack is not found in it. */
  lemma NotContainsFirstCharAbsent(hay: string, needle: string)
    requires |needle| > 0
    requires forall k :: 0 <= k < |hay| ==> hay[k] != needle[0]
    ensures !Contains(hay, needle)
  {
    forall k | 0 <= k <= |hay| - |needle| ensures !OccursAt(hay, needle, k) {
      assert hay[k..k + |needle|][0] == hay[k] != needle[0];
    }
  }

  /** A string is found, ignoring case, in any string that starts with a differently-cased copy of it. */
  lemma ContainsIgnoreCasePrefix(hay: string, needle: string)
    requires |needle| <= |hay| && EqualsIgnoreCase(hay[..|needle|], needle)
    ensures ContainsIgnoreCase(hay, needle)
  {
    assert Fold(hay)[0..|needle|] == Fold(hay[..|needle|]);
    assert OccursAt(Fold(hay), Fold(needle), 0);
  }
}
