/**
 The string operations the text-to-speech wrapper relies on: Python's
 `str.strip()`, `str.lower()`, the `in` substring test and `str.join`,
 stated over `seq<char>` (one `char` is one Unicode scalar value, so `|s|`
 is what Python's `len` reports).
 */
module Text {

  /** The 29 code points Python's `str.isspace()` accepts, one by one. */
  const PythonSpaces: set<char> :=
    { '\t', '\n', '\U{B}', '\U{C}', '\r', '\U{1C}', '\U{1D}', '\U{1E}', '\U{1F}', ' ',
      '\U{85}', '\U{A0}', '\U{1680}',
      '\U{2000}', '\U{2001}', '\U{2002}', '\U{2003}', '\U{2004}', '\U{2005}',
      '\U{2006}', '\U{2007}', '\U{2008}', '\U{2009}', '\U{200A}',
      '\U{2028}', '\U{2029}', '\U{202F}', '\U{205F}', '\U{3000}' }

  /** Python's `str.isspace()` table: the characters `str.strip()` removes
      when called without arguments. */
  predicate IsWhitespace(c: char)
  {
    || ('\t' <= c <= '\r')                  // tab, line feed, vertical tab, form feed, carriage return
    || ('\U{1C}' <= c <= '\U{1F}')          // file, group, record and unit separators
    || c == ' '
    || c == '\U{85}'                        // next line
    || c == '\U{A0}'                        // no-break space
    || c == '\U{1680}'                      // ogham space mark
    || ('\U{2000}' <= c <= '\U{200A}')      // en quad .. hair space
    || c == '\U{2028}' || c == '\U{2029}'   // line and paragraph separators
    || c == '\U{202F}' || c == '\U{205F}'   // narrow no-break and medium mathematical spaces
    || c == '\U{3000}'                      // ideographic space
  }

  /** The ranges `IsWhitespace` tests cover exactly the 29 code points of
      Python's table. */
  lemma WhitespaceTable(c: char)
    ensures IsWhitespace(c) <==> c in PythonSpaces
  {
  }

  /** Every character of `s` is whitespace (true of the empty string). */
  ghost predicate AllWhitespace(s: string)
  {
    forall i :: 0 <= i < |s| ==> IsWhitespace(s[i])
  }

  /** The number of whitespace characters at the front of `s`. */
  function LeadingSpace(s: string): (n: nat)
    ensures n <= |s|
    ensures AllWhitespace(s[..n])
    ensures n < |s| ==> !IsWhitespace(s[n])
  {
    if |s| > 0 && IsWhitespace(s[0]) then
      var k := LeadingSpace(s[1..]);
      assert s[1..][..k] == s[1..k + 1];
      1 + k
    else
      0
  }

  /** The number of whitespace characters at the back of `s`. */
  function TrailingSpace(s: string): (n: nat)
    ensures n <= |s|
    ensures AllWhitespace(s[|s| - n..])
    ensures n < |s| ==> !IsWhitespace(s[|s| - n - 1])
  {
    if |s| > 0 && IsWhitespace(s[|s| - 1]) then
      var k := TrailingSpace(s[..|s| - 1]);
      assert s[..|s| - 1][|s| - 1 - k..] == s[|s| - 1 - k..|s| - 1];
      1 + k
    else
      0
  }

  /** `r` sits in `s` at offset `lo`, with only whitespace before and after it. */
  ghost predicate StrippedAt(r: string, s: string, lo: int)
  {
    && 0 <= lo <= |s| - |r| && s[lo..lo + |r|] == r
    && AllWhitespace(s[..lo]) && AllWhitespace(s[lo + |r|..])
  }

  /** `r` is `s` with a whitespace-only prefix and suffix cut off, and
      neither end of `r` is whitespace: the shape of `s.strip()`. */
  ghost predicate IsStripOf(r: string, s: string)
  {
    && (exists lo :: StrippedAt(r, s, lo))
    && (|r| > 0 ==> !IsWhitespace(r[0]) && !IsWhitespace(r[|r| - 1]))
  }

  /** Python's `s.strip()`. */
  function Strip(s: string): (r: string)
    ensures IsStripOf(r, s)
  {
    var lo := LeadingSpace(s);
    var rest := s[lo..];
    var k := TrailingSpace(rest);
    var r := rest[..|rest| - k];
    assert s[lo..lo + |r|] == r;
    assert s[lo + |r|..] == rest[|rest| - k..];
    assert StrippedAt(r, s, lo);
    r
  }

  /** `not s.strip()` in Python holds exactly when `s` is empty or all
      whitespace. */
  lemma StripEmptyIffBlank(s: string)
    ensures Strip(s) == [] <==> AllWhitespace(s)
  {
  }

  /** Python's `str.lower()` on one character, restricted to ASCII letters. */
  function LowerChar(c: char): char
  {
    if 'A' <= c <= 'Z' then (c as int + ('a' as int - 'A' as int)) as char else c
  }

  /** A character with no upper-case ASCII letter in it. */
  predicate IsLowerChar(c: char)
  {
    !('A' <= c <= 'Z')
  }

  /** Python's `s.lower()`, character by character. */
  function ToLower(s: string): (r: string)
    ensures |r| == |s|
    ensures forall i :: 0 <= i < |s| ==> IsLowerChar(r[i])
    ensures forall i :: 0 <= i < |s| && IsLowerChar(s[i]) ==> r[i] == s[i]
    ensures forall i :: 0 <= i < |s| && !IsLowerChar(s[i]) ==> r[i] as int == s[i] as int + ('a' as int - 'A' as int)
  {
    seq(|s|, i requires 0 <= i < |s| => LowerChar(s[i]))
  }

  /** Lower-casing twice is lower-casing once. */
  lemma ToLowerIdempotent(s: string)
    ensures ToLower(ToLower(s)) == ToLower(s)
  {
  }

  /** `needle` occurs in `hay` starting at offset `i`. */
  predicate OccursAt(needle: string, hay: string, i: int)
  {
    0 <= i <= |hay| - |needle| && hay[i..i + |needle|] == needle
  }

  /** Python's `needle in hay` for strings: `needle` occurs at some offset. */
  ghost predicate IsSubstring(needle: string, hay: string)
  {
    exists i :: OccursAt(needle, hay, i)
  }

  /** A substring search scanning `hay` from the left. */
  function Contains(hay: string, needle: string): (found: bool)
    ensures found <==> IsSubstring(needle, hay)
    decreases |hay|
  {
    if |needle| > |hay| then
      false
    else if hay[..|needle|] == needle then
      assert OccursAt(needle, hay, 0);
      true
    else
      SubstringOfTail(hay, needle);
      Contains(hay[1..], needle)
  }

  /** When `needle` is not a prefix of `hay`, it occurs in `hay` exactly when
      it occurs in `hay` without its first character. */
  lemma SubstringOfTail(hay: string, needle: string)
    requires |needle| <= |hay|
    requires hay[..|needle|] != needle
    ensures IsSubstring(needle, hay) <==> IsSubstring(needle, hay[1..])
  {
    if IsSubstring(needle, hay[1..]) {
      var i :| OccursAt(needle, hay[1..], i);
      assert hay[i + 1..i + 1 + |needle|] == needle;
      assert OccursAt(needle, hay, i + 1);
    }
    if IsSubstring(needle, hay) {
      var i :| OccursAt(needle, hay, i);
      assert i != 0;
      assert hay[1..][i - 1..i - 1 + |needle|] == needle;
      assert OccursAt(needle, hay[1..], i - 1);
    }
  }

  /** The summed length of `items`. */
  function TotalLength(items: seq<string>): nat
  {
    if |items| == 0 then 0 else |items[0]| + TotalLength(items[1..])
  }

  /** Python's `sep.join(items)`. */
  function Join(sep: string, items: seq<string>): string
  {
    if |items| == 0 then []
    else if |items| == 1 then items[0]
    else items[0] + sep + Join(sep, items[1..])
  }

  /** Every item of a join can be found in the joined string. */
  lemma {:induction false} JoinContainsItems(sep: string, items: seq<string>, k: nat)
    requires k < |items|
    ensures IsSubstring(items[k], Join(sep, items))
  {
    var j := Join(sep, items);
    if |items| == 1 {
      assert OccursAt(items[k], j, 0);
    } else if k == 0 {
      assert j[0..0 + |items[0]|] == items[0];
      assert OccursAt(items[k], j, 0);
    } else {
      JoinContainsItems(sep, items[1..], k - 1);
      var tail := Join(sep, items[1..]);
      var i :| OccursAt(items[k], tail, i);
      var off := |items[0]| + |sep|;
      assert j == items[0] + sep + tail;
      assert j[off + i..off + i + |items[k]|] == tail[i..i + |items[k]|];
      assert OccursAt(items[k], j, off + i);
    }
  }

  /** A join of at least one item adds exactly one separator per gap to
      the items' total length. */
  lemma {:induction false} JoinLength(sep: string, items: seq<string>)
    requires |items| > 0
    ensures |Join(sep, items)| == TotalLength(items) + |sep| * (|items| - 1)
    decreases |items|
  {
    if |items| > 1 {
      JoinLength(sep, items[1..]);
    }
  }

  /** A join of at least one item starts with the first item followed by
      the separator, if there is a second, and ends with the last item. */
  lemma {:induction false} JoinEnds(sep: string, items: seq<string>)
    requires |items| > 0
    ensures StartsWith(Join(sep, items), items[0])
    ensures EndsWith(Join(sep, items), items[|items| - 1])
    ensures |items| > 1 ==> StartsWith(Join(sep, items), items[0] + sep)
    decreases |items|
  {
    if |items| > 1 {
      JoinEnds(sep, items[1..]);
      var tail := Join(sep, items[1..]);
      assert items[1..][|items[1..]| - 1] == items[|items| - 1];
      assert Join(sep, items) == (items[0] + sep) + tail;
    }
  }

  /** A string that ends with `suffix`. */
  predicate EndsWith(s: string, suffix: string)
  {
    |suffix| <= |s| && s[|s| - |suffix|..] == suffix
  }

  /** A string that begins with `prefix`. */
  predicate StartsWith(s: string, prefix: string)
  {
    |prefix| <= |s| && s[..|prefix|] == prefix
  }
}
