/**
 * Characters and matching keys: the Unicode classes the game relies on, Python's
 * `str.lower`, `str.strip`, and `normalize` (lower-case, NFKD, drop combining marks).
 *
 * The character tables are written out for U+0000 to U+017F: ASCII, Latin-1 (the
 * letters of French text) and Latin Extended-A. Every other character is left as
 * it is by lower-casing and decomposition.
 */
module Normalization {

  // ---------------------------------------------------------------- classes

  /**
   * `unicodedata.combining(c) != 0` within the Combining Diacritical Marks blocks:
   * every mark there with a non-zero canonical combining class. The grapheme
   * joiner U+034F, the enclosing marks and the unassigned code points have class 0.
   */
  predicate IsCombiningMark(c: char) {
    || ('\U{0300}' <= c <= '\U{036F}' && c != '\U{034F}')
    || ('\U{1AB0}' <= c <= '\U{1ACE}' && c != '\U{1ABE}')
    || '\U{1DC0}' <= c <= '\U{1DFF}'
    || '\U{20D0}' <= c <= '\U{20DC}' || c == '\U{20E1}' || '\U{20E5}' <= c <= '\U{20F0}'
    || '\U{FE20}' <= c <= '\U{FE2F}'
  }

  /** The regular-expression class `\w`: letters, digits, numerics and `_`. */
  predicate IsWordChar(c: char) {
    || 'a' <= c <= 'z' || 'A' <= c <= 'Z' || '0' <= c <= '9' || c == '_'
    || c == '\U{00AA}' || c == '\U{00B2}' || c == '\U{00B3}' || c == '\U{00B5}'
    || c == '\U{00B9}' || c == '\U{00BA}' || '\U{00BC}' <= c <= '\U{00BE}'
    || ('\U{00C0}' <= c <= '\U{00FF}' && c != '\U{00D7}' && c != '\U{00F7}')
    || '\U{0100}' <= c <= '\U{017F}'
  }

  /** `str.isspace()`: the characters `str.strip()` removes. */
  predicate IsSpace(c: char) {
    || '\t' <= c <= '\r' || '\U{001C}' <= c <= ' '
    || c == '\U{0085}' || c == '\U{00A0}' || c == '\U{1680}'
    || '\U{2000}' <= c <= '\U{200A}' || c == '\U{2028}' || c == '\U{2029}'
    || c == '\U{202F}' || c == '\U{205F}' || c == '\U{3000}'
  }

  // ---------------------------------------------------------------- lower

  /** Lower-case mapping of one character. */
  function LowerChar(c: char): (d: char)
    ensures !IsCombiningMark(c) ==> !IsCombiningMark(d)
  {
    if 'A' <= c <= 'Z' then (c as int + 32) as char
    else if '\U{00C0}' <= c <= '\U{00DE}' && c != '\U{00D7}' then (c as int + 32) as char
    else if '\U{0100}' <= c <= '\U{017F}' then LowerLatinExtendedA(c)
    else c
  }

  /**
   * Lower-case mapping in the Latin Extended-A block, where capitals and small
   * letters alternate. İ lower-cases to `i` (Python adds a combining dot above,
   * which `normalize` drops again).
   */
  function LowerLatinExtendedA(c: char): char
    requires '\U{0100}' <= c <= '\U{017F}'
  {
    var n := c as int;
    if n == 0x130 then 'i'
    else if n == 0x178 then '\U{00FF}'
    else if (n < 0x138 || 0x14A <= n < 0x178) && n % 2 == 0 then (n + 1) as char
    else if (0x139 <= n < 0x149 || 0x179 <= n < 0x17F) && n % 2 == 1 then (n + 1) as char
    else c
  }

  /** `str.lower()` */
  function Lower(s: string): (r: string)
    ensures |r| == |s|
    ensures forall i :: 0 <= i < |s| ==> r[i] == LowerChar(s[i])
  {
    seq(|s|, i requires 0 <= i < |s| => LowerChar(s[i]))
  }

  // ---------------------------------------------------------------- strip

  /** `str.strip()`: drop leading and trailing whitespace. */
  function Strip(s: string): (r: string)
    ensures |r| <= |s|
    ensures r != [] ==> !IsSpace(r[0]) && !IsSpace(r[|r| - 1])
  {
    var i := SpanStart(s, 0);
    var j := SpanEnd(s, i, |s|);
    s[i..j]
  }

  /** `strip` keeps a slice of its input: only whitespace is dropped, and none is left at either end. */
  lemma StripDropsOnlyOuterSpace(s: string)
    ensures exists i, j :: 0 <= i <= j <= |s| && Strip(s) == s[i..j]
              && (forall k :: 0 <= k < i ==> IsSpace(s[k]))
              && (forall k :: j <= k < |s| ==> IsSpace(s[k]))
    ensures Strip(s) != [] ==> !IsSpace(Strip(s)[0]) && !IsSpace(Strip(s)[|Strip(s)| - 1])
  {
    var i := SpanStart(s, 0);
    var j := SpanEnd(s, i, |s|);
    assert Strip(s) == s[i..j];
  }

  /** The first position at or after `i` that is not whitespace. */
  function SpanStart(s: string, i: nat): (r: nat)
    requires i <= |s|
    ensures i <= r <= |s|
    ensures forall k :: i <= k < r ==> IsSpace(s[k])
    ensures r < |s| ==> !IsSpace(s[r])
    decreases |s| - i
  {
    if i < |s| && IsSpace(s[i]) then SpanStart(s, i + 1) else i
  }

  /** The end of the span `s[lo..j]` once its trailing whitespace is dropped. */
  function SpanEnd(s: string, lo: nat, j: nat): (r: nat)
    requires lo <= j <= |s|
    ensures lo <= r <= j
    ensures forall k :: r <= k < j ==> IsSpace(s[k])
    ensures r > lo ==> !IsSpace(s[r - 1])
  {
    if j > lo && IsSpace(s[j - 1]) then SpanEnd(s, lo, j - 1) else j
  }

  /** `SpanStart` stops at the first non-whitespace character. */
  lemma {:induction false} SpanStartAt(s: string, i: nat, k: nat)
    requires i <= k <= |s|
    requires forall m :: i <= m < k ==> IsSpace(s[m])
    requires k < |s| ==> !IsSpace(s[k])
    ensures SpanStart(s, i) == k
    decreases k - i
  {
    if i < k {
      SpanStartAt(s, i + 1, k);
    }
  }

  /** `SpanEnd` stops after the last non-whitespace character. */
  lemma {:induction false} SpanEndAt(s: string, lo: nat, j: nat, k: nat)
    requires lo <= k <= j <= |s|
    requires forall m :: k <= m < j ==> IsSpace(s[m])
    requires k > lo ==> !IsSpace(s[k - 1])
    ensures SpanEnd(s, lo, j) == k
    decreases j
  {
    if k < j {
      SpanEndAt(s, lo, j - 1, k);
    }
  }

  /** `str.strip()` ignores whitespace added around a string. */
  lemma StripPadded(pre: string, s: string, post: string)
    requires forall m :: 0 <= m < |pre| ==> IsSpace(pre[m])
    requires forall m :: 0 <= m < |post| ==> IsSpace(post[m])
    ensures Strip(pre + s + post) == Strip(s)
  {
    var i := SpanStart(s, 0);
    var j := SpanEnd(s, i, |s|);
    if i < j {
      StripPaddedSpan(pre, s, post, i, j);
    } else {
      assert i == |s|;
      StripPaddedBlank(pre, s, post);
    }
  }

  lemma StripPaddedSpan(pre: string, s: string, post: string, i: nat, j: nat)
    requires forall m :: 0 <= m < |pre| ==> IsSpace(pre[m])
    requires forall m :: 0 <= m < |post| ==> IsSpace(post[m])
    requires i == SpanStart(s, 0) && j == SpanEnd(s, i, |s|) && i < j
    ensures Strip(pre + s + post) == s[i..j]
  {
    var t := pre + s + post;
    var a, b := |pre| + i, |pre| + j;
    PaddedLeadingSpaces(pre, s, post, i);
    assert t[a] == s[i] && t[b - 1] == s[j - 1];
    SpanStartAt(t, 0, a);
    PaddedTrailingSpaces(pre, s, post, j);
    SpanEndAt(t, a, |t|, b);
    PaddedSlice(pre, s, post, i, j);
  }

  lemma PaddedSlice(pre: string, s: string, post: string, i: nat, j: nat)
    requires i <= j <= |s|
    ensures (pre + s + post)[|pre| + i..|pre| + j] == s[i..j]
  {
    var t := pre + s + post;
    assert t[|pre|..|pre| + |s|] == s;
    assert t[|pre| + i..|pre| + j] == t[|pre|..|pre| + |s|][i..j];
  }

  lemma PaddedLeadingSpaces(pre: string, s: string, post: string, i: nat)
    requires forall m :: 0 <= m < |pre| ==> IsSpace(pre[m])
    requires i <= |s| && forall m :: 0 <= m < i ==> IsSpace(s[m])
    ensures forall m :: 0 <= m < |pre| + i ==> IsSpace((pre + s + post)[m])
  {
    var t := pre + s + post;
    forall m | 0 <= m < |pre| + i ensures IsSpace(t[m]) {
      if m >= |pre| {
        assert t[m] == s[m - |pre|];
      } else {
        assert t[m] == pre[m];
      }
    }
  }

  lemma PaddedTrailingSpaces(pre: string, s: string, post: string, j: nat)
    requires forall m :: 0 <= m < |post| ==> IsSpace(post[m])
    requires j <= |s| && forall m :: j <= m < |s| ==> IsSpace(s[m])
    ensures forall m :: |pre| + j <= m < |pre| + |s| + |post| ==> IsSpace((pre + s + post)[m])
  {
    var t := pre + s + post;
    forall m | |pre| + j <= m < |t| ensures IsSpace(t[m]) {
      if m < |pre| + |s| {
        assert t[m] == s[m - |pre|];
      } else {
        assert t[m] == post[m - |pre| - |s|];
      }
    }
  }

  lemma StripPaddedBlank(pre: string, s: string, post: string)
    requires forall m :: 0 <= m < |pre| ==> IsSpace(pre[m])
    requires forall m :: 0 <= m < |post| ==> IsSpace(post[m])
    requires forall m :: 0 <= m < |s| ==> IsSpace(s[m])
    ensures Strip(pre + s + post) == [] == Strip(s)
  {
    var t := pre + s + post;
    SpanStartAt(s, 0, |s|);
    forall m | 0 <= m < |t| ensures IsSpace(t[m]) {
      if |pre| <= m < |pre| + |s| {
        assert t[m] == s[m - |pre|];
      } else if m >= |pre| + |s| {
        assert t[m] == post[m - |pre| - |s|];
      }
    }
    SpanStartAt(t, 0, |t|);
  }

  // ---------------------------------------------------------------- normalize

  /**
   * Compatibility decomposition (NFKD) of a lower-case character with its combining
   * marks removed: the base letters of accented letters, and the Latin-1 spacing
   * accents, ordinals, superscripts and fractions, and the two compatibility
   * decompositions ™ -> `TM` and ℃ -> `°C`, which bring capitals back.
   */
  function Decompose(c: char): string {
    if '\U{0100}' <= c <= '\U{017F}' then DecomposeLatinExtendedA(c)
    else if '\U{00E0}' <= c <= '\U{00E5}' then "a"
    else if c == '\U{00E7}' then "c"
    else if '\U{00E8}' <= c <= '\U{00EB}' then "e"
    else if '\U{00EC}' <= c <= '\U{00EF}' then "i"
    else if c == '\U{00F1}' then "n"
    else if '\U{00F2}' <= c <= '\U{00F6}' then "o"
    else if '\U{00F9}' <= c <= '\U{00FC}' then "u"
    else if c == '\U{00FD}' || c == '\U{00FF}' then "y"
    else if c == '\U{00AA}' then "a"
    else if c == '\U{00BA}' then "o"
    else if c == '\U{00B9}' then "1"
    else if c == '\U{00B2}' then "2"
    else if c == '\U{00B3}' then "3"
    else if c == '\U{00B5}' then "\U{03BC}"
    else if c == '\U{00BC}' then "1\U{2044}4"
    else if c == '\U{00BD}' then "1\U{2044}2"
    else if c == '\U{00BE}' then "3\U{2044}4"
    else if c == '\U{00A0}' || c == '\U{00A8}' || c == '\U{00AF}' || c == '\U{00B4}' || c == '\U{00B8}' then " "
    else if c == '\U{2122}' then "TM"
    else if c == '\U{2103}' then "\U{00B0}C"
    else [c]
  }

  /**
   * The decomposition lower-cased once more: what `normalize` keys on once it
   * lower-cases after NFKD as well as before (see `DecomposeLoweredIsLower`).
   */
  function DecomposeLowered(c: char): string {
    if c == '\U{2122}' then "tm"
    else if c == '\U{2103}' then "\U{00B0}c"
    else Decompose(c)
  }

  /**
   * NFKD of the small letters of the Latin Extended-A block, combining marks
   * removed; the letters drawn with a stroke or a hook (đ, ħ, ı, ĸ, ł, ŋ, œ, ŧ)
   * have no decomposition, and capitals are left alone as in `Decompose`.
   */
  function DecomposeLatinExtendedA(c: char): string
    requires '\U{0100}' <= c <= '\U{017F}'
  {
    var n := c as int;
    if LowerLatinExtendedA(c) != c then [c]
    else if n <= 0x105 then "a"
    else if n <= 0x10D then "c"
    else if n == 0x10F then "d"
    else if n == 0x111 then [c]
    else if n <= 0x11B then "e"
    else if n <= 0x123 then "g"
    else if n == 0x125 then "h"
    else if n == 0x127 then [c]
    else if n <= 0x12F then "i"
    else if n == 0x131 then [c]
    else if n == 0x133 then "ij"
    else if n == 0x135 then "j"
    else if n == 0x137 then "k"
    else if n == 0x138 then [c]
    else if n <= 0x13E then "l"
    else if n == 0x140 then "l\U{00B7}"
    else if n <= 0x142 then [c]
    else if n <= 0x148 then "n"
    else if n == 0x149 then "\U{02BC}n"
    else if n == 0x14B then [c]
    else if n <= 0x151 then "o"
    else if n == 0x153 then [c]
    else if n <= 0x159 then "r"
    else if n <= 0x161 then "s"
    else if n <= 0x165 then "t"
    else if n == 0x167 then [c]
    else if n <= 0x173 then "u"
    else if n == 0x175 then "w"
    else if n == 0x177 then "y"
    else if n <= 0x17E then "z"
    else "s"
  }

  /** What `normalize` makes of one character. */
  function NormalizeChar(c: char): string {
    if IsCombiningMark(c) then [] else DecomposeLowered(LowerChar(c))
  }

  /** A matching key: a character that `normalize` leaves alone. */
  predicate IsKeyChar(c: char) {
    NormalizeChar(c) == [c]
  }

  /** A character in a key is lower-case and is not a combining mark. */
  lemma KeyCharIsLowerAndUnmarked(c: char)
    requires IsKeyChar(c)
    ensures LowerChar(c) == c && !IsCombiningMark(c)
  {
  }

  /** Lower-casing a lower-case character changes nothing. */
  lemma LowerCharIdempotent(c: char)
    ensures LowerChar(LowerChar(c)) == LowerChar(c)
  {
  }

  /** What a decomposition other than the character itself can be. */
  const Decompositions: set<string> := {
    "a", "c", "d", "e", "g", "h", "i", "j", "k", "l", "n", "o", "r", "s", "t", "u",
    "w", "y", "z", "ij", "l\U{00B7}", "\U{02BC}n", "1", "2", "3", "\U{03BC}",
    "1\U{2044}4", "1\U{2044}2", "3\U{2044}4", " ", "tm", "\U{00B0}c"}

  lemma DecomposeCases(c: char)
    ensures DecomposeLowered(c) == [c] || DecomposeLowered(c) in Decompositions
  {
  }

  /** Lower-case ASCII letters, digits and the space are key characters. */
  lemma AsciiKeyChar(c: char)
    requires 'a' <= c <= 'z' || '0' <= c <= '9' || c == ' '
    ensures IsKeyChar(c)
  {
  }

  lemma DecompositionsAreKeys(d: string)
    requires d in Decompositions
    ensures forall i :: 0 <= i < |d| ==> IsKeyChar(d[i])
  {
    assert IsKeyChar('\U{03BC}') && IsKeyChar('\U{2044}') && IsKeyChar('\U{00B7}') && IsKeyChar('\U{02BC}');
    assert IsKeyChar('\U{00B0}');
    forall i | 0 <= i < |d| && d[i] !in "\U{03BC}\U{2044}\U{00B7}\U{02BC}\U{00B0}"
      ensures IsKeyChar(d[i])
    {
      AsciiKeyChar(d[i]);
    }
  }

  /** Everything `normalize` produces for one character is itself a key character. */
  lemma NormalizeCharGivesKeyChars(c: char)
    ensures forall i :: 0 <= i < |NormalizeChar(c)| ==> IsKeyChar(NormalizeChar(c)[i])
  {
    if !IsCombiningMark(c) {
      var d := LowerChar(c);
      LowerCharIdempotent(c);
      DecomposeCases(d);
      if DecomposeLowered(d) != [d] {
        DecompositionsAreKeys(DecomposeLowered(d));
      }
    }
  }

  /**
   * `normalize(word)`: lower-case, decompose, drop every combining mark. A string
   * that starts with a word character keeps a non-empty key.
   */
  function Normalize(s: string): (r: string)
    ensures s != [] && IsWordChar(s[0]) ==> r != []
  {
    if s == [] then [] else NormalizeChar(s[0]) + Normalize(s[1..])
  }

  /** Every character of a key is one that `normalize` leaves alone. */
  lemma {:induction false} NormalizeGivesKeyChars(s: string)
    ensures forall i :: 0 <= i < |Normalize(s)| ==> IsKeyChar(Normalize(s)[i])
  {
    if s != [] {
      NormalizeCharGivesKeyChars(s[0]);
      NormalizeGivesKeyChars(s[1..]);
      var h, t := NormalizeChar(s[0]), Normalize(s[1..]);
      assert Normalize(s) == h + t;
      forall i | 0 <= i < |h + t| ensures IsKeyChar((h + t)[i]) {
        if i >= |h| {
          assert (h + t)[i] == t[i - |h|];
        }
      }
    }
  }

  /** `normalize` lower-cases and leaves no combining mark. */
  lemma NormalizeLowersAndUnmarks(s: string)
    ensures forall i :: 0 <= i < |Normalize(s)| ==>
              LowerChar(Normalize(s)[i]) == Normalize(s)[i] && !IsCombiningMark(Normalize(s)[i])
  {
    NormalizeGivesKeyChars(s);
    forall i | 0 <= i < |Normalize(s)|
      ensures LowerChar(Normalize(s)[i]) == Normalize(s)[i] && !IsCombiningMark(Normalize(s)[i])
    {
      KeyCharIsLowerAndUnmarked(Normalize(s)[i]);
    }
  }

  /** `normalize` works character by character, so it distributes over concatenation. */
  lemma {:induction false} NormalizeAppend(a: string, b: string)
    ensures Normalize(a + b) == Normalize(a) + Normalize(b)
  {
    if a == [] {
      assert a + b == b;
    } else {
      assert (a + b)[0] == a[0] && (a + b)[1..] == a[1..] + b;
      NormalizeAppend(a[1..], b);
    }
  }

  /** A string made of key characters is its own key. */
  lemma {:induction false} NormalizeKeyString(s: string)
    requires forall i :: 0 <= i < |s| ==> IsKeyChar(s[i])
    ensures Normalize(s) == s
  {
    if s != [] {
      NormalizeKeyString(s[1..]);
    }
  }

  /** `normalize` is idempotent. */
  lemma NormalizeIdempotent(s: string)
    ensures Normalize(Normalize(s)) == Normalize(s)
  {
    NormalizeGivesKeyChars(s);
    NormalizeKeyString(Normalize(s));
  }

  /** `DecomposeLowered` is NFKD followed by lower-casing, on every lower-case character. */
  lemma DecomposeLoweredIsLower(c: char)
    requires LowerChar(c) == c
    ensures DecomposeLowered(c) == Lower(Decompose(c))
  {
    if c != '\U{2122}' && c != '\U{2103}' {
      var d := Decompose(c);
      DecomposeCases(c);
      if d != [c] {
        DecompositionsAreKeys(d);
        forall i | 0 <= i < |d| ensures Lower(d)[i] == d[i] {
          KeyCharIsLowerAndUnmarked(d[i]);
        }
      }
    }
  }

  // ---------------------------------------------------------------- as written

  /**
   * `normalize` as written: lower-case, NFKD, drop combining marks, with no
   * lower-casing after the decomposition.
   */
  function NormalizeAsWritten(s: string): string {
    if s == [] then []
    else (if IsCombiningMark(s[0]) then [] else Decompose(LowerChar(s[0]))) + NormalizeAsWritten(s[1..])
  }

  /** As written, `normalize` is not idempotent: ™ gives `TM`, which in turn gives `tm`. */
  lemma NormalizeAsWrittenNotIdempotent()
    ensures NormalizeAsWritten("\U{2122}") == "TM"
    ensures NormalizeAsWritten(NormalizeAsWritten("\U{2122}")) == "tm"
  {
    assert NormalizeAsWritten("M") == "m" by {
      assert NormalizeAsWritten("M"[1..]) == [];
    }
    assert NormalizeAsWritten("TM") == "t" + NormalizeAsWritten("M");
  }

  /** The two agree on every text without ™ or ℃. */
  lemma {:induction false} NormalizeAsWrittenAgrees(s: string)
    requires '\U{2122}' !in s && '\U{2103}' !in s
    ensures NormalizeAsWritten(s) == Normalize(s)
  {
    if s != [] {
      NormalizeAsWrittenAgrees(s[1..]);
    }
  }

  /** `normalize` of a string is the normal forms of its characters, in order. */
  lemma NormalizeCons(c: char, s: string)
    ensures Normalize([c] + s) == NormalizeChar(c) + Normalize(s)
  {
    assert ([c] + s)[1..] == s;
  }

  /** An upper-case ASCII letter normalizes to its lower-case letter. */
  lemma NormalizeUpperAscii(c: char)
    requires 'A' <= c <= 'Z'
    ensures NormalizeChar(c) == [(c as int + 32) as char]
  {
  }

  /** `normalize("LIBERTÉ") == "liberte"` */
  lemma NormalizeLiberte()
    ensures Normalize("LIBERT\U{00C9}") == "liberte"
  {
    assert NormalizeChar('\U{00C9}') == "e";
    NormalizeCons('\U{00C9}', []);
    NormalizeUpperAscii('T');
    NormalizeCons('T', "\U{00C9}");
    NormalizeUpperAscii('R');
    NormalizeCons('R', "T\U{00C9}");
    NormalizeUpperAscii('E');
    NormalizeCons('E', "RT\U{00C9}");
    NormalizeUpperAscii('B');
    NormalizeCons('B', "ERT\U{00C9}");
    NormalizeUpperAscii('I');
    NormalizeCons('I', "BERT\U{00C9}");
    NormalizeUpperAscii('L');
    NormalizeCons('L', "IBERT\U{00C9}");
  }

  /** `normalize("été") == "ete"` */
  lemma NormalizeEte()
    ensures Normalize("\U{00E9}t\U{00E9}") == "ete"
  {
    NormalizeCons('\U{00E9}', []);
    NormalizeCons('t', "\U{00E9}");
    NormalizeCons('\U{00E9}', "t\U{00E9}");
  }

  /**
   * Latin Extended-A letters lose their accents too (so `Dvořák` is keyed `dvorak`),
   * while a letter drawn with a stroke, such as Ł, is only lower-cased.
   */
  lemma NormalizeLatinExtendedA()
    ensures NormalizeChar('\U{0100}') == "a" && NormalizeChar('\U{010C}') == "c"
    ensures NormalizeChar('\U{0158}') == "r" && NormalizeChar('\U{0159}') == "r"
    ensures NormalizeChar('\U{0141}') == "\U{0142}"
  {
  }
}
