/** The pieces of Python's `str` and `int` behaviour that the query filters
    rely on: `str.split(",")`, `int(text)` with the whitespace it skips,
    `str(n)`, ASCII lower-casing and substring search. */
module Text {
  import opened Wrappers

  /** Python's `ValueError`, carrying the text that could not be converted. */
  datatype ValueError = ValueError(text: string)

  // ----------------------------------------------------------------------
  // The whitespace `int()` skips around its digits

  /** A character `int()` skips before or after the number. ASCII text is
      read as it is, and only tab, line feed, vertical tab, form feed,
      carriage return and space count there; a non-ASCII character that
      `str.isspace()` accepts is first turned into a space. So the ASCII
      separators 0x1c to 0x1f, which `str.isspace()` accepts, are not
      skipped. */
  predicate IsIntSpace(c: char) {
    || ('\t' <= c <= '\r')
    || c == ' '
    || c == '\U{85}' || c == '\U{a0}' || c == '\U{1680}'
    || ('\U{2000}' <= c <= '\U{200a}')
    || c == '\U{2028}' || c == '\U{2029}' || c == '\U{202f}'
    || c == '\U{205f}' || c == '\U{3000}'
  }

  predicate AllIntSpace(s: string) {
    forall i :: 0 <= i < |s| ==> IsIntSpace(s[i])
  }

  /** How many whitespace characters `s` starts with. */
  function LeadingSpaces(s: string): (n: nat)
    ensures n <= |s|
  {
    if s != [] && IsIntSpace(s[0]) then 1 + LeadingSpaces(s[1..]) else 0
  }

  /** How many whitespace characters `s` ends with. */
  function TrailingSpaces(s: string): (n: nat)
    ensures n <= |s|
  {
    if s != [] && IsIntSpace(s[|s| - 1]) then 1 + TrailingSpaces(s[..|s| - 1]) else 0
  }

  /** The leading count covers whitespace only, and stops at the first
      character that is not whitespace. */
  lemma {:induction false} LeadingSpacesAreSpaces(s: string)
    ensures forall i :: 0 <= i < LeadingSpaces(s) ==> IsIntSpace(s[i])
    ensures LeadingSpaces(s) < |s| ==> !IsIntSpace(s[LeadingSpaces(s)])
  {
    if s != [] && IsIntSpace(s[0]) {
      LeadingSpacesAreSpaces(s[1..]);
      assert forall i :: 0 < i < |s| ==> s[i] == s[1..][i - 1];
    }
  }

  /** The trailing count covers whitespace only, and stops at the last
      character that is not whitespace. */
  lemma {:induction false} TrailingSpacesAreSpaces(s: string)
    ensures forall i :: |s| - TrailingSpaces(s) <= i < |s| ==> IsIntSpace(s[i])
    ensures TrailingSpaces(s) < |s| ==> !IsIntSpace(s[|s| - 1 - TrailingSpaces(s)])
  {
    if s != [] && IsIntSpace(s[|s| - 1]) {
      TrailingSpacesAreSpaces(s[..|s| - 1]);
      assert forall i :: 0 <= i < |s| - 1 ==> s[i] == s[..|s| - 1][i];
    }
  }

  /** Whitespace in front of a text that does not start with whitespace is
      counted exactly. */
  lemma {:induction false} LeadingSpacesPadded(w: string, t: string)
    requires AllIntSpace(w)
    requires t != [] && !IsIntSpace(t[0])
    ensures LeadingSpaces(w + t) == |w|
  {
    if w != [] {
      assert (w + t)[1..] == w[1..] + t;
      LeadingSpacesPadded(w[1..], t);
    }
  }

  lemma {:induction false} TrailingSpacesPadded(t: string, w: string)
    requires AllIntSpace(w)
    requires t != [] && !IsIntSpace(t[|t| - 1])
    ensures TrailingSpaces(t + w) == |w|
  {
    if w != [] {
      assert (t + w)[..|t + w| - 1] == t + w[..|w| - 1];
      TrailingSpacesPadded(t, w[..|w| - 1]);
    }
  }

  /** `s` without the whitespace it starts with. */
  function StripLeft(s: string): string {
    s[LeadingSpaces(s)..]
  }

  /** `s` without the whitespace it ends with. */
  function StripRight(s: string): string {
    s[..|s| - TrailingSpaces(s)]
  }

  /** The text `int()` reads: `s` without the whitespace around it. */
  function Strip(s: string): (r: string)
    ensures |r| <= |s|
  {
    StripRight(StripLeft(s))
  }

  lemma StripLeftBounds(s: string)
    ensures StripLeft(s) == s[LeadingSpaces(s)..]
    ensures forall k :: 0 <= k < LeadingSpaces(s) ==> IsIntSpace(s[k])
    ensures StripLeft(s) != [] ==> !IsIntSpace(StripLeft(s)[0])
  {
    LeadingSpacesAreSpaces(s);
  }

  lemma StripRightBounds(s: string)
    ensures StripRight(s) == s[..|s| - TrailingSpaces(s)]
    ensures forall k :: |s| - TrailingSpaces(s) <= k < |s| ==> IsIntSpace(s[k])
    ensures StripRight(s) != [] ==> !IsIntSpace(StripRight(s)[|StripRight(s)| - 1])
  {
    TrailingSpacesAreSpaces(s);
  }

  /** The stripped text is the part of `s` between its leading and its trailing
      whitespace. */
  lemma StripBounds(s: string)
    ensures LeadingSpaces(s) + |Strip(s)| <= |s|
    ensures Strip(s) == s[LeadingSpaces(s)..LeadingSpaces(s) + |Strip(s)|]
    ensures forall k :: 0 <= k < LeadingSpaces(s) ==> IsIntSpace(s[k])
    ensures forall k :: LeadingSpaces(s) + |Strip(s)| <= k < |s| ==> IsIntSpace(s[k])
  {
    var i := LeadingSpaces(s);
    var left := StripLeft(s);
    StripLeftBounds(s);
    StripRightBounds(left);
    var n := |Strip(s)|;
    assert Strip(s) == s[i..i + n];
    forall k | i + n <= k < |s| ensures IsIntSpace(s[k]) {
      assert s[k] == left[k - i];
    }
  }

  /** ... and it neither starts nor ends with whitespace. */
  lemma StripEnds(s: string)
    ensures Strip(s) != [] ==> !IsIntSpace(Strip(s)[0]) && !IsIntSpace(Strip(s)[|Strip(s)| - 1])
  {
    var left := StripLeft(s);
    StripLeftBounds(s);
    StripRightBounds(left);
    if Strip(s) != [] {
      assert Strip(s)[0] == left[0];
    }
  }

  /** The result is empty exactly for an all-whitespace `s`. */
  lemma StripEmpty(s: string)
    ensures Strip(s) == [] <==> AllIntSpace(s)
  {
    StripBounds(s);
    LeadingSpacesAreSpaces(s);
    if AllIntSpace(s) {
      assert LeadingSpaces(s) == |s|;
    }
  }

  /** Stripping removes exactly the whitespace around a text that neither
      starts nor ends with whitespace. */
  lemma StripPadded(before: string, t: string, after: string)
    requires AllIntSpace(before) && AllIntSpace(after)
    requires t != [] && !IsIntSpace(t[0]) && !IsIntSpace(t[|t| - 1])
    ensures Strip(before + t + after) == t
  {
    var s := before + t + after;
    assert s == before + (t + after);
    LeadingSpacesPadded(before, t + after);
    assert s[|before|..] == t + after;
    TrailingSpacesPadded(t, after);
    assert (t + after)[..|t|] == t;
  }

  // ----------------------------------------------------------------------
  // Decimal digits, `str(n)` and `int(text)`

  predicate IsDigit(c: char) {
    '0' <= c <= '9'
  }

  predicate AllDigits(s: string) {
    forall i :: 0 <= i < |s| ==> IsDigit(s[i])
  }

  function DigitValue(c: char): (v: nat)
    requires IsDigit(c)
    ensures v < 10
  {
    c as int - '0' as int
  }

  function DigitChar(v: nat): (c: char)
    requires v < 10
    ensures IsDigit(c) && DigitValue(c) == v
  {
    ('0' as int + v) as char
  }

  /** The number that a run of decimal digits denotes, most significant first. */
  function DecimalValue(s: string): nat
    requires AllDigits(s)
  {
    if s == [] then 0 else DecimalValue(s[..|s| - 1]) * 10 + DigitValue(s[|s| - 1])
  }

  /** `str(n)` for a non-negative `n`: the shortest decimal numeral of `n`. */
  function ShowNat(n: nat): (s: string)
    ensures s != [] && AllDigits(s)
    ensures DecimalValue(s) == n
    ensures s[0] == '0' ==> s == "0"
  {
    if n < 10 then
      [DigitChar(n)]
    else
      var s := ShowNat(n / 10) + [DigitChar(n % 10)];
      assert s[..|s| - 1] == ShowNat(n / 10);
      s
  }

  /** `str(n)` for any integer. */
  function Show(n: int): (s: string)
    ensures s != [] && !IsIntSpace(s[0]) && !IsIntSpace(s[|s| - 1])
    ensures ',' !in s && '_' !in s && ' ' !in s
  {
    if n < 0 then "-" + ShowNat(-n) else ShowNat(n)
  }

  /** The digit part that `int()` accepts after an optional sign: a decimal
      digit, then digits each optionally preceded by one underscore. */
  predicate IsDigitGroups(s: string)
    decreases |s|
  {
    && s != []
    && IsDigit(s[0])
    && (|s| == 1 || IsDigitGroups(s[1..]) || (s[1] == '_' && IsDigitGroups(s[2..])))
  }

  /** A digit-group literal holds only digits and underscores. */
  lemma {:induction false} GroupsCharacters(s: string)
    ensures IsDigitGroups(s) ==> forall i :: 0 <= i < |s| ==> IsDigit(s[i]) || s[i] == '_'
    decreases |s|
  {
    if IsDigitGroups(s) && |s| > 1 {
      if IsDigitGroups(s[1..]) {
        GroupsCharacters(s[1..]);
        assert forall i :: 1 <= i < |s| ==> s[i] == s[1..][i - 1];
      } else {
        GroupsCharacters(s[2..]);
        assert forall i :: 2 <= i < |s| ==> s[i] == s[2..][i - 2];
      }
    }
  }

  /** The digits of a digit-group literal with its underscores removed. */
  function DropUnderscores(s: string): string {
    if s == [] then []
    else if s[0] == '_' then DropUnderscores(s[1..])
    else [s[0]] + DropUnderscores(s[1..])
  }

  /** Removing the underscores from digits and underscores leaves digits. */
  lemma {:induction false} DropUnderscoresDigits(s: string)
    requires forall i :: 0 <= i < |s| ==> IsDigit(s[i]) || s[i] == '_'
    ensures AllDigits(DropUnderscores(s))
  {
    if s != [] {
      assert forall i :: 0 <= i < |s[1..]| ==> s[1..][i] == s[i + 1];
      DropUnderscoresDigits(s[1..]);
    }
  }

  /** A literal without underscores is left as it is. */
  lemma {:induction false} DropUnderscoresOfDigits(s: string)
    requires AllDigits(s)
    ensures DropUnderscores(s) == s
  {
    if s != [] {
      assert AllDigits(s[1..]) by {
        forall i | 0 <= i < |s[1..]| ensures IsDigit(s[1..][i]) {
          assert s[1..][i] == s[i + 1];
        }
      }
      DropUnderscoresOfDigits(s[1..]);
    }
  }

  /** What `int()` accepts once the surrounding whitespace is gone: an
      optional sign, then a digit-group literal. */
  function ParseNumeral(t: string): Option<int> {
    var signed := t != [] && (t[0] == '+' || t[0] == '-');
    var body := if signed then t[1..] else t;
    if IsDigitGroups(body) then
      GroupsCharacters(body);
      DropUnderscoresDigits(body);
      var n: int := DecimalValue(DropUnderscores(body));
      Some(if signed && t[0] == '-' then -n else n)
    else
      None
  }

  /** `int(s)` in base 10: surrounding whitespace is ignored, then an optional
      sign and a digit-group literal must make up the rest; anything else
      raises `ValueError`. */
  function ParseInt(s: string): (r: Result<int, ValueError>)
    ensures r.Err? ==> r.error == ValueError(s)
  {
    match ParseNumeral(Strip(s))
    case Some(n) => Ok(n)
    case None => Err(ValueError(s))
  }

  /** An empty or all-whitespace text is no integer. */
  lemma ParseIntRejectsBlank(s: string)
    requires AllIntSpace(s)
    ensures ParseInt(s) == Err(ValueError(s))
  {
    StripEmpty(s);
  }

  /** A plain run of digits is a digit-group literal with nothing to drop. */
  lemma {:induction false} DigitsAreGroups(d: string)
    requires d != [] && AllDigits(d)
    ensures IsDigitGroups(d) && DropUnderscores(d) == d
    decreases |d|
  {
    if |d| > 1 {
      assert AllDigits(d[1..]) by {
        forall i | 0 <= i < |d[1..]| ensures IsDigit(d[1..][i]) {
          assert d[1..][i] == d[i + 1];
        }
      }
      DigitsAreGroups(d[1..]);
    }
    DropUnderscoresOfDigits(d);
  }

  lemma NumeralShow(n: int)
    ensures ParseNumeral(Show(n)) == Some(n)
  {
    var shown := Show(n);
    var digits := ShowNat(if n < 0 then -n else n);
    DigitsAreGroups(digits);
    if n < 0 {
      assert shown[0] == '-' && shown[1..] == digits;
    } else {
      assert shown == digits && IsDigit(shown[0]);
    }
  }

  /** `int()` reads back what `str()` writes, whatever whitespace surrounds it. */
  lemma ParseIntShow(n: int, before: string, after: string)
    requires AllIntSpace(before) && AllIntSpace(after)
    ensures ParseInt(before + Show(n) + after) == Ok(n)
  {
    StripPadded(before, Show(n), after);
    NumeralShow(n);
  }

  lemma ParseIntShowBare(n: int)
    ensures ParseInt(Show(n)) == Ok(n)
  {
    ParseIntShow(n, "", "");
    assert "" + Show(n) + "" == Show(n);
  }

  /** A number starts with a sign or a digit. */
  lemma NumeralRejectsLead(t: string)
    requires t != [] && !IsDigit(t[0]) && t[0] != '+' && t[0] != '-'
    ensures ParseNumeral(t).None?
  {
  }

  /** A text that starts with anything but whitespace, a sign or a digit
      is no integer. */
  lemma ParseIntRejectsLead(s: string)
    requires s != [] && !IsIntSpace(s[0]) && !IsDigit(s[0]) && s[0] != '+' && s[0] != '-'
    ensures ParseInt(s).Err?
  {
    StripBounds(s);
    assert LeadingSpaces(s) == 0;
    var t := Strip(s);
    if t != [] {
      assert t[0] == s[0];
      NumeralRejectsLead(t);
    }
  }

  /** The ASCII separators 0x1c to 0x1f are not whitespace to `int()`, so
      `int("\x1c5")` raises, whatever follows the separator. */
  lemma ParseIntRejectsSeparator(c: char, rest: string)
    requires '\U{1c}' <= c <= '\U{1f}'
    ensures ParseInt([c] + rest).Err?
  {
    ParseIntRejectsLead([c] + rest);
  }

  /** The sign and the digits never include a comma. */
  lemma NumeralRejectsComma(t: string, k: int)
    requires 0 <= k < |t| && t[k] == ','
    ensures ParseNumeral(t).None?
  {
    var signed := t[0] == '+' || t[0] == '-';
    var body := if signed then t[1..] else t;
    var i := if signed then k - 1 else k;
    assert 0 <= i < |body| && body[i] == ',';
    GroupsCharacters(body);
  }

  /** No integer literal contains a comma, so `int("2, 3")` raises. */
  lemma ParseIntRejectsComma(s: string, j: int)
    requires 0 <= j < |s| && s[j] == ','
    ensures ParseInt(s).Err?
  {
    StripBounds(s);
    var i, t := LeadingSpaces(s), Strip(s);
    assert i <= j < i + |t| by {
      assert !IsIntSpace(s[j]);
    }
    assert t[j - i] == s[j];
    NumeralRejectsComma(t, j - i);
  }

  // ----------------------------------------------------------------------
  // `str.split(sep)` and `sep.join(pieces)`

  /** The index of the first `c` in `s`, or `|s|` when there is none. */
  function Find(s: string, c: char): (i: nat)
    ensures i <= |s|
    ensures forall k :: 0 <= k < i ==> s[k] != c
    ensures i < |s| ==> s[i] == c
  {
    if s == [] || s[0] == c then 0 else 1 + Find(s[1..], c)
  }

  /** The first `c` in `s` is at `i` when `s[i]` is one and none comes before. */
  lemma FindFirst(s: string, c: char, i: int)
    requires 0 <= i < |s| && s[i] == c
    requires forall k :: 0 <= k < i ==> s[k] != c
    ensures Find(s, c) == i
  {
  }

  /** `sep.join(pieces)`. */
  function Join(pieces: seq<string>, sep: string): string {
    if |pieces| == 0 then ""
    else if |pieces| == 1 then pieces[0]
    else pieces[0] + sep + Join(pieces[1..], sep)
  }

  /** `s.split(sep)` for a one-character separator: the pieces between the
      separators, so that joining them back with `sep` gives `s`. */
  function Split(s: string, sep: char): (pieces: seq<string>)
    ensures |pieces| >= 1
    ensures forall k :: 0 <= k < |pieces| ==> sep !in pieces[k]
    ensures Join(pieces, [sep]) == s
    decreases |s|
  {
    var i := Find(s, sep);
    if i == |s| then
      [s]
    else
      var rest := Split(s[i + 1..], sep);
      var pieces := [s[..i]] + rest;
      assert pieces[1..] == rest;
      assert s == s[..i] + [sep] + s[i + 1..];
      pieces
  }

  /** Splitting undoes joining, when no piece contains the separator. */
  lemma {:induction false} SplitJoin(pieces: seq<string>, sep: char)
    requires |pieces| >= 1
    requires forall k :: 0 <= k < |pieces| ==> sep !in pieces[k]
    ensures Split(Join(pieces, [sep]), sep) == pieces
  {
    if |pieces| > 1 {
      var head, tail := pieces[0], Join(pieces[1..], [sep]);
      var s := head + [sep] + tail;
      assert Find(s, sep) == |head| by {
        assert s[|head|] == sep;
        assert forall k :: 0 <= k < |head| ==> s[k] == head[k];
      }
      assert s[..|head|] == head && s[|head| + 1..] == tail;
      SplitJoin(pieces[1..], sep);
    } else {
      assert Find(pieces[0], sep) == |pieces[0]|;
    }
  }

  // ----------------------------------------------------------------------
  // Case-insensitive substring search

  /** Lower-casing of one ASCII letter; other characters are left as they are. */
  function LowerChar(c: char): char {
    if 'A' <= c <= 'Z' then (c as int + 32) as char else c
  }

  predicate IsUpper(c: char) {
    'A' <= c <= 'Z'
  }

  /** `s.lower()`, restricted to ASCII letters. */
  function Lower(s: string): (r: string)
    ensures |r| == |s|
    ensures forall i :: 0 <= i < |s| ==> r[i] == LowerChar(s[i])
    ensures forall i :: 0 <= i < |r| ==> !IsUpper(r[i])
  {
    if s == [] then [] else [LowerChar(s[0])] + Lower(s[1..])
  }

  predicate StartsWith(s: string, prefix: string) {
    |prefix| <= |s| && s[..|prefix|] == prefix
  }

  /** `needle in haystack` for strings. */
  predicate Contains(haystack: string, needle: string)
    decreases |haystack|
  {
    StartsWith(haystack, needle) || (haystack != [] && Contains(haystack[1..], needle))
  }

  /** `needle` occurs in `haystack` starting at index `i`. */
  predicate OccursAt(haystack: string, needle: string, i: int) {
    0 <= i && i + |needle| <= |haystack| && haystack[i..i + |needle|] == needle
  }

  /** `Contains` says that `needle` occurs at some position of `haystack`. */
  lemma {:induction false} ContainsAt(haystack: string, needle: string)
    ensures Contains(haystack, needle) <==> exists i :: OccursAt(haystack, needle, i)
  {
    if haystack != [] {
      ContainsAt(haystack[1..], needle);
      if i :| OccursAt(haystack, needle, i) {
        if i > 0 {
          assert haystack[1..][i - 1..i - 1 + |needle|] == needle;
          assert OccursAt(haystack[1..], needle, i - 1);
        }
      }
      if Contains(haystack[1..], needle) && !StartsWith(haystack, needle) {
        var j :| OccursAt(haystack[1..], needle, j);
        assert haystack[j + 1..j + 1 + |needle|] == needle;
        assert OccursAt(haystack, needle, j + 1);
      }
      if StartsWith(haystack, needle) {
        assert OccursAt(haystack, needle, 0);
      }
    } else {
      if i :| OccursAt(haystack, needle, i) {
        assert StartsWith(haystack, needle);
      }
      if StartsWith(haystack, needle) {
        assert OccursAt(haystack, needle, 0);
      }
    }
  }
}
