/**
 * The parts of Python's `str` behaviour that the application relies on:
 * `isspace`, `strip`, `split` on a one-character separator, `replace` of a
 * one-character pattern by the empty string, concatenation with `+=`, and
 * the string-to-integer conversion `int(s)`.
 */
module PyText {
  import opened Wrappers

  /** The characters for which Python's `str.isspace()` holds; `strip()` and `int()` skip exactly these. */
  predicate IsSpace(c: char) {
    || c == ' '
    || ('\t' <= c <= '\r')
    || ('\U{1C}' <= c <= '\U{1F}')
    || c == '\U{85}' || c == '\U{A0}' || c == '\U{1680}'
    || ('\U{2000}' <= c <= '\U{200A}')
    || c == '\U{2028}' || c == '\U{2029}' || c == '\U{202F}' || c == '\U{205F}' || c == '\U{3000}'
  }

  predicate AllSpace(s: string) {
    forall k :: 0 <= k < |s| ==> IsSpace(s[k])
  }

  // ---------------------------------------------------------------- strip

  /** How many whitespace characters `s` starts with. */
  function LeadingSpace(s: string): (n: nat)
    ensures n <= |s|
    ensures forall k :: 0 <= k < n ==> IsSpace(s[k])
    ensures n < |s| ==> !IsSpace(s[n])
  {
    if |s| > 0 && IsSpace(s[0]) then
      var n := 1 + LeadingSpace(s[1..]);
      assert forall k :: 1 <= k < n ==> s[k] == s[1..][k - 1];
      n
    else 0
  }

  /** How many whitespace characters `s` ends with. */
  function TrailingSpace(s: string): (n: nat)
    ensures n <= |s|
    ensures forall k :: |s| - n <= k < |s| ==> IsSpace(s[k])
    ensures n < |s| ==> !IsSpace(s[|s| - 1 - n])
  {
    if |s| > 0 && IsSpace(s[|s| - 1]) then
      var n := 1 + TrailingSpace(s[..|s| - 1]);
      assert forall k :: |s| - n <= k < |s| - 1 ==> s[k] == s[..|s| - 1][k];
      n
    else 0
  }

  /** `s` neither starts nor ends with whitespace. */
  predicate Unpadded(s: string) {
    s == [] || (!IsSpace(s[0]) && !IsSpace(s[|s| - 1]))
  }

  /** Python's `s.strip()` with no argument: never longer, and without whitespace at either end. */
  function Strip(s: string): (r: string)
    ensures |r| <= |s| && Unpadded(r)
  {
    var t := s[LeadingSpace(s)..];
    var r := t[..|t| - TrailingSpace(t)];
    assert r != [] ==> r[0] == t[0] && r[|r| - 1] == t[|t| - 1 - TrailingSpace(t)];
    r
  }

  /**
   * `Strip(s)` is the infix `s[i..j]` left when the leading and trailing
   * whitespace is cut away: everything cut is whitespace, and the infix
   * neither starts nor ends with whitespace.
   */
  lemma StripIsTrimmedInfix(s: string)
    ensures exists i, j ::
      && 0 <= i <= j <= |s| && Strip(s) == s[i..j]
      && (forall k :: 0 <= k < i ==> IsSpace(s[k]))
      && (forall k :: j <= k < |s| ==> IsSpace(s[k]))
      && (i < j ==> !IsSpace(s[i]) && !IsSpace(s[j - 1]))
  {
    var i := LeadingSpace(s);
    var t := s[i..];
    var n := TrailingSpace(t);
    var j := |s| - n;
    assert Strip(s) == t[..|t| - n] == s[i..j];
    assert forall k :: j <= k < |s| ==> IsSpace(s[k]) by {
      forall k | j <= k < |s| ensures IsSpace(s[k]) {
        assert s[k] == t[k - i];
      }
    }
    assert i < j ==> !IsSpace(s[i]) && !IsSpace(s[j - 1]) by {
      if i < j {
        assert s[i] == t[0];
        assert s[j - 1] == t[|t| - 1 - n];
      }
    }
    assert forall k :: 0 <= k < i ==> IsSpace(s[k]);
  }

  /** A string strips to nothing exactly when it is all whitespace. */
  lemma StripEmptyIff(s: string)
    ensures Strip(s) == [] <==> AllSpace(s)
  {
    var i := LeadingSpace(s);
    var t := s[i..];
    if i < |s| {
      assert t[0] == s[i];
      assert TrailingSpace(t) < |t|;
    }
  }

  /** Stripping twice is stripping once. */
  lemma StripIdempotent(s: string)
    ensures Strip(Strip(s)) == Strip(s)
  {
    var r := Strip(s);
    StripIsTrimmedInfix(s);
    if r != [] {
      StripUnpadded(r);
    }
  }

  /** A string with no whitespace at either end is its own strip. */
  lemma StripUnpadded(s: string)
    requires s == [] || (!IsSpace(s[0]) && !IsSpace(s[|s| - 1]))
    ensures Strip(s) == s
  {
    if s != [] {
      assert LeadingSpace(s) == 0;
      assert TrailingSpace(s) == 0;
    }
  }

  /** Whitespace around a string that neither starts nor ends with whitespace is exactly what `strip()` removes. */
  lemma StripPadded(before: string, core: string, after: string)
    requires AllSpace(before) && AllSpace(after)
    requires core != [] && !IsSpace(core[0]) && !IsSpace(core[|core| - 1])
    ensures Strip(before + core + after) == core
  {
    var s := before + core + after;
    assert s[|before|] == core[0];
    var i := LeadingSpace(s);
    assert i == |before|;
    var t := s[i..];
    assert t == core + after;
    assert t[|core| - 1] == core[|core| - 1];
    assert TrailingSpace(t) == |after|;
    assert t[..|core|] == core;
  }

  // ---------------------------------------------------------------- concatenation

  /** The string that a loop of `text += piece` over `pieces` leaves, starting from `""`. */
  function Concat(pieces: seq<string>): string {
    if pieces == [] then "" else Concat(pieces[..|pieces| - 1]) + pieces[|pieces| - 1]
  }

  /** The accumulated string is empty exactly when every piece is. */
  lemma {:induction false} ConcatEmptyIff(pieces: seq<string>)
    ensures Concat(pieces) == [] <==> forall k :: 0 <= k < |pieces| ==> pieces[k] == []
  {
    if pieces != [] {
      var init := pieces[..|pieces| - 1];
      ConcatEmptyIff(init);
      assert forall k :: 0 <= k < |init| ==> init[k] == pieces[k];
    }
  }

  lemma {:induction false} ConcatAppend(a: seq<string>, b: seq<string>)
    ensures Concat(a + b) == Concat(a) + Concat(b)
    decreases |b|
  {
    if b == [] {
      assert a + b == a;
    } else {
      var b' := b[..|b| - 1];
      assert (a + b)[..|a + b| - 1] == a + b';
      ConcatAppend(a, b');
    }
  }

  /** The offset at which the `i`-th piece starts inside `Concat(pieces)`. */
  function Offset(pieces: seq<string>, i: nat): nat
    requires i <= |pieces|
  {
    |Concat(pieces[..i])|
  }

  /** Concatenation keeps every piece, unchanged and in order, at its offset. */
  lemma PieceAtOffset(pieces: seq<string>, i: nat)
    requires i < |pieces|
    ensures Offset(pieces, i) + |pieces[i]| <= |Concat(pieces)|
    ensures Concat(pieces)[Offset(pieces, i)..Offset(pieces, i) + |pieces[i]|] == pieces[i]
    ensures Offset(pieces, i + 1) == Offset(pieces, i) + |pieces[i]|
  {
    assert pieces == pieces[..i] + [pieces[i]] + pieces[i + 1..];
    ConcatAppend(pieces[..i] + [pieces[i]], pieces[i + 1..]);
    assert (pieces[..i] + [pieces[i]])[..i] == pieces[..i];
    assert pieces[..i + 1] == pieces[..i] + [pieces[i]];
  }

  // ---------------------------------------------------------------- split and join

  /** Python's `s.split(sep)` for a one-character separator: `k` separators give `k + 1` parts. */
  function Split(s: string, sep: char): (parts: seq<string>)
    ensures |parts| >= 1
  {
    if s == [] then [""]
    else
      var rest := Split(s[1..], sep);
      if s[0] == sep then [""] + rest
      else [[s[0]] + rest[0]] + rest[1..]
  }

  /** Python's `sep.join(parts)`. */
  predicate SeparatorFree(parts: seq<string>, sep: char) {
    forall i :: 0 <= i < |parts| ==> sep !in parts[i]
  }

  /** Python's `sep.join(parts)`. */
  function Join(parts: seq<string>, sep: char): string {
    if parts == [] then ""
    else if |parts| == 1 then parts[0]
    else parts[0] + [sep] + Join(parts[1..], sep)
  }

  /** `k` separators give `k + 1` parts. */
  lemma {:induction false} SplitCount(s: string, sep: char)
    ensures |Split(s, sep)| == multiset(s)[sep] + 1
    decreases |s|
  {
    if s != [] {
      SplitCount(s[1..], sep);
      assert s == [s[0]] + s[1..];
    }
  }

  /** Joining separator-free parts puts exactly one separator between two parts. */
  lemma {:induction false} JoinCount(parts: seq<string>, sep: char)
    requires parts != [] && SeparatorFree(parts, sep)
    ensures multiset(Join(parts, sep))[sep] == |parts| - 1
    decreases |parts|
  {
    assert multiset(parts[0])[sep] == 0;
    if |parts| > 1 {
      assert SeparatorFree(parts[1..], sep) by {
        assert forall i :: 0 <= i < |parts| - 1 ==> parts[1..][i] == parts[i + 1];
      }
      JoinCount(parts[1..], sep);
    }
  }

  /** Splitting loses nothing: joining the parts back gives the original, and no part holds a separator. */
  lemma {:induction false} JoinSplit(s: string, sep: char)
    ensures Join(Split(s, sep), sep) == s
    ensures SeparatorFree(Split(s, sep), sep)
    decreases |s|
  {
    if s != [] {
      var rest := Split(s[1..], sep);
      JoinSplit(s[1..], sep);
      if s[0] == sep {
        assert ([""] + rest)[1..] == rest;
      } else {
        var parts := [[s[0]] + rest[0]] + rest[1..];
        assert parts[1..] == rest[1..];
        if |rest| == 1 {
          assert Join(rest, sep) == rest[0];
        } else {
          assert Join(rest, sep) == rest[0] + [sep] + Join(rest[1..], sep);
        }
        assert sep !in [s[0]] + rest[0];
        forall i | 0 <= i < |parts| ensures sep !in parts[i] {
          if i > 0 { assert parts[i] == rest[i]; }
        }
      }
    }
  }

  /** And the other way: separator-free parts survive a join followed by a split. */
  lemma {:induction false} SplitJoin(parts: seq<string>, sep: char)
    requires |parts| >= 1 && SeparatorFree(parts, sep)
    ensures Split(Join(parts, sep), sep) == parts
    decreases |parts|, |parts[0]|
  {
    if |parts| == 1 {
      SplitSeparatorFree(parts[0], sep);
    } else if parts[0] == [] {
      assert Join(parts, sep) == [sep] + Join(parts[1..], sep);
      assert ([sep] + Join(parts[1..], sep))[1..] == Join(parts[1..], sep);
      SplitJoin(parts[1..], sep);
      assert [""] + parts[1..] == parts;
    } else {
      var p := parts[0];
      var shorter := [p[1..]] + parts[1..];
      assert shorter[1..] == parts[1..];
      assert sep !in p[1..] by { assert forall c | c in p[1..] :: c in p; }
      SplitJoin(shorter, sep);
      var j := Join(parts, sep);
      assert j == [p[0]] + Join(shorter, sep);
      assert j[1..] == Join(shorter, sep);
      assert j[0] == p[0] && p[0] != sep;
      assert [p[0]] + p[1..] == p;
    }
  }

  lemma {:induction false} SplitSeparatorFree(s: string, sep: char)
    requires sep !in s
    ensures Split(s, sep) == [s]
    decreases |s|
  {
    if s != [] {
      assert sep !in s[1..] by { assert forall c | c in s[1..] :: c in s; }
      SplitSeparatorFree(s[1..], sep);
      assert [s[0]] + s[1..] == s;
    }
  }

  // ---------------------------------------------------------------- replace

  /** Python's `s.replace(c, "")`: every occurrence of `c` removed, the rest kept in order. */
  function RemoveAll(s: string, c: char): (r: string)
    ensures c !in r
    ensures |r| <= |s|
  {
    if s == [] then ""
    else (if s[0] == c then "" else [s[0]]) + RemoveAll(s[1..], c)
  }

  /** Removing a character keeps only characters of the original. */
  lemma {:induction false} RemoveAllKeeps(s: string, c: char)
    ensures forall x :: x in RemoveAll(s, c) ==> x in s
    decreases |s|
  {
    if s != [] {
      RemoveAllKeeps(s[1..], c);
      assert forall x :: x in s[1..] ==> x in s;
    }
  }

  lemma {:induction false} RemoveAbsent(s: string, c: char)
    requires c !in s
    ensures RemoveAll(s, c) == s
    decreases |s|
  {
    if s != [] {
      assert c !in s[1..] by { assert forall x | x in s[1..] :: x in s; }
      RemoveAbsent(s[1..], c);
      assert [s[0]] + s[1..] == s;
    }
  }

  lemma {:induction false} RemoveAllAppend(a: string, b: string, c: char)
    ensures RemoveAll(a + b, c) == RemoveAll(a, c) + RemoveAll(b, c)
    decreases |a|
  {
    if a != [] {
      assert (a + b)[1..] == a[1..] + b;
      RemoveAllAppend(a[1..], b, c);
    } else {
      assert a + b == b;
    }
  }

  // ---------------------------------------------------------------- int()

  predicate IsDigit(c: char) { '0' <= c <= '9' }

  function DigitValue(c: char): nat
    requires IsDigit(c)
  {
    c as int - '0' as int
  }

  function DigitChar(d: nat): (c: char)
    requires d < 10
    ensures IsDigit(c) && DigitValue(c) == d
  {
    ('0' as int + d) as char
  }

  predicate AllDigits(s: string) {
    forall k :: 0 <= k < |s| ==> IsDigit(s[k])
  }

  /** The value of a string of decimal digits, most significant first. */
  function DecimalValue(s: string): nat
    requires AllDigits(s)
  {
    if s == [] then 0 else DecimalValue(s[..|s| - 1]) * 10 + DigitValue(s[|s| - 1])
  }

  /** The decimal rendering of `n`, as Python's `str(n)` writes it. */
  function DecimalString(n: nat): (s: string)
    ensures |s| >= 1 && AllDigits(s)
  {
    if n < 10 then [DigitChar(n)] else DecimalString(n / 10) + [DigitChar(n % 10)]
  }

  /** Python's `str(i)` for any integer: a minus sign exactly for negatives, then decimal digits. */
  function IntString(i: int): (r: string)
    ensures |r| >= 1 && (r[0] == '-' <==> i < 0)
    ensures forall k :: (if i < 0 then 1 else 0) <= k < |r| ==> IsDigit(r[k])
    ensures i < 0 ==> |r| >= 2
  {
    var d := DecimalString(if i < 0 then -i else i);
    assert IsDigit(d[0]);
    if i < 0 then "-" + d else d
  }

  lemma {:induction false} DecimalRoundTrip(n: nat)
    ensures DecimalValue(DecimalString(n)) == n
  {
    if n >= 10 {
      DecimalRoundTrip(n / 10);
      var s := DecimalString(n);
      assert s[..|s| - 1] == DecimalString(n / 10);
    }
  }

  /**
   * The digits of an integer literal as `int()` accepts it: digits, with
   * single underscores allowed between two digits.
   */
  predicate IsDigitRun(s: string) {
    && |s| > 0 && IsDigit(s[0]) && IsDigit(s[|s| - 1])
    && (forall k :: 0 <= k < |s| ==> IsDigit(s[k]) || s[k] == '_')
    && (forall k :: 0 < k < |s| ==> s[k - 1] == '_' ==> s[k] != '_')
  }

  lemma {:induction false} RemoveUnderscoresDigits(s: string)
    requires forall k :: 0 <= k < |s| ==> IsDigit(s[k]) || s[k] == '_'
    ensures AllDigits(RemoveAll(s, '_'))
    decreases |s|
  {
    if s != [] {
      RemoveUnderscoresDigits(s[1..]);
    }
  }

  /** The value of a digit run, underscores ignored. */
  function RunValue(s: string): nat
    requires IsDigitRun(s)
  {
    RemoveUnderscoresDigits(s);
    DecimalValue(RemoveAll(s, '_'))
  }

  /** An integer literal without surrounding whitespace: an optional sign, then a digit run. */
  function ParseLiteral(t: string): Option<int> {
    if |t| > 0 && (t[0] == '+' || t[0] == '-') then
      if IsDigitRun(t[1..]) then
        var v: int := RunValue(t[1..]);
        Some(if t[0] == '-' then -v else v)
      else None
    else if IsDigitRun(t) then Some(RunValue(t))
    else None
  }

  /**
   * Python's `int(s)` on a string: surrounding whitespace is ignored, then
   * an optional sign and a digit run; anything else raises `ValueError`,
   * modelled as `None`. Only the ASCII digits are modelled.
   */
  function ParseInt(s: string): (r: Option<int>)
    ensures r.Some? ==> exists k :: 0 <= k < |s| && IsDigit(s[k])
  {
    StrippedLiteralHasDigit(s);
    ParseLiteral(Strip(s))
  }

  /** A decimal rendering is a digit run whose value is the number rendered. */
  lemma DecimalStringIsRun(n: nat)
    ensures IsDigitRun(DecimalString(n)) && RunValue(DecimalString(n)) == n
  {
    var d := DecimalString(n);
    DecimalRoundTrip(n);
    RemoveAbsent(d, '_');
  }

  /** The literal `str(i)` denotes `i`. */
  lemma LiteralRoundTrip(i: int)
    ensures ParseLiteral(IntString(i)) == Some(i)
  {
    var n := if i < 0 then -i else i;
    DecimalStringIsRun(n);
    var s := IntString(i);
    if i < 0 {
      assert s[1..] == DecimalString(n);
    } else {
      assert IsDigit(s[0]);
    }
  }

  /** `int(str(i)) == i` for every integer `i`. */
  lemma IntStringRoundTrip(i: int)
    ensures ParseInt(IntString(i)) == Some(i)
  {
    var s := IntString(i);
    var d := DecimalString(if i < 0 then -i else i);
    assert IsDigit(d[0]) && IsDigit(d[|d| - 1]);
    assert !IsSpace(s[0]) && !IsSpace(s[|s| - 1]);
    StripUnpadded(s);
    LiteralRoundTrip(i);
  }

  /** A literal `int()` accepts after stripping holds a digit of the original string. */
  lemma StrippedLiteralHasDigit(s: string)
    ensures ParseLiteral(Strip(s)).Some? ==> exists k :: 0 <= k < |s| && IsDigit(s[k])
  {
    StripIsTrimmedInfix(s);
    var i, j :| 0 <= i <= j <= |s| && Strip(s) == s[i..j];
    var t := Strip(s);
    if ParseLiteral(t).Some? {
      if |t| > 0 && (t[0] == '+' || t[0] == '-') {
        assert IsDigit(t[1]) && t[1] == s[i + 1];
      } else {
        assert IsDigit(t[0]) && t[0] == s[i];
      }
    }
  }

}
