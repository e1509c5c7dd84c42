/**
 * The response interpreter: `safe_json_parse`, which tolerates prose
 * around the JSON object the model was asked for, and the normalisation of
 * the `JD Match` field before it is shown as a gauge.
 *
 * The JSON decoder `json.loads` is an oracle: a partial function from
 * strings to values of an unspecified type `J`, `None` where it raises.
 */
module Interpretation {
  import opened Wrappers
  import opened PyText

  const InvalidFormat := "Invalid response format"
  const ParseFailed := "Failed to parse JSON"

  /** What `safe_json_parse` returns: a decoded value, or the record `{"error": error, "raw": raw}`. */
  datatype Parsed<J> = Decoded(value: J) | ErrorRecord(error: string, raw: string)

  // ---------------------------------------------------------------- the pattern \{.*\}

  /**
   * `s[i..j]` is a match of `\{.*\}` under `re.DOTALL`: it opens with `{`,
   * closes with `}`, and any characters, line breaks included, lie between.
   */
  predicate BraceMatch(s: string, i: int, j: int) {
    0 <= i && i + 2 <= j <= |s| && s[i] == '{' && s[j - 1] == '}'
  }

  /** The position of the first `c` in `s`, `|s|` when there is none. */
  function FirstIndexOf(s: string, c: char): (k: nat)
    ensures k <= |s|
    ensures forall j :: 0 <= j < k ==> s[j] != c
    ensures k < |s| ==> s[k] == c
  {
    if s == [] || s[0] == c then 0 else 1 + FirstIndexOf(s[1..], c)
  }

  /** The position of the last `c` in `s`, `-1` when there is none. */
  function LastIndexOf(s: string, c: char): (k: int)
    ensures -1 <= k < |s|
    ensures forall j :: k < j < |s| ==> s[j] != c
    ensures k >= 0 ==> s[k] == c
  {
    if s == [] then -1
    else if s[|s| - 1] == c then |s| - 1
    else LastIndexOf(s[..|s| - 1], c)
  }

  /**
   * `re.search(r"\{.*\}", s, re.DOTALL)`: the bounds of the match the
   * backtracking engine reports. It starts at the leftmost position where
   * any match starts and, `.*` being greedy, ends at the furthest end
   * possible from there; `None` when nothing matches.
   */
  function BraceSearch(s: string): (r: Option<(nat, nat)>)
    ensures r.None? <==> forall i, j :: !BraceMatch(s, i, j)
    ensures r.Some? ==> BraceMatch(s, r.value.0, r.value.1)
    ensures r.Some? ==> forall i, j :: BraceMatch(s, i, j) ==> r.value.0 <= i
    ensures r.Some? ==> forall j :: BraceMatch(s, r.value.0, j) ==> j <= r.value.1
  {
    var i := FirstIndexOf(s, '{');
    var k := LastIndexOf(s, '}');
    if i < k then
      assert BraceMatch(s, i, k + 1);
      Some((i, k + 1))
    else
      assert forall a, b :: BraceMatch(s, a, b) ==> i <= a && b - 1 <= k;
      None
  }

  // ---------------------------------------------------------------- safe_json_parse

  /**
   * `safe_json_parse(response)` with decoder `loads`: the whole response if
   * it decodes; otherwise the span that `\{.*\}` finds, if it decodes;
   * otherwise an error record carrying the response untouched.
   */
  function SafeJsonParse<J>(response: string, loads: string -> Option<J>): (r: Parsed<J>)
    ensures r.ErrorRecord? ==> r.raw == response
    ensures r.ErrorRecord? ==> loads(response).None?
    ensures r.ErrorRecord? ==> (r.error == InvalidFormat <==> BraceSearch(response).None?)
    ensures r.ErrorRecord? ==> r.error == InvalidFormat || r.error == ParseFailed
    // "Failed to parse JSON" only when the span found does not decode either
    ensures r.ErrorRecord? && BraceSearch(response).Some? ==>
      loads(response[BraceSearch(response).value.0..BraceSearch(response).value.1]).None?
    // a decoded value is that of the whole response, or else that of the span found
    ensures r.Decoded? ==>
      || loads(response) == Some(r.value)
      || (&& loads(response).None? && BraceSearch(response).Some?
          && loads(response[BraceSearch(response).value.0..BraceSearch(response).value.1]) == Some(r.value))
  {
    match loads(response)
    case Some(v) => Decoded(v)
    case None =>
      match BraceSearch(response)
      case None => ErrorRecord(InvalidFormat, response)
      case Some((i, j)) =>
        match loads(response[i..j])
        case Some(v) => Decoded(v)
        case None => ErrorRecord(ParseFailed, response)
  }

  /** A response that decodes as a whole is returned decoded, whatever it contains. */
  lemma WholeResponseFirst<J>(response: string, loads: string -> Option<J>)
    requires loads(response).Some?
    ensures SafeJsonParse(response, loads) == Decoded(loads(response).value)
  {
  }

  /**
   * Once the whole response fails to decode and the pattern finds a span,
   * the result is the span decoded when it decodes, and the
   * "Failed to parse JSON" record otherwise.
   */
  lemma SpanFallback<J>(response: string, loads: string -> Option<J>)
    requires loads(response).None? && BraceSearch(response).Some?
    ensures var span := BraceSearch(response).value;
      SafeJsonParse(response, loads) ==
        match loads(response[span.0..span.1])
        case Some(v) => Decoded(v)
        case None => ErrorRecord(ParseFailed, response)
  {
  }

  /** With no `{` before it and no `}` after it, the span searched for is exactly the embedded object. */
  lemma EmbeddedSpan(before: string, body: string, after: string)
    requires '{' !in before && '}' !in after
    requires |body| >= 2 && body[0] == '{' && body[|body| - 1] == '}'
    ensures BraceSearch(before + body + after) == Some((|before|, |before| + |body|))
  {
    var s := before + body + after;
    var a, b := |before|, |before| + |body|;
    assert s[a] == body[0] && s[b - 1] == body[|body| - 1];
    assert BraceMatch(s, a, b);
    var span := BraceSearch(s).value;
    assert forall k :: 0 <= k < a ==> s[k] == before[k];
    assert forall k :: b <= k < |s| ==> s[k] == after[k - b];
    assert span.0 == a;
    assert span.1 == b;
  }

  /**
   * A JSON object wrapped in prose is recovered: when the text before it has
   * no `{` and the text after it has no `}`, the span searched for is the
   * object itself, and the result is the object decoded on its own.
   */
  lemma EmbeddedObjectRecovered<J>(before: string, body: string, after: string, loads: string -> Option<J>)
    requires '{' !in before && '}' !in after
    requires |body| >= 2 && body[0] == '{' && body[|body| - 1] == '}'
    requires loads(before + body + after).None? && loads(body).Some?
    ensures SafeJsonParse(before + body + after, loads) == Decoded(loads(body).value)
  {
    var s := before + body + after;
    EmbeddedSpan(before, body, after);
    assert s[|before|..|before| + |body|] == body;
  }

  /** The "Invalid response format" record is returned exactly when nothing decodes and no `{` is followed by a `}`. */
  lemma InvalidFormatIff<J>(response: string, loads: string -> Option<J>)
    ensures SafeJsonParse(response, loads) == ErrorRecord(InvalidFormat, response) <==>
      loads(response).None? &&
      forall i, j :: 0 <= i < j < |response| ==> !(response[i] == '{' && response[j] == '}')
  {
    if loads(response).None? {
      if exists i, j :: 0 <= i < j < |response| && response[i] == '{' && response[j] == '}' {
        var i, j :| 0 <= i < j < |response| && response[i] == '{' && response[j] == '}';
        assert BraceMatch(response, i, j + 1);
      }
    }
  }

  /** Whatever is decoded was decoded from the whole response or from an infix of it. */
  lemma DecodedFromInfix<J>(response: string, loads: string -> Option<J>)
    requires SafeJsonParse(response, loads).Decoded?
    ensures exists i, j :: 0 <= i <= j <= |response| && loads(response[i..j]) == Some(SafeJsonParse(response, loads).value)
  {
    if loads(response).Some? {
      assert response[0..|response|] == response;
    } else {
      var span := BraceSearch(response).value;
      assert loads(response[span.0..span.1]) == Some(SafeJsonParse(response, loads).value);
    }
  }

  // ---------------------------------------------------------------- JD Match

  /**
   * `int(parsed["JD Match"].replace("%", "").strip())`. The argument is the
   * field's value when it is a string, `None` when the key is missing or
   * the value is not a string (the expression then raises); `None` as
   * result means the expression raised and the caller shows the raw record.
   */
  function MatchPercent(field: Option<string>): (r: Option<int>)
    ensures field.None? ==> r.None?
    ensures r.Some? ==> exists k :: 0 <= k < |field.value| && IsDigit(field.value[k])
  {
    match field
    case None => None
    case Some(s) =>
      DigitSurvivesNormalisation(s);
      ParseInt(Strip(RemoveAll(s, '%')))
  }

  /** A digit that `int()` finds after the signs are removed and the text stripped was in the field. */
  lemma DigitSurvivesNormalisation(s: string)
    ensures ParseInt(Strip(RemoveAll(s, '%'))).Some? ==> exists k :: 0 <= k < |s| && IsDigit(s[k])
  {
    var r := Strip(RemoveAll(s, '%'));
    if ParseInt(r).Some? {
      var k :| 0 <= k < |r| && IsDigit(r[k]);
      StripIsTrimmedInfix(RemoveAll(s, '%'));
      assert r[k] in RemoveAll(s, '%');
      RemoveAllKeeps(s, '%');
    }
  }

  predicate SpaceOrPercent(s: string) {
    forall k :: 0 <= k < |s| ==> IsSpace(s[k]) || s[k] == '%'
  }

  lemma {:induction false} RemovePercentLeavesSpace(s: string)
    requires SpaceOrPercent(s)
    ensures AllSpace(RemoveAll(s, '%'))
    decreases |s|
  {
    if s != [] {
      RemovePercentLeavesSpace(s[1..]);
    }
  }

  /** A decimal rendering holds no percent sign. */
  lemma RenderedHasNoPercent(n: int)
    ensures '%' !in IntString(n)
  {
    var ds := DecimalString(if n < 0 then -n else n);
    assert forall k :: 0 <= k < |ds| ==> IsDigit(ds[k]);
  }

  /**
   * Any integer written in decimal, with whitespace and percent signs
   * around it, normalises to that integer: `"83%"`, `"83"` and `" 83 % "`
   * all give 83.
   */
  lemma MatchPercentOfRendered(before: string, n: int, after: string)
    requires SpaceOrPercent(before) && SpaceOrPercent(after)
    ensures MatchPercent(Some(before + IntString(n) + after)) == Some(n)
  {
    var d := IntString(n);
    RenderedHasNoPercent(n);
    RemoveAbsent(d, '%');
    RemoveAllAppend(before + d, after, '%');
    RemoveAllAppend(before, d, '%');
    RemovePercentLeavesSpace(before);
    RemovePercentLeavesSpace(after);
    var r := RemoveAll(before, '%') + d + RemoveAll(after, '%');
    assert RemoveAll(before + d + after, '%') == r;
    assert !IsSpace(d[0]) && !IsSpace(d[|d| - 1]);
    StripPadded(RemoveAll(before, '%'), d, RemoveAll(after, '%'));
    assert Strip(r) == d;
    IntStringRoundTrip(n);
    assert ParseInt(d) == Some(n);
  }

  /** A field without a single decimal digit never normalises: the caller shows the raw record. */
  lemma WithoutDigitNoValue(s: string)
    requires forall k :: 0 <= k < |s| ==> !IsDigit(s[k])
    ensures MatchPercent(Some(s)) == None
  {
    if MatchPercent(Some(s)).Some? {
      assert false;
    }
  }

  /** `"N/A"` does not normalise: the caller falls back on showing the raw record. */
  lemma MatchPercentRejectsNotApplicable()
    ensures MatchPercent(Some("N/A")) == None
  {
    var s := "N/A";
    assert forall k :: 0 <= k < |s| ==> !IsDigit(s[k]);
    WithoutDigitNoValue(s);
  }

  lemma {:induction false} RemovePercentSign(a: string, b: string)
    ensures RemoveAll(a + "%" + b, '%') == RemoveAll(a + b, '%')
  {
    var p := "%";
    assert p[0] == '%' && p[1..] == "";
    assert RemoveAll(p, '%') == "";
    RemoveAllAppend(a + p, b, '%');
    RemoveAllAppend(a, p, '%');
    RemoveAllAppend(a, b, '%');
    var ra := RemoveAll(a, '%');
    assert RemoveAll(a + p, '%') == ra + "" == ra;
  }

  /** Percent signs are dropped wherever they stand, so `"8%3"` normalises like `"83"`. */
  lemma PercentSignsIgnoredAnywhere(a: string, b: string)
    ensures MatchPercent(Some(a + "%" + b)) == MatchPercent(Some(a + b))
  {
    RemovePercentSign(a, b);
  }
}
