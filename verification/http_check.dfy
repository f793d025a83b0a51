/**
 The classifying part of the HTTP check: the status-code verdict, computed by
 looking for the status code's decimal text inside the rendered tier lists, and
 the response-time verdict, computed by comparing the measured duration with
 three inclusive bounds. The request itself is not modelled: its status code and
 measured duration are inputs.
 */
module HttpCheck {
  import opened GoStrings
  import opened Strconv
  import opened StatusCodes
  import opened Verdicts

  /** Some element of `xs` has `text` as a substring. */
  predicate AnyContains(xs: seq<string>, text: string)
  {
    exists k :: 0 <= k < |xs| && Contains(xs[k], text)
  }

  /** An element is a substring of itself, so a listed text is always found. */
  lemma MemberIsContained(xs: seq<string>, text: string)
    requires text in xs
    ensures AnyContains(xs, text)
  {
    var k :| 0 <= k < |xs| && xs[k] == text;
    ContainsSameLength(xs[k], text);
  }

  /** With every element as long as `text`, containing it in an element means listing it. */
  lemma AnyContainsSameWidth(xs: seq<string>, text: string)
    requires forall k :: 0 <= k < |xs| ==> |xs[k]| == |text|
    ensures AnyContains(xs, text) <==> text in xs
  {
    if AnyContains(xs, text) {
      var k :| 0 <= k < |xs| && Contains(xs[k], text);
      ContainsSameLength(xs[k], text);
    }
    if text in xs {
      MemberIsContained(xs, text);
    }
  }

  /**
   The status-code verdict as the check computes it: the decimal text of the code
   is looked for, as a substring, in the rendered ok list, then the warn list,
   then the err list; the first list it occurs in decides.
   Because that text has no spaces or brackets, "occurs in the rendered list"
   means "occurs inside one of the list's elements".
   */
  function ClassifyStatus(code: int, tiers: StatusTiers): (v: Verdict)
    ensures v == Ok <==> AnyContains(tiers.ok.Elems(), Itoa(code))
    ensures v == Warn <==> !AnyContains(tiers.ok.Elems(), Itoa(code)) && AnyContains(tiers.warn.Elems(), Itoa(code))
    ensures v == Err <==>
              && !AnyContains(tiers.ok.Elems(), Itoa(code))
              && !AnyContains(tiers.warn.Elems(), Itoa(code))
              && AnyContains(tiers.err.Elems(), Itoa(code))
    ensures v == Unknown <==>
              && !AnyContains(tiers.ok.Elems(), Itoa(code))
              && !AnyContains(tiers.warn.Elems(), Itoa(code))
              && !AnyContains(tiers.err.Elems(), Itoa(code))
  {
    var text := Itoa(code);
    ItoaHasNoListPunctuation(code);
    StringContainsIff(tiers.ok, text);
    StringContainsIff(tiers.warn, text);
    StringContainsIff(tiers.err, text);
    if Contains(String(tiers.ok), text) then Ok
    else if Contains(String(tiers.warn), text) then Warn
    else if Contains(String(tiers.err), text) then Err
    else Unknown
  }

  /** A code listed in the ok tier is judged ok, whatever the other tiers hold. */
  lemma ListedOkCodeIsOk(code: int, tiers: StatusTiers)
    requires Itoa(code) in tiers.ok.Elems()
    ensures ClassifyStatus(code, tiers) == Ok
  {
    MemberIsContained(tiers.ok.Elems(), Itoa(code));
  }

  /** A code listed in the warn tier is judged ok or warn, never err or unknown. */
  lemma ListedWarnCodeIsAtMostWarn(code: int, tiers: StatusTiers)
    requires Itoa(code) in tiers.warn.Elems()
    ensures ClassifyStatus(code, tiers) in {Ok, Warn}
  {
    MemberIsContained(tiers.warn.Elems(), Itoa(code));
  }

  /**
   Tier precedence: once the code text occurs in the rendered ok list, the warn
   and err lists cannot change the verdict; once it occurs in the rendered warn
   list, the err list cannot.
   */
  lemma StatusPrecedence(code: int, ok: CodeList, warn: CodeList, err: CodeList, warn': CodeList, err': CodeList)
    ensures Contains(String(ok), Itoa(code)) ==>
              ClassifyStatus(code, StatusTiers(ok, warn, err)) == Ok &&
              ClassifyStatus(code, StatusTiers(ok, warn', err')) == Ok
    ensures Contains(String(warn), Itoa(code)) ==>
              ClassifyStatus(code, StatusTiers(ok, warn, err)) == ClassifyStatus(code, StatusTiers(ok, warn, err'))
  {
    ItoaHasNoListPunctuation(code);
    StringContainsIff(ok, Itoa(code));
    StringContainsIff(warn, Itoa(code));
  }

  /**
   The status-code verdict with exact membership: the code's text must be one of
   the listed codes, not merely occur inside one.
   */
  function ClassifyStatusExact(code: int, tiers: StatusTiers): (v: Verdict)
    ensures v == Ok <==> Itoa(code) in tiers.ok.Elems()
    ensures v == Warn <==> Itoa(code) !in tiers.ok.Elems() && Itoa(code) in tiers.warn.Elems()
    ensures v == Err <==>
              && Itoa(code) !in tiers.ok.Elems()
              && Itoa(code) !in tiers.warn.Elems()
              && Itoa(code) in tiers.err.Elems()
    ensures v == Unknown <==>
              && Itoa(code) !in tiers.ok.Elems()
              && Itoa(code) !in tiers.warn.Elems()
              && Itoa(code) !in tiers.err.Elems()
  {
    var text := Itoa(code);
    if text in tiers.ok.Elems() then Ok
    else if text in tiers.warn.Elems() then Warn
    else if text in tiers.err.Elems() then Err
    else Unknown
  }

  /**
   The substring test can only make the status verdict milder than exact
   membership would: every listed code is also found as a substring.
   */
  lemma SubstringNeverStricter(code: int, tiers: StatusTiers)
    ensures ClassifyStatus(code, tiers).Severity() <= ClassifyStatusExact(code, tiers).Severity()
  {
    var text := Itoa(code);
    if text in tiers.ok.Elems() {
      MemberIsContained(tiers.ok.Elems(), text);
    } else if text in tiers.warn.Elems() {
      MemberIsContained(tiers.warn.Elems(), text);
    } else if text in tiers.err.Elems() {
      MemberIsContained(tiers.err.Elems(), text);
    }
  }

  /**
   When every configured code has exactly as many characters as the status
   code's text, substring search and exact membership give the same verdict.
   */
  lemma SubstringAgreesOnUniformWidth(code: int, tiers: StatusTiers)
    requires forall k :: 0 <= k < |tiers.ok.Elems()| ==> |tiers.ok.Elems()[k]| == |Itoa(code)|
    requires forall k :: 0 <= k < |tiers.warn.Elems()| ==> |tiers.warn.Elems()[k]| == |Itoa(code)|
    requires forall k :: 0 <= k < |tiers.err.Elems()| ==> |tiers.err.Elems()[k]| == |Itoa(code)|
    ensures ClassifyStatus(code, tiers) == ClassifyStatusExact(code, tiers)
  {
    AnyContainsSameWidth(tiers.ok.Elems(), Itoa(code));
    AnyContainsSameWidth(tiers.warn.Elems(), Itoa(code));
    AnyContainsSameWidth(tiers.err.Elems(), Itoa(code));
  }

  /**
   The usual case: a three-digit status code against tiers holding only
   three-character codes is classified by exact membership.
   */
  lemma SubstringAgreesOnThreeDigitCodes(code: int, tiers: StatusTiers)
    requires 100 <= code <= 999
    requires forall k :: 0 <= k < |tiers.ok.Elems()| ==> |tiers.ok.Elems()[k]| == 3
    requires forall k :: 0 <= k < |tiers.warn.Elems()| ==> |tiers.warn.Elems()[k]| == 3
    requires forall k :: 0 <= k < |tiers.err.Elems()| ==> |tiers.err.Elems()[k]| == 3
    ensures ClassifyStatus(code, tiers) == ClassifyStatusExact(code, tiers)
  {
    ItoaThreeDigits(code);
    SubstringAgreesOnUniformWidth(code, tiers);
  }

  /**
   The discrepancy: with `-httpOkStatusCodes 1200` and the other tiers left to
   their defaults, status 200 is judged ok because "200" occurs inside "[1200]",
   although 200 is not a configured ok code and exact membership says unknown.
   */
  lemma SubstringFalsePositive()
    ensures var tiers := ApplyDefaults(StatusTiers(FromFlags(["1200"]), Nil, Nil));
            && Itoa(200) !in tiers.ok.Elems()
            && ClassifyStatus(200, tiers) == Ok
            && ClassifyStatusExact(200, tiers) == Unknown
  {
    SingleFlagValue("1200");
    TwelveHundredTiers(ApplyDefaults(StatusTiers(FromFlags(["1200"]), Nil, Nil)));
  }

  lemma TwelveHundredTiers(tiers: StatusTiers)
    requires tiers.ok.Elems() == ["1200"] && tiers.warn.Elems() == ["400"] && tiers.err.Elems() == ["500"]
    ensures Itoa(200) !in tiers.ok.Elems()
    ensures ClassifyStatus(200, tiers) == Ok
    ensures ClassifyStatusExact(200, tiers) == Unknown
  {
    ItoaOfTwoHundred();
    TwoHundredInsideTwelveHundred();
    assert AnyContains(tiers.ok.Elems(), "200") by {
      assert Contains(tiers.ok.Elems()[0], "200");
    }
  }

  lemma ItoaOfTwoHundred()
    ensures Itoa(200) == "200"
  {
    assert FormatNat(2) == "2";
    assert FormatNat(20) == FormatNat(2) + "0";
    assert FormatNat(200) == FormatNat(20) + "0";
  }

  lemma TwoHundredInsideTwelveHundred()
    ensures Contains("1200", "200")
  {
    assert "1200"[1..] == "200";
    assert HasPrefix("1200"[1..], "200");
  }

  /** A Go `time.Duration`: a signed 64-bit count of nanoseconds. */
  type Duration = d: int | -0x8000_0000_0000_0000 <= d <= 0x7FFF_FFFF_FFFF_FFFF

  const MaxDuration: Duration := 0x7FFF_FFFF_FFFF_FFFF

  /** The response-time flag defaults, 1s, 2s and 3s, in nanoseconds. */
  const DefaultOkTime: Duration := 1_000_000_000
  const DefaultWarnTime: Duration := 2_000_000_000
  const DefaultErrTime: Duration := 3_000_000_000

  /** How many of the three bounds the measured time lies strictly above. */
  function BoundsExceeded(t: Duration, okMax: Duration, warnMax: Duration, errMax: Duration): nat
  {
    (if okMax < t then 1 else 0) + (if warnMax < t then 1 else 0) + (if errMax < t then 1 else 0)
  }

  /**
   The response-time verdict: ok up to and including the ok bound, then warn up
   to and including the warn bound, then err up to and including the err bound,
   and unknown beyond. With ordered bounds the verdict's severity is the number
   of bounds the time exceeds.
   */
  function ClassifyLatency(t: Duration, okMax: Duration, warnMax: Duration, errMax: Duration): (v: Verdict)
    ensures v == Ok <==> t <= okMax
    ensures v == Warn <==> okMax < t <= warnMax
    ensures v == Err <==> okMax < t && warnMax < t && t <= errMax
    ensures v == Unknown <==> okMax < t && warnMax < t && errMax < t
    ensures okMax <= warnMax <= errMax ==> v.Severity() == BoundsExceeded(t, okMax, warnMax, errMax)
  {
    if t <= okMax then Ok
    else if t <= warnMax then Warn
    else if t <= errMax then Err
    else Unknown
  }

  /**
   A longer response time never gets a milder verdict, whether or not the bounds
   are in order (a malformed duration flag gives a zero bound).
   */
  lemma LatencyMonotone(t1: Duration, t2: Duration, okMax: Duration, warnMax: Duration, errMax: Duration)
    requires t1 <= t2
    ensures ClassifyLatency(t1, okMax, warnMax, errMax).Severity() <= ClassifyLatency(t2, okMax, warnMax, errMax).Severity()
  {
  }

  /** Every bound belongs to its own tier; one nanosecond past the err bound is unknown. */
  lemma LatencyBoundaries(okMax: Duration, warnMax: Duration, errMax: Duration)
    requires okMax <= warnMax <= errMax
    ensures ClassifyLatency(okMax, okMax, warnMax, errMax) == Ok
    ensures okMax < warnMax ==> ClassifyLatency(warnMax, okMax, warnMax, errMax) == Warn
    ensures warnMax < errMax ==> ClassifyLatency(errMax, okMax, warnMax, errMax) == Err
    ensures errMax < MaxDuration ==> ClassifyLatency(errMax + 1, okMax, warnMax, errMax) == Unknown
  {
  }

  /** A warn bound at or below the ok bound leaves no time that is judged warn. */
  lemma LatencyWarnUnreachable(t: Duration, okMax: Duration, warnMax: Duration, errMax: Duration)
    requires warnMax <= okMax
    ensures ClassifyLatency(t, okMax, warnMax, errMax) != Warn
  {
  }

  /** The thresholds of one HTTP check, as the flags leave them. */
  datatype HttpThresholds = HttpThresholds(codes: StatusTiers, okTime: Duration, warnTime: Duration, errTime: Duration)

  /** The status-code lists after defaulting and the two verdicts the check logs. */
  datatype HttpVerdicts = HttpVerdicts(codes: StatusTiers, status: Verdict, responseTime: Verdict)

  /** No status-code flag given and the response-time flags at their defaults. */
  const DefaultThresholds := HttpThresholds(StatusTiers(Nil, Nil, Nil), DefaultOkTime, DefaultWarnTime, DefaultErrTime)

  /**
   The classifying steps of the HTTP check for a response with status `statusCode`
   that took `respTime`: default the nil status-code lists, then classify the
   status code against the defaulted lists and the response time against the bounds.
   */
  function CheckHttp(cfg: HttpThresholds, statusCode: int, respTime: Duration): (r: HttpVerdicts)
    ensures r.codes == ApplyDefaults(cfg.codes)
    ensures r.status == Ok <==> AnyContains(r.codes.ok.Elems(), Itoa(statusCode))
    ensures r.status == Warn <==>
              !AnyContains(r.codes.ok.Elems(), Itoa(statusCode)) && AnyContains(r.codes.warn.Elems(), Itoa(statusCode))
    ensures r.status == Err <==>
              && !AnyContains(r.codes.ok.Elems(), Itoa(statusCode))
              && !AnyContains(r.codes.warn.Elems(), Itoa(statusCode))
              && AnyContains(r.codes.err.Elems(), Itoa(statusCode))
    ensures r.status == Unknown <==>
              && !AnyContains(r.codes.ok.Elems(), Itoa(statusCode))
              && !AnyContains(r.codes.warn.Elems(), Itoa(statusCode))
              && !AnyContains(r.codes.err.Elems(), Itoa(statusCode))
    ensures r.responseTime == Ok <==> respTime <= cfg.okTime
    ensures r.responseTime == Warn <==> cfg.okTime < respTime <= cfg.warnTime
    ensures r.responseTime == Err <==> cfg.okTime < respTime && cfg.warnTime < respTime && respTime <= cfg.errTime
    ensures r.responseTime == Unknown <==> cfg.okTime < respTime && cfg.warnTime < respTime && cfg.errTime < respTime
    ensures cfg.okTime <= cfg.warnTime <= cfg.errTime ==>
              r.responseTime.Severity() == BoundsExceeded(respTime, cfg.okTime, cfg.warnTime, cfg.errTime)
  {
    var codes := ApplyDefaults(cfg.codes);
    HttpVerdicts(codes, ClassifyStatus(statusCode, codes), ClassifyLatency(respTime, cfg.okTime, cfg.warnTime, cfg.errTime))
  }

  /**
   With no status-code flag given, a three-digit status is ok exactly when it is
   200, warn exactly when it is 400, err exactly when it is 500, and unknown
   otherwise; in particular 503 is unknown, not err.
   */
  lemma DefaultStatusTiers(statusCode: int, respTime: Duration)
    requires 100 <= statusCode <= 999
    ensures var r := CheckHttp(DefaultThresholds, statusCode, respTime);
            && (r.status == Ok <==> statusCode == 200)
            && (r.status == Warn <==> statusCode == 400)
            && (r.status == Err <==> statusCode == 500)
            && (r.status == Unknown <==> statusCode !in {200, 400, 500})
  {
    var codes := ApplyDefaults(DefaultThresholds.codes);
    assert codes.ok.Elems() == ["200"] && codes.warn.Elems() == ["400"] && codes.err.Elems() == ["500"];
    SubstringAgreesOnThreeDigitCodes(statusCode, codes);
    ItoaOfTwoHundred();
    ItoaOfHundreds();
    if Itoa(statusCode) == "200" { ItoaInjective(statusCode, 200); }
    if Itoa(statusCode) == "400" { ItoaInjective(statusCode, 400); }
    if Itoa(statusCode) == "500" { ItoaInjective(statusCode, 500); }
  }

  /**
   The same discrepancy with no status flags at all: the default ok list renders
   as "[200]", which contains "20" and "0", so statuses 20 and 0 are judged ok.
   */
  lemma DefaultTiersShortCodeFalsePositive()
    ensures CheckHttp(DefaultThresholds, 20, 0).status == Ok
    ensures CheckHttp(DefaultThresholds, 0, 0).status == Ok
    ensures ClassifyStatusExact(20, ApplyDefaults(DefaultThresholds.codes)) == Unknown
    ensures ClassifyStatusExact(0, ApplyDefaults(DefaultThresholds.codes)) == Unknown
  {
    DefaultTiersShortCodes(ApplyDefaults(DefaultThresholds.codes));
  }

  lemma DefaultTiersShortCodes(tiers: StatusTiers)
    requires tiers.ok.Elems() == ["200"] && tiers.warn.Elems() == ["400"] && tiers.err.Elems() == ["500"]
    ensures ClassifyStatus(20, tiers) == Ok && ClassifyStatus(0, tiers) == Ok
    ensures ClassifyStatusExact(20, tiers) == Unknown && ClassifyStatusExact(0, tiers) == Unknown
  {
    assert Itoa(20) == "20" by {
      assert FormatNat(20) == FormatNat(2) + "0";
    }
    assert Itoa(0) == "0";
    assert HasPrefix("200", "20");
    assert Contains(tiers.ok.Elems()[0], "20");
    assert "200"[1..] == "00" && HasPrefix("00", "0");
    assert Contains("200"[1..], "0");
    assert Contains(tiers.ok.Elems()[0], "0");
  }

  lemma ItoaOfHundreds()
    ensures Itoa(400) == "400" && Itoa(500) == "500"
  {
    assert FormatNat(40) == FormatNat(4) + "0";
    assert FormatNat(400) == FormatNat(40) + "0";
    assert FormatNat(50) == FormatNat(5) + "0";
    assert FormatNat(500) == FormatNat(50) + "0";
  }

  /** A 200 response after 500ms with every threshold at its default is ok on both counts. */
  lemma DefaultHealthyResponse()
    ensures var r := CheckHttp(DefaultThresholds, 200, 500_000_000);
            r.status == Ok && r.responseTime == Ok
  {
    DefaultStatusTiers(200, 500_000_000);
  }
}
