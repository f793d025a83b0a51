/**
 The `httpStatusCodes` flag type: a list of status-code strings that each
 occurrence of a status-code flag appends to, and the defaults the HTTP check
 puts into a list nobody set.
 */
module StatusCodes {
  import opened GoStrings

  /**
   A Go `[]string` slice. `Nil` is the nil slice a package-level variable starts
   as; `Slice` is a slice that has been appended to (possibly empty).
   */
  datatype CodeList = Nil | Slice(codes: seq<string>)
  {
    /** The elements, as ranging over the slice sees them (a nil slice has none). */
    function Elems(): seq<string>
    {
      if Nil? then [] else codes
    }
  }

  /** What `Set` hands back: the updated list, and whether the returned `error` is non-nil. */
  datatype SetOutcome = SetOutcome(list: CodeList, failed: bool)

  /**
   httpStatusCodes.Set: split the flag value on commas and append every piece.
   The earlier elements stay where they were, the appended pieces are exactly the
   comma-free pieces of `value` in order, and the error is always nil.
   */
  function Set(s: CodeList, value: string): (r: SetOutcome)
    ensures !r.failed
    ensures r.list.Slice?
    ensures |r.list.Elems()| == |s.Elems()| + Count(value, ',') + 1
    ensures r.list.Elems()[..|s.Elems()|] == s.Elems()
    ensures forall k :: |s.Elems()| <= k < |r.list.Elems()| ==> ',' !in r.list.Elems()[k]
    ensures Join(r.list.Elems()[|s.Elems()|..], ",") == value
  {
    var appended := s.Elems() + Split(value, ',');
    assert appended[|s.Elems()|..] == Split(value, ',');
    SetOutcome(Slice(appended), false)
  }

  /** A comma-joined list of comma-free codes given to `Set` is appended as exactly those codes. */
  lemma SetAppendsJoinedCodes(s: CodeList, codes: seq<string>)
    requires |codes| > 0
    requires forall k :: 0 <= k < |codes| ==> ',' !in codes[k]
    ensures Set(s, Join(codes, ",")).list == Slice(s.Elems() + codes)
  {
    SplitJoin(codes, ',');
  }

  /**
   The list a status-code flag holds after the flag package has called `Set`
   once per occurrence of the flag, in command-line order, starting from nil.
   */
  function FromFlags(values: seq<string>): (r: CodeList)
    ensures r.Nil? <==> |values| == 0
    ensures |r.Elems()| >= |values|
    ensures |values| > 0 ==> Join(r.Elems(), ",") == Join(values, ",")
    ensures forall k :: 0 <= k < |r.Elems()| ==> ',' !in r.Elems()[k]
  {
    if |values| == 0 then Nil
    else
      var before := FromFlags(values[..|values| - 1]);
      var last := values[|values| - 1];
      var r := Set(before, last).list;
      assert r.Elems() == before.Elems() + Split(last, ',');
      assert values == values[..|values| - 1] + [last];
      if |values| > 1 then
        JoinAppend(before.Elems(), Split(last, ','), ",");
        JoinAppend(values[..|values| - 1], [last], ",");
        r
      else
        r
  }

  /**
   Repeating a status-code flag is the same as giving it once with all the
   occurrences joined by commas.
   */
  lemma RepeatedFlagIsJoinedFlag(values: seq<string>)
    requires |values| > 0
    ensures FromFlags(values).Elems() == Split(Join(values, ","), ',')
    ensures FromFlags(values) == Set(Nil, Join(values, ",")).list
  {
    var r := FromFlags(values);
    SplitJoin(r.Elems(), ',');
  }

  /** A single comma-free flag value becomes a one-element list. */
  lemma SingleFlagValue(value: string)
    requires ',' !in value
    ensures FromFlags([value]) == Slice([value])
  {
    SplitNoSeparator(value, ',');
  }

  /** fmt.Sprint of a `[]string`: the elements separated by single spaces, in square brackets. */
  function String(s: CodeList): (r: string)
    ensures |r| >= 2 && r[0] == '[' && r[|r| - 1] == ']'
    ensures s.Elems() == [] ==> r == "[]"
    ensures forall k :: 0 <= k < |s.Elems()| ==> Contains(r, s.Elems()[k])
  {
    RenderedElements(s.Elems());
    "[" + Join(s.Elems(), " ") + "]"
  }

  lemma RenderedElements(xs: seq<string>)
    ensures forall k :: 0 <= k < |xs| ==> Contains("[" + Join(xs, " ") + "]", xs[k])
  {
    forall k | 0 <= k < |xs|
      ensures Contains("[" + Join(xs, " ") + "]", xs[k])
    {
      JoinContainsElement(xs, " ", k);
      ContainsInside("[", Join(xs, " "), "]", xs[k]);
    }
  }

  /**
   A non-empty text without spaces or square brackets is a substring of the
   rendered list exactly when it is a substring of one of its elements: the
   rendering adds nothing such a text can match and no match spans two elements.
   */
  lemma StringContainsIff(s: CodeList, text: string)
    requires |text| > 0
    requires ' ' !in text && '[' !in text && ']' !in text
    ensures Contains(String(s), text) <==>
            exists k :: 0 <= k < |s.Elems()| && Contains(s.Elems()[k], text)
  {
    var inner := Join(s.Elems(), " ");
    JoinContainsIff(s.Elems(), ' ', text);
    assert String(s) == ['['] + inner + [']'];
    ContainsBracketed('[', inner, ']', text);
  }

  const DefaultOk := "200"
  const DefaultWarn := "400"
  const DefaultErr := "500"

  /** The three status-code tiers of the HTTP check. */
  datatype StatusTiers = StatusTiers(ok: CodeList, warn: CodeList, err: CodeList)

  /** A nil list becomes the one-element list holding `code`; a list that was set is kept. */
  function WithDefault(s: CodeList, code: string): (r: CodeList)
    ensures r.Slice?
    ensures s.Slice? ==> r == s
    ensures s.Nil? ==> r.Elems() == [code]
  {
    if s.Nil? then Slice([code]) else s
  }

  /**
   The defaulting step of the HTTP check: every tier that is still nil gets its
   default code (200, 400 and 500); the others are left as the flags made them.
   */
  function ApplyDefaults(t: StatusTiers): (r: StatusTiers)
    ensures r.ok.Slice? && r.warn.Slice? && r.err.Slice?
    ensures t.ok.Slice? ==> r.ok == t.ok
    ensures t.warn.Slice? ==> r.warn == t.warn
    ensures t.err.Slice? ==> r.err == t.err
    ensures t.ok.Nil? ==> r.ok.Elems() == [DefaultOk] && String(r.ok) == "[200]"
    ensures t.warn.Nil? ==> r.warn.Elems() == [DefaultWarn] && String(r.warn) == "[400]"
    ensures t.err.Nil? ==> r.err.Elems() == [DefaultErr] && String(r.err) == "[500]"
  {
    StatusTiers(WithDefault(t.ok, DefaultOk), WithDefault(t.warn, DefaultWarn), WithDefault(t.err, DefaultErr))
  }

  /** Defaulting a second time changes nothing. */
  lemma ApplyDefaultsIdempotent(t: StatusTiers)
    ensures ApplyDefaults(ApplyDefaults(t)) == ApplyDefaults(t)
  {
  }

  /**
   Whatever flags were given, after defaulting every tier has at least one code:
   a tier either received `Set` (which always appends) or got its default.
   */
  lemma FlagsThenDefaultsNonEmpty(okFlags: seq<string>, warnFlags: seq<string>, errFlags: seq<string>)
    ensures var r := ApplyDefaults(StatusTiers(FromFlags(okFlags), FromFlags(warnFlags), FromFlags(errFlags)));
            |r.ok.Elems()| > 0 && |r.warn.Elems()| > 0 && |r.err.Elems()| > 0
  {
  }
}
