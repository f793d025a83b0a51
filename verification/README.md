# gocheck HTTP classification, modelled in Dafny

gocheck is a command-line probe. In `http` mode it sends one GET request to a
host, times it, and logs two verdicts, each one of `ok`, `warn`, `err` or
`unknown`:

- the **status-code verdict**: the response's status code against three lists of codes
  (`-httpOkStatusCodes`, `-httpWarnStatusCodes`, `-httpErrorStatusCodes`);
- the **response-time verdict**: the measured duration against three bounds
  (`-httpOkResponseTime`, `-httpWarnResponseTime`, `-httpErrorResponseTime`).

This project models the pure part of that check as Dafny functions and proves
properties about it. The status code and the measured duration are inputs.

- `gostrings.dfy` (`GoStrings`): `strings.Split` on a one-character separator and
  `strings.Contains`, which the check calls; `Index`, through which Go defines `Contains`,
  written as a loop; and `Join` and `Count`, which the contracts use to state what `Split`
  returns. It also holds lemmas about where a substring can occur in joined text.
- `strconv.dfy` (`Strconv`): `Itoa`, checked against a separate decimal reader.
- `status_codes.dfy` (`StatusCodes`): the `httpStatusCodes` flag type.
  A nil slice is `Nil`; an appended-to slice is `Slice`.
  The module covers `Set`, `String` (the `fmt.Sprint` rendering `[a b c]`; `String` has a
  pointer receiver, so `fmt.Sprint` of the slice value prints the plain slice), the effect of
  repeating a flag (`FromFlags`), and how nil lists get the defaults 200/400/500.
- `verdicts.dfy` (`Verdicts`): the verdict type, its logged name and a severity order.
- `http_check.dfy` (`HttpCheck`): the two classifiers and `CheckHttp`, which puts them together.
  The status classifier comes in two forms: as the source writes it (substring search) and
  corrected (exact membership). The module also holds the lemmas that relate them.

The model follows the code in these points:

- A status code matches a tier when its decimal text occurs *as a substring* of the tier list
  as `fmt.Sprint` renders it. It does not have to be an element of the list (see Findings).
- With the default lists `[200]`/`[400]`/`[500]`, status 503 is `unknown`.
  The lists hold single codes, not code classes (`HttpCheck.DefaultStatusTiers`).
- The response time is compared with three inclusive bounds. A time above all three bounds is
  `unknown`; with ordered bounds, that is any time above the err bound.

## Model

| member | source | states |
|---|---|---|
| GoStrings.Split | gocheck.go:56 | splitting on a comma gives one more piece than there are commas; no piece contains a comma; joining the pieces with commas gives back the input |
| GoStrings.SplitJoin | gocheck.go:56 | splitting undoes joining when no element contains the separator and the list is non-empty |
| GoStrings.Contains | gocheck.go:182-186 | `strings.Contains`: the empty text is contained in any string, a contained text is no longer than the string, and a prefix is contained |
| GoStrings.ContainsIff | gocheck.go:182-186 | the left-to-right scan of `strings.Contains` holds exactly when the substring occurs at some offset |
| GoStrings.Index | gocheck.go:182-186 | `strings.Index` returns -1 exactly when the text does not contain the substring; otherwise it returns the first offset where the substring occurs |
| GoStrings.JoinContainsIff | gocheck.go:176-178 | a non-empty text without the separator occurs in the joined list exactly when it occurs inside one element |
| GoStrings.ContainsBracketed | gocheck.go:176-178 | the enclosing brackets of the rendering neither add nor remove an occurrence of a bracket-free text |
| Strconv.FormatNat | gocheck.go:173 | the digits of a natural number: at least one digit, no leading zero, and reading them back gives the number |
| Strconv.Itoa | gocheck.go:173 | the text of the status code starts with '-' exactly when the code is negative, is otherwise all digits, has no leading zero (only 0 itself starts with '0'), and reading it back gives the code, so it is the shortest decimal text |
| Strconv.ItoaInjective | gocheck.go:173 | two different codes never have the same text |
| Strconv.ItoaThreeDigits | gocheck.go:173 | a code from 100 to 999 has a three-character text |
| Strconv.ItoaHasNoListPunctuation | gocheck.go:173-178 | a code's text never contains a space or a square bracket, the characters the list rendering adds |
| Verdicts.NamesDistinct | gocheck.go:181-190 | the ok, warn, err and unknown verdicts are logged as exactly `ok`, `warn`, `err` and `unknown` respectively, and different verdicts get different names |
| StatusCodes.Set | gocheck.go:54-58 | `Set` keeps the earlier elements unchanged and in front, appends count-of-commas + 1 comma-free pieces that re-join to the flag value, makes the list non-nil, and always returns a nil error |
| StatusCodes.SetAppendsJoinedCodes | gocheck.go:54-58 | a value of the form `a,b,c` made of comma-free codes appends exactly those codes |
| StatusCodes.FromFlags | gocheck.go:54-58 | after one `Set` per flag occurrence, the list is nil exactly when the flag was never given; it has at least one element per occurrence; no element contains a comma; joined with commas, it equals the occurrences joined with commas |
| StatusCodes.RepeatedFlagIsJoinedFlag | gocheck.go:54-58 | giving a status-code flag several times yields the same list as giving it once with the occurrences joined by commas: the split of the joined value |
| StatusCodes.SingleFlagValue | gocheck.go:56-57 | a single comma-free flag value gives the one-element list holding that value |
| StatusCodes.String | gocheck.go:49-51 | the rendering begins with '[', ends with ']', is `[]` for an empty or nil list, and contains every element as a substring |
| StatusCodes.StringContainsIff | gocheck.go:176-178 | a non-empty text without spaces or brackets occurs in the rendering exactly when it occurs inside one of the elements |
| StatusCodes.WithDefault | gocheck.go:151-156 | a nil list becomes exactly the default code alone; a list that was set is returned unchanged; the result is never nil |
| StatusCodes.ApplyDefaults | gocheck.go:151-168 | afterwards no tier is nil; tiers set by flags are unchanged; a nil ok/warn/err tier becomes exactly the one-element list `200`/`400`/`500`, rendered `[200]`/`[400]`/`[500]` |
| StatusCodes.ApplyDefaultsIdempotent | gocheck.go:151-168 | applying the defaults a second time changes nothing |
| StatusCodes.FlagsThenDefaultsNonEmpty | gocheck.go:151-168 | whatever flags were given, every tier has at least one code after defaulting |
| HttpCheck.ClassifyStatus | gocheck.go:173-190 | the verdict is ok exactly when the code's text occurs inside some ok element. It is warn when that fails and the text occurs inside some warn element, then err likewise, and unknown when the text occurs inside no element of any tier |
| HttpCheck.ListedOkCodeIsOk | gocheck.go:173-183 | a code whose text is an element of the ok list is judged ok, whatever the other lists hold |
| HttpCheck.ListedWarnCodeIsAtMostWarn | gocheck.go:184-185 | a code listed as warn is judged ok or warn, never err or unknown |
| HttpCheck.StatusPrecedence | gocheck.go:181-190 | once the code text occurs in the rendered ok list, changing the warn and err lists cannot change the verdict; once it occurs in the rendered warn list, changing the err list cannot |
| HttpCheck.ClassifyStatusExact | gocheck.go:181-190 | corrected classifier: ok exactly when the code's text is an element of the ok list; then warn, then err by the same test; unknown when it is listed nowhere |
| HttpCheck.SubstringNeverStricter | gocheck.go:181-190 | the substring test never gives a more severe verdict than exact membership |
| HttpCheck.SubstringAgreesOnUniformWidth | gocheck.go:176-190 | when every configured code has as many characters as the code's text, the substring test and exact membership agree |
| HttpCheck.SubstringAgreesOnThreeDigitCodes | gocheck.go:176-190 | a code from 100 to 999 against lists of three-character codes is classified as exact membership would |
| HttpCheck.SubstringFalsePositive | gocheck.go:176-183 | with ok list `1200` and default warn/err lists, status 200 is judged ok although 200 is not listed; exact membership gives unknown |
| HttpCheck.ClassifyLatency | gocheck.go:198-207 | all bounds are inclusive: ok up to the ok bound, warn above it up to the warn bound, err above both up to the err bound, unknown above all three. With ordered bounds, the severity is the number of bounds the time exceeds |
| HttpCheck.LatencyMonotone | gocheck.go:198-207 | for any three bounds, ordered or not, a longer response time never gets a milder verdict |
| HttpCheck.LatencyBoundaries | gocheck.go:199-207 | with ordered bounds, the ok bound is ok, the warn bound is warn and the err bound is err (each when above the previous bound); one nanosecond past the err bound is unknown |
| HttpCheck.LatencyWarnUnreachable | gocheck.go:199-202 | a warn bound at or below the ok bound leaves no time judged warn |
| HttpCheck.CheckHttp | gocheck.go:149-207 | the lists used are the defaulted flag lists. The status verdict is ok, warn, err or unknown exactly as the substring rule says for those lists, with ok before warn before err. The time verdict is ok, warn, err or unknown by the same inclusive comparisons as the response-time check, for any bounds. Its severity equals the number of bounds exceeded when the bounds are ordered |
| HttpCheck.DefaultStatusTiers | gocheck.go:151-190 | with no status flags, a three-digit status is ok exactly when it is 200, warn when 400, err when 500 and unknown otherwise, so 503 is unknown |
| HttpCheck.DefaultTiersShortCodeFalsePositive | gocheck.go:151-190 | with no status flags at all, statuses 20 and 0 are judged ok because "20" and "0" occur in "[200]", while exact membership judges them unknown |
| HttpCheck.DefaultHealthyResponse | gocheck.go:151-207 | a 200 response after 500ms with every threshold at its default is ok on both verdicts |

## Left out

- The HTTP request itself is not modelled: transport and client settings, the Host header, the
  redirect policy, `client.Do` and reading the body (gocheck.go:109-147).
  This is network I/O. The status code and duration are inputs to `CheckHttp`.
- Wall-clock timing (`time.Now`, `time.Since`, `timeTrack`) is not modelled.
  The measured duration is an input `Duration` in nanoseconds.
- `time.ParseDuration` on the three response-time flags is not modelled; the bounds are inputs in
  nanoseconds. The source ignores the parse error. A malformed flag therefore gives a zero bound,
  which a caller of the model would pass as 0.
- `checkNET` is left out. It uses an ICMP socket, marshals and parses packets through an external
  package, and targets a fixed address. It has no classification step.
- The JSON fields of the default host's response (`gojsonq`) and the default-host special case are
  left out. They are display only.
- The `flag` package wiring, `main`'s dispatch, all log output and `log.Fatal` termination are left
  out. `FromFlags` stands for the flag package calling `Set` once per occurrence.
- Strings are sequences of characters rather than bytes. Status codes and list punctuation are ASCII,
  so the two agree for everything the check compares.

## Findings

| source | as written | input that shows it | evidently intended | confidence | as-written member | corrected member |
|---|---|---|---|---|---|---|
| gocheck.go:176-190 | the status code's text is searched for as a substring of `fmt.Sprint` of each tier list | `-httpOkStatusCodes 1200`, response status 200: "200" occurs in "[1200]", so the verdict is ok | ok only when the status is one of the listed codes; here unknown | high; not executed | HttpCheck.SubstringFalsePositive | HttpCheck.ClassifyStatusExact |
| gocheck.go:151-190 | with the default ok list, a status is searched for as a substring of `[200]` | no status flags, response status 20 (or 0): "20" occurs in "[200]", so the verdict is ok | unknown, since 20 is not 200 | medium: needs the HTTP client to accept a short status, which is outside this code; not executed | HttpCheck.DefaultTiersShortCodeFalsePositive | HttpCheck.ClassifyStatusExact |

`CheckHttp` keeps the source's substring comparison so that it models the verdict the program
actually logs. `HttpCheck.SubstringAgreesOnThreeDigitCodes` proves that this verdict equals
`ClassifyStatusExact` whenever a three-digit status is compared against lists of three-character
codes. That covers every default tier and every configuration that lists plain HTTP codes.
`HttpCheck.SubstringNeverStricter` proves that, outside that range, the substring test can only make
a verdict milder.
