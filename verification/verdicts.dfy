/** The verdicts the check logs for each dimension it evaluates. */
module Verdicts {

  /** `ok`, `warn`, `err` or `unknown`; no other outcome exists. */
  datatype Verdict = Ok | Warn | Err | Unknown
  {
    /** The text logged as the check result. */
    function Name(): string
    {
      match this
      case Ok => "ok"
      case Warn => "warn"
      case Err => "err"
      case Unknown => "unknown"
    }

    /** Order of badness: ok, then warn, then err, then unknown. */
    function Severity(): nat
    {
      match this
      case Ok => 0
      case Warn => 1
      case Err => 2
      case Unknown => 3
    }
  }

  /** Different verdicts are logged under different names, so the log tells them apart. */
  lemma NamesDistinct(a: Verdict, b: Verdict)
    ensures a.Name() == b.Name() <==> a == b
    ensures a.Name() in {"ok", "warn", "err", "unknown"}
    ensures a.Name() == "ok" <==> a == Ok
    ensures a.Name() == "warn" <==> a == Warn
    ensures a.Name() == "err" <==> a == Err
    ensures a.Name() == "unknown" <==> a == Unknown
  {
  }
}
