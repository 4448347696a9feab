/** include/nealog/Severity.h and include/nealog_impl/SeverityImpl.h:
    the severity levels, their names and the ParseException raised for an
    ordinal that names no level. */
module Severities {
  import opened Wrappers

  /** `enum class Severity`: an integer ordinal.  Every integer is
      representable (a cast such as `(Severity)6` is legal C++), and every
      `>=` test on severities in the library compares these ordinals. */
  newtype Severity = int

  const Trace: Severity := 0
  const Debug: Severity := 1
  const Info: Severity := 2
  const Warn: Severity := 3
  const Error: Severity := 4
  const Fatal: Severity := 5

  /** The six named levels, in increasing order. */
  const Levels: seq<Severity> := [Trace, Debug, Info, Warn, Error, Fatal]

  /** The ordinal is that of one of the six enumerators. */
  predicate IsLevel(s: Severity)
  {
    Trace <= s <= Fatal
  }

  datatype ParseException = ParseException(message: string)

  const SeverityParseError: string := "The given severity could not be parsed"

  /** `severityToString`: the display name of a level, or ParseException for
      any other ordinal. */
  function SeverityToString(s: Severity): (r: Result<string, ParseException>)
    ensures r.Success? <==> IsLevel(s)
    ensures r.Failure? ==> r.error == ParseException(SeverityParseError)
    ensures s == Trace ==> r == Success("Trace")
    ensures s == Debug ==> r == Success("Debug")
    ensures s == Info ==> r == Success("Info")
    ensures s == Warn ==> r == Success("Warn")
    ensures s == Error ==> r == Success("Error")
    ensures s == Fatal ==> r == Success("Fatal")
  {
    if s == Trace then Success("Trace")
    else if s == Debug then Success("Debug")
    else if s == Info then Success("Info")
    else if s == Warn then Success("Warn")
    else if s == Error then Success("Error")
    else if s == Fatal then Success("Fatal")
    else Failure(ParseException(SeverityParseError))
  }

  /** The enumerators are strictly increasing, so the levels form a strict
      total order in which Trace is the least and Fatal the greatest. */
  lemma LevelsStrictlyOrdered()
    ensures forall i, j :: 0 <= i < j < |Levels| ==> Levels[i] < Levels[j]
    ensures forall i :: 0 <= i < |Levels| ==> Levels[i] as int == i
    ensures forall s :: IsLevel(s) <==> s in Levels
  {
  }

  /** Distinct levels have distinct names: the display name identifies the
      level. */
  lemma NamesInjective(a: Severity, b: Severity)
    requires SeverityToString(a).Success? && SeverityToString(b).Success?
    requires SeverityToString(a) == SeverityToString(b)
    ensures a == b
  {
  }
}
