/** The `Validatable` capability: its static checks, the ordered validator
    that every `validate`/`getValidationError` pair follows, and the default
    `validateAndLog` and `getValidationSummary`. */
module Validatable {
  import opened Common
  import Text

  /** `Validatable.isNotNull`. */
  predicate IsNotNull(o: object?)
    ensures IsNotNull(o) <==> o != null
  {
    o != null
  }

  /** `Validatable.isNotEmpty`: non-null and not blank after `trim`. */
  predicate IsNotEmpty(s: Option<string>)
  {
    s.Some? && Text.Trim(s.value) != []
  }

  /** A string is "not empty" exactly when it is non-null and holds a char above U+0020. */
  lemma IsNotEmptyIff(s: Option<string>)
    ensures IsNotEmpty(s) <==> s.Some? && exists i :: 0 <= i < |s.value| && !Text.IsTrimmable(s.value[i])
  {
    if s.Some? {
      Text.TrimEmptyIffAllTrimmable(s.value);
    }
  }

  /** `Validatable.isPositive`. */
  predicate IsPositive(n: int)
    ensures IsPositive(n) <==> n > 0
  {
    n > 0
  }

  /** The latest year any check of the source accepts. */
  const MaxYear: int := 2026

  /** `Validatable.isValidYear`: years 1 to 2026. */
  predicate IsValidYear(year: int)
    ensures IsValidYear(year) <==> 1 <= year <= MaxYear
  {
    year > 0 && year <= MaxYear
  }

  /** The range that `Book.setYear`, `Author.setBirthYear` and the book service
      write inline as `year < 0 || year > 2026` being false: years 0 to 2026. */
  predicate InSetterYearRange(year: int)
    ensures InSetterYearRange(year) <==> 0 <= year <= MaxYear
  {
    !(year < 0 || year > MaxYear)
  }

  /** The three year checks of the source are nested and differ exactly at 0
      (only the first rejects it) and above 2026 (only author creation accepts it). */
  lemma YearChecksNested(year: int)
    ensures IsValidYear(year) ==> InSetterYearRange(year)
    ensures InSetterYearRange(year) ==> year >= 0
    ensures InSetterYearRange(0) && !IsValidYear(0)
    ensures IsValidYear(MaxYear) && !InSetterYearRange(MaxYear + 1)
  {
  }

  /** The values printed by the interface demonstration. */
  lemma DemoValues()
    ensures IsNotEmpty(Some("hello")) && !IsNotEmpty(Some(""))
    ensures IsValidYear(2020) && !IsValidYear(3000)
  {
    IsNotEmptyIff(Some("hello"));
    assert !Text.IsTrimmable("hello"[0]);
  }

  /** One rule of an ordered validator: whether it holds, and the message
      reported when it is the first rule that fails. */
  datatype Rule = Rule(holds: bool, message: string)

  /** All rules hold. */
  predicate AllHold(rules: seq<Rule>) {
    forall i :: 0 <= i < |rules| ==> rules[i].holds
  }

  /** `k` is the first rule that fails. */
  predicate FirstFailingAt(rules: seq<Rule>, k: int) {
    0 <= k < |rules| && !rules[k].holds && forall i :: 0 <= i < k ==> rules[i].holds
  }

  /** A chain of `if (!check) return message;` lines: the message of the first
      failing rule, or none when every rule holds. */
  function FirstFailure(rules: seq<Rule>): (r: Option<string>)
    ensures r.None? <==> AllHold(rules)
    ensures r.Some? ==> exists k :: FirstFailingAt(rules, k) && r.value == rules[k].message
  {
    if rules == [] then None
    else if !rules[0].holds then
      assert FirstFailingAt(rules, 0);
      Some(rules[0].message)
    else
      var r := FirstFailure(rules[1..]);
      assert AllHold(rules[1..]) ==> AllHold(rules) by {
        if AllHold(rules[1..]) {
          forall i | 0 <= i < |rules| ensures rules[i].holds {
            if i > 0 { assert rules[i] == rules[1..][i - 1]; }
          }
        }
      }
      if r.Some? then
        var k :| FirstFailingAt(rules[1..], k) && r.value == rules[1..][k].message;
        assert FirstFailingAt(rules, k + 1);
        r
      else
        r
  }

  /** When rule `k` fails and every earlier rule holds, its message is the first failure. */
  lemma FirstFailureOfFirstFailing(rules: seq<Rule>, k: int)
    requires FirstFailingAt(rules, k)
    ensures FirstFailure(rules) == Some(rules[k].message)
  {
    var k' :| FirstFailingAt(rules, k') && FirstFailure(rules).value == rules[k'].message;
  }

  /** When every message is non-empty, the error text is empty exactly when all rules hold. */
  function ErrorText(rules: seq<Rule>): (e: string)
    requires forall i :: 0 <= i < |rules| ==> rules[i].message != ""
    ensures e == "" <==> AllHold(rules)
    ensures !AllHold(rules) ==> exists k :: FirstFailingAt(rules, k) && e == rules[k].message
  {
    match FirstFailure(rules)
    case None => ""
    case Some(m) => m
  }

  /** When rule `k` fails and every earlier rule holds, its message is the error text. */
  lemma ErrorTextOfFirstFailing(rules: seq<Rule>, k: int)
    requires forall i :: 0 <= i < |rules| ==> rules[i].message != ""
    requires FirstFailingAt(rules, k)
    ensures ErrorText(rules) == rules[k].message
  {
    var e := ErrorText(rules);
    var k' :| FirstFailingAt(rules, k') && e == rules[k'].message;
  }

  /** `String.valueOf(boolean)`. */
  function ShowBool(b: bool): string {
    if b then "true" else "false"
  }

  /** The default `getValidationSummary`: `[Class] Valid: <validate()>`, followed
      by `" - " + getValidationError()` only when validation fails. */
  function ValidationSummary(className: string, valid: bool, error: string): (r: string)
    ensures var head := "[" + className + "] Valid: " + ShowBool(valid);
      && (valid ==> r == head)
      && (!valid ==> r == head + " - " + error)
  {
    "[" + className + "] Valid: " + ShowBool(valid) + (if valid then "" else " - " + error)
  }
}
