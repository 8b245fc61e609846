/**
 * The item schema (src/lib/validations.ts): per-field rules, defaults, and
 * the two cross-field rules of its refinement step.
 *
 * The schema library distinguishes two kinds of field failure. A failed
 * minimum (`min`) marks the result as failed but parsing continues, so the
 * refinement step still runs. A value of the wrong kind (an invalid date, a
 * string outside the enum) aborts the object, and the refinement step is
 * skipped. Issues are reported in the schema's key order, then the
 * refinement's issues in the order they are raised.
 */
module Validations {
  import opened Wrappers
  import opened Types
  import JsStrings
  import Catalog

  /** The values handed to the schema, before defaults are applied. */
  datatype FormInput = FormInput(
    name: string,
    customName: Option<string>,
    quantity: int,
    expiryDate: Option<Date>,
    lowStockThreshold: Option<int>,
    isRecurring: Option<bool>,
    recurringCycle: Option<string>,
    barcode: Option<string>)

  /** The path an issue is reported on. */
  datatype Field = Name | CustomName | Quantity | ExpiryDate | LowStockThreshold | RecurringCycle

  /** What went wrong; the schema's own messages are kept where the source writes them. */
  datatype IssueCode = TooSmall(message: string) | NotADate | InvalidEnumValue | Custom(message: string)

  datatype Issue = Issue(path: Field, code: IssueCode)

  const NAME_REQUIRED: string := "Item name is required."
  const QUANTITY_NEGATIVE: string := "Quantity must be a non-negative number."
  const THRESHOLD_NEGATIVE: string := "Threshold must be a non-negative number."
  const CUSTOM_NAME_REQUIRED: string := "Custom item name is required when \"Other\" is selected."
  const CYCLE_REQUIRED: string := "Recurring cycle is required for recurring items."

  /** The issue raised when `OTHER` is selected without a usable custom name. */
  const CUSTOM_NAME_ISSUE: Issue := Issue(CustomName, Custom(CUSTOM_NAME_REQUIRED))

  /** The issue raised when a recurring item has no cycle. */
  const CYCLE_ISSUE: Issue := Issue(RecurringCycle, Custom(CYCLE_REQUIRED))

  /** The enum of cycles: the cycle a string names, if it names one. */
  function ParseCycle(s: string): (r: Option<Cycle>)
    ensures r.Some? <==> s == "daily" || s == "weekly" || s == "monthly"
    ensures r.Some? ==> CycleName(r.value) == s
  {
    if s == "daily" then Some(Daily)
    else if s == "weekly" then Some(Weekly)
    else if s == "monthly" then Some(Monthly)
    else None
  }

  lemma ParseCycleName(c: Cycle)
    ensures ParseCycle(CycleName(c)) == Some(c)
  {
  }

  /** The set of paths a list of issues is reported on. */
  function Paths(issues: seq<Issue>): set<Field> {
    if |issues| == 0 then {} else {issues[0].path} + Paths(issues[1..])
  }

  /** A field failure that aborts the object and so skips the refinement step. */
  predicate Aborts(f: FormInput) {
    || f.expiryDate == Some(InvalidDate)
    || (f.recurringCycle.Some? && ParseCycle(f.recurringCycle.value).None?)
  }

  /** The one issue `i` when `c` holds, no issue otherwise. */
  function IssueIf(c: bool, i: Issue): seq<Issue> {
    if c then [i] else []
  }

  lemma PathsIssueIf(c: bool, i: Issue)
    ensures Paths(IssueIf(c, i)) == if c then {i.path} else {}
  {
    if c {
      assert IssueIf(c, i)[0].path == i.path;
    }
  }

  /** Issues of the per-field rules, in key order. */
  function FieldIssues(f: FormInput): seq<Issue> {
    IssueIf(|f.name| < 1, Issue(Name, TooSmall(NAME_REQUIRED)))
    + IssueIf(f.quantity < 0, Issue(Quantity, TooSmall(QUANTITY_NEGATIVE)))
    + IssueIf(f.expiryDate == Some(InvalidDate), Issue(ExpiryDate, NotADate))
    + IssueIf(f.lowStockThreshold.Some? && f.lowStockThreshold.value < 0,
              Issue(LowStockThreshold, TooSmall(THRESHOLD_NEGATIVE)))
    + IssueIf(f.recurringCycle.Some? && ParseCycle(f.recurringCycle.value).None?,
              Issue(RecurringCycle, InvalidEnumValue))
  }

  /** The parsed object, defaults applied: threshold 5, not recurring. */
  function Parsed(f: FormInput): ItemData {
    Record(
      f.name,
      f.customName,
      f.quantity,
      f.expiryDate,
      f.lowStockThreshold.GetOr(Catalog.DEFAULT_THRESHOLD),
      f.isRecurring.GetOr(false),
      if f.recurringCycle.Some? then ParseCycle(f.recurringCycle.value) else None,
      f.barcode)
  }

  /** The custom name is absent, or nothing is left of it after trimming. */
  predicate CustomNameMissing(c: Option<string>) {
    c.None? || JsStrings.Trim(c.value) == ""
  }

  /** Issues of the refinement step over the parsed object. */
  function CrossFieldIssues(d: ItemData): seq<Issue> {
    IssueIf(d.name == Catalog.OTHER && CustomNameMissing(d.customName), CUSTOM_NAME_ISSUE)
    + IssueIf(d.isRecurring && d.recurringCycle.None?, CYCLE_ISSUE)
  }

  /** Every issue the schema reports for `f`. */
  function Issues(f: FormInput): seq<Issue> {
    if Aborts(f) then FieldIssues(f) else FieldIssues(f) + CrossFieldIssues(Parsed(f))
  }

  /** Which paths carry an issue, field by field. */
  lemma IssuePaths(f: FormInput)
    ensures Name in Paths(Issues(f)) <==> f.name == ""
    ensures Quantity in Paths(Issues(f)) <==> f.quantity < 0
    ensures ExpiryDate in Paths(Issues(f)) <==> f.expiryDate == Some(InvalidDate)
    ensures LowStockThreshold in Paths(Issues(f)) <==> f.lowStockThreshold.Some? && f.lowStockThreshold.value < 0
    ensures CustomName in Paths(Issues(f)) <==>
      !Aborts(f) && f.name == Catalog.OTHER
      && (f.customName.None? || JsStrings.AllWhiteSpace(f.customName.value))
    ensures RecurringCycle in Paths(Issues(f)) <==>
      || (f.recurringCycle.Some? && ParseCycle(f.recurringCycle.value).None?)
      || (!Aborts(f) && f.isRecurring == Some(true) && f.recurringCycle.None?)
  {
    IssuePathSet(f);
    if f.customName.Some? {
      JsStrings.TrimEmptyIffAllWhiteSpace(f.customName.value);
    }
  }

  /** The paths of all issues: those of the failed fields, then, unless aborted, the refinement's. */
  lemma IssuePathSet(f: FormInput)
    ensures Paths(Issues(f)) ==
      (if |f.name| < 1 then {Name} else {})
      + (if f.quantity < 0 then {Quantity} else {})
      + (if f.expiryDate == Some(InvalidDate) then {ExpiryDate} else {})
      + (if f.lowStockThreshold.Some? && f.lowStockThreshold.value < 0 then {LowStockThreshold} else {})
      + (if f.recurringCycle.Some? && ParseCycle(f.recurringCycle.value).None? then {RecurringCycle} else {})
      + (if !Aborts(f) && f.name == Catalog.OTHER && CustomNameMissing(f.customName) then {CustomName} else {})
      + (if !Aborts(f) && f.isRecurring == Some(true) && f.recurringCycle.None? then {RecurringCycle} else {})
  {
    var d := Parsed(f);
    PathsOfFieldIssues(f);
    PathsOfCrossFieldIssues(d);
    if !Aborts(f) {
      PathsAppend(FieldIssues(f), CrossFieldIssues(d));
    }
  }

  lemma {:induction false} PathsAppend(a: seq<Issue>, b: seq<Issue>)
    ensures Paths(a + b) == Paths(a) + Paths(b)
  {
    if |a| > 0 {
      PathsAppend(a[1..], b);
      assert (a + b)[1..] == a[1..] + b;
    } else {
      assert a + b == b;
    }
  }

  /** Appending issue lists on disjoint paths, each with one issue per path, keeps one issue per path. */
  lemma PathCountAppend(a: seq<Issue>, b: seq<Issue>)
    requires |Paths(a)| == |a| && |Paths(b)| == |b|
    requires Paths(a) !! Paths(b)
    ensures |Paths(a + b)| == |a + b|
    ensures Paths(a + b) == Paths(a) + Paths(b)
  {
    PathsAppend(a, b);
    assert Paths(a) * Paths(b) == {};
  }

  /** The per-field rules raise one issue per failed field, on that field's path. */
  lemma PathsOfFieldIssues(f: FormInput)
    ensures |FieldIssues(f)| == |Paths(FieldIssues(f))|
    ensures Paths(FieldIssues(f)) ==
      (if |f.name| < 1 then {Name} else {})
      + (if f.quantity < 0 then {Quantity} else {})
      + (if f.expiryDate == Some(InvalidDate) then {ExpiryDate} else {})
      + (if f.lowStockThreshold.Some? && f.lowStockThreshold.value < 0 then {LowStockThreshold} else {})
      + (if f.recurringCycle.Some? && ParseCycle(f.recurringCycle.value).None? then {RecurringCycle} else {})
  {
    var a := IssueIf(|f.name| < 1, Issue(Name, TooSmall(NAME_REQUIRED)));
    var b := IssueIf(f.quantity < 0, Issue(Quantity, TooSmall(QUANTITY_NEGATIVE)));
    var c := IssueIf(f.expiryDate == Some(InvalidDate), Issue(ExpiryDate, NotADate));
    var d := IssueIf(f.lowStockThreshold.Some? && f.lowStockThreshold.value < 0,
                     Issue(LowStockThreshold, TooSmall(THRESHOLD_NEGATIVE)));
    var e := IssueIf(f.recurringCycle.Some? && ParseCycle(f.recurringCycle.value).None?,
                     Issue(RecurringCycle, InvalidEnumValue));
    PathsIssueIf(|f.name| < 1, Issue(Name, TooSmall(NAME_REQUIRED)));
    PathsIssueIf(f.quantity < 0, Issue(Quantity, TooSmall(QUANTITY_NEGATIVE)));
    PathsIssueIf(f.expiryDate == Some(InvalidDate), Issue(ExpiryDate, NotADate));
    PathsIssueIf(f.lowStockThreshold.Some? && f.lowStockThreshold.value < 0,
                 Issue(LowStockThreshold, TooSmall(THRESHOLD_NEGATIVE)));
    PathsIssueIf(f.recurringCycle.Some? && ParseCycle(f.recurringCycle.value).None?,
                 Issue(RecurringCycle, InvalidEnumValue));
    PathsAppend(a, b);
    PathsAppend(a + b, c);
    PathsAppend(a + b + c, d);
    PathsAppend(a + b + c + d, e);
    FieldIssuesOnePerPath(f);
  }

  /** No path carries two per-field issues. */
  lemma FieldIssuesOnePerPath(f: FormInput)
    ensures |FieldIssues(f)| == |Paths(FieldIssues(f))|
  {
    IssueIfsOnePerPath(
      |f.name| < 1, Issue(Name, TooSmall(NAME_REQUIRED)),
      f.quantity < 0, Issue(Quantity, TooSmall(QUANTITY_NEGATIVE)),
      f.expiryDate == Some(InvalidDate), Issue(ExpiryDate, NotADate),
      f.lowStockThreshold.Some? && f.lowStockThreshold.value < 0, Issue(LowStockThreshold, TooSmall(THRESHOLD_NEGATIVE)),
      f.recurringCycle.Some? && ParseCycle(f.recurringCycle.value).None?, Issue(RecurringCycle, InvalidEnumValue));
  }

  /** Appending a conditional issue on a path outside `used` keeps one issue per path. */
  lemma PathCountAppendIssue(a: seq<Issue>, used: set<Field>, c: bool, i: Issue)
    requires |Paths(a)| == |a| && Paths(a) <= used && i.path !in used
    ensures |Paths(a + IssueIf(c, i))| == |a + IssueIf(c, i)|
    ensures Paths(a + IssueIf(c, i)) <= used + {i.path}
  {
    PathsIssueIf(c, i);
    PathCountAppend(a, IssueIf(c, i));
  }

  /** Five conditional issues, each on a path not used before it: at most one issue per path. */
  lemma IssueIfsOnePerPath(c1: bool, i1: Issue, c2: bool, i2: Issue, c3: bool, i3: Issue,
                           c4: bool, i4: Issue, c5: bool, i5: Issue)
    requires i2.path != i1.path
    requires i3.path !in {i1.path, i2.path}
    requires i4.path !in {i1.path, i2.path, i3.path}
    requires i5.path !in {i1.path, i2.path, i3.path, i4.path}
    ensures var s := IssueIf(c1, i1) + IssueIf(c2, i2) + IssueIf(c3, i3) + IssueIf(c4, i4) + IssueIf(c5, i5);
      |Paths(s)| == |s|
  {
    var a := IssueIf(c1, i1);
    PathsIssueIf(c1, i1);
    PathCountAppendIssue(a, {i1.path}, c2, i2);
    var ab := a + IssueIf(c2, i2);
    PathCountAppendIssue(ab, {i1.path, i2.path}, c3, i3);
    var abc := ab + IssueIf(c3, i3);
    PathCountAppendIssue(abc, {i1.path, i2.path, i3.path}, c4, i4);
    var abcd := abc + IssueIf(c4, i4);
    PathCountAppendIssue(abcd, {i1.path, i2.path, i3.path, i4.path}, c5, i5);
  }

  lemma PathsOfCrossFieldIssues(d: ItemData)
    ensures Paths(CrossFieldIssues(d)) <= {CustomName, RecurringCycle}
    ensures CustomName in Paths(CrossFieldIssues(d)) <==> d.name == Catalog.OTHER && CustomNameMissing(d.customName)
    ensures RecurringCycle in Paths(CrossFieldIssues(d)) <==> d.isRecurring && d.recurringCycle.None?
  {
    PathsIssueIf(d.name == Catalog.OTHER && CustomNameMissing(d.customName), CUSTOM_NAME_ISSUE);
    PathsIssueIf(d.isRecurring && d.recurringCycle.None?, CYCLE_ISSUE);
    PathsAppend(
      IssueIf(d.name == Catalog.OTHER && CustomNameMissing(d.customName), CUSTOM_NAME_ISSUE),
      IssueIf(d.isRecurring && d.recurringCycle.None?, CYCLE_ISSUE));
  }

  /** The rules stated declaratively: what an acceptable input looks like. */
  predicate Acceptable(f: FormInput) {
    && f.name != ""
    && f.quantity >= 0
    && f.expiryDate != Some(InvalidDate)
    && (f.lowStockThreshold.Some? ==> f.lowStockThreshold.value >= 0)
    && (f.recurringCycle.Some? ==> f.recurringCycle.value in {"daily", "weekly", "monthly"})
    && (f.name == Catalog.OTHER ==> f.customName.Some? && !JsStrings.AllWhiteSpace(f.customName.value))
    && (f.isRecurring == Some(true) ==> f.recurringCycle.Some?)
  }

  /** Parsing with the item schema: the normalised item, or the issues found. */
  function Validate(f: FormInput): (r: Result<ItemData, seq<Issue>>)
    ensures r.Success? <==> Acceptable(f)
    ensures r.Failure? ==> |r.error| > 0
    ensures r.Success? ==>
      && r.value.name == f.name && r.value.customName == f.customName
      && r.value.quantity == f.quantity && r.value.expiryDate == f.expiryDate
      && r.value.lowStockThreshold == f.lowStockThreshold.GetOr(Catalog.DEFAULT_THRESHOLD)
      && r.value.isRecurring == f.isRecurring.GetOr(false)
      && (f.recurringCycle.None? <==> r.value.recurringCycle.None?)
      && (r.value.recurringCycle.Some? ==> CycleName(r.value.recurringCycle.value) == f.recurringCycle.value)
      && r.value.barcode == f.barcode
    ensures r.Success? ==> r.value.expiryDate.None? || r.value.expiryDate.value.At?
  {
    IssuePaths(f);
    var issues := Issues(f);
    if issues == [] then Success(Parsed(f)) else Failure(issues)
  }

  /** With every field rule met and no cycle missing, `OTHER` without a usable custom name yields exactly the custom-name issue. */
  lemma MissingCustomNameIsOnlyIssue(f: FormInput)
    requires FieldIssues(f) == []
    requires !(f.isRecurring == Some(true) && f.recurringCycle.None?)
    requires f.name == Catalog.OTHER
    requires f.customName.None? || JsStrings.AllWhiteSpace(f.customName.value)
    ensures Validate(f) == Failure([CUSTOM_NAME_ISSUE])
  {
    NoFieldIssueNoAbort(f);
    JsStrings.TrimEmptyIffAllWhiteSpace(f.customName.GetOr(""));
    assert CrossFieldIssues(Parsed(f)) == [CUSTOM_NAME_ISSUE] + [];
    assert Issues(f) == [CUSTOM_NAME_ISSUE];
  }

  /** With every field rule met and a usable custom name wherever `OTHER` is selected, a recurring item without a cycle yields exactly the cycle issue. */
  lemma MissingCycleIsOnlyIssue(f: FormInput)
    requires FieldIssues(f) == []
    requires f.name == Catalog.OTHER ==> f.customName.Some? && !JsStrings.AllWhiteSpace(f.customName.value)
    requires f.isRecurring == Some(true) && f.recurringCycle.None?
    ensures Validate(f) == Failure([CYCLE_ISSUE])
  {
    NoFieldIssueNoAbort(f);
    JsStrings.TrimEmptyIffAllWhiteSpace(f.customName.GetOr(""));
    assert CrossFieldIssues(Parsed(f)) == [] + [CYCLE_ISSUE];
    assert Issues(f) == [CYCLE_ISSUE];
  }

  /** Both refinement issues are reported together, custom name first. */
  lemma BothCrossFieldIssues(f: FormInput)
    requires FieldIssues(f) == []
    requires f.name == Catalog.OTHER
    requires f.customName.None? || JsStrings.AllWhiteSpace(f.customName.value)
    requires f.isRecurring == Some(true) && f.recurringCycle.None?
    ensures Validate(f) == Failure([CUSTOM_NAME_ISSUE, CYCLE_ISSUE])
  {
    NoFieldIssueNoAbort(f);
    JsStrings.TrimEmptyIffAllWhiteSpace(f.customName.GetOr(""));
    assert CrossFieldIssues(Parsed(f)) == [CUSTOM_NAME_ISSUE] + [CYCLE_ISSUE];
    assert Issues(f) == [CUSTOM_NAME_ISSUE, CYCLE_ISSUE];
  }

  /** A cycle outside the enum aborts: the refinement's issues are not reported even when their conditions hold. */
  lemma InvalidCycleSkipsRefinement(f: FormInput)
    requires f.recurringCycle.Some? && ParseCycle(f.recurringCycle.value).None?
    ensures Validate(f).Failure?
    ensures CUSTOM_NAME_ISSUE !in Validate(f).error && CYCLE_ISSUE !in Validate(f).error
  {
    assert Issues(f) == FieldIssues(f);
  }

  /** No per-field issue means the object did not abort, so the refinement step runs. */
  lemma NoFieldIssueNoAbort(f: FormInput)
    requires FieldIssues(f) == []
    ensures !Aborts(f)
    ensures Issues(f) == CrossFieldIssues(Parsed(f))
  {
    PathsOfFieldIssues(f);
    assert [] + CrossFieldIssues(Parsed(f)) == CrossFieldIssues(Parsed(f));
  }

  /** The cycle rule is one-directional: an item that is not recurring is accepted, with or without a cycle, once the other rules are met. */
  lemma CycleOnNonRecurringAccepted(f: FormInput)
    requires FieldIssues(f) == []
    requires f.isRecurring != Some(true)
    requires f.name == Catalog.OTHER ==> f.customName.Some? && !JsStrings.AllWhiteSpace(f.customName.value)
    ensures Validate(f).Success?
    ensures f.recurringCycle.Some? ==> Validate(f).value.recurringCycle.Some?
  {
    NoFieldIssueNoAbort(f);
    JsStrings.TrimEmptyIffAllWhiteSpace(f.customName.GetOr(""));
    assert !(f.name == Catalog.OTHER && CustomNameMissing(f.customName));
    assert Issues(f) == [];
  }

  /** The custom-name rule is one-directional: a custom name beside a catalog value is accepted and passed through, once the other rules are met. */
  lemma CustomNameBesideCatalogValueAccepted(f: FormInput)
    requires FieldIssues(f) == []
    requires f.name != Catalog.OTHER
    requires f.isRecurring == Some(true) ==> f.recurringCycle.Some?
    ensures Validate(f).Success?
    ensures Validate(f).value.customName == f.customName
  {
    NoFieldIssueNoAbort(f);
    assert CrossFieldIssues(Parsed(f)) == [] + [];
  }
}
