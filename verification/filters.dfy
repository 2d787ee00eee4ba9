/** The dashboard's filter state: a draft the filter controls edit and an
    applied copy the data requests read. Setters edit the draft only;
    applying copies the draft into the applied copy; resetting restores the
    initial state. */
module Filters {
  import opened Wrappers
  import Timeseries

  /** One set of filter choices. `date` is a `YYYY-MM-DD` string or null. */
  datatype Selection = Selection(
    dateRange: string,
    category: string,
    searchTerm: string,
    date: Option<string>,
    granularity: Timeseries.Granularity)

  /** `FiltersState`: the five draft fields and their five `applied*`
      counterparts. */
  datatype FiltersState = FiltersState(draft: Selection, applied: Selection)

  const InitialSelection: Selection := Selection("30", "all", "", None, Timeseries.Day)

  const InitialState: FiltersState := FiltersState(InitialSelection, InitialSelection)

  datatype Action =
    | SetDateRange(range: string)
    | SetCategory(category: string)
    | SetSearchTerm(term: string)
    | SetDate(date: Option<string>)
    | SetGranularity(granularity: Timeseries.Granularity)
    | ResetFilters
    | ApplyFilters

  // ---------------------------------------------------------------------
  // Fields, to say which one a setter touches

  datatype Field = DateRangeField | CategoryField | SearchTermField | DateField | GranularityField

  datatype FieldValue = Text(s: string) | MaybeText(o: Option<string>) | Choice(g: Timeseries.Granularity)

  function Get(sel: Selection, f: Field): FieldValue {
    match f
    case DateRangeField => Text(sel.dateRange)
    case CategoryField => Text(sel.category)
    case SearchTermField => Text(sel.searchTerm)
    case DateField => MaybeText(sel.date)
    case GranularityField => Choice(sel.granularity)
  }

  predicate IsSetter(a: Action) {
    !a.ResetFilters? && !a.ApplyFilters?
  }

  /** The field a setter writes. */
  function Target(a: Action): Field
    requires IsSetter(a)
  {
    match a
    case SetDateRange(_) => DateRangeField
    case SetCategory(_) => CategoryField
    case SetSearchTerm(_) => SearchTermField
    case SetDate(_) => DateField
    case SetGranularity(_) => GranularityField
  }

  /** The value a setter writes. */
  function Payload(a: Action): FieldValue
    requires IsSetter(a)
  {
    match a
    case SetDateRange(v) => Text(v)
    case SetCategory(v) => Text(v)
    case SetSearchTerm(v) => Text(v)
    case SetDate(v) => MaybeText(v)
    case SetGranularity(v) => Choice(v)
  }

  // ---------------------------------------------------------------------
  // The reducer

  /** The slice reducer. */
  function Reduce(s: FiltersState, a: Action): (t: FiltersState)
    ensures IsSetter(a) ==>
      && t.applied == s.applied
      && Get(t.draft, Target(a)) == Payload(a)
      && (forall f :: f != Target(a) ==> Get(t.draft, f) == Get(s.draft, f))
    ensures a.ResetFilters? ==> t == InitialState
    ensures a.ApplyFilters? ==> t.draft == s.draft && t.applied == s.draft
  {
    match a
    case SetDateRange(v) => s.(draft := s.draft.(dateRange := v))
    case SetCategory(v) => s.(draft := s.draft.(category := v))
    case SetSearchTerm(v) => s.(draft := s.draft.(searchTerm := v))
    case SetDate(v) => s.(draft := s.draft.(date := v))
    case SetGranularity(v) => s.(draft := s.draft.(granularity := v))
    case ResetFilters => InitialState
    case ApplyFilters => s.(applied := s.draft)
  }

  /** Two selections that agree on every field are equal. */
  lemma SelectionExtensional(a: Selection, b: Selection)
    requires forall f :: Get(a, f) == Get(b, f)
    ensures a == b
  {
    assert Get(a, DateRangeField) == Get(b, DateRangeField);
    assert Get(a, CategoryField) == Get(b, CategoryField);
    assert Get(a, SearchTermField) == Get(b, SearchTermField);
    assert Get(a, DateField) == Get(b, DateField);
    assert Get(a, GranularityField) == Get(b, GranularityField);
  }

  /** The initial state: a 30-day range, every category, no search term,
      no reference date, daily granularity, and the same values applied. */
  lemma InitialStateIs()
    ensures InitialState.draft.dateRange == "30" && InitialState.draft.category == "all"
    ensures InitialState.draft.searchTerm == "" && InitialState.draft.date.None?
    ensures InitialState.draft.granularity == Timeseries.Day
    ensures InitialState.applied == InitialState.draft
  {
  }

  /** Applying twice is applying once. */
  lemma ApplyIdempotent(s: FiltersState)
    ensures Reduce(Reduce(s, ApplyFilters), ApplyFilters) == Reduce(s, ApplyFilters)
  {
  }

  /** Setting a field to the value it already holds changes nothing. */
  lemma SetterNoOp(s: FiltersState, a: Action)
    requires IsSetter(a) && Get(s.draft, Target(a)) == Payload(a)
    ensures Reduce(s, a) == s
  {
    SelectionExtensional(Reduce(s, a).draft, s.draft);
  }

  /** Setters on different fields commute. */
  lemma SettersCommute(s: FiltersState, a: Action, b: Action)
    requires IsSetter(a) && IsSetter(b) && Target(a) != Target(b)
    ensures Reduce(Reduce(s, a), b) == Reduce(Reduce(s, b), a)
  {
    var ab := Reduce(Reduce(s, a), b).draft;
    var ba := Reduce(Reduce(s, b), a).draft;
    forall f ensures Get(ab, f) == Get(ba, f) {
    }
    SelectionExtensional(ab, ba);
  }

  // ---------------------------------------------------------------------
  // Runs of actions

  function Run(s: FiltersState, actions: seq<Action>): FiltersState {
    if |actions| == 0 then s else Reduce(Run(s, actions[..|actions| - 1]), actions[|actions| - 1])
  }

  /** What the data requests see changes only on apply or reset: after any
      run of setters the applied selection is the one before them. */
  lemma {:induction false} SettersKeepApplied(s: FiltersState, actions: seq<Action>)
    requires forall i :: 0 <= i < |actions| ==> IsSetter(actions[i])
    ensures Run(s, actions).applied == s.applied
  {
    if |actions| > 0 {
      SettersKeepApplied(s, actions[..|actions| - 1]);
    }
  }

  /** After a run of actions that ends with an apply and is followed only by
      setters, the applied selection is the draft as it was at that apply. */
  lemma {:induction false} AppliedIsLastApply(s: FiltersState, before: seq<Action>, after: seq<Action>)
    requires forall i :: 0 <= i < |after| ==> IsSetter(after[i])
    ensures Run(s, before + [ApplyFilters] + after).applied == Run(s, before).draft
  {
    var upTo := before + [ApplyFilters];
    assert upTo[..|upTo| - 1] == before;
    RunAppend(s, upTo, after);
    SettersKeepApplied(Run(s, upTo), after);
  }

  lemma {:induction false} RunAppend(s: FiltersState, xs: seq<Action>, ys: seq<Action>)
    ensures Run(s, xs + ys) == Run(Run(s, xs), ys)
  {
    if |ys| > 0 {
      assert (xs + ys)[..|xs + ys| - 1] == xs + ys[..|ys| - 1];
      RunAppend(s, xs, ys[..|ys| - 1]);
    } else {
      assert xs + ys == xs;
    }
  }
}
