/** The campaign validator: a proposed campaign is accepted only when its
    five required fields are present, it does not start before the moment it
    is created, and its window has a positive length. */
module Campaigns {
  import opened Wrappers

  /** Seconds on the UTC clock. */
  type Time = int

  /** A proposed campaign as the form hands it over: every field may be unset. */
  datatype Draft = Draft(
    title: Option<string>,
    description: Option<string>,
    companyId: Option<int>,
    starttime: Option<Time>,
    endtime: Option<Time>)

  /** A campaign that passed validation: every field is set. */
  datatype Campaign = Campaign(
    title: string,
    description: string,
    companyId: int,
    starttime: Time,
    endtime: Time)

  /** One reason a draft is rejected. */
  datatype Violation =
    | MissingTitle
    | MissingDescription
    | MissingCompany
    | MissingStartTime
    | MissingEndTime
    | StartTimeInPast
    | EndTimeNotAfterStartTime

  /** The five required fields, used to say "omit any one of them". */
  datatype Field = Title | Description | CompanyId | StartTime | EndTime

  /** A text field counts as present when it is set and not empty. */
  predicate Filled(s: Option<string>) {
    s.Some? && s.value != ""
  }

  /** Reference definition of an acceptable campaign, independent of how the
      violations are collected. */
  predicate WellFormed(d: Draft, now: Time) {
    && Filled(d.title)
    && Filled(d.description)
    && d.companyId.Some?
    && d.starttime.Some?
    && d.endtime.Some?
    && now <= d.starttime.value
    && d.starttime.value < d.endtime.value
  }

  /** The rules in the order they are reported. */
  const Rules: seq<Violation> := [MissingTitle, MissingDescription, MissingCompany,
    MissingStartTime, MissingEndTime, StartTimeInPast, EndTimeNotAfterStartTime]

  /** No rule is listed twice. */
  lemma RulesDistinct()
    ensures forall i, j :: 0 <= i < j < |Rules| ==> Rules[i] != Rules[j]
  {
  }

  /** Whether the draft breaks one given rule at the instant `now`. */
  predicate Breaks(d: Draft, now: Time, v: Violation) {
    match v
    case MissingTitle => !Filled(d.title)
    case MissingDescription => !Filled(d.description)
    case MissingCompany => d.companyId.None?
    case MissingStartTime => d.starttime.None?
    case MissingEndTime => d.endtime.None?
    case StartTimeInPast => d.starttime.Some? && d.starttime.value < now
    case EndTimeNotAfterStartTime =>
      d.starttime.Some? && d.endtime.Some? && d.endtime.value <= d.starttime.value
  }

  /** The rules of `rules` the draft breaks, in order. */
  function Broken(d: Draft, now: Time, rules: seq<Violation>): (r: seq<Violation>)
    ensures forall v :: v in r <==> v in rules && Breaks(d, now, v)
    ensures |r| <= |rules|
    ensures (forall i, j :: 0 <= i < j < |rules| ==> rules[i] != rules[j]) ==>
      forall i, j :: 0 <= i < j < |r| ==> r[i] != r[j]
  {
    if rules == [] then []
    else (if Breaks(d, now, rules[0]) then [rules[0]] else []) + Broken(d, now, rules[1..])
  }

  /** Every rule is checked on its own; all failures are reported together. */
  function Violations(d: Draft, now: Time): (r: seq<Violation>)
    ensures MissingTitle in r <==> !Filled(d.title)
    ensures MissingDescription in r <==> !Filled(d.description)
    ensures MissingCompany in r <==> d.companyId.None?
    ensures MissingStartTime in r <==> d.starttime.None?
    ensures MissingEndTime in r <==> d.endtime.None?
    ensures StartTimeInPast in r <==> d.starttime.Some? && d.starttime.value < now
    ensures EndTimeNotAfterStartTime in r <==>
      d.starttime.Some? && d.endtime.Some? && d.endtime.value <= d.starttime.value
    ensures r == [] <==> WellFormed(d, now)
    ensures forall i, j :: 0 <= i < j < |r| ==> r[i] != r[j]
    ensures |r| <= 7
  {
    RulesDistinct();
    NoneBrokenIffWellFormed(d, now);
    Broken(d, now, Rules)
  }

  /** The rule list is complete: a draft breaks none of the rules exactly
      when it is well formed. */
  lemma NoneBrokenIffWellFormed(d: Draft, now: Time)
    ensures Broken(d, now, Rules) == [] <==> WellFormed(d, now)
  {
    var r := Broken(d, now, Rules);
    assert r != [] ==> r[0] in r;
    if !WellFormed(d, now) {
      if !Filled(d.title) { assert MissingTitle in r; }
      else if !Filled(d.description) { assert MissingDescription in r; }
      else if d.companyId.None? { assert MissingCompany in r; }
      else if d.starttime.None? { assert MissingStartTime in r; }
      else if d.endtime.None? { assert MissingEndTime in r; }
      else if d.starttime.value < now { assert StartTimeInPast in r; }
      else { assert EndTimeNotAfterStartTime in r; }
    }
  }

  /** The draft a stored campaign was built from. */
  function ToDraft(c: Campaign): Draft {
    Draft(Some(c.title), Some(c.description), Some(c.companyId), Some(c.starttime), Some(c.endtime))
  }

  /** Validate a draft at the instant `now`: either the campaign, or every
      violated rule; a rejected draft yields no campaign at all. */
  function Validate(d: Draft, now: Time): (r: Result<Campaign, seq<Violation>>)
    ensures r.Success? <==> WellFormed(d, now)
    ensures r.Success? ==> ToDraft(r.value) == d
    ensures r.Success? ==> now <= r.value.starttime < r.value.endtime
    ensures r.Failure? ==> r.error != [] && r.error == Violations(d, now)
  {
    var errs := Violations(d, now);
    if errs == [] then
      Success(Campaign(d.title.value, d.description.value, d.companyId.value,
                       d.starttime.value, d.endtime.value))
    else
      Failure(errs)
  }

  /** The draft with one required field left unset; the others are kept. */
  function Omit(d: Draft, f: Field): (r: Draft)
    ensures f == Title ==> r.title.None?
    ensures f == Description ==> r.description.None?
    ensures f == CompanyId ==> r.companyId.None?
    ensures f == StartTime ==> r.starttime.None?
    ensures f == EndTime ==> r.endtime.None?
    ensures f != Title ==> r.title == d.title
    ensures f != Description ==> r.description == d.description
    ensures f != CompanyId ==> r.companyId == d.companyId
    ensures f != StartTime ==> r.starttime == d.starttime
    ensures f != EndTime ==> r.endtime == d.endtime
  {
    match f
    case Title => d.(title := None)
    case Description => d.(description := None)
    case CompanyId => d.(companyId := None)
    case StartTime => d.(starttime := None)
    case EndTime => d.(endtime := None)
  }

  /** The violation reported for a missing field. */
  function MissingReason(f: Field): Violation {
    match f
    case Title => MissingTitle
    case Description => MissingDescription
    case CompanyId => MissingCompany
    case StartTime => MissingStartTime
    case EndTime => MissingEndTime
  }

  /** Omitting any one required field is rejected, naming that field,
      whatever the other fields hold, so also when every other rule holds. */
  lemma OmittingAnyFieldRejects(d: Draft, now: Time, f: Field)
    ensures Validate(Omit(d, f), now).Failure?
    ensures MissingReason(f) in Validate(Omit(d, f), now).error
  {
  }

  /** A start before the creation instant is rejected, whatever the other fields. */
  lemma RetroactiveStartRejects(d: Draft, now: Time)
    requires d.starttime.Some? && d.starttime.value < now
    ensures Validate(d, now).Failure?
    ensures StartTimeInPast in Validate(d, now).error
  {
  }

  /** An end at or before the start is rejected, whatever the other fields. */
  lemma EmptyWindowRejects(d: Draft, now: Time)
    requires d.starttime.Some? && d.endtime.Some?
    requires d.endtime.value <= d.starttime.value
    ensures Validate(d, now).Failure?
    ensures EndTimeNotAfterStartTime in Validate(d, now).error
  {
  }

  /** A stored campaign validates back to itself exactly when its window is
      well formed and its texts are not empty. */
  lemma ValidateRoundTrip(c: Campaign, now: Time)
    ensures Validate(ToDraft(c), now) == Success(c) <==>
      c.title != "" && c.description != "" && now <= c.starttime < c.endtime
  {
  }
}
