/** The outcome/violation predictor of both dashboards: keep the historical stops
    whose key fields equal the submitted ones exactly, and predict the first mode of
    `stop_outcome` and of `violation` among them, or a constant when none match.
    Securecheck.py:523-559 is the current handler; demo.py:477-493 an older variant. */
module Prediction {
  import opened Basics
  import opened Records
  import opened Modes

  /** A select box offering "", "0" and "1" (Securecheck.py:510, 513). */
  datatype FlagChoice = Blank | Zero | One

  /** The Securecheck form as submitted (Securecheck.py:501-518); the date, time,
      search type and vehicle number are not used by the prediction. */
  datatype Request = Request(
    country: string,
    gender: string,
    age: int,
    race: string,
    search: FlagChoice,
    drugs: FlagChoice,
    duration: string)

  /** Python truthiness of the six required fields (Securecheck.py:526). */
  predicate KeyFieldsFilled(q: Request)
  {
    q.gender != "" && q.country != "" && q.race != "" && q.search != Blank && q.drugs != Blank && q.duration != ""
  }

  /** `pd.to_numeric(column, errors='coerce') == int(choice)`: a NULL never matches. */
  predicate FlagMatches(stored: Option<bool>, choice: FlagChoice)
  {
    match stored
    case None => false
    case Some(b) => (b && choice == One) || (!b && choice == Zero)
  }

  /** The boolean mask of Securecheck.py:539-547: six columns compared for equality,
      `country_name` not among them. A NULL column equals nothing. */
  predicate IsPrecedent(r: StopRecord, q: Request)
  {
    && r.driverGender == Some(q.gender)
    && r.driverAge == Some(q.age)
    && FlagMatches(r.searchConducted, q.search)
    && r.stopDuration == Some(q.duration)
    && FlagMatches(r.drugsRelatedStop, q.drugs)
    && r.driverRace == Some(q.race)
  }

  function PrecedentTest(q: Request): StopRecord -> bool
  {
    r => IsPrecedent(r, q)
  }

  /** `filtered_data`: the precedents in their original order. */
  function Precedents(rs: seq<StopRecord>, q: Request): (ms: seq<StopRecord>)
    ensures |ms| <= |rs|
    ensures forall m :: m in ms <==> m in rs && IsPrecedent(m, q)
  {
    Filter(rs, PrecedentTest(q))
  }

  function Outcomes(ms: seq<StopRecord>): seq<Option<string>>
  {
    seq(|ms|, i requires 0 <= i < |ms| => ms[i].stopOutcome)
  }

  function Violations(ms: seq<StopRecord>): seq<Option<string>>
  {
    seq(|ms|, i requires 0 <= i < |ms| => ms[i].violation)
  }

  predicate OutcomeMissing(r: StopRecord)
  {
    r.stopOutcome.None?
  }

  predicate ViolationMissing(r: StopRecord)
  {
    r.violation.None?
  }

  const FALLBACK_OUTCOME: string := "Warning or Citation"
  const FALLBACK_VIOLATION: string := "Speeding"

  datatype Prediction =
    | Incomplete                                                   // a required field was left blank
    | Historical(outcome: string, violation: string, matches: nat) // first modes over the precedents
    | Fallback                                                     // no precedent: the constants above
    | Failed                                                       // the try block raised

  /** The two columns the handler reads off the precedents, with `None` for a column
      whose `mode()` is empty because it is NULL in every precedent. */
  function ColumnModes(ms: seq<StopRecord>): (m: (Option<string>, Option<string>))
    ensures m.0.None? <==> forall j :: 0 <= j < |ms| ==> OutcomeMissing(ms[j])
    ensures m.1.None? <==> forall j :: 0 <= j < |ms| ==> ViolationMissing(ms[j])
    ensures m.0.Some? ==> IsFirstMode(Outcomes(ms), StrLe, m.0.value) && exists j :: 0 <= j < |ms| && ms[j].stopOutcome == m.0
    ensures m.1.Some? ==> IsFirstMode(Violations(ms), StrLe, m.1.value) && exists j :: 0 <= j < |ms| && ms[j].violation == m.1
  {
    StrLeTotalOrder();
    var outcome := FirstMode(Outcomes(ms), StrLe);
    var violation := FirstMode(Violations(ms), StrLe);
    assert forall j :: 0 <= j < |ms| ==> Outcomes(ms)[j].None? == OutcomeMissing(ms[j]);
    assert forall j :: 0 <= j < |ms| ==> Violations(ms)[j].None? == ViolationMissing(ms[j]);
    assert outcome.Some? ==> exists j :: 0 <= j < |ms| && ms[j].stopOutcome == outcome by {
      if outcome.Some? {
        var j :| 0 <= j < |ms| && Outcomes(ms)[j] == outcome;
        assert ms[j].stopOutcome == outcome;
      }
    }
    assert violation.Some? ==> exists j :: 0 <= j < |ms| && ms[j].violation == violation by {
      if violation.Some? {
        var j :| 0 <= j < |ms| && Violations(ms)[j] == violation;
        assert ms[j].violation == violation;
      }
    }
    (outcome, violation)
  }

  /** Securecheck.py:526-559. With every required field filled, the precedents
      decide: none gives the fallback; otherwise the first modes of the two columns,
      unless a column is NULL in every precedent, where `mode()` is empty and
      `.iloc[0]` raises, which the handler reports as an error. */
  function Predict(q: Request, rs: seq<StopRecord>): (p: Prediction)
    ensures p.Incomplete? <==> !KeyFieldsFilled(q)
    ensures p.Fallback? <==> KeyFieldsFilled(q) && forall i :: 0 <= i < |rs| ==> !IsPrecedent(rs[i], q)
    ensures p.Failed? <==>
              && KeyFieldsFilled(q)
              && (exists i :: 0 <= i < |rs| && IsPrecedent(rs[i], q))
              && ((forall i :: 0 <= i < |rs| && IsPrecedent(rs[i], q) ==> rs[i].stopOutcome.None?)
                  || (forall i :: 0 <= i < |rs| && IsPrecedent(rs[i], q) ==> rs[i].violation.None?))
    ensures p.Historical? ==>
              && p.matches == |Precedents(rs, q)| >= 1
              && (exists m :: m in rs && IsPrecedent(m, q) && m.stopOutcome == Some(p.outcome))
              && (exists m :: m in rs && IsPrecedent(m, q) && m.violation == Some(p.violation))
              && IsFirstMode(Outcomes(Precedents(rs, q)), StrLe, p.outcome)
              && IsFirstMode(Violations(Precedents(rs, q)), StrLe, p.violation)
  {
    var ms := Precedents(rs, q);
    PrecedentColumns(rs, PrecedentTest(q));
    if !KeyFieldsFilled(q) then Incomplete
    else if ms == [] then Fallback
    else
      var (outcome, violation) := ColumnModes(ms);
      if outcome.None? || violation.None? then Failed
      else
        ModesComeFromPrecedents(rs, q, outcome.value, violation.value);
        Historical(outcome.value, violation.value, |ms|)
  }

  /** What the handler reads off the kept stops, in terms of the whole log: none is
      kept exactly when none passes, and a column is NULL in every kept stop exactly
      when it is NULL in every stop that passes. */
  lemma PrecedentColumns(rs: seq<StopRecord>, p: StopRecord -> bool)
    ensures Filter(rs, p) == [] <==> forall i :: 0 <= i < |rs| ==> !p(rs[i])
    ensures (forall j :: 0 <= j < |Filter(rs, p)| ==> OutcomeMissing(Filter(rs, p)[j]))
            <==> (forall i :: 0 <= i < |rs| && p(rs[i]) ==> OutcomeMissing(rs[i]))
    ensures (forall j :: 0 <= j < |Filter(rs, p)| ==> ViolationMissing(Filter(rs, p)[j]))
            <==> (forall i :: 0 <= i < |rs| && p(rs[i]) ==> ViolationMissing(rs[i]))
  {
    FilterEmpty(rs, p);
    FilterEvery(rs, p, OutcomeMissing);
    FilterEvery(rs, p, ViolationMissing);
  }

  /** The predicted values are those of some precedent. */
  lemma ModesComeFromPrecedents(rs: seq<StopRecord>, q: Request, outcome: string, violation: string)
    requires (exists j :: 0 <= j < |Precedents(rs, q)| && Precedents(rs, q)[j].stopOutcome == Some(outcome))
    requires (exists j :: 0 <= j < |Precedents(rs, q)| && Precedents(rs, q)[j].violation == Some(violation))
    ensures exists m :: m in rs && IsPrecedent(m, q) && m.stopOutcome == Some(outcome)
    ensures exists m :: m in rs && IsPrecedent(m, q) && m.violation == Some(violation)
  {
    var ms := Precedents(rs, q);
    var j :| 0 <= j < |ms| && ms[j].stopOutcome == Some(outcome);
    var k :| 0 <= k < |ms| && ms[k].violation == Some(violation);
    assert ms[j] in ms && ms[k] in ms;
  }

  /** `country_name` is required but never compared: any two non-blank countries give the same prediction. */
  lemma CountryNotCompared(q: Request, rs: seq<StopRecord>, country: string)
    requires q.country != "" && country != ""
    ensures Predict(q.(country := country), rs) == Predict(q, rs)
  {
    FilterPointwise(rs, PrecedentTest(q.(country := country)), PrecedentTest(q));
  }

  // ---------------------------------------------------------------------------
  // The older handler in demo.py.
  // ---------------------------------------------------------------------------

  /** The demo form after `int(...)` of its two flag boxes (demo.py:450-470). */
  datatype DemoRequest = DemoRequest(gender: string, age: int, search: int, duration: string, drugs: int)

  /** `column == int(choice)` against a stored boolean; a NULL never matches. */
  predicate NumericFlagMatches(stored: Option<bool>, value: int)
  {
    match stored
    case None => false
    case Some(b) => (if b then 1 else 0) == value
  }

  /** demo.py:479-485: five columns compared, neither race nor country. */
  predicate IsDemoPrecedent(r: StopRecord, q: DemoRequest)
  {
    && r.driverGender == Some(q.gender)
    && r.driverAge == Some(q.age)
    && NumericFlagMatches(r.searchConducted, q.search)
    && r.stopDuration == Some(q.duration)
    && NumericFlagMatches(r.drugsRelatedStop, q.drugs)
  }

  function DemoPrecedentTest(q: DemoRequest): StopRecord -> bool
  {
    r => IsDemoPrecedent(r, q)
  }

  function DemoPrecedents(rs: seq<StopRecord>, q: DemoRequest): (ms: seq<StopRecord>)
    ensures forall m :: m in ms <==> m in rs && IsDemoPrecedent(m, q)
  {
    Filter(rs, DemoPrecedentTest(q))
  }

  const DEMO_FALLBACK_OUTCOME: string := "warning"
  const DEMO_FALLBACK_VIOLATION: string := "speeding"

  /** demo.py:488-493: the first modes over the precedents, or the lower-case constants
      when there is none. `None` stands for the uncaught error `mode()[0]` raises when a
      column is NULL in every precedent. */
  function DemoPredict(q: DemoRequest, rs: seq<StopRecord>): (p: Option<(string, string)>)
    ensures (forall i :: 0 <= i < |rs| ==> !IsDemoPrecedent(rs[i], q)) ==> p == Some((DEMO_FALLBACK_OUTCOME, DEMO_FALLBACK_VIOLATION))
    ensures p.Some? && (exists i :: 0 <= i < |rs| && IsDemoPrecedent(rs[i], q)) ==>
              && IsFirstMode(Outcomes(DemoPrecedents(rs, q)), StrLe, p.value.0)
              && IsFirstMode(Violations(DemoPrecedents(rs, q)), StrLe, p.value.1)
    ensures p.None? <==>
              && (exists i :: 0 <= i < |rs| && IsDemoPrecedent(rs[i], q))
              && ((forall i :: 0 <= i < |rs| && IsDemoPrecedent(rs[i], q) ==> rs[i].stopOutcome.None?)
                  || (forall i :: 0 <= i < |rs| && IsDemoPrecedent(rs[i], q) ==> rs[i].violation.None?))
  {
    var ms := DemoPrecedents(rs, q);
    PrecedentColumns(rs, DemoPrecedentTest(q));
    if ms == [] then Some((DEMO_FALLBACK_OUTCOME, DEMO_FALLBACK_VIOLATION))
    else
      var (outcome, violation) := ColumnModes(ms);
      if outcome.None? || violation.None? then None
      else Some((outcome.value, violation.value))
  }

  /** The demo's filter is coarser: every Securecheck precedent is a demo precedent
      of the same request read through `int(...)`. */
  function AsDemoRequest(q: Request): DemoRequest
  {
    DemoRequest(q.gender, q.age, if q.search == One then 1 else 0, q.duration, if q.drugs == One then 1 else 0)
  }

  lemma PrecedentIsDemoPrecedent(r: StopRecord, q: Request)
    requires IsPrecedent(r, q)
    ensures IsDemoPrecedent(r, AsDemoRequest(q))
  {
  }

  /** The demo duration box has no blank entry (demo.py:463-470): whatever is chosen is a bucket label. */
  function DemoDurationChoice(index: nat): (d: string)
    requires index < |DURATION_BUCKETS|
    ensures d in DURATION_BUCKETS && d != ""
  {
    DURATION_BUCKETS[index]
  }

  /** The Securecheck box puts "" first (Securecheck.py:515-516), so the duration can be blank. */
  function DurationChoice(index: nat): (d: string)
    requires index <= |DURATION_BUCKETS|
    ensures d == "" <==> index == 0
    ensures index > 0 ==> d == DURATION_BUCKETS[index - 1]
  {
    ([""] + DURATION_BUCKETS)[index]
  }
}
