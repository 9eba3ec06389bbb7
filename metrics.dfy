/** The four headline numbers shown above the dashboard (Securecheck.py:75-91,
    demo.py:49-63): counts over the loaded record list. */
module Metrics {
  import opened Basics
  import opened Records

  datatype Headline = Headline(totalStops: nat, arrests: nat, warnings: nat, drugRelated: nat)

  /** `stop_outcome.astype(str)`: a NULL outcome becomes the text "None". */
  function OutcomeText(r: StopRecord): string
  {
    match r.stopOutcome
    case None => "None"
    case Some(s) => s
  }

  predicate MentionsArrest(r: StopRecord)
  {
    ContainsIgnoringCase(OutcomeText(r), "arrest")
  }

  predicate MentionsWarning(r: StopRecord)
  {
    ContainsIgnoringCase(OutcomeText(r), "warning")
  }

  /** `pd.to_numeric(drugs_related_stop, errors='coerce') == 1`. */
  predicate DrugRelated(r: StopRecord)
  {
    IsTrue(r.drugsRelatedStop)
  }

  /** Securecheck's metrics: the row count, and the rows whose outcome mentions
      "arrest" / "warning" in any letter case, and the drug-related rows. Each is
      the number of row positions satisfying its test, so none exceeds the total. */
  function Headlines(rs: seq<StopRecord>): (h: Headline)
    ensures h.totalStops == |rs|
    ensures h.arrests == |Positions(rs, MentionsArrest)| <= h.totalStops
    ensures h.warnings == |Positions(rs, MentionsWarning)| <= h.totalStops
    ensures h.drugRelated == |Positions(rs, DrugRelated)| <= h.totalStops
  {
    Headline(|rs|, CountIf(rs, MentionsArrest), CountIf(rs, MentionsWarning), CountIf(rs, DrugRelated))
  }

  lemma LowerKeepsLength(s: string)
    ensures |Lower(s)| == |s|
  {
  }

  /** A NULL outcome ("None" after `astype(str)`) is counted neither as an arrest nor as a warning. */
  lemma NullOutcomeNotCounted(r: StopRecord)
    requires r.stopOutcome.None?
    ensures !MentionsArrest(r) && !MentionsWarning(r)
  {
    LowerKeepsLength("None");
    LowerKeepsLength("arrest");
    LowerKeepsLength("warning");
    ContainsNeedsRoom(Lower("None"), Lower("arrest"));
    ContainsNeedsRoom(Lower("None"), Lower("warning"));
  }

  /** An outcome counts as an arrest exactly when "arrest" occurs in its lower-cased text. */
  lemma MentionsArrestIff(r: StopRecord)
    ensures MentionsArrest(r) <==> exists i :: OccursAt(Lower(OutcomeText(r)), "arrest", i)
  {
    assert Lower("arrest") == "arrest";
    ContainsIffOccurs(Lower(OutcomeText(r)), "arrest");
  }

  /** The demo's tests: `str.contains(..., na=False)` sends a NULL outcome to false
      directly, and the drug flag is compared with `== 1`. */
  predicate DemoMentionsArrest(r: StopRecord)
  {
    r.stopOutcome.Some? && ContainsIgnoringCase(r.stopOutcome.value, "arrest")
  }

  predicate DemoMentionsWarning(r: StopRecord)
  {
    r.stopOutcome.Some? && ContainsIgnoringCase(r.stopOutcome.value, "warning")
  }

  function DemoHeadlines(rs: seq<StopRecord>): Headline
  {
    Headline(|rs|, CountIf(rs, DemoMentionsArrest), CountIf(rs, DemoMentionsWarning), CountIf(rs, DrugRelated))
  }

  /** The two dashboards show the same four numbers on every record list. */
  lemma DemoHeadlinesAgree(rs: seq<StopRecord>)
    ensures DemoHeadlines(rs) == Headlines(rs)
  {
    forall i | 0 <= i < |rs|
      ensures DemoMentionsArrest(rs[i]) == MentionsArrest(rs[i])
      ensures DemoMentionsWarning(rs[i]) == MentionsWarning(rs[i])
    {
      if rs[i].stopOutcome.None? {
        NullOutcomeNotCounted(rs[i]);
      }
    }
    CountIfPointwise(rs, DemoMentionsArrest, MentionsArrest);
    CountIfPointwise(rs, DemoMentionsWarning, MentionsWarning);
  }

  /** What the current dashboard shows: an empty log stops the script before the
      metrics (Securecheck.py:67-69), so no number is shown. */
  function ShownHeadlines(rs: seq<StopRecord>): (h: Option<Headline>)
    ensures h.None? <==> rs == []
    ensures h.Some? ==> h.value.totalStops == |rs| > 0 && h.value == Headlines(rs)
  {
    if rs == [] then None else Some(Headlines(rs))
  }

  /** What the earlier variant shows: an empty log gives a frame without columns, and
      reading `stop_outcome` from it raises a KeyError (demo.py:54), so no count beyond
      the zero total is shown. */
  function DemoShownHeadlines(rs: seq<StopRecord>): (h: Option<Headline>)
    ensures h.None? <==> rs == []
    ensures h.Some? ==> h.value.totalStops == |rs| > 0 && h.value == DemoHeadlines(rs)
  {
    if rs == [] then None else Some(DemoHeadlines(rs))
  }

  /** On every log the two dashboards show the same thing: nothing for an empty log,
      otherwise the same four numbers. */
  lemma ShownHeadlinesAgree(rs: seq<StopRecord>)
    ensures DemoShownHeadlines(rs) == ShownHeadlines(rs)
  {
    if rs != [] {
      DemoHeadlinesAgree(rs);
    }
  }
}
