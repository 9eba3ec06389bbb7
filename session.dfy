/** The four `st.session_state` slots the Securecheck prediction form keeps across
    reruns (Securecheck.py:488-497, 527-570) and the summary they gate
    (Securecheck.py:574-585). A slot that was never written is `None`. */
module Session {
  import opened Basics
  import opened Records
  import opened Prediction

  const NOT_AVAILABLE: string := "N/A"
  const ERROR_TEXT: string := "Error"

  /** The values the four slots hold after a submission. */
  datatype Slots = Slots(outcome: string, violation: string, time: string, date: string)

  /** What a submission writes, by prediction. `time` and `date` are the texts of the
      submitted stop time and date as formatted for the summary. */
  function SlotsAfter(p: Prediction, time: string, date: string): (s: Slots)
    ensures (p.Incomplete? || p.Failed?) ==> s.time == "" && s.date == ""
    ensures (p.Historical? || p.Fallback?) ==> s.time == time && s.date == date
    ensures p.Incomplete? ==> s.outcome == s.violation == NOT_AVAILABLE
    ensures p.Failed? ==> s.outcome == s.violation == ERROR_TEXT
    ensures p.Fallback? ==> s.outcome == FALLBACK_OUTCOME && s.violation == FALLBACK_VIOLATION
    ensures p.Historical? ==> s.outcome == p.outcome && s.violation == p.violation
  {
    match p
    case Incomplete => Slots(NOT_AVAILABLE, NOT_AVAILABLE, "", "")
    case Failed => Slots(ERROR_TEXT, ERROR_TEXT, "", "")
    case Fallback => Slots(FALLBACK_OUTCOME, FALLBACK_VIOLATION, time, date)
    case Historical(outcome, violation, _) => Slots(outcome, violation, time, date)
  }

  /** The test guarding the summary (Securecheck.py:585). */
  predicate SummaryVisible(outcome: string, time: string, date: string)
  {
    outcome != NOT_AVAILABLE && outcome != ERROR_TEXT && date != "" && time != ""
  }

  /** After a submission with formatted time and date, the summary shows exactly for
      the fallback and for a historical prediction whose outcome is not itself one of
      the two sentinel texts; an incomplete form or a failed prediction hides it. */
  lemma SummaryAfterSubmit(q: Request, rs: seq<StopRecord>, time: string, date: string)
    requires time != "" && date != ""
    ensures var s := SlotsAfter(Predict(q, rs), time, date);
            SummaryVisible(s.outcome, s.time, s.date) <==>
              || (KeyFieldsFilled(q) && forall i :: 0 <= i < |rs| ==> !IsPrecedent(rs[i], q))
              || (Predict(q, rs).Historical? && Predict(q, rs).outcome !in {NOT_AVAILABLE, ERROR_TEXT})
  {
  }

  /** The slots of one browser session. */
  class PredictionSlots {
    var predictedOutcome: Option<string>
    var predictedViolation: Option<string>
    var formattedTime: Option<string>
    var formattedDate: Option<string>

    /** A new session holds none of the four keys. */
    constructor ()
      ensures predictedOutcome == predictedViolation == formattedTime == formattedDate == None
    {
      predictedOutcome := None;
      predictedViolation := None;
      formattedTime := None;
      formattedDate := None;
    }

    /** Every slot has been written. */
    predicate Initialised()
      reads this
    {
      predictedOutcome.Some? && predictedViolation.Some? && formattedTime.Some? && formattedDate.Some?
    }

    /** The `if ... not in st.session_state` block run on every rerun: a missing slot
        gets its default, a present one keeps its value. */
    method InitialiseMissing()
      modifies this
      ensures Initialised()
      ensures predictedOutcome == (if old(predictedOutcome).Some? then old(predictedOutcome) else Some(NOT_AVAILABLE))
      ensures predictedViolation == (if old(predictedViolation).Some? then old(predictedViolation) else Some(NOT_AVAILABLE))
      ensures formattedTime == (if old(formattedTime).Some? then old(formattedTime) else Some(""))
      ensures formattedDate == (if old(formattedDate).Some? then old(formattedDate) else Some(""))
    {
      if predictedOutcome.None? {
        predictedOutcome := Some(NOT_AVAILABLE);
      }
      if predictedViolation.None? {
        predictedViolation := Some(NOT_AVAILABLE);
      }
      if formattedTime.None? {
        formattedTime := Some("");
      }
      if formattedDate.None? {
        formattedDate := Some("");
      }
    }

    /** The submission branch: all four slots are overwritten from the prediction. */
    method Submit(q: Request, rs: seq<StopRecord>, time: string, date: string)
      modifies this
      ensures var s := SlotsAfter(Predict(q, rs), time, date);
              && predictedOutcome == Some(s.outcome)
              && predictedViolation == Some(s.violation)
              && formattedTime == Some(s.time)
              && formattedDate == Some(s.date)
    {
      var p := Predict(q, rs);
      if p.Incomplete? {
        predictedOutcome, predictedViolation := Some(NOT_AVAILABLE), Some(NOT_AVAILABLE);
        formattedTime, formattedDate := Some(""), Some("");
      } else if p.Failed? {
        predictedOutcome, predictedViolation := Some(ERROR_TEXT), Some(ERROR_TEXT);
        formattedTime, formattedDate := Some(""), Some("");
      } else {
        if p.Historical? {
          predictedOutcome, predictedViolation := Some(p.outcome), Some(p.violation);
        } else {
          predictedOutcome, predictedViolation := Some(FALLBACK_OUTCOME), Some(FALLBACK_VIOLATION);
        }
        formattedTime, formattedDate := Some(time), Some(date);
      }
    }

    /** Whether the summary is rendered from the current slots. */
    predicate ShowsSummary()
      reads this
      requires Initialised()
    {
      SummaryVisible(predictedOutcome.value, formattedTime.value, formattedDate.value)
    }

    /** One rerun of the script: initialise missing slots, then apply the form if it
        was submitted; reports whether the summary is rendered. Without a submission
        the slots keep what an earlier run wrote. */
    method Rerun(submission: Option<(Request, string, string)>, rs: seq<StopRecord>) returns (shown: bool)
      modifies this
      ensures Initialised()
      ensures shown == ShowsSummary()
      ensures submission.None? ==>
                && predictedOutcome == (if old(predictedOutcome).Some? then old(predictedOutcome) else Some(NOT_AVAILABLE))
                && predictedViolation == (if old(predictedViolation).Some? then old(predictedViolation) else Some(NOT_AVAILABLE))
                && formattedTime == (if old(formattedTime).Some? then old(formattedTime) else Some(""))
                && formattedDate == (if old(formattedDate).Some? then old(formattedDate) else Some(""))
      ensures submission.Some? ==>
                var (q, time, date) := submission.value;
                var s := SlotsAfter(Predict(q, rs), time, date);
                predictedOutcome == Some(s.outcome) && formattedTime == Some(s.time) && formattedDate == Some(s.date)
                && predictedViolation == Some(s.violation)
    {
      InitialiseMissing();
      if submission.Some? {
        var (q, time, date) := submission.value;
        Submit(q, rs, time, date);
      }
      shown := SummaryVisible(predictedOutcome.value, formattedTime.value, formattedDate.value);
    }
  }

  /** A fresh session shows no summary until a submission succeeds. */
  method FreshSessionHidesSummary() returns (shown: bool)
    ensures !shown
  {
    var slots := new PredictionSlots();
    shown := slots.Rerun(None, []);
  }
}
