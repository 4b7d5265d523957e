/**
 The transition policy both variants of the gate run in the `finally`
 block of their mutation callback: compare this batch's classification
 with the reporting flag and enter, leave or keep the blocking state.
 */
module Transition {

  /** What the `finally` block does for one batch. */
  datatype Action = Report | Dismiss | Stay

  /**
   Report only when labels are missing and nothing is reported yet, dismiss
   only when nothing is missing and a report is active; otherwise stay.
   */
  function Decide(hasMissingLabels: bool, isReporting: bool): (a: Action)
    ensures a == Stay <==> hasMissingLabels == isReporting
    ensures a == Report ==> hasMissingLabels
    ensures a == Dismiss ==> isReporting
  {
    if hasMissingLabels && !isReporting then Report
    else if !hasMissingLabels && isReporting then Dismiss
    else Stay
  }

  /**
   The reporting flag after the `finally` block; entering the blocking state
   fails silently when no Tweet button is found.
   */
  function NextReporting(hasMissingLabels: bool, isReporting: bool, buttonFound: bool): (r: bool)
    ensures r <==> hasMissingLabels && (isReporting || buttonFound)
  {
    match Decide(hasMissingLabels, isReporting)
    case Report => buttonFound
    case Dismiss => false
    case Stay => isReporting
  }

  /**
   Running the callback again on the same snapshot decides to stay, or
   retries a report that found no button (which again changes nothing), and
   the flag it leaves is the same.
   */
  lemma SecondRunIsIdle(hasMissingLabels: bool, isReporting: bool, buttonFound: bool)
    ensures var once := NextReporting(hasMissingLabels, isReporting, buttonFound);
      Decide(hasMissingLabels, once) == Stay || (Decide(hasMissingLabels, once) == Report && !buttonFound)
    ensures var once := NextReporting(hasMissingLabels, isReporting, buttonFound);
      NextReporting(hasMissingLabels, once, buttonFound) == once
  {
  }
}
