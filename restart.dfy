/** The restart gate of ingest mode: `process_id` and the `found_restart` flag it
    drives over the ids of the input rows. */
module Restart {

  /** `process_id`: once the restart id has been met every id is processed;
      before that only the restart id itself is. */
  function ProcessId(articleId: string, restart: string, found: bool): (r: bool)
    ensures found ==> r
    ensures !found ==> (r <==> articleId == restart)
  {
    if found then true else articleId == restart
  }

  /** The position of the first id equal to `restart`, or |ids| when there is none. */
  function RestartIndex(ids: seq<string>, restart: string): (k: nat)
    ensures k <= |ids|
    ensures forall i :: 0 <= i < k ==> ids[i] != restart
    ensures k < |ids| ==> ids[k] == restart
  {
    if ids == [] || ids[0] == restart then 0 else 1 + RestartIndex(ids[1..], restart)
  }

  /** The values `found_restart` takes, one after each id, when the loop starts
      with the flag equal to `found`. */
  function Trace(ids: seq<string>, restart: string, found: bool): (t: seq<bool>)
    ensures |t| == |ids|
  {
    if ids == [] then []
    else
      var f := ProcessId(ids[0], restart, found);
      [f] + Trace(ids[1..], restart, f)
  }

  /** The flag after id i is `process_id` of id i and the flag before it: the
      value after id i - 1, or the starting value for the first id. */
  lemma {:induction false} TraceStep(ids: seq<string>, restart: string, found: bool, i: nat)
    requires i < |ids|
    ensures Trace(ids, restart, found)[i] ==
              ProcessId(ids[i], restart, if i == 0 then found else Trace(ids, restart, found)[i - 1])
  {
    if i > 0 {
      TraceStep(ids[1..], restart, ProcessId(ids[0], restart, found), i - 1);
    }
  }

  /** Started at true, the flag is true after every id. */
  lemma {:induction false} TraceFromFound(ids: seq<string>, restart: string, i: nat)
    requires i < |ids|
    ensures Trace(ids, restart, true)[i]
  {
    if i > 0 {
      TraceFromFound(ids[1..], restart, i - 1);
    }
  }

  /** `found_restart` never goes back to false. */
  lemma {:induction false} TraceMonotone(ids: seq<string>, restart: string, found: bool, i: nat, j: nat)
    requires i <= j < |ids|
    requires Trace(ids, restart, found)[i]
    ensures Trace(ids, restart, found)[j]
  {
    var f := ProcessId(ids[0], restart, found);
    if i == 0 {
      if j > 0 {
        TraceFromFound(ids[1..], restart, j - 1);
      }
    } else {
      TraceMonotone(ids[1..], restart, f, i - 1, j - 1);
    }
  }

  /** Started at false, the flag after id i is true exactly when the first
      occurrence of the restart id is at or before i. */
  lemma {:induction false} TraceMarksRestart(ids: seq<string>, restart: string, i: nat)
    requires i < |ids|
    ensures Trace(ids, restart, false)[i] <==> RestartIndex(ids, restart) <= i
  {
    if ids[0] == restart {
      if i > 0 {
        TraceFromFound(ids[1..], restart, i - 1);
      }
    } else if i > 0 {
      TraceMarksRestart(ids[1..], restart, i - 1);
    }
  }
}
