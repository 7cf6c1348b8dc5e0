/**
 * The `tracking` state field: an append-only log of the transactions
 * applied to a state.
 */
module Tracking {
  import opened Engine

  /** The field's value: the transactions seen so far, oldest first. */
  type TrackingLog = seq<Transaction>

  /** `create()`: a new state starts with an empty log. */
  function Create(): (log: TrackingLog)
    ensures |log| == 0
  {
    []
  }

  /**
   * `update(value, tr)`: a fresh array holding the previous entries,
   * unchanged and in order, followed by `tr`.
   */
  function Update(value: TrackingLog, tr: Transaction): (next: TrackingLog)
    ensures |next| == |value| + 1
    ensures next[..|value|] == value
    ensures next[|value|] == tr
  {
    value + [tr]
  }

  /** The field's value after `trs` were applied, one by one, to a fresh state. */
  function Replay(trs: seq<Transaction>): TrackingLog {
    if trs == [] then Create() else Update(Replay(trs[..|trs| - 1]), trs[|trs| - 1])
  }

  /** After n updates from `create`, the log lists exactly those n transactions, in order. */
  lemma {:induction false} ReplayIsLog(trs: seq<Transaction>)
    ensures Replay(trs) == trs
  {
    if trs != [] {
      ReplayIsLog(trs[..|trs| - 1]);
      assert trs[..|trs| - 1] + [trs[|trs| - 1]] == trs;
    }
  }

  /** Further updates only extend the log: what was logged stays, in place. */
  lemma ReplayExtends(trs: seq<Transaction>, more: seq<Transaction>)
    ensures |Replay(trs + more)| == |trs| + |more|
    ensures Replay(trs + more)[..|trs|] == Replay(trs)
  {
    ReplayIsLog(trs + more);
    ReplayIsLog(trs);
  }
}
