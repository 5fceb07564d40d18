/**
  The coordinating thread of `spawn_threads`: after the check-completion
  barrier it reads every worker's `reached_majority` flag and keeps the run
  going while at least one of them is false.
 */
module Coordinator {

  /** Lines 260-266 from worker `i` on: the scan stops at the first false flag. */
  function ContinueFrom(flags: seq<bool>, i: nat): (run: bool)
    requires i <= |flags|
    ensures run <==> exists k :: i <= k < |flags| && !flags[k]
    decreases |flags| - i
  {
    if i == |flags| then false
    else if !flags[i] then true
    else ContinueFrom(flags, i + 1)
  }

  /**
    The flags the coordinator reads with labelprop.c as written. A worker
    stores its flag (line 185) after the check-completion barrier, the same
    barrier after which the coordinator reads it (lines 252, 262), so each
    read sees this round's value only if the worker got there first
    (`storedFirst[i]`); otherwise it sees the value from the round before,
    or the never-initialised content of the flag in the first round.
   */
  function FlagsSeenAsWritten(stale: seq<bool>, current: seq<bool>, storedFirst: seq<bool>): (seen: seq<bool>)
    requires |stale| == |current| == |storedFirst|
    ensures |seen| == |current|
    ensures forall i :: 0 <= i < |seen| ==> seen[i] == current[i] || seen[i] == stale[i]
    ensures forall i :: 0 <= i < |seen| && storedFirst[i] ==> seen[i] == current[i]
  {
    seq(|current|, i requires 0 <= i < |current| => if storedFirst[i] then current[i] else stale[i])
  }

  /**
    The coordinator's decision as written: the continue test of lines
    260-266 applied to the flags it happened to see. When every worker
    stored first it is the decision on this round's flags.
   */
  function DecisionAsWritten(stale: seq<bool>, current: seq<bool>, storedFirst: seq<bool>): (run: bool)
    requires |stale| == |current| == |storedFirst|
    ensures (forall i :: 0 <= i < |storedFirst| ==> storedFirst[i]) ==> (run <==> exists i :: 0 <= i < |current| && !current[i])
  {
    ContinueFrom(FlagsSeenAsWritten(stale, current, storedFirst), 0)
  }
}
