/**
 * The polling thread `_co2_worker`. Each iteration calls the weak reference
 * and stops once it yields None; otherwise it calls `read_data` once.
 *
 * Whether the weak reference still yields the sensor is decided by CPython's
 * reference counting: the sensor is alive while its owner references it OR
 * while the worker's own local `self` still does. The owner's side is given
 * as a trace `owner`: owner[i] tells whether the owner still references the
 * sensor when the worker makes its i-th liveness check. The model runs for at
 * most |owner| iterations.
 */
module Worker {
  import opened Protocol
  import opened Sensor

  /**
   * Iterations of the loop as written: `self = weak_self()` keeps the sensor in
   * the local `self` from one iteration to the next, so once one iteration has
   * run, the next call of `weak_self()` always finds the sensor alive.
   */
  function IterationsAsWritten(owner: seq<bool>, holdsSelf: bool): (n: nat)
    ensures n <= |owner|
    ensures n > 0 ==> owner[0] || holdsSelf
    decreases |owner|
  {
    if owner == [] || !(owner[0] || holdsSelf) then 0
    else 1 + IterationsAsWritten(owner[1..], true)
  }

  /**
   * Iterations of the loop when the worker drops its strong reference at the
   * end of each iteration (for instance `del self` after `read_data`): the
   * liveness check then sees only the owner's references.
   */
  function Iterations(owner: seq<bool>): (n: nat)
    ensures n <= |owner|
    ensures forall i :: 0 <= i < n ==> owner[i]
    ensures n < |owner| ==> !owner[n]
    decreases |owner|
  {
    if owner == [] || !owner[0] then 0
    else 1 + Iterations(owner[1..])
  }

  /**
   * As written, the worker never stops once it has run an iteration, even
   * when the owner dropped the sensor right after that first check.
   */
  lemma {:induction false} AsWrittenOutlivesOwner(owner: seq<bool>)
    requires owner != [] && owner[0]
    ensures IterationsAsWritten(owner, false) == |owner|
  {
    KeepsRunning(owner[1..]);
  }

  lemma {:induction false} KeepsRunning(owner: seq<bool>)
    ensures IterationsAsWritten(owner, true) == |owner|
    decreases |owner|
  {
    if owner != [] {
      KeepsRunning(owner[1..]);
    }
  }

  /** The smallest input that shows it: the owner lets go after the first check. */
  lemma OwnerReleasedAfterFirstCheck()
    ensures IterationsAsWritten([true, false, false], false) == 3
    ensures Iterations([true, false, false]) == 1
  {
  }

  /**
   * `_co2_worker` driving a sensor, with the strong reference dropped at the
   * end of each iteration (the corrected loop): `outcomes[i]` is what the
   * i-th `read_data` call reads. The loop stops at the first liveness check
   * after the owner let go, and the sensor holds the replay of the reads made.
   */
  method RunWorker(sensor: Co2Mini, owner: seq<bool>, outcomes: seq<ReadOutcome>) returns (n: nat)
    requires |outcomes| == |owner|
    requires sensor.Valid()
    modifies sensor
    ensures sensor.Valid()
    ensures n == Iterations(owner)
    ensures sensor.values == Replay(old(sensor.values), outcomes[..n])
  {
    n := 0;
    while n < |owner|
      invariant 0 <= n <= |owner|
      invariant Iterations(owner) == n + Iterations(owner[n..])
      invariant sensor.Valid()
      invariant sensor.values == Replay(old(sensor.values), outcomes[..n])
    {
      // the weak reference finds the sensor gone: stop for good
      if !owner[n] {
        break;
      }
      var _ := sensor.ReadData(outcomes[n]);
      ReplayStep(old(sensor.values), outcomes[..n], outcomes[n]);
      assert outcomes[..n + 1] == outcomes[..n] + [outcomes[n]];
      assert owner[n..][1..] == owner[n + 1..];
      n := n + 1;
      // the worker's own strong reference ends with the iteration
    }
  }
}
