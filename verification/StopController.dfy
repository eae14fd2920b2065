/**
 `podvirt stop`: an optional graceful shutdown with deadline polling, then a forced destroy
 where needed, then the container stop.  The environment answers every query and every
 command arbitrarily.
 */
module StopController {
  import opened Prelude
  import opened Text
  import opened DomainInfo

  datatype Effect = ShutdownSent | Queried | Slept | Destroyed | Stopped(timeout: nat)

  const SECOND: int := 1_000_000_000

  /** Everything the command observes.  `poll(k)` and `clock(k)` are what virsh answers to the k-th
      state query (none when it fails) and the clock reading of the k-th loop check, in
      nanoseconds. */
  datatype World = World(connected: bool, found: Option<bool>, shutdownOk: bool,
                         started: int, clock: nat -> int, poll: nat -> Option<string>,
                         last: Option<string>, destroyOk: bool, stopOk: bool)

  /** The loop ends on a failed query, and on a domain that is shut off. */
  predicate EndsPolling(answer: Option<string>) {
    GetState(answer).None? || Reading(GetState(answer)) == ShutOff
  }

  predicate SaysShutOff(answer: Option<string>) {
    answer.Some? && ToLower(TrimSpace(answer.value)) == "shut off"
  }

  lemma ReadsShutOffExactly(answer: Option<string>)
    ensures Reading(GetState(answer)) == ShutOff <==> SaysShutOff(answer)
  {
  }

  /** Time does not run backwards, and a two-second sleep takes at least two seconds. */
  ghost predicate SaneClock(w: World) {
    w.started <= w.clock(0) && forall k: nat :: w.clock(k) + 2 * SECOND <= w.clock(k + 1)
  }

  /** `uint(timeout)` of a signed 64-bit number. */
  function AsUint(timeout: int): (r: nat)
    requires -TWO_63 <= timeout < TWO_63
    ensures r < TWO_64 && (timeout >= 0 ==> r == timeout)
  {
    if timeout < 0 then timeout + TWO_64 else timeout
  }

  /** `time.Duration(timeout) * time.Second`, a signed 64-bit product. */
  function Seconds(timeout: int): (d: int)
    requires -TWO_63 <= timeout < TWO_63
    ensures -TWO_63 <= d < TWO_63
    ensures timeout >= 0 ==> d <= timeout * SECOND
  {
    var p := (timeout * SECOND) % TWO_64;
    if timeout >= 0 then WrapNotLarger(timeout * SECOND); if p >= TWO_63 then p - TWO_64 else p
    else if p >= TWO_63 then p - TWO_64 else p
  }

  lemma WrapNotLarger(x: nat)
    ensures x % TWO_64 <= x
  {
  }

  // ----- The effects of one run -----

  function PollTrace(w: World, deadline: int, k: nat): seq<Effect>
    requires SaneClock(w)
    decreases deadline - w.clock(k)
  {
    if w.clock(k) >= deadline then []
    else if EndsPolling(w.poll(k)) then [Queried]
    else [Queried, Slept] + PollTrace(w, deadline, k + 1)
  }

  function ForcedTail(w: World, timeout: nat): seq<Effect> {
    [Destroyed, Stopped(if w.destroyOk then 0 else timeout)]
  }

  /** Destroy is skipped exactly when a graceful stop without force got its shutdown accepted and
      finally read "shut off". */
  predicate ShutDownCleanly(w: World, force: bool, graceful: bool) {
    graceful && !force && w.shutdownOk && Reading(GetState(w.last)) == ShutOff
  }

  function Head(w: World, force: bool, graceful: bool, timeout: int): seq<Effect>
    requires SaneClock(w) && -TWO_63 <= timeout < TWO_63
  {
    if !graceful || force then []
    else if !w.shutdownOk then [ShutdownSent]
    else [ShutdownSent] + PollTrace(w, w.started + Seconds(timeout), 0) + [Queried]
  }

  function Trace(w: World, force: bool, graceful: bool, timeout: int): seq<Effect>
    requires SaneClock(w) && -TWO_63 <= timeout < TWO_63
  {
    if !w.connected || w.found != Some(true) then []
    else
      Head(w, force, graceful, timeout)
      + (if ShutDownCleanly(w, force, graceful) then [Stopped(AsUint(timeout))] else ForcedTail(w, AsUint(timeout)))
  }

  method RunStop(w: World, forceFlag: bool, graceful: bool, timeout: int) returns (trace: seq<Effect>, ok: bool)
    requires SaneClock(w) && -TWO_63 <= timeout < TWO_63
    ensures trace == Trace(w, forceFlag, graceful, timeout)
    ensures ok <==> trace != [] && w.stopOk
  {
    hide AsUint, Seconds, GetState, Reading;
    trace, ok := [], false;
    if !w.connected || w.found.None? || !w.found.value {
      return;
    }
    var force := forceFlag;
    var stopTimeout := AsUint(timeout);
    if graceful && !force {
      trace := [ShutdownSent];
      if !w.shutdownOk {
        force := true;
      } else {
        var deadline := w.started + Seconds(timeout);
        var k: nat := 0;
        ghost var whole := [ShutdownSent] + PollTrace(w, deadline, 0);
        while w.clock(k) < deadline
          invariant trace + PollTrace(w, deadline, k) == whole
          decreases deadline - w.clock(k)
        {
          trace := trace + [Queried];
          var state := GetState(w.poll(k));
          if state.None? || Reading(state) == ShutOff {
            break;
          }
          trace := trace + [Slept];
          k := k + 1;
        }
        assert trace == whole;
        trace := trace + [Queried];
        if Reading(GetState(w.last)) != ShutOff {
          force := true;
        }
      }
    } else {
      force := true;
    }
    if force {
      trace := trace + [Destroyed];
      if w.destroyOk {
        stopTimeout := 0;
      }
    }
    trace := trace + [Stopped(stopTimeout)];
    ok := w.stopOk;
  }

  // ----- What every run does -----

  predicate NoStop(t: seq<Effect>) {
    forall i :: 0 <= i < |t| ==> !t[i].Stopped?
  }

  lemma {:induction false} PollsOnly(w: World, deadline: int, k: nat)
    requires SaneClock(w)
    ensures NoStop(PollTrace(w, deadline, k)) && Destroyed !in PollTrace(w, deadline, k)
    decreases deadline - w.clock(k)
  {
    if w.clock(k) < deadline && !EndsPolling(w.poll(k)) {
      PollsOnly(w, deadline, k + 1);
    }
  }

  /**
   Every run past the existence check stops the container exactly once, as its last effect;
   destroys at most once, right before that, and only when the domain did not shut down
   cleanly; and passes timeout 0 exactly when the destroy succeeded, the flag's value
   otherwise.
   */
  lemma StopsOnceAtTheEnd(w: World, force: bool, graceful: bool, timeout: int)
    requires SaneClock(w) && -TWO_63 <= timeout < TWO_63 && w.connected && w.found == Some(true)
    ensures var t := Trace(w, force, graceful, timeout);
      var body := t[..|t| - 1];
      var destroys := !ShutDownCleanly(w, force, graceful);
      && |t| >= 1
      && NoStop(body)
      && multiset(t)[Destroyed] == (if destroys then 1 else 0)
      && (destroys ==> |t| >= 2 && t[|t| - 2] == Destroyed)
      && t[|t| - 1] == Stopped(if destroys && w.destroyOk then 0 else AsUint(timeout))
  {
    hide Head, PollTrace, AsUint, Seconds, NoStop, GetState, Reading;
    HeadShape(w, force, graceful, timeout);
    EndsAsStated(Head(w, force, graceful, timeout), w, AsUint(timeout));
  }

  lemma HeadShape(w: World, force: bool, graceful: bool, timeout: int)
    requires SaneClock(w) && -TWO_63 <= timeout < TWO_63
    ensures NoStop(Head(w, force, graceful, timeout)) && Destroyed !in Head(w, force, graceful, timeout)
  {
    hide PollTrace, Seconds, EndsPolling;
    PollsOnly(w, w.started + Seconds(timeout), 0);
  }

  lemma EndsAsStated(head: seq<Effect>, w: World, timeout: nat)
    requires NoStop(head) && Destroyed !in head
    ensures var t := head + ForcedTail(w, timeout);
      t[..|t| - 1] == head + [Destroyed] && multiset(t)[Destroyed] == 1 && NoStop(t[..|t| - 1])
    ensures var t := head + [Stopped(timeout)];
      t[..|t| - 1] == head && multiset(t)[Destroyed] == 0
  {
    assert multiset(head)[Destroyed] == 0;
    assert (head + [Stopped(timeout)])[..|head|] == head;
    assert (head + ForcedTail(w, timeout))[..|head| + 1] == head + [Destroyed];
    assert Destroyed !in head + [Stopped(timeout)];
  }

  lemma {:induction false} PollsSendNothing(w: World, deadline: int, k: nat)
    requires SaneClock(w)
    ensures ShutdownSent !in PollTrace(w, deadline, k)
    decreases deadline - w.clock(k)
  {
    hide EndsPolling;
    if w.clock(k) < deadline && !EndsPolling(w.poll(k)) {
      PollsSendNothing(w, deadline, k + 1);
    }
  }

  /**
   Which effects a run has, said over what it observes: the container is stopped exactly when the
   VM is found; the domain is destroyed exactly then, unless a graceful stop without force had
   its shutdown accepted and virsh's last answer reads "shut off", whatever its case and
   padding; the shutdown is sent exactly for a graceful stop without force.
   */
  lemma EffectsExactly(w: World, force: bool, graceful: bool, timeout: int)
    requires SaneClock(w) && -TWO_63 <= timeout < TWO_63
    ensures var t := Trace(w, force, graceful, timeout);
      var there := w.connected && w.found == Some(true);
      && ((exists i :: 0 <= i < |t| && t[i].Stopped?) <==> there)
      && (Destroyed in t <==> there && !(graceful && !force && w.shutdownOk && SaysShutOff(w.last)))
      && (ShutdownSent in t <==> there && graceful && !force)
  {
    hide PollTrace, AsUint, Seconds, GetState, Reading, SaysShutOff, NoStop;
    if w.connected && w.found == Some(true) {
      ReadsShutOffExactly(w.last);
      StopsOnceAtTheEnd(w, force, graceful, timeout);
      PollsSendNothing(w, w.started + Seconds(timeout), 0);
      var t := Trace(w, force, graceful, timeout);
      assert t[|t| - 1].Stopped?;
      assert Destroyed in t <==> Destroyed in multiset(t);
    }
  }

  lemma {:induction false} ClockAdvances(w: World, k: nat)
    requires SaneClock(w)
    ensures w.started + 2 * k * SECOND <= w.clock(k)
  {
    if k > 0 {
      ClockAdvances(w, k - 1);
    }
  }

  function Queries(t: seq<Effect>): nat {
    multiset(t)[Queried]
  }

  lemma {:induction false} PollBound(w: World, timeout: int, k: nat)
    requires SaneClock(w) && 0 <= timeout < TWO_63
    ensures var deadline := w.started + Seconds(timeout);
      var bound := (timeout + 1) / 2;
      Queries(PollTrace(w, deadline, k)) <= if bound > k then bound - k else 0
    decreases w.started + Seconds(timeout) - w.clock(k)
  {
    var deadline := w.started + Seconds(timeout);
    if w.clock(k) < deadline {
      ClockAdvances(w, k);
      assert 2 * k * SECOND < timeout * SECOND;
      if !EndsPolling(w.poll(k)) {
        PollBound(w, timeout, k + 1);
        var rest := PollTrace(w, deadline, k + 1);
        assert multiset([Queried, Slept] + rest) == multiset([Queried, Slept]) + multiset(rest);
      }
    }
  }

  /** Polling takes at most half the timeout, rounded up, iterations, for every non-negative
      timeout, including those whose duration overflows. */
  lemma PollingIsBounded(w: World, timeout: int)
    requires SaneClock(w) && 0 <= timeout < TWO_63
    ensures Queries(PollTrace(w, w.started + Seconds(timeout), 0)) <= (timeout + 1) / 2
  {
    PollBound(w, timeout, 0);
  }

  // ----- The whole run, effect by effect -----

  /** Polling ends at check k: the deadline has passed, the query fails, or the answer reads
      "shut off", whatever its case and padding. */
  predicate EndsAt(w: World, deadline: int, k: nat) {
    w.clock(k) >= deadline || w.poll(k).None? || SaysShutOff(w.poll(k))
  }

  predicate FirstEnd(w: World, deadline: int, n: nat) {
    EndsAt(w, deadline, n) && forall k: nat :: k < n ==> !EndsAt(w, deadline, k)
  }

  /** n rounds of one query and one sleep each. */
  function Rounds(n: nat): (t: seq<Effect>)
    ensures |t| == 2 * n && forall k :: 0 <= k < n ==> t[2 * k] == Queried && t[2 * k + 1] == Slept
  {
    seq(2 * n, i requires 0 <= i < 2 * n => if i % 2 == 0 then Queried else Slept)
  }

  /** The duration is the signed 64-bit value that `timeout * SECOND` has modulo 2^64. */
  predicate IsDuration(timeout: int, d: int) {
    -TWO_63 <= d < TWO_63 && (d - timeout * SECOND) % TWO_64 == 0
  }

  lemma DurationIs(timeout: int, d: int)
    requires -TWO_63 <= timeout < TWO_63
    ensures IsDuration(timeout, d) <==> d == Seconds(timeout)
    ensures -TWO_63 <= timeout * SECOND < TWO_63 ==> Seconds(timeout) == timeout * SECOND
  {
    var x := timeout * SECOND;
    WrapIs(x, d);
    WrapIs(x, Seconds(timeout));
    WrapIs(x, x);
  }

  /** The signed 64-bit value of a number is the one in range that differs from it by a multiple
      of 2^64. */
  lemma WrapIs(x: int, d: int)
    ensures var p := x % TWO_64;
      -TWO_63 <= d < TWO_63 && (d - x) % TWO_64 == 0 <==> d == if p >= TWO_63 then p - TWO_64 else p
  {
    var p, q := x % TWO_64, x / TWO_64;
    assert x == q * TWO_64 + p;
    if -TWO_63 <= d < TWO_63 && (d - x) % TWO_64 == 0 {
      var j := (d - x) / TWO_64;
      assert d - x == j * TWO_64;
      assert d == (j + q) * TWO_64 + p;
    }
    var e := if p >= TWO_63 then p - TWO_64 else p;
    var k := if p >= TWO_63 then -q - 1 else -q;
    assert e - x == k * TWO_64;
  }

  lemma {:induction false} PollsUntil(w: World, deadline: int, k: nat, n: nat)
    requires SaneClock(w) && k <= n && FirstEnd(w, deadline, n)
    ensures PollTrace(w, deadline, k) == Rounds(n - k) + if w.clock(n) < deadline then [Queried] else []
    decreases n - k
  {
    hide GetState, Reading, SaysShutOff;
    ReadsShutOffExactly(w.poll(k));
    assert EndsPolling(w.poll(k)) <==> w.poll(k).None? || SaysShutOff(w.poll(k)) by {
      FailedQueryExactly(w.poll(k));
    }
    if k < n {
      assert !EndsAt(w, deadline, k);
      PollsUntil(w, deadline, k + 1, n);
      assert Rounds(n - k) == [Queried, Slept] + Rounds(n - k - 1);
    } else {
      assert EndsAt(w, deadline, n);
    }
  }

  lemma FailedQueryExactly(answer: Option<string>)
    ensures GetState(answer).None? <==> answer.None?
  {
  }

  /** With a clock that advances, polling always ends. */
  lemma PollingEnds(w: World, deadline: int) returns (n: nat)
    requires SaneClock(w)
    ensures FirstEnd(w, deadline, n)
  {
    n := 0;
    while !EndsAt(w, deadline, n)
      invariant forall k: nat :: k < n ==> !EndsAt(w, deadline, k)
      decreases deadline - w.clock(n)
    {
      n := n + 1;
    }
  }

  /**
   A graceful stop, effect by effect.  After the shutdown is accepted there is one query and one
   sleep for every check before the first one at which the deadline has passed, the query fails
   or the answer reads "shut off"; that check queries once more unless the deadline has passed;
   one final reading follows; and then the container is stopped with the flag's timeout if that
   reading is "shut off", else after a destroy.  The deadline is the start plus the timeout in
   seconds, as a signed 64-bit duration.
   */
  lemma PollingExactly(w: World, timeout: int, d: int, n: nat)
    requires SaneClock(w) && -TWO_63 <= timeout < TWO_63 && w.connected && w.found == Some(true) && w.shutdownOk
    requires IsDuration(timeout, d) && FirstEnd(w, w.started + d, n)
    ensures var last := if w.clock(n) < w.started + d then [Queried] else [];
      var given := if timeout < 0 then timeout + TWO_64 else timeout;
      Trace(w, false, true, timeout) ==
        [ShutdownSent] + Rounds(n) + last + [Queried]
        + if SaysShutOff(w.last) then [Stopped(given)] else [Destroyed, Stopped(if w.destroyOk then 0 else given)]
  {
    hide PollTrace, Seconds, GetState, Reading, SaysShutOff, FirstEnd, IsDuration;
    DurationIs(timeout, d);
    PollsUntil(w, w.started + d, 0, n);
    ReadsShutOffExactly(w.last);
  }

  /** Every run of a found VM: what a stop without grace or with a refused shutdown does, and that
      a graceful one does what PollingExactly says, for a number of rounds that always exists. */
  lemma RunsExactly(w: World, force: bool, graceful: bool, timeout: int) returns (d: int, n: nat)
    requires SaneClock(w) && -TWO_63 <= timeout < TWO_63 && w.connected && w.found == Some(true)
    ensures var given := if timeout < 0 then timeout + TWO_64 else timeout;
      var forced := [Destroyed, Stopped(if w.destroyOk then 0 else given)];
      && (!graceful || force ==> Trace(w, force, graceful, timeout) == forced)
      && (graceful && !force && !w.shutdownOk ==> Trace(w, force, graceful, timeout) == [ShutdownSent] + forced)
    ensures -TWO_63 <= timeout * SECOND < TWO_63 ==> IsDuration(timeout, timeout * SECOND)
    ensures IsDuration(timeout, d) && FirstEnd(w, w.started + d, n)
  {
    hide PollTrace, Seconds, GetState, Reading, FirstEnd;
    DurationIs(timeout, timeout * SECOND);
    d := Seconds(timeout);
    DurationIs(timeout, d);
    n := PollingEnds(w, w.started + d);
  }
}
