/**
 * The leader/follower mirroring of plug_tracker.py: `PlugTracker.tick`, a
 * small state machine over `prev_state`, and one pass of `PlugTracker.run`.
 *
 * The two smartplug calls are inputs: what the leader read produced and how
 * the follower write ended. The follower writes the tracker attempts are
 * recorded in a ghost trace.
 */
module Tracker {
  import opened Wrappers
  import Codec
  import opened Scheduling

  /** The value of `prev_state` that means "no leader state known yet". */
  const Unknown := -1

  /** How `leader_client.get_relay_state()` ended. */
  datatype LeaderRead =
    | Observed(state: int)   // the relay state the leader reported
    | ReadSocketError        // socket.error or socket.timeout, caught by tick
    | ReadOtherError         // any other exception (a malformed reply), which escapes tick

  /** How the connection and send of `follower_client.set_relay_state` ended. */
  datatype WriteOutcome = WriteOk | WriteSocketError

  /** Whether tick returned normally or let an exception escape to run. */
  datatype TickOutcome = Returned | Raised

  /** The effect of one tick: how it ended, the new `prev_state`, and the follower writes it attempted. */
  datatype TickResult = TickResult(outcome: TickOutcome, prev: int, writes: seq<int>)

  /**
   * `tick`, plug_tracker.py:191-207, from the state before the call and the
   * two device outcomes. For a leader value outside {0, 1} whose follower
   * connection succeeds, the lookup `COMMANDS['state'][state]` raises
   * KeyError, which escapes before `prev_state` is assigned.
   */
  function Step(prev: int, read: LeaderRead, write: WriteOutcome): (r: TickResult)
    ensures |r.writes| <= 1
    ensures r.writes != [] <==> read.Observed? && read.state != prev && prev != Unknown
    ensures r.writes != [] ==> r.writes == [read.state]
    ensures !read.Observed? ==> r.prev == prev && r.writes == []
    ensures r.outcome == Raised <==>
              read.ReadOtherError? ||
              (r.writes != [] && write.WriteOk? && !Codec.IsRelayState(read.state))
    ensures r.outcome == Returned && read.Observed? ==> r.prev == read.state
    ensures r.outcome == Raised ==> r.prev == prev
  {
    match read
    case ReadSocketError => TickResult(Returned, prev, [])
    case ReadOtherError => TickResult(Raised, prev, [])
    case Observed(leader) =>
      if leader == prev then TickResult(Returned, prev, [])
      else if prev == Unknown then TickResult(Returned, leader, [])
      else if write.WriteOk? && !Codec.IsRelayState(leader) then TickResult(Raised, prev, [leader])
      else TickResult(Returned, leader, [leader])
  }

  /** `PlugTracker`, with its one mutable field and a ghost trace of follower writes. */
  class PlugTracker {
    const leaderIp: string
    const followerIp: string
    const scheduler: Scheduler
    var prevState: int
    /** Every `set_relay_state` call made on the follower, in order. */
    ghost var followerWrites: seq<int>

    /** `PlugTracker.__init__`, plug_tracker.py:160-164. */
    constructor(leaderIp: string, followerIp: string, scheduler: Scheduler)
      ensures this.leaderIp == leaderIp && this.followerIp == followerIp
      ensures this.scheduler == scheduler
      ensures prevState == Unknown && followerWrites == []
    {
      this.leaderIp := leaderIp;
      this.followerIp := followerIp;
      this.scheduler := scheduler;
      prevState := Unknown;
      followerWrites := [];
    }

    /** `PlugTracker.tick`, plug_tracker.py:191-207. */
    method Tick(read: LeaderRead, write: WriteOutcome) returns (outcome: TickOutcome)
      modifies this
      ensures outcome == Step(old(prevState), read, write).outcome
      ensures prevState == Step(old(prevState), read, write).prev
      ensures followerWrites == old(followerWrites) + Step(old(prevState), read, write).writes
    {
      if read.ReadSocketError? {
        return Returned;
      }
      if read.ReadOtherError? {
        return Raised;
      }
      var leaderState := read.state;
      if leaderState != prevState {
        if prevState != Unknown {
          followerWrites := followerWrites + [leaderState];
          if write.WriteOk? {
            var command := Codec.StateCommand(leaderState);
            if command.None? {
              return Raised;
            }
          }
        }
        prevState := leaderState;
      }
      return Returned;
    }

    /**
     * One pass of the `while True` loop of `run`, plug_tracker.py:170-188, at
     * time of day `now`. It returns the sleeps taken, in seconds: the wait
     * until the next window when outside the schedule (after which
     * `prev_state` is reset), else 1, preceded by 5 when tick raised.
     */
    method RunStep(now: TimeOfDay, read: LeaderRead, write: WriteOutcome) returns (sleeps: seq<int>)
      modifies this
      ensures !Active(scheduler, now) ==>
                sleeps == [SecondsUntil(scheduler, now)] &&
                prevState == Unknown && followerWrites == old(followerWrites)
      ensures Active(scheduler, now) ==>
                prevState == Step(old(prevState), read, write).prev &&
                followerWrites == old(followerWrites) + Step(old(prevState), read, write).writes &&
                sleeps == (if Step(old(prevState), read, write).outcome == Raised then [5, 1] else [1])
    {
      var active := IsActive(scheduler, now);
      if !active {
        var waitSeconds := SecondsUntilNextActive(scheduler, now);
        sleeps := [waitSeconds];
        prevState := Unknown;
        return;
      }
      var outcome := Tick(read, write);
      if outcome == Raised {
        sleeps := [5, 1];
      } else {
        sleeps := [1];
      }
    }
  }

  /** The effect of a run of ticks from a fresh (or just woken) tracker, folded from the last tick back. */
  function Trace(events: seq<(LeaderRead, WriteOutcome)>): (r: TickResult)
  {
    if events == [] then TickResult(Returned, Unknown, [])
    else
      var before := Trace(events[..|events| - 1]);
      var last := Step(before.prev, events[|events| - 1].0, events[|events| - 1].1);
      TickResult(last.outcome, last.prev, before.writes + last.writes)
  }

  /** The leader states the ticks observed, in order. */
  function Observations(events: seq<(LeaderRead, WriteOutcome)>): (xs: seq<int>)
    ensures |xs| <= |events|
  {
    if events == [] then []
    else
      var e := events[|events| - 1];
      Observations(events[..|events| - 1]) + (if e.0.Observed? then [e.0.state] else [])
  }

  /** The values of xs that differ from the value before them, in order. */
  function Changes(xs: seq<int>): seq<int>
  {
    if |xs| <= 1 then []
    else Changes(xs[..|xs| - 1]) + (if xs[|xs| - 1] != xs[|xs| - 2] then [xs[|xs| - 1]] else [])
  }

  /** Leader reads that yield a relay state or a socket error, the only kinds the smartplug gives. */
  predicate WellBehaved(events: seq<(LeaderRead, WriteOutcome)>) {
    forall i :: 0 <= i < |events| ==>
      (events[i].0.Observed? ==> events[i].0.state == 0 || events[i].0.state == 1) &&
      !events[i].0.ReadOtherError?
  }

  /** Appending one value to a non-empty sequence adds it to the changes exactly when it differs from the last. */
  lemma ChangesSnoc(xs: seq<int>, v: int)
    requires xs != []
    ensures Changes(xs + [v]) == Changes(xs) + (if v != xs[|xs| - 1] then [v] else [])
  {
    var ys := xs + [v];
    assert ys[..|ys| - 1] == xs;
  }

  /** Dropping the last tick keeps the reads well behaved. */
  lemma WellBehavedPrefix(events: seq<(LeaderRead, WriteOutcome)>)
    requires WellBehaved(events) && events != []
    ensures WellBehaved(events[..|events| - 1])
  {
    var init := events[..|events| - 1];
    forall i | 0 <= i < |init| ensures init[i] == events[i] { }
  }

  /** What MirrorsChanges claims of a trace r whose observations are xs. */
  predicate Mirrors(r: TickResult, xs: seq<int>) {
    && r.writes == Changes(xs)
    && r.prev == (if xs == [] then Unknown else xs[|xs| - 1])
    && r.outcome == Returned
    && (forall x :: x in xs ==> x == 0 || x == 1)
  }

  /** One well-behaved tick keeps a trace mirroring its observations. */
  lemma MirrorStep(before: TickResult, xs: seq<int>, read: LeaderRead, write: WriteOutcome)
    requires Mirrors(before, xs)
    requires !read.ReadOtherError? && (read.Observed? ==> read.state == 0 || read.state == 1)
    ensures
      var last := Step(before.prev, read, write);
      Mirrors(TickResult(last.outcome, last.prev, before.writes + last.writes),
              xs + (if read.Observed? then [read.state] else []))
  {
    var last := Step(before.prev, read, write);
    if !read.Observed? {
      assert last == TickResult(Returned, before.prev, []);
      assert xs + [] == xs;
    } else if xs == [] {
      assert last == TickResult(Returned, read.state, []);
      assert Changes([read.state]) == [];
    } else {
      MirrorNext(before, xs, read.state, write);
    }
  }

  /** A tick observing v after earlier observations xs. */
  lemma MirrorNext(before: TickResult, xs: seq<int>, v: int, write: WriteOutcome)
    requires Mirrors(before, xs) && xs != []
    requires v == 0 || v == 1
    ensures
      var last := Step(before.prev, Observed(v), write);
      Mirrors(TickResult(last.outcome, last.prev, before.writes + last.writes), xs + [v])
  {
    assert xs[|xs| - 1] in xs;
    ChangesSnoc(xs, v);
  }

  /**
   * The follower is asked for exactly the changes of the leader state after
   * the first observation, whether or not those requests reach it, and the
   * tracker remembers the last state observed.
   */
  lemma {:induction false} MirrorsChanges(events: seq<(LeaderRead, WriteOutcome)>)
    requires WellBehaved(events)
    ensures Mirrors(Trace(events), Observations(events))
  {
    if events != [] {
      var init := events[..|events| - 1];
      var e := events[|events| - 1];
      WellBehavedPrefix(events);
      MirrorsChanges(init);
      MirrorStep(Trace(init), Observations(init), e.0, e.1);
    }
  }

  /** The tick scenario of plug_tracker_test.py:88-103. */
  lemma TickScenario()
    ensures Step(Unknown, Observed(0), WriteOk) == TickResult(Returned, 0, [])
    ensures Step(0, Observed(0), WriteOk) == TickResult(Returned, 0, [])
    ensures Step(0, Observed(1), WriteOk) == TickResult(Returned, 1, [1])
  {
  }
}
