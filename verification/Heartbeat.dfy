/**
 * The liveness heartbeat: a thread bumps a counter, every callback checks that it advanced within
 * a deadline. Modelled as two processes over time; a callback reads the clock first and the
 * counter later, so a beat or a delay can fall in between.
 */
module Heartbeat {
  import opened Base

  const HEARTBEAT_PERIOD_MS: nat := 10000
  const HEARTBEAT_DEADLINE_MS: nat := 3 * HEARTBEAT_PERIOD_MS

  /** The "nothing seen yet" mark. */
  const U64_MAX: nat := 0xFFFF_FFFF_FFFF_FFFF

  /** What a callback remembers between checks. */
  datatype Watch = Watch(lastSeen: nat, deadline: nat)

  const UNARMED: Watch := Watch(U64_MAX, U64_MAX)

  predicate Advanced(w: Watch, counter: nat) { w.lastSeen == U64_MAX || counter != w.lastSeen }

  function Rearmed(w: Watch, now: nat, counter: nat): Watch {
    if Advanced(w, counter) then Watch(counter, now + HEARTBEAT_DEADLINE_MS) else w
  }

  predicate Alive(w: Watch, now: nat, counter: nat) { Advanced(w, counter) || now < w.deadline }

  class Liveness {
    var counter: nat
    var lastBeatSeen: nat
    var beatDeadlineAt: nat

    constructor ()
      ensures counter == 0 && Watched() == UNARMED
    {
      counter, lastBeatSeen, beatDeadlineAt := 0, U64_MAX, U64_MAX;
    }

    ghost function Watched(): Watch
      reads this
    {
      Watch(lastBeatSeen, beatDeadlineAt)
    }

    method Beat()
      modifies this`counter
      ensures counter == old(counter) + 1
    {
      counter := counter + 1;
    }

    method CheckLiveness(now: nat) returns (alive: bool)
      modifies this`lastBeatSeen, this`beatDeadlineAt
      ensures alive == Alive(old(Watched()), now, counter)
      ensures Watched() == Rearmed(old(Watched()), now, counter)
    {
      var lastCounter := lastBeatSeen;
      if lastCounter == U64_MAX || counter != lastCounter {
        lastBeatSeen := counter;
        beatDeadlineAt := now + HEARTBEAT_DEADLINE_MS;
        alive := true;
      } else {
        alive := now < beatDeadlineAt;
      }
    }
  }

  // ---------------------------------------------------------------- two processes over time

  datatype Callback = Outside | Clocked(now: nat)

  datatype State = State(time: nat, beats: nat, lastBeatAt: nat, watch: Watch, callback: Callback)

  datatype Event = Beat | Advance(ms: nat) | Enter | Check

  const START: State := State(0, 0, 0, UNARMED, Outside)

  predicate Can(s: State, e: Event) {
    match e
    case Beat => s.beats + 1 < U64_MAX
    case Advance(_) => true
    case Enter => s.callback.Outside?
    case Check => s.callback.Clocked?
  }

  function Next(s: State, e: Event): State
    requires Can(s, e)
  {
    match e
    case Beat => s.(beats := s.beats + 1, lastBeatAt := s.time)
    case Advance(ms) => s.(time := s.time + ms)
    case Enter => s.(callback := Clocked(s.time))
    case Check => s.(watch := Rearmed(s.watch, s.callback.now, s.beats), callback := Outside)
  }

  /** What the check of a callback that is about to look at the counter answers. */
  predicate Answer(s: State)
    requires s.callback.Clocked?
  {
    Alive(s.watch, s.callback.now, s.beats)
  }

  /** Beats come less than `gap` ms apart, and a callback looks at the counter within `delay` ms of the clock. */
  predicate Timely(s: State, gap: nat, delay: nat) {
    s.time < s.lastBeatAt + gap && (s.callback.Clocked? ==> s.time <= s.callback.now + delay)
  }

  predicate IsRun(s: State, events: seq<Event>, gap: nat, delay: nat)
    decreases |events|
  {
    Timely(s, gap, delay)
    && (events == [] || (Can(s, events[0]) && IsRun(Next(s, events[0]), events[1..], gap, delay)))
  }

  function After(s: State, events: seq<Event>, gap: nat, delay: nat): State
    requires IsRun(s, events, gap, delay)
    decreases |events|
  {
    if events == [] then s else After(Next(s, events[0]), events[1..], gap, delay)
  }

  ghost predicate Inv(s: State, delay: nat) {
    && s.lastBeatAt <= s.time && s.beats < U64_MAX
    && (s.callback.Clocked? ==> s.callback.now <= s.time)
    && (s.watch.lastSeen == U64_MAX || s.watch.lastSeen <= s.beats)
    && (s.watch.lastSeen == s.beats ==> s.lastBeatAt + HEARTBEAT_DEADLINE_MS <= s.watch.deadline + delay)
  }

  lemma {:induction false} RunKeepsInv(s: State, events: seq<Event>, gap: nat, delay: nat)
    requires Inv(s, delay) && IsRun(s, events, gap, delay)
    ensures Inv(After(s, events, gap, delay), delay) && Timely(After(s, events, gap, delay), gap, delay)
    decreases |events|
  {
    if events != [] {
      RunKeepsInv(Next(s, events[0]), events[1..], gap, delay);
    }
  }

  /** Sound: while beats are timely no interleaving makes a check report a stall. */
  lemma NeverFalseAlarm(events: seq<Event>, gap: nat, delay: nat)
    requires gap + delay <= 30000 && IsRun(START, events, gap, delay)
    ensures After(START, events, gap, delay).callback.Clocked? ==> Answer(After(START, events, gap, delay))
  {
    RunKeepsInv(START, events, gap, delay);
  }

  ghost predicate NoFalseAlarm(gap: nat, delay: nat) {
    forall events :: IsRun(START, events, gap, delay) && After(START, events, gap, delay).callback.Clocked? ==>
      Answer(After(START, events, gap, delay))
  }

  /**
   * Exact, for every gap and delay: false alarms are impossible exactly when the beat gap and the
   * delay between clock and counter fit the deadline together (or when beats are so close that no
   * time passes). With no delay the bound is the documented 30 seconds; at the 10 s period a delay
   * of more than 20 s between the two readings is enough for a false alarm.
   */
  lemma NoFalseAlarmExact(gap: nat, delay: nat)
    ensures NoFalseAlarm(gap, delay) <==> gap + delay <= 30000 || gap <= 1
  {
    if gap <= 1 {
      forall events | IsRun(START, events, gap, delay) && After(START, events, gap, delay).callback.Clocked?
        ensures Answer(After(START, events, gap, delay))
      {
        TimeStands(START, events, gap, delay);
      }
    } else if gap + delay <= HEARTBEAT_DEADLINE_MS {
      forall events | IsRun(START, events, gap, delay) && After(START, events, gap, delay).callback.Clocked?
        ensures Answer(After(START, events, gap, delay))
      {
        NeverFalseAlarm(events, gap, delay);
      }
    } else {
      var events := LateBeatRun(gap, delay);
    }
  }

  /** If beats must come less than 2 ms apart the clock never leaves zero, and no deadline can pass. */
  lemma {:induction false} TimeStands(s: State, events: seq<Event>, gap: nat, delay: nat)
    requires gap <= 1 && IsRun(s, events, gap, delay) && s.time == 0 && s.lastBeatAt == 0
    requires s.callback.Clocked? ==> s.callback.now == 0
    requires s.watch.lastSeen == U64_MAX || s.watch.deadline == 30000
    ensures After(s, events, gap, delay).callback.Clocked? ==> Answer(After(s, events, gap, delay))
    decreases |events|
  {
    if events != [] {
      TimeStands(Next(s, events[0]), events[1..], gap, delay);
    }
  }

  /** At the thread's period, beats at most 10 s apart, a false alarm needs more than 19999 ms between the readings. */
  lemma AtPeriod(delay: nat)
    ensures NoFalseAlarm(10001, delay) <==> delay <= 19999
    ensures HEARTBEAT_PERIOD_MS == 10000
  {
    NoFalseAlarmExact(10001, delay);
  }

  lemma Prepend(s: State, e: Event, rest: seq<Event>, gap: nat, delay: nat)
    requires Timely(s, gap, delay) && Can(s, e) && IsRun(Next(s, e), rest, gap, delay)
    ensures IsRun(s, [e] + rest, gap, delay)
    ensures After(s, [e] + rest, gap, delay) == After(Next(s, e), rest, gap, delay)
  {
    assert ([e] + rest)[1..] == rest;
  }

  /** `n` times one millisecond and a beat. */
  function Pulse(n: nat): seq<Event> {
    if n == 0 then [] else [Advance(1), Beat] + Pulse(n - 1)
  }

  function Pulsed(s: State, n: nat): State {
    if n == 0 then s else s.(time := s.time + n, beats := s.beats + n, lastBeatAt := s.time + n)
  }

  /** A callback can dawdle for up to `delay` ms with beats every millisecond. */
  lemma {:induction false} PulseRun(s: State, n: nat, rest: seq<Event>, gap: nat, delay: nat)
    requires gap >= 2 && s.callback.Clocked? && s.lastBeatAt == s.time && s.time + n <= s.callback.now + delay
    requires s.beats + n < U64_MAX && IsRun(Pulsed(s, n), rest, gap, delay)
    ensures IsRun(s, Pulse(n) + rest, gap, delay)
    ensures After(s, Pulse(n) + rest, gap, delay) == After(Pulsed(s, n), rest, gap, delay)
    decreases n
  {
    if n == 0 {
      assert Pulse(0) + rest == rest;
    } else {
      var s1 := Next(s, Advance(1));
      var s2 := Next(s1, Beat);
      assert Pulsed(s2, n - 1) == Pulsed(s, n);
      PulseRun(s2, n - 1, rest, gap, delay);
      var tail := Pulse(n - 1) + rest;
      Prepend(s1, Beat, tail, gap, delay);
      Prepend(s, Advance(1), [Beat] + tail, gap, delay);
      assert Pulse(n) + rest == [Advance(1)] + ([Beat] + tail);
    }
  }

  /**
   * A callback reads the clock and dawdles while beats go on; the deadline it then sets runs from
   * before them, so that the next callback finds it passed although the last beat is recent.
   */
  lemma LateBeatRun(gap: nat, delay: nat) returns (events: seq<Event>)
    requires gap >= 2 && gap + delay > 30000
    ensures IsRun(START, events, gap, delay)
    ensures After(START, events, gap, delay).callback.Clocked? && !Answer(After(START, events, gap, delay))
  {
    var n := Min(delay, HEARTBEAT_DEADLINE_MS);
    var s1 := Next(START, Enter);
    var s2 := Pulsed(s1, n);
    var s3 := Next(s2, Check);
    var s4 := Next(s3, Advance(gap - 1));
    var s5 := Next(s4, Enter);
    assert IsRun(s5, [], gap, delay);
    Prepend(s4, Enter, [], gap, delay);
    Prepend(s3, Advance(gap - 1), [Enter] + [], gap, delay);
    var rest := [Check] + ([Advance(gap - 1)] + ([Enter] + []));
    Prepend(s2, Check, [Advance(gap - 1)] + ([Enter] + []), gap, delay);
    PulseRun(s1, n, rest, gap, delay);
    events := [Enter] + (Pulse(n) + rest);
    Prepend(START, Enter, Pulse(n) + rest, gap, delay);
  }

  // ---------------------------------------------------------------- completeness

  /** The states after a run whose pace is not restricted. */
  function Follow(s: State, events: seq<Event>): Option<State>
    decreases |events|
  {
    if events == [] then Some(s)
    else if Can(s, events[0]) then Follow(Next(s, events[0]), events[1..])
    else None
  }

  /** A deadline is never set further out than 30 seconds from the clock of a check that has happened. */
  ghost predicate SawLastBeat(s: State, clock: nat) {
    s.watch.lastSeen == s.beats && s.watch.lastSeen != U64_MAX && s.watch.deadline <= clock + HEARTBEAT_DEADLINE_MS
  }

  /** The clock the running callback has read, or the present when none is running. */
  function LastClock(s: State): nat { if s.callback.Clocked? then s.callback.now else s.time }

  /** Deadlines lie at most 30 seconds past the last clock read. */
  ghost predicate DeadlineNear(s: State) {
    && LastClock(s) <= s.time && s.beats < U64_MAX
    && (s.watch.lastSeen != U64_MAX ==> s.watch.deadline <= LastClock(s) + HEARTBEAT_DEADLINE_MS)
  }

  lemma {:induction false} FollowKeepsNear(s: State, events: seq<Event>)
    requires DeadlineNear(s) && Follow(s, events).Some?
    ensures DeadlineNear(Follow(s, events).value)
    decreases |events|
  {
    if events != [] {
      FollowKeepsNear(Next(s, events[0]), events[1..]);
    }
  }

  lemma {:induction false} StaysUnfed(s: State, events: seq<Event>, clock: nat)
    requires SawLastBeat(s, clock) && Follow(s, events).Some? && Beat !in events
    ensures SawLastBeat(Follow(s, events).value, clock)
    decreases |events|
  {
    if events != [] {
      assert events[0] in events;
      StaysUnfed(Next(s, events[0]), events[1..], clock);
    }
  }

  /**
   * Complete: take any run and then a check. If no beat follows, every later callback whose clock
   * is at least 30 seconds past the clock of that check reports the stall.
   */
  lemma StallDetected(before: seq<Event>, later: seq<Event>)
    requires Follow(START, before).Some? && Can(Follow(START, before).value, Check)
    requires var checked := Next(Follow(START, before).value, Check);
             Beat !in later && Follow(checked, later).Some?
    ensures var clock := Follow(START, before).value.callback.now;
            var s := Follow(Next(Follow(START, before).value, Check), later).value;
            s.callback.Clocked? && s.callback.now >= clock + 30000 ==> !Answer(s)
  {
    FollowKeepsNear(START, before);
    var s := Follow(START, before).value;
    StaysUnfed(Next(s, Check), later, s.callback.now);
  }
}
