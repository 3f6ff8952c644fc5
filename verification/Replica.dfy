/**
 * Routing reads to a standby: the cached freshness verdict, and a protocol model in which commits,
 * WAL replay, time and the steps of a read interleave freely.
 */
module Replica {
  import opened Base

  const FRESHNESS_TTL_MS: nat := 500

  /** What the three queries of a check answer; `None` where a query fails. */
  datatype Answers = Answers(configured: bool, inRecovery: Option<bool>,
                             primaryLsn: Option<int>, replayLsn: Option<Option<int>>)

  /** WAL positions as a fresh check compares them. */
  predicate CaughtUp(primaryLsn: int, replayLsn: int) { replayLsn >= primaryLsn }

  predicate Recent(checkedAt: Option<nat>, now: nat) {
    checkedAt.Some? && Max(now - checkedAt.value, 0) < FRESHNESS_TTL_MS
  }

  /** Fresh if the standby has become a primary itself, or has replayed all WAL the primary reports. */
  ghost predicate Fresh(a: Answers) {
    && a.configured && a.inRecovery.Some?
    && (a.inRecovery.value ==>
          && a.primaryLsn.Some? && a.replayLsn.Some? && a.replayLsn.value.Some?
          && CaughtUp(a.primaryLsn.value, a.replayLsn.value.value))
  }

  class FreshnessCache {
    var cached: bool
    var checkedAt: Option<nat>

    constructor ()
      ensures !cached && checkedAt == None
    {
      cached, checkedAt := false, None;
    }

    /** Three queries in turn; any that fails means not fresh. */
    method ReplicaFresh(a: Answers) returns (isFresh: bool)
      ensures isFresh <==> Fresh(a)
    {
      if !a.configured {
        return false;
      }
      match a.inRecovery {
        case Some(false) => return true;
        case None => return false;
        case Some(true) =>
      }
      match (a.primaryLsn, a.replayLsn) {
        case (Some(p), Some(Some(r))) => return r >= p;
        case _ => return false;
      }
    }

    /** Within the TTL the cached verdict is returned and nothing changes; otherwise a check is made and stored. */
    method ReplicaFreshCached(now: nat, a: Answers) returns (isFresh: bool)
      modifies this
      ensures isFresh == cached
      ensures Recent(old(checkedAt), now) ==> cached == old(cached) && checkedAt == old(checkedAt)
      ensures !Recent(old(checkedAt), now) ==> (cached <==> Fresh(a)) && checkedAt == Some(now)
    {
      if checkedAt.Some? {
        if Max(now - checkedAt.value, 0) < FRESHNESS_TTL_MS {
          return cached;
        }
      }
      isFresh := ReplicaFresh(a);
      cached := isFresh;
      checkedAt := Some(now);
    }
  }

  // ---------------------------------------------------------------- the protocol

  /**
   * Where a read is: it reads the clock, on a cache miss asks the primary and then the standby for
   * their positions, and then is served by the standby if the verdict is fresh.
   */
  datatype Reader =
    | Idle
    | Clocked(now: nat)
    | Asked(now: nat, primary: nat)
    | Serving(now: nat, isFresh: bool)

  /**
   * `history[i]` is the WAL position the primary had reached by the end of millisecond `i`; the
   * last element is its current position. The standby stays in recovery and never replays backwards.
   */
  datatype State = State(history: seq<nat>, replay: nat, cached: bool, checkedAt: Option<nat>, reader: Reader)

  datatype Event =
    | Commit(lsn: nat)
    | Replay(lsn: nat)
    | Tick
    | ReadClock
    | AskPrimary
    | AskStandby
    | QueryFails
    | Answered

  const START: State := State([0], 0, false, None, Idle)

  function Now(s: State): int { |s.history| - 1 }

  function Written(s: State): nat
    requires s.history != []
  {
    s.history[|s.history| - 1]
  }

  predicate Can(s: State, e: Event) {
    s.history != [] &&
    match e
    case Commit(lsn) => Written(s) <= lsn
    case Replay(lsn) => s.replay <= lsn <= Written(s)
    case Tick => true
    case ReadClock => s.reader.Idle?
    case AskPrimary => s.reader.Clocked?
    case AskStandby => s.reader.Asked?
    case QueryFails => s.reader.Clocked? || s.reader.Asked?
    case Answered => s.reader.Serving?
  }

  function Next(s: State, e: Event): State
    requires Can(s, e)
  {
    match e
    case Commit(lsn) => s.(history := s.history[|s.history| - 1 := lsn])
    case Replay(lsn) => s.(replay := lsn)
    case Tick => s.(history := s.history + [Written(s)])
    case ReadClock =>
      var now: nat := Now(s);
      if Recent(s.checkedAt, now) then s.(reader := Serving(now, s.cached)) else s.(reader := Clocked(now))
    case AskPrimary => s.(reader := Asked(s.reader.now, Written(s)))
    case AskStandby =>
      var isFresh := CaughtUp(s.reader.primary, s.replay);
      s.(cached := isFresh, checkedAt := Some(s.reader.now), reader := Serving(s.reader.now, isFresh))
    case QueryFails =>
      s.(cached := false, checkedAt := Some(s.reader.now), reader := Serving(s.reader.now, false))
    case Answered => s.(reader := Idle)
  }

  /** The states of a run, and whether every event of it can happen. */
  predicate IsRun(s: State, events: seq<Event>)
    decreases |events|
  {
    events == [] || (Can(s, events[0]) && IsRun(Next(s, events[0]), events[1..]))
  }

  function After(s: State, events: seq<Event>): State
    requires IsRun(s, events)
    decreases |events|
  {
    if events == [] then s else After(Next(s, events[0]), events[1..])
  }

  /** All WAL written before millisecond `i` began. */
  function WrittenBefore(s: State, i: nat): nat
    requires i < |s.history|
  {
    if i == 0 then 0 else s.history[i - 1]
  }

  ghost predicate Monotone(h: seq<nat>) {
    forall i, j :: 0 <= i <= j < |h| ==> h[i] <= h[j]
  }

  ghost predicate Inv(s: State) {
    && s.history != [] && Monotone(s.history) && s.replay <= Written(s)
    && (s.checkedAt.Some? ==> s.checkedAt.value <= Now(s))
    && (s.cached ==> s.checkedAt.Some? && WrittenBefore(s, s.checkedAt.value) <= s.replay)
    && match s.reader
       case Idle => true
       case Clocked(now) => now <= Now(s)
       case Asked(now, primary) => now <= Now(s) && WrittenBefore(s, now) <= primary
       case Serving(now, isFresh) =>
         now <= Now(s) && (isFresh && now >= FRESHNESS_TTL_MS ==> s.history[now - FRESHNESS_TTL_MS] <= s.replay)
  }

  /** Raising the last element, or repeating it, keeps a history monotone and its earlier elements. */
  lemma MonotoneRaise(h: seq<nat>, lsn: nat)
    requires h != [] && Monotone(h) && h[|h| - 1] <= lsn
    ensures Monotone(h[|h| - 1 := lsn]) && Monotone(h + [h[|h| - 1]])
    ensures forall i :: 0 <= i < |h| ==> h[i] <= h[|h| - 1 := lsn][i]
  {
  }

  lemma CommitKeepsInv(s: State, lsn: nat)
    requires Inv(s) && Can(s, Commit(lsn))
    ensures Inv(Next(s, Commit(lsn)))
  {
    MonotoneRaise(s.history, lsn);
  }

  lemma TickKeepsInv(s: State)
    requires Inv(s)
    ensures Inv(Next(s, Tick))
  {
    var after := Next(s, Tick);
    MonotoneRaise(s.history, Written(s));
    assert forall i :: 0 <= i < |s.history| ==> after.history[i] == s.history[i];
  }

  /** A cached verdict served within the TTL is backed by what the standby has replayed. */
  lemma ReadClockKeepsInv(s: State)
    requires Inv(s) && Can(s, ReadClock)
    ensures Inv(Next(s, ReadClock))
  {
    var now: nat := Now(s);
    if Recent(s.checkedAt, now) && s.cached && now >= FRESHNESS_TTL_MS {
      var checked := s.checkedAt.value;
      assert now - FRESHNESS_TTL_MS <= checked - 1 < |s.history|;
      assert s.history[now - FRESHNESS_TTL_MS] <= s.history[checked - 1];
    }
  }

  /** A check reads the clock before it asks, so that its verdict covers all WAL written before then. */
  lemma AskKeepsInv(s: State, e: Event)
    requires Inv(s) && Can(s, e) && (e.AskPrimary? || e.AskStandby? || e.QueryFails?)
    ensures Inv(Next(s, e))
  {
    var now := s.reader.now;
    if e.AskPrimary? && now > 0 {
      assert s.history[now - 1] <= s.history[|s.history| - 1];
    }
    if e.AskStandby? && now >= FRESHNESS_TTL_MS {
      assert s.history[now - FRESHNESS_TTL_MS] <= s.history[now - 1];
    }
  }

  lemma NextKeepsInv(s: State, e: Event)
    requires Inv(s) && Can(s, e)
    ensures Inv(Next(s, e))
  {
    match e
    case Commit(lsn) => CommitKeepsInv(s, lsn);
    case Replay(_) =>
    case Tick => TickKeepsInv(s);
    case ReadClock => ReadClockKeepsInv(s);
    case AskPrimary => AskKeepsInv(s, e);
    case AskStandby => AskKeepsInv(s, e);
    case QueryFails => AskKeepsInv(s, e);
    case Answered =>
  }

  lemma {:induction false} RunKeepsInv(s: State, events: seq<Event>)
    requires Inv(s) && IsRun(s, events)
    ensures Inv(After(s, events))
    decreases |events|
  {
    if events != [] {
      NextKeepsInv(s, events[0]);
      RunKeepsInv(Next(s, events[0]), events[1..]);
    }
  }

  /** How far the node that answers a getattr or a list has got: the standby if fresh, else the primary. */
  function ServedUpTo(s: State): nat
    requires s.history != [] && s.reader.Serving?
  {
    if s.reader.isFresh then s.replay else Written(s)
  }

  /**
   * Bounded staleness, over every interleaving: a read routed by the verdict, having read the clock
   * at `now`, sees at least all WAL the primary had written by the end of millisecond now - 500. So a
   * read answered within `delay` ms of its clock sees all WAL written by 500 + delay ms before the
   * answer. A read sent to the primary sees all there is.
   */
  lemma BoundedStaleness(events: seq<Event>, delay: nat)
    requires IsRun(START, events)
    ensures var s := After(START, events);
            s.reader.Serving? ==>
              && s.history != [] && s.reader.now < |s.history|
              && (s.reader.now >= 500 ==> s.history[s.reader.now - 500] <= ServedUpTo(s))
              && (s.reader.now + delay >= Now(s) >= 500 + delay ==>
                    s.history[Now(s) - (500 + delay)] <= ServedUpTo(s))
              && (!s.reader.isFresh ==> ServedUpTo(s) == Written(s))
  {
    RunKeepsInv(START, events);
  }

  /** A check that is actually made finds everything the primary had written when it was asked. */
  lemma UncachedIsCurrent(s: State, between: seq<Event>)
    requires Inv(s) && s.reader.Clocked? && IsRun(Next(s, AskPrimary), between)
    requires forall e :: e in between ==> e.Commit? || e.Replay? || e.Tick?
    requires Can(After(Next(s, AskPrimary), between), AskStandby)
    ensures var served := Next(After(Next(s, AskPrimary), between), AskStandby);
            served.reader.Serving? && (served.reader.isFresh <==> Written(s) <= served.replay)
  {
    WaitsForStandby(Next(s, AskPrimary), between);
  }

  lemma {:induction false} WaitsForStandby(s: State, between: seq<Event>)
    requires IsRun(s, between) && s.reader.Asked?
    requires forall e :: e in between ==> e.Commit? || e.Replay? || e.Tick?
    ensures After(s, between).reader == s.reader
    decreases |between|
  {
    if between != [] {
      assert between[0] in between;
      WaitsForStandby(Next(s, between[0]), between[1..]);
    }
  }

  /** The protocol's verdicts are those of the check: positions from a standby in recovery are compared. */
  lemma VerdictIsFresh(s: State, e: Event)
    requires Can(s, e) && (e.AskStandby? || e.QueryFails?)
    ensures e.AskStandby? ==>
              var a := Answers(true, Some(true), Some(s.reader.primary), Some(Some(s.replay)));
              Next(s, e).cached == Next(s, e).reader.isFresh && (Next(s, e).cached <==> Fresh(a))
    ensures e.QueryFails? ==> !Next(s, e).cached && !Next(s, e).reader.isFresh
  {
  }

  /** A query failed, or the standby has never replayed anything. */
  predicate SomeFailed(a: Answers) {
    || a.inRecovery.None?
    || (a.inRecovery == Some(true) && (a.primaryLsn.None? || a.replayLsn.None? || a.replayLsn == Some(None)))
  }

  /**
   * The check over all answers: never without a standby or after a failed query, always for a standby
   * that has been promoted, and otherwise exactly if it has replayed what the primary reports.
   */
  lemma FreshCases(a: Answers)
    ensures !a.configured || SomeFailed(a) ==> !Fresh(a)
    ensures a.configured && a.inRecovery == Some(false) ==> Fresh(a)
    ensures a.configured && !SomeFailed(a) && a.inRecovery == Some(true) ==>
              (Fresh(a) <==> a.replayLsn.value.value >= a.primaryLsn.value)
  {
  }

  // ---------------------------------------------------------------- the bound is tight

  function Ticks(n: nat): seq<Event> { seq(n, _ => Tick) }

  /**
   * A millisecond less would be false, for every delay: a read answered `delay` ms after its clock
   * can miss what was written by the end of the millisecond 499 + delay before the answer.
   */
  lemma TtlIsTight(delay: nat) returns (events: seq<Event>)
    ensures IsRun(START, events)
    ensures var s := After(START, events);
            && s.reader.Serving? && s.history != [] && Now(s) == s.reader.now + delay
            && Now(s) - (499 + delay) == 0 && s.history[0] > ServedUpTo(s)
  {
    var s1 := Next(START, ReadClock);
    var s2 := Next(s1, AskPrimary);
    var s3 := Next(s2, AskStandby);
    var s4 := Next(s3, Answered);
    var s5 := Next(s4, Commit(1));
    var rest := Ticks(499) + ([ReadClock] + Ticks(delay));
    TicksThenRead(s5, 499, delay);
    Prepend(s4, Commit(1), rest);
    Prepend(s3, Answered, [Commit(1)] + rest);
    Prepend(s2, AskStandby, [Answered] + ([Commit(1)] + rest));
    Prepend(s1, AskPrimary, [AskStandby] + ([Answered] + ([Commit(1)] + rest)));
    events := [ReadClock] + ([AskPrimary] + ([AskStandby] + ([Answered] + ([Commit(1)] + rest))));
    Prepend(START, ReadClock, [AskPrimary] + ([AskStandby] + ([Answered] + ([Commit(1)] + rest))));
  }

  lemma Prepend(s: State, e: Event, rest: seq<Event>)
    requires Can(s, e) && IsRun(Next(s, e), rest)
    ensures IsRun(s, [e] + rest) && After(s, [e] + rest) == After(Next(s, e), rest)
  {
    assert ([e] + rest)[1..] == rest;
  }

  /** While a read is being answered time may pass. */
  lemma {:induction false} TicksServing(s: State, n: nat)
    requires s.history != [] && s.reader.Serving?
    ensures IsRun(s, Ticks(n))
    ensures var after := After(s, Ticks(n));
            && after == s.(history := after.history)
            && |after.history| == |s.history| + n && after.history[0] == s.history[0]
    decreases n
  {
    if n > 0 {
      TicksServing(Next(s, Tick), n - 1);
      assert Ticks(n) == [Tick] + Ticks(n - 1);
      Prepend(s, Tick, Ticks(n - 1));
    }
  }

  lemma {:induction false} TicksThenRead(s: State, n: nat, delay: nat)
    requires s.history != [] && s.reader == Idle && s.checkedAt.Some? && s.checkedAt.value <= Now(s)
    requires Now(s) + n < s.checkedAt.value + FRESHNESS_TTL_MS
    ensures IsRun(s, Ticks(n) + ([ReadClock] + Ticks(delay)))
    ensures var after := After(s, Ticks(n) + ([ReadClock] + Ticks(delay)));
            after.reader == Serving(Now(s) + n, s.cached) && after.replay == s.replay
            && |after.history| == |s.history| + n + delay && after.history[0] == s.history[0]
    decreases n
  {
    var rest := [ReadClock] + Ticks(delay);
    if n == 0 {
      TicksServing(Next(s, ReadClock), delay);
      Prepend(s, ReadClock, Ticks(delay));
      assert Ticks(0) + rest == rest;
    } else {
      TicksThenRead(Next(s, Tick), n - 1, delay);
      assert Ticks(n) + rest == [Tick] + (Ticks(n - 1) + rest);
      Prepend(s, Tick, Ticks(n - 1) + rest);
    }
  }
}
