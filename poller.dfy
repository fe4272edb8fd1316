/** The poll driver: walks a minute cursor from the stored checkpoint up to
    just before now, merging each minute's snapshot, then purges stale
    incidents. */
module Poller {
  import opened Values
  import opened IncidentHistory
  import opened TickFormat
  import HistoryLemmas

  const DEFAULT_BACK_TRACK_TIME: int := HOUR
  const DELETE_DELTA: int := 3 * DAY
  const GET_BUFFER_DELTA: int := MINUTE

  /** What a run consults but cannot see into: the snapshot fetch (None when it
      raises, when the response is not ok, or when it is not a single message),
      the district lookup (None when it raises) and the calendar. */
  datatype Env = Env(
    fetch: string -> Option<Fields>,
    resolve: string -> Option<Value>,
    calendar: int -> Date)

  /** The persisted checkpoint: the next minute to poll. */
  class ProgramData {
    var lastUpdateT: Instant

    constructor (lastUpdateT: Instant)
      ensures this.lastUpdateT == lastUpdateT
    {
      this.lastUpdateT := lastUpdateT;
    }
  }

  /** The cursor a run starts from: the stored checkpoint, or an hour back
      when there is none. */
  function InitialCursor(stored: Option<Instant>, now: Instant): (t0: Instant)
    ensures stored.Some? ==> t0 == stored.value
    ensures stored.None? ==> t0 < now && now - t0 == DEFAULT_BACK_TRACK_TIME
  {
    if stored.Some? then stored.value else now - DEFAULT_BACK_TRACK_TIME
  }

  /** How many ticks `t0, t0 + 1 min, …` are at most `limit`. */
  function TickCount(t0: Instant, limit: Instant): (n: nat)
    ensures n == 0 <==> t0 > limit
    ensures n > 0 ==> t0 + (n - 1) * MINUTE <= limit < t0 + n * MINUTE
  {
    if t0 > limit then 0
    else
      var q := (limit - t0) / MINUTE;
      assert limit - t0 == q * MINUTE + (limit - t0) % MINUTE;
      q + 1
  }

  /** One tick: fetch the minute's snapshot and merge it; a fetch or merge
      that raises leaves the history as it was. Either way the tick only
      extends the history, stamps what it writes with `nowIso` and keeps
      records well formed. */
  function TickStep(h: HistoryMap, t: Instant, nowIso: Instant, env: Env): (r: HistoryMap)
    ensures Extends(h, r)
    ensures Stamped(h, r, nowIso)
    ensures WellFormed(h) ==> WellFormed(r)
  {
    match env.fetch(TickString(env.calendar, t))
    case None => HistoryLemmas.ExtendsReflexive(h); h
    case Some(m) =>
      match Merge(h, m, nowIso, env.resolve)
      case Ok(h') =>
        HistoryLemmas.MergeGrows(h, m, nowIso, env.resolve);
        HistoryLemmas.MergeKeepsWellFormed(h, m, nowIso, env.resolve);
        h'
      case Err(_) => HistoryLemmas.ExtendsReflexive(h); h
  }

  /** `TickStep` at a fixed clock and environment, as a step function. */
  function Tick(nowIso: Instant, env: Env): (HistoryMap, Instant) -> HistoryMap
  {
    (h, t) => TickStep(h, t, nowIso, env)
  }

  /** `tick` is `TickStep` at clock `nowIso` in `env`. The poll loop takes its
      step through such a `tick`, so that proofs about the loop's cursor do not
      unfold the fetch and merge of every minute. */
  ghost predicate IsTickOf(tick: (HistoryMap, Instant) -> HistoryMap, nowIso: Instant, env: Env)
  {
    forall h, t {:trigger TickStep(h, t, nowIso, env)} :: tick(h, t) == TickStep(h, t, nowIso, env)
  }

  /** The history after the `n` ticks `t, t + 1 min, …`, in order, each one
      applied by `tick`. */
  function ApplyTicks(h: HistoryMap, t: Instant, n: nat, tick: (HistoryMap, Instant) -> HistoryMap): HistoryMap
    decreases n
  {
    if n == 0 then h else ApplyTicks(tick(h, t), t + MINUTE, n - 1, tick)
  }

  // ---------------------------------------------------------------------
  // The cursor

  /** Visiting one tick leaves one tick fewer to visit. */
  lemma TickCountStep(t: Instant, limit: Instant)
    requires t <= limit
    ensures TickCount(t + MINUTE, limit) == TickCount(t, limit) - 1
  {
    if t + MINUTE <= limit {
      assert (limit - t) / MINUTE == (limit - t - MINUTE) / MINUTE + 1 by {
        var q := (limit - t - MINUTE) / MINUTE;
        var r := (limit - t - MINUTE) % MINUTE;
        assert limit - t == (q + 1) * MINUTE + r;
      }
    }
  }

  /** Applying the ticks still due from `t` is applying the tick at `t` and
      then those due from the next minute. */
  lemma AdvanceTick(h: HistoryMap, t: Instant, limit: Instant, tick: (HistoryMap, Instant) -> HistoryMap)
    requires t <= limit
    ensures ApplyTicks(h, t, TickCount(t, limit), tick)
         == ApplyTicks(tick(h, t), t + MINUTE, TickCount(t + MINUTE, limit), tick)
  {
    TickCountStep(t, limit);
  }

  /** The final cursor `t0 + N min` is the first tick past `limit`: every
      visited tick is at most `limit` and the cursor never moves back. */
  lemma CursorBounds(t0: Instant, limit: Instant)
    ensures var n := TickCount(t0, limit);
      && t0 + n * MINUTE > limit
      && t0 + n * MINUTE >= t0
      && (n > 0 ==> t0 + (n - 1) * MINUTE <= limit)
  {
    if t0 <= limit {
      var q := (limit - t0) / MINUTE;
      assert limit - t0 == q * MINUTE + (limit - t0) % MINUTE;
    }
  }

  /** A first run starts an hour back and polls exactly sixty minutes,
      ending with the cursor at `now`. */
  lemma FreshStartTicks(now: Instant)
    ensures TickCount(InitialCursor(None, now), now - GET_BUFFER_DELTA) == 60
    ensures InitialCursor(None, now) + 60 * MINUTE == now
  {
    assert now - GET_BUFFER_DELTA - InitialCursor(None, now) == 59 * MINUTE;
  }

  // ---------------------------------------------------------------------
  // The history across ticks

  /** A tick replayed, at any clock, on any extension of its own result
      changes nothing. */
  lemma TickStepAbsorbed(h: HistoryMap, t: Instant, nowIso: Instant, env: Env, g: HistoryMap, nowIso': Instant)
    requires Extends(TickStep(h, t, nowIso, env), g)
    ensures TickStep(g, t, nowIso', env) == g
  {
    match env.fetch(TickString(env.calendar, t))
    case None =>
    case Some(m) =>
      if Merge(h, m, nowIso, env.resolve).Ok? {
        HistoryLemmas.MergeAbsorbed(h, m, nowIso, env.resolve, g, nowIso');
      } else {
        HistoryLemmas.MergeFailureIgnoresHistory(h, g, m, nowIso, nowIso', env.resolve);
      }
  }

  /** Over any number of ticks, each of which only extends the history, the
      whole run only extends it. */
  lemma {:induction false} ApplyTicksExtends(h: HistoryMap, t: Instant, n: nat,
                                             tick: (HistoryMap, Instant) -> HistoryMap)
    requires forall g, u :: Extends(g, tick(g, u))
    ensures Extends(h, ApplyTicks(h, t, n, tick))
    decreases n
  {
    if n == 0 {
      HistoryLemmas.ExtendsReflexive(h);
    } else {
      var h1 := tick(h, t);
      var hn := ApplyTicks(h1, t + MINUTE, n - 1, tick);
      ApplyTicksExtends(h1, t + MINUTE, n - 1, tick);
      HistoryLemmas.ExtendsTransitive(h, h1, hn);
    }
  }

  /** Over ticks that each stamp what they write with `nowIso`, every record
      the run leaves changed carries `nowIso`. */
  lemma {:induction false} ApplyTicksStamped(h: HistoryMap, t: Instant, n: nat,
                                             tick: (HistoryMap, Instant) -> HistoryMap, nowIso: Instant)
    requires forall g, u :: Stamped(g, tick(g, u), nowIso)
    ensures Stamped(h, ApplyTicks(h, t, n, tick), nowIso)
    decreases n
  {
    if n == 0 {
      HistoryLemmas.StampedReflexive(h, nowIso);
    } else {
      var h1 := tick(h, t);
      var hn := ApplyTicks(h1, t + MINUTE, n - 1, tick);
      ApplyTicksStamped(h1, t + MINUTE, n - 1, tick, nowIso);
      HistoryLemmas.StampedTransitive(h, h1, hn, nowIso);
    }
  }

  /** Ticks that keep records well formed keep them so over a run. */
  lemma {:induction false} ApplyTicksWellFormed(h: HistoryMap, t: Instant, n: nat,
                                                tick: (HistoryMap, Instant) -> HistoryMap)
    requires forall g, u :: WellFormed(g) ==> WellFormed(tick(g, u))
    requires WellFormed(h)
    ensures WellFormed(ApplyTicks(h, t, n, tick))
    decreases n
  {
    if n > 0 {
      ApplyTicksWellFormed(tick(h, t), t + MINUTE, n - 1, tick);
    }
  }

  /** Replaying ticks, each absorbed by any extension of its own result, on
      anything that extends the first pass's result changes nothing. */
  lemma {:induction false} ReplayIsNoOp(h: HistoryMap, t: Instant, n: nat,
                                        tick: (HistoryMap, Instant) -> HistoryMap,
                                        replay: (HistoryMap, Instant) -> HistoryMap,
                                        g: HistoryMap)
    requires forall g', u :: Extends(g', tick(g', u))
    requires forall h', u, g' :: Extends(tick(h', u), g') ==> replay(g', u) == g'
    requires Extends(ApplyTicks(h, t, n, tick), g)
    ensures ApplyTicks(g, t, n, replay) == g
    decreases n
  {
    if n > 0 {
      var h1 := tick(h, t);
      var hn := ApplyTicks(h1, t + MINUTE, n - 1, tick);
      ApplyTicksExtends(h1, t + MINUTE, n - 1, tick);
      HistoryLemmas.ExtendsTransitive(h1, hn, g);
      ReplayIsNoOp(h1, t + MINUTE, n - 1, tick, replay, g);
    }
  }

  /** The poll tick has the three properties the lemmas above ask of a step. */
  lemma TickIsMonotone(nowIso: Instant, nowIso': Instant, env: Env)
    ensures forall g, u :: Extends(g, Tick(nowIso, env)(g, u)) && Stamped(g, Tick(nowIso, env)(g, u), nowIso)
    ensures forall g, u :: WellFormed(g) ==> WellFormed(Tick(nowIso, env)(g, u))
    ensures forall h, u, g :: Extends(Tick(nowIso, env)(h, u), g) ==> Tick(nowIso', env)(g, u) == g
  {
    forall h, u, g | Extends(Tick(nowIso, env)(h, u), g)
      ensures Tick(nowIso', env)(g, u) == g
    {
      TickStepAbsorbed(h, u, nowIso, env, g, nowIso');
    }
  }

  /** Replaying a pass's minutes on the history it produced, with the same
      snapshots and lookups, at any later clock, changes nothing. */
  lemma ReplayIsIdempotent(h: HistoryMap, t: Instant, n: nat, nowIso: Instant, nowIso': Instant, env: Env)
    ensures var done := ApplyTicks(h, t, n, Tick(nowIso, env));
      ApplyTicks(done, t, n, Tick(nowIso', env)) == done
  {
    var done := ApplyTicks(h, t, n, Tick(nowIso, env));
    TickIsMonotone(nowIso, nowIso', env);
    HistoryLemmas.ExtendsReflexive(done);
    ReplayIsNoOp(h, t, n, Tick(nowIso, env), Tick(nowIso', env), done);
  }

  /** Polling minutes again, whatever the snapshots and lookups then return,
      only extends the history: nothing a pass merged is lost or rewritten. */
  lemma ReplayExtends(done: HistoryMap, t: Instant, n: nat, nowIso': Instant, env': Env)
    ensures Extends(done, ApplyTicks(done, t, n, Tick(nowIso', env')))
  {
    TickIsMonotone(nowIso', nowIso', env');
    ApplyTicksExtends(done, t, n, Tick(nowIso', env'));
  }

  /** Across a run's ticks no incident and no announcement is lost, district
      and description never change and records stay well formed; every record
      the run creates or changes carries its `now_iso` and so survives the
      run's expiry. */
  lemma RunGrows(h: HistoryMap, t: Instant, n: nat, now: Instant, env: Env)
    ensures var done := ApplyTicks(h, t, n, Tick(NowIso(now), env));
      && Extends(h, done)
      && (WellFormed(h) ==> WellFormed(done))
      && forall id :: id in done && !(id in h && done[id] == h[id]) ==>
           done[id].lastUpdate == NowIso(now) && id in Expire(done, now, DELETE_DELTA)
  {
    var tick := Tick(NowIso(now), env);
    TickIsMonotone(NowIso(now), NowIso(now), env);
    ApplyTicksExtends(h, t, n, tick);
    ApplyTicksStamped(h, t, n, tick, NowIso(now));
    if WellFormed(h) {
      ApplyTicksWellFormed(h, t, n, tick);
    }
  }

  // ---------------------------------------------------------------------
  // The run

  /** The body of the poll loop: fetch the minute's snapshot and merge it,
      swallowing whatever either raises. */
  method PollTick(history: History, t: Instant, nowIso: Instant, env: Env, ghost tick: (HistoryMap, Instant) -> HistoryMap)
    requires IsTickOf(tick, nowIso, env)
    modifies history
    ensures history.history == tick(old(history.history), t)
  {
    ghost var before := history.history;
    var tStrg := TickString(env.calendar, t);
    var msg := env.fetch(tStrg);
    if msg.Some? {
      var _ := history.PushMsg(msg.value, nowIso, env.resolve);
    }
    assert history.history == TickStep(before, t, nowIso, env);
  }

  /** The poll loop: from cursor `t0`, poll every minute while it is at most
      `now - GET_BUFFER_DELTA`, moving on whether or not the minute's fetch
      and merge succeed; returns the first minute not polled. */
  method PollFrom(history: History, t0: Instant, now: Instant, env: Env, ghost tick: (HistoryMap, Instant) -> HistoryMap)
    returns (t: Instant, ghost ticks: seq<Instant>)
    requires IsTickOf(tick, NowIso(now), env)
    modifies history
    ensures var n := TickCount(t0, now - GET_BUFFER_DELTA);
      && |ticks| == n
      && (forall i :: 0 <= i < n ==> ticks[i] == t0 + i * MINUTE && ticks[i] <= now - GET_BUFFER_DELTA)
      && t == t0 + n * MINUTE
      && history.history == ApplyTicks(old(history.history), t0, n, tick)
  {
    t := t0;
    ghost var limit := now - GET_BUFFER_DELTA;
    ghost var done := ApplyTicks(history.history, t0, TickCount(t0, limit), tick);
    ticks := [];
    while t <= now - GET_BUFFER_DELTA
      invariant t == t0 + |ticks| * MINUTE
      invariant |ticks| + TickCount(t, limit) == TickCount(t0, limit)
      invariant forall i :: 0 <= i < |ticks| ==> ticks[i] == t0 + i * MINUTE && ticks[i] <= limit
      invariant ApplyTicks(history.history, t, TickCount(t, limit), tick) == done
      decreases TickCount(t, limit)
    {
      ghost var before := history.history;
      PollTick(history, t, NowIso(now), env, tick);
      TickCountStep(t, limit);
      AdvanceTick(before, t, limit, tick);
      ticks := ticks + [t];
      t := t + MINUTE;
    }
  }

  /** One invocation: run the poll loop from the stored checkpoint, store the
      advanced checkpoint, then purge stale incidents. */
  method Run(history: History, data: ProgramData, now: Instant, env: Env) returns (ghost ticks: seq<Instant>)
    modifies history, data
    ensures var t0 := old(data.lastUpdateT);
      var n := TickCount(t0, now - GET_BUFFER_DELTA);
      && |ticks| == n
      && (forall i :: 0 <= i < n ==> ticks[i] == t0 + i * MINUTE && ticks[i] <= now - GET_BUFFER_DELTA)
      && data.lastUpdateT == t0 + n * MINUTE
      && data.lastUpdateT > now - GET_BUFFER_DELTA
      && history.history == Expire(ApplyTicks(old(history.history), t0, n, Tick(NowIso(now), env)), now, DELETE_DELTA)
  {
    var t;
    t, ticks := PollFrom(history, data.lastUpdateT, now, env, Tick(NowIso(now), env));
    CursorBounds(old(data.lastUpdateT), now - GET_BUFFER_DELTA);
    data.lastUpdateT := t;
    history.RemoveExpire(now, DELETE_DELTA);
  }

  /** A whole invocation from start-up: load the stored history (empty when
      there is none), take the stored checkpoint or start an hour back, then
      run. A first run polls exactly the sixty minutes before `now` and leaves
      the checkpoint at `now`. */
  method Start(storedHistory: Option<HistoryMap>, storedCursor: Option<Instant>, now: Instant, env: Env)
    returns (history: History, data: ProgramData, ghost ticks: seq<Instant>)
    ensures var h0 := if storedHistory.Some? then storedHistory.value else map[];
      var t0 := InitialCursor(storedCursor, now);
      var n := TickCount(t0, now - GET_BUFFER_DELTA);
      && |ticks| == n
      && (forall i :: 0 <= i < n ==> ticks[i] == t0 + i * MINUTE && ticks[i] <= now - GET_BUFFER_DELTA)
      && data.lastUpdateT == t0 + n * MINUTE
      && history.history == Expire(ApplyTicks(h0, t0, n, Tick(NowIso(now), env)), now, DELETE_DELTA)
    ensures storedCursor.None? ==> |ticks| == 60 && data.lastUpdateT == now
  {
    history := new History(storedHistory);
    data := new ProgramData(InitialCursor(storedCursor, now));
    FreshStartTicks(now);
    ticks := Run(history, data, now, env);
  }
}
