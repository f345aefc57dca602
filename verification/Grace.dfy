/** The reconnection grace of DM calls (internal/httpapi/ws_dispatch.go:44-98): when a user who
    comes back keeps the call, which timer stops came too late when they do not, and what a
    cleanup still queued from the dropped connection does (internal/httpapi/realtime.go:81-97). */
module Grace {
  import opened VoiceState
  import opened Calls

  /** Some callback that may still run is set to end this channel's call on this user's account. */
  predicate Pending(s: State, key: GraceKey) {
    exists id <- s.timers :: s.timers[id] == key
  }

  /** ... and it is not the one the table names, so that no Stop can reach it any more. */
  predicate Orphaned(s: State, key: GraceKey) {
    exists id <- s.timers :: s.timers[id] == key && !(key in s.grace && s.grace[key] == id)
  }

  /** Every callback that may still run is the one its table entry names. */
  ghost predicate Punctual(s: State) {
    forall id <- s.timers :: s.timers[id] in s.grace && s.grace[s.timers[id]] == id
  }

  // ----- Coming back -----

  /** A re-announce that the channel admits leaves a callback behind exactly when one had been
      orphaned before, or when its own Stop comes too late; a punctual one leaves none. */
  lemma RejoinSavesCall(cfg: Config, s: State, u: UserId, c: ChannelId, now: int, late: bool)
    requires Inv(cfg, s) && c != 0 && c in cfg.channels && CanAccess(cfg, c, u)
    ensures var key, after := GraceKey(c, u), OnJoin(cfg, s, u, c, now, late);
      && (Pending(after, key) <==>
            exists id <- s.timers :: s.timers[id] == key && (late || key !in s.grace || s.grace[key] != id))
      && (Pending(after, key) <==> Orphaned(s, key) || (late && key in s.grace))
      && (Punctual(s) && !late ==> Punctual(after) && !Pending(after, key))
  {
    hide VoiceOk, NobodyForgotten, JoinIsFull, Join, LeaveAll;
    var key, after := GraceKey(c, u), OnJoin(cfg, s, u, c, now, late);
    assert after.timers == CancelGrace(s, key, late).timers && after.grace == CancelGrace(s, key, late).grace;
    CancelLeaves(s, key, late);
  }

  lemma CancelLeaves(s: State, key: GraceKey, late: bool)
    requires TimersOk(s)
    ensures Pending(CancelGrace(s, key, late), key) <==> Orphaned(s, key) || (late && key in s.grace)
    ensures forall other :: other != key ==> (Orphaned(CancelGrace(s, key, late), other) <==> Orphaned(s, other))
    ensures Orphaned(CancelGrace(s, key, late), key) <==> Orphaned(s, key) || (late && key in s.grace)
  {
    var after := CancelGrace(s, key, late);
    if key in s.grace { assert s.timers[s.grace[key]] == key; }
    forall id | id in s.timers && id !in after.timers ensures key in s.grace && id == s.grace[key] {}
  }

  /** Any callback left behind ends the call its user came back to, whoever else is in it. */
  lemma LateCallbackEndsCall(cfg: Config, s: State, u: UserId, c: ChannelId, now: int, late: bool, id: TimerId)
    requires c != 0 && c in cfg.channels && cfg.channels[c].isDM && CanAccess(cfg, c, u)
    requires var back := OnJoin(cfg, s, u, c, now, late); id in back.timers && back.timers[id] == GraceKey(c, u)
    ensures var back := OnJoin(cfg, s, u, c, now, late);
      u in RosterOf(back.voice, c) && RosterOf(OnExpire(back, id).voice, c) == map[]
  {
    ListedAfterJoin(s.voice, c, u, now, c, u);
    hide LeaveAll, Join;
  }

  // ----- Which stops come too late -----

  /** The cleanup of u's channels re-arms this key's timer. */
  predicate Rearms(cfg: Config, u: UserId, order: seq<ChannelId>, v: Voice, key: GraceKey) {
    && key.user == u && key.channel in order
    && key.channel in cfg.channels && cfg.channels[key.channel].isDM && |RosterOf(v, key.channel)| > 1
  }

  /** The step stops the timer the table names for this key, and comes too late. */
  predicate StopsLate(cfg: Config, s: State, e: Event, key: GraceKey) {
    key in s.grace &&
    match e
    case Joins(u, c, _, late) =>
      late && key == GraceKey(c, u) && c != 0 && c in cfg.channels && CanAccess(cfg, c, u)
    case CleansUp(u, order, late) => late && Rearms(cfg, u, order, s.voice, key)
    case _ => false
  }

  lemma ArmOrphans(s: State, armed: GraceKey, late: bool, key: GraceKey)
    requires TimersOk(s)
    ensures Orphaned(ArmGrace(s, armed, late), key) <==> Orphaned(s, key) || (key == armed && late && key in s.grace)
  {
    var after := ArmGrace(s, armed, late);
    if armed in s.grace { assert s.timers[s.grace[armed]] == armed; }
    if Orphaned(s, key) {
      var id :| id in s.timers && s.timers[id] == key && !(key in s.grace && s.grace[key] == id);
      assert id in after.timers && after.timers[id] == key;
    }
    if key == armed && late && key in s.grace {
      var id := s.grace[key];
      assert id in after.timers && after.timers[id] == key;
    }
  }

  lemma {:induction false} CleanupOrphans(cfg: Config, s: State, u: UserId, order: seq<ChannelId>, v: Voice, late: bool,
                                          key: GraceKey)
    requires TimersOk(s) && forall i, j :: 0 <= i < j < |order| ==> order[i] != order[j]
    ensures var after := CleanupAll(cfg, s, u, order, v, late);
      && TimersOk(after)
      && (Orphaned(after, key) <==> Orphaned(s, key) || (late && key in s.grace && Rearms(cfg, u, order, v, key)))
      && (!Rearms(cfg, u, order, v, key) ==>
            (key in after.grace <==> key in s.grace) && (key in s.grace ==> after.grace[key] == s.grace[key]))
  {
    if order != [] {
      hide Orphaned, TimersOk, Leave;
      var init, c := order[..|order| - 1], order[|order| - 1];
      assert order == init + [c] && c !in init;
      CleanupOrphans(cfg, s, u, init, v, late, key);
      var s1 := CleanupAll(cfg, s, u, init, v, late);
      if c in cfg.channels && cfg.channels[c].isDM && |RosterOf(v, c)| > 1 {
        ArmOrphans(s1, GraceKey(c, u), late, key);
        ArmKeepsTimers(s1, GraceKey(c, u), late);
      } else {
        SameTimers(s1, CleanupOne(cfg, s1, u, c, v, late), key);
      }
    }
  }

  lemma SameTimers(s: State, after: State, key: GraceKey)
    requires after.timers == s.timers && after.grace == s.grace && after.nextTimer == s.nextTimer
    ensures TimersOk(s) ==> TimersOk(after)
    ensures Orphaned(after, key) <==> Orphaned(s, key)
    ensures Pending(after, key) <==> Pending(s, key)
  {}

  /** Exactly how one step changes what is orphaned: a callback of this key that runs leaves
      the others of its key without a table entry, and any other step orphans the key's timer
      just when it stops it too late. */
  lemma NextOrphans(cfg: Config, s: State, e: Event, key: GraceKey)
    requires Inv(cfg, s) && Enabled(s, e)
    ensures var after := Next(cfg, s, e);
      if e.Expires? && s.timers[e.timer] == key
      then Orphaned(after, key) <==> exists id <- s.timers :: id != e.timer && s.timers[id] == key
      else Orphaned(after, key) <==> Orphaned(s, key) || StopsLate(cfg, s, e, key)
  {
    hide VoiceOk, NobodyForgotten, Lists, Orphaned, TimersOk, JoinIsFull, VideoIsFull, CanAccess;
    match e
    case Joins(u, c, now, late) => JoinOrphans(cfg, s, u, c, now, late, key);
    case CleansUp(u, order, late) =>
      ListsDistinct(order, ChannelsOf(s.voice, u));
      var s0 := s.(cleanups := s.cleanups - multiset{u});
      SameTimers(s, s0, key);
      CleanupOrphans(cfg, s0, u, order, s.voice, late, key);
    case Expires(id) => ExpireOrphans(s, id, key);
    case _ => SameTimers(s, Next(cfg, s, e), key);
  }

  lemma ListsDistinct(order: seq<ChannelId>, channels: set<ChannelId>)
    requires Lists(order, channels)
    ensures forall i, j :: 0 <= i < j < |order| ==> order[i] != order[j]
  {}

  lemma JoinOrphans(cfg: Config, s: State, u: UserId, c: ChannelId, now: int, late: bool, key: GraceKey)
    requires TimersOk(s)
    ensures Orphaned(OnJoin(cfg, s, u, c, now, late), key) <==>
      Orphaned(s, key) || StopsLate(cfg, s, Joins(u, c, now, late), key)
  {
    hide Orphaned, Join, LeaveAll, JoinIsFull, CancelGrace;
    if c != 0 && c in cfg.channels && CanAccess(cfg, c, u) {
      var s1 := CancelGrace(s, GraceKey(c, u), late);
      CancelLeaves(s, GraceKey(c, u), late);
      SameTimers(s1, OnJoin(cfg, s, u, c, now, late), key);
    }
  }

  lemma ExpireOrphans(s: State, id: TimerId, key: GraceKey)
    requires TimersOk(s) && id in s.timers
    ensures if s.timers[id] == key
      then Orphaned(OnExpire(s, id), key) <==> exists other <- s.timers :: other != id && s.timers[other] == key
      else Orphaned(OnExpire(s, id), key) <==> Orphaned(s, key)
  {
    var after := OnExpire(s, id);
    if s.timers[id] == key {
      if exists other <- s.timers :: other != id && s.timers[other] == key {
        var other :| other in s.timers && other != id && s.timers[other] == key;
        assert other in after.timers && after.timers[other] == key;
      }
    } else if Orphaned(s, key) {
      var other :| other in s.timers && s.timers[other] == key && !(key in s.grace && s.grace[key] == other);
      assert other in after.timers && after.timers[other] == key;
    }
  }

  /** Over a whole run of handlers, no callback of this key is ever orphaned, so that every
      punctual re-announce leaves none behind, if and only if no step stops its timer too late. */
  lemma OrphansComeFromLateStops(cfg: Config, es: seq<Event>, key: GraceKey)
    requires DMsArePrivate(cfg) && Possible(cfg, es)
    ensures (forall n :: 0 <= n <= |es| ==> !Orphaned(Run(cfg, es[..n]), key)) <==>
      (forall n :: 0 <= n < |es| ==> !StopsLate(cfg, Run(cfg, es[..n]), es[n], key))
  {
    hide Orphaned, StopsLate, Run, Possible;
    if forall n :: 0 <= n <= |es| ==> !Orphaned(Run(cfg, es[..n]), key) {
      forall n | 0 <= n < |es| ensures !StopsLate(cfg, Run(cfg, es[..n]), es[n], key) {
        StepOrphans(cfg, es, n, key);
        assert !Orphaned(Run(cfg, es[..n + 1]), key);
      }
    }
    if forall n :: 0 <= n < |es| ==> !StopsLate(cfg, Run(cfg, es[..n]), es[n], key) {
      forall n | 0 <= n <= |es| ensures !Orphaned(Run(cfg, es[..n]), key) {
        NothingLateNothingOrphaned(cfg, es, n, key);
      }
    }
  }

  lemma {:induction false} PrefixPossible(cfg: Config, es: seq<Event>, n: nat)
    requires Possible(cfg, es) && n <= |es|
    ensures Possible(cfg, es[..n])
    decreases |es|
  {
    if n == |es| {
      assert es[..n] == es;
    } else {
      PrefixPossible(cfg, es[..|es| - 1], n);
      assert es[..|es| - 1][..n] == es[..n];
    }
  }

  /** The n-th step of the run. */
  lemma StepOrphans(cfg: Config, es: seq<Event>, n: nat, key: GraceKey)
    requires DMsArePrivate(cfg) && Possible(cfg, es) && n < |es|
    ensures var s, after := Run(cfg, es[..n]), Run(cfg, es[..n + 1]);
      && (Orphaned(after, key) ==> Orphaned(s, key) || StopsLate(cfg, s, es[n], key))
      && (StopsLate(cfg, s, es[n], key) ==> Orphaned(after, key))
  {
    hide Orphaned, Inv, Next, Enabled;
    PrefixPossible(cfg, es, n);
    PrefixPossible(cfg, es, n + 1);
    assert es[..n + 1][..n] == es[..n];
    var s := Run(cfg, es[..n]);
    RunKeepsInv(cfg, es[..n]);
    NextOrphans(cfg, s, es[n], key);
    if es[n].Expires? { OthersOrphaned(cfg, s, es[n].timer, key); }
  }

  /** Of two callbacks with one key, one is not the table's. */
  lemma OthersOrphaned(cfg: Config, s: State, id: TimerId, key: GraceKey)
    requires Enabled(s, Expires(id))
    ensures s.timers[id] == key && (exists other <- s.timers :: other != id && s.timers[other] == key) ==>
      Orphaned(s, key)
  {}

  lemma {:induction false} NothingLateNothingOrphaned(cfg: Config, es: seq<Event>, n: nat, key: GraceKey)
    requires DMsArePrivate(cfg) && Possible(cfg, es) && n <= |es|
    requires forall k :: 0 <= k < n ==> !StopsLate(cfg, Run(cfg, es[..k]), es[k], key)
    ensures !Orphaned(Run(cfg, es[..n]), key)
    decreases n
  {
    hide StopsLate, Possible;
    if n == 0 {
      assert es[..0] == [];
    } else {
      hide Orphaned, Run;
      NothingLateNothingOrphaned(cfg, es, n - 1, key);
      StepOrphans(cfg, es, n - 1, key);
    }
  }

  /** Put together: in a run without a late Stop for this user and channel, no punctual
      re-announce leaves a callback behind. */
  lemma PunctualRunSavesCall(cfg: Config, es: seq<Event>, u: UserId, c: ChannelId, now: int)
    requires DMsArePrivate(cfg) && Possible(cfg, es)
    requires forall n :: 0 <= n < |es| ==> !StopsLate(cfg, Run(cfg, es[..n]), es[n], GraceKey(c, u))
    requires c != 0 && c in cfg.channels && CanAccess(cfg, c, u)
    ensures !Pending(OnJoin(cfg, Run(cfg, es), u, c, now, false), GraceKey(c, u))
  {
    hide StopsLate, Orphaned, Pending, OnJoin, Inv;
    RunKeepsInv(cfg, es);
    NothingLateNothingOrphaned(cfg, es, |es|, GraceKey(c, u));
    assert es[..|es|] == es;
    RejoinSavesCall(cfg, Run(cfg, es), u, c, now, false);
  }

  // ----- What may happen after coming back -----

  ghost predicate StaysOnline(cfg: Config, s: State, es: seq<Event>, u: UserId)
    decreases |es|
  {
    u in s.online && (es == [] || StaysOnline(cfg, Next(cfg, s, es[0]), es[1..], u))
  }

  /** After the events es, all of which leave the key's user online, its callback id may run. */
  ghost predicate MayRun(cfg: Config, s: State, es: seq<Event>, id: TimerId, key: GraceKey) {
    && PossibleFrom(cfg, s, es) && StaysOnline(cfg, s, es, key.user)
    && var end := RunFrom(cfg, s, es); id in end.timers && end.timers[id] == key
  }

  /** ... and ends the call with its user in it. */
  ghost predicate EndsCall(cfg: Config, s: State, es: seq<Event>, id: TimerId, key: GraceKey) {
    && MayRun(cfg, s, es, id, key)
    && var end := RunFrom(cfg, s, es);
       && key.user in RosterOf(end.voice, key.channel)
       && RosterOf(Next(cfg, end, Expires(id)).voice, key.channel) == map[]
  }

  /** What arms a callback is a cleanup of the key's user, and that user's cleanups are queued by
      going offline: while neither happens, no callback appears. */
  lemma StaysSafe(cfg: Config, s: State, e: Event, key: GraceKey)
    requires Inv(cfg, s) && Enabled(s, e)
    requires !Pending(s, key) && key.user !in s.cleanups
    requires key.user in Next(cfg, s, e).online
    ensures !Pending(Next(cfg, s, e), key) && key.user !in Next(cfg, s, e).cleanups
  {
    hide Inv, Lists, Pending, CanAccess, JoinIsFull, VideoIsFull, CleanupAll, Join, LeaveAll, Leave, SetMute, Clear;
    var after := Next(cfg, s, e);
    match e
    case Joins(u, c, now, late) => NothingAdded(s, after, key);
    case CleansUp(u, order, late) =>
      var s0 := s.(cleanups := s.cleanups - multiset{u});
      NothingAdded(s, s0, key);
      CleanupTouches(cfg, s0, u, order, s.voice, late);
      OthersArm(cfg, s0, u, order, s.voice, late, key);
    case _ => NothingAdded(s, after, key);
  }

  lemma NothingAdded(s: State, after: State, key: GraceKey)
    requires forall id <- after.timers :: id in s.timers && after.timers[id] == s.timers[id]
    ensures Pending(after, key) ==> Pending(s, key)
  {}

  lemma {:induction false} OthersArm(cfg: Config, s: State, u: UserId, order: seq<ChannelId>, v: Voice, late: bool,
                                     key: GraceKey)
    requires u != key.user && !Pending(s, key)
    ensures !Pending(CleanupAll(cfg, s, u, order, v, late), key)
  {
    if order != [] {
      hide Leave, RosterOf;
      OthersArm(cfg, s, u, order[..|order| - 1], v, late, key);
    }
  }

  lemma {:induction false} StaysSafeOn(cfg: Config, s: State, es: seq<Event>, id: TimerId, key: GraceKey)
    requires DMsArePrivate(cfg) && Inv(cfg, s) && !Pending(s, key) && key.user !in s.cleanups
    ensures !MayRun(cfg, s, es, id, key)
    decreases |es|
  {
    hide Inv, Next, Enabled, DMsArePrivate;
    if es != [] && Enabled(s, es[0]) && StaysOnline(cfg, s, es, key.user) {
      var next := Next(cfg, s, es[0]);
      assert StaysOnline(cfg, next, es[1..], key.user);
      NextKeepsInv(cfg, s, es[0]);
      StaysSafe(cfg, s, es[0], key);
      StaysSafeOn(cfg, next, es[1..], id, key);
    }
  }

  /** What a queued cleanup does to a user who is back and listed in channel c: in a DM call of
      two or more it arms a callback, anywhere else it takes the user out. */
  lemma QueuedCleanupRuns(cfg: Config, s: State, u: UserId, c: ChannelId, late: bool)
    requires Inv(cfg, s) && u in s.cleanups && u in RosterOf(s.voice, c)
    ensures Enabled(s, CleansUp(u, [c], late)) && c in cfg.channels
    ensures var after, key := Next(cfg, s, CleansUp(u, [c], late)), GraceKey(c, u);
      && after.online == s.online
      && if cfg.channels[c].isDM && |RosterOf(s.voice, c)| > 1
         then after.voice == s.voice && key in after.grace && after.grace[key] in after.timers
              && after.timers[after.grace[key]] == key
         else RosterOf(after.voice, c) == RosterOf(s.voice, c) - {u}
  {
    assert ChannelsOf(s.voice, u) == {c} by { OnlyThere(cfg, s.voice, u, c); }
    assert RosterOk(cfg, c, s.voice.channels[c]) by { hide RosterOk; }
    hide Inv, RosterOf, ChannelsOf;
    var s0 := s.(cleanups := s.cleanups - multiset{u});
    OneChannel(cfg, s0, u, c, s.voice, late);
    LeaveLists(s.voice, c, u);
  }

  lemma OnlyThere(cfg: Config, v: Voice, u: UserId, c: ChannelId)
    requires VoiceOk(cfg, v) && u in RosterOf(v, c)
    ensures ChannelsOf(v, u) == {c}
  {
    hide RosterOk;
    forall d ensures d in ChannelsOf(v, u) <==> d in {c} {}
  }

  lemma LeaveLists(v: Voice, c: ChannelId, u: UserId)
    ensures RosterOf(Leave(v, c, u), c) == RosterOf(v, c) - {u}
  {}

  lemma OneChannel(cfg: Config, s: State, u: UserId, c: ChannelId, v: Voice, late: bool)
    ensures CleanupAll(cfg, s, u, [c], v, late) == CleanupOne(cfg, s, u, c, v, late)
  {
    assert [c][..0] == [];
    assert CleanupAll(cfg, s, u, [], v, late) == s;
  }

  /** The other member connects, unless connected, and joins. */
  lemma OtherJoins(cfg: Config, s: State, u: UserId, w: UserId, c: ChannelId) returns (es: seq<Event>, end: State)
    requires DMsArePrivate(cfg) && Inv(cfg, s) && u in s.online && u in RosterOf(s.voice, c) && u != w
    requires c != 0 && c in cfg.channels && cfg.channels[c].isDM && w in cfg.channels[c].members
    ensures PossibleFrom(cfg, s, es) && StaysOnline(cfg, s, es, u) && end == RunFrom(cfg, s, es) && Inv(cfg, end)
    ensures end.cleanups == s.cleanups && u in RosterOf(end.voice, c) && |RosterOf(end.voice, c)| > 1
  {
    hide Inv, DMsArePrivate;
    var s1 := if w in s.online then s else Next(cfg, s, Connects(w, 0));
    if w !in s.online { NextKeepsInv(cfg, s, Connects(w, 0)); }
    var join := Joins(w, c, 0, false);
    NextKeepsInv(cfg, s1, join);
    end := Next(cfg, s1, join);
    MemberJoins(cfg, s1, u, w, c);
    es := if w in s.online then [join] else [Connects(w, 0), join];
    RunsOne(cfg, s1, join, u);
    if w !in s.online { assert es[1..] == [join]; }
  }

  lemma MemberJoins(cfg: Config, s: State, u: UserId, w: UserId, c: ChannelId)
    requires u in RosterOf(s.voice, c) && u != w
    requires c != 0 && c in cfg.channels && cfg.channels[c].isDM && w in cfg.channels[c].members
    ensures var end := OnJoin(cfg, s, w, c, 0, false);
      && end.online == s.online && end.cleanups == s.cleanups
      && u in RosterOf(end.voice, c) && |RosterOf(end.voice, c)| > 1
  {
    ListedAfterJoin(s.voice, c, w, 0, c, u);
    ListedAfterJoin(s.voice, c, w, 0, c, w);
    hide LeaveAll, Join, RosterOf;
    var r := RosterOf(OnJoin(cfg, s, w, c, 0, false).voice, c);
    Fewer({u, w}, r.Keys);
    assert |{u, w}| == 2 && |r| == |r.Keys|;
  }

  lemma RunsOne(cfg: Config, s: State, e: Event, u: UserId)
    requires Enabled(s, e) && u in s.online && u in Next(cfg, s, e).online
    ensures PossibleFrom(cfg, s, [e]) && StaysOnline(cfg, s, [e], u) && RunFrom(cfg, s, [e]) == Next(cfg, s, e)
  {
    hide Next, Enabled;
    assert [e][1..] == [];
  }

  lemma {:induction false} RunsThen(cfg: Config, s: State, es: seq<Event>, more: seq<Event>, u: UserId)
    requires PossibleFrom(cfg, s, es) && StaysOnline(cfg, s, es, u)
    requires PossibleFrom(cfg, RunFrom(cfg, s, es), more) && StaysOnline(cfg, RunFrom(cfg, s, es), more, u)
    ensures PossibleFrom(cfg, s, es + more) && StaysOnline(cfg, s, es + more, u)
    ensures RunFrom(cfg, s, es + more) == RunFrom(cfg, RunFrom(cfg, s, es), more)
    decreases |es|
  {
    hide Next, Enabled;
    if es == [] {
      assert es + more == more;
    } else {
      assert (es + more)[0] == es[0] && (es + more)[1..] == es[1..] + more;
      RunsThen(cfg, Next(cfg, s, es[0]), es[1..], more, u);
    }
  }

  /** A queued cleanup can end the call: the other member is or comes in, the cleanup takes the
      dropped connection for the last one and arms the timer, and nothing stops it. */
  lemma QueuedCleanupEndsCall(cfg: Config, s: State, u: UserId, w: UserId, c: ChannelId)
    returns (es: seq<Event>, id: TimerId)
    requires DMsArePrivate(cfg) && Inv(cfg, s) && u in s.online && u in RosterOf(s.voice, c) && u in s.cleanups
    requires c != 0 && c in cfg.channels && cfg.channels[c].isDM && u != w && w in cfg.channels[c].members
    ensures EndsCall(cfg, s, es, id, GraceKey(c, u))
  {
    hide Inv, DMsArePrivate, PossibleFrom, StaysOnline, RunFrom, Next, Enabled;
    var joins, mid := OtherJoins(cfg, s, u, w, c);
    QueuedCleanupRuns(cfg, mid, u, c, false);
    var clean := CleansUp(u, [c], false);
    StillOnline(cfg, s, joins, u);
    RunsOne(cfg, mid, clean, u);
    RunsThen(cfg, s, joins, [clean], u);
    es, id := joins + [clean], Next(cfg, mid, clean).grace[GraceKey(c, u)];
    ExpireClears(cfg, RunFrom(cfg, s, es), id);
  }

  lemma {:induction false} StillOnline(cfg: Config, s: State, es: seq<Event>, u: UserId)
    requires StaysOnline(cfg, s, es, u)
    ensures u in RunFrom(cfg, s, es).online
    decreases |es|
  {
    hide Next;
    if es != [] { StillOnline(cfg, Next(cfg, s, es[0]), es[1..], u); }
  }

  lemma ExpireClears(cfg: Config, s: State, id: TimerId)
    requires id in s.timers && s.timers[id].user in RosterOf(s.voice, s.timers[id].channel)
    ensures RosterOf(Next(cfg, s, Expires(id)).voice, s.timers[id].channel) == map[]
  {}

  lemma PendingEndsCall(cfg: Config, s: State, key: GraceKey) returns (id: TimerId)
    requires Pending(s, key) && key.user in s.online && key.user in RosterOf(s.voice, key.channel)
    ensures EndsCall(cfg, s, [], id, key)
  {
    id :| id in s.timers && s.timers[id] == key;
    ExpireClears(cfg, s, id);
    hide RosterOf, Next;
  }

  /** What coming back is worth, exactly: after a re-announce to a DM that has another member,
      there is a way for things to go on, with this user online all along, in which a callback
      of this user and channel runs and ends the call, if and only if one was left behind or
      a cleanup of this user is still queued. */
  lemma ComingBackExactly(cfg: Config, s: State, u: UserId, w: UserId, c: ChannelId, now: int, late: bool)
    requires DMsArePrivate(cfg) && Inv(cfg, s) && u in s.online
    requires c != 0 && c in cfg.channels && cfg.channels[c].isDM && CanAccess(cfg, c, u)
    requires u != w && w in cfg.channels[c].members
    ensures var key, after := GraceKey(c, u), OnJoin(cfg, s, u, c, now, late);
      && ((exists es, id :: MayRun(cfg, after, es, id, key)) <==> Pending(after, key) || u in after.cleanups)
      && ((exists es, id :: EndsCall(cfg, after, es, id, key)) <==> Pending(after, key) || u in after.cleanups)
      && after.cleanups == s.cleanups
  {
    var key, after := GraceKey(c, u), OnJoin(cfg, s, u, c, now, late);
    NextKeepsInv(cfg, s, Joins(u, c, now, late));
    ListedAfterJoin(s.voice, c, u, now, c, u);
    assert after.online == s.online && after.cleanups == s.cleanups && u in RosterOf(after.voice, c) by {
      hide Join, LeaveAll, RosterOf;
    }
    hide Inv, DMsArePrivate, MayRun, OnJoin, Pending;
    if Pending(after, key) {
      var id := PendingEndsCall(cfg, after, key);
      assert MayRun(cfg, after, [], id, key);
    } else if u in after.cleanups {
      var es, id := QueuedCleanupEndsCall(cfg, after, u, w, c);
      assert MayRun(cfg, after, es, id, key);
    } else {
      forall es, id ensures !MayRun(cfg, after, es, id, key) {
        StaysSafeOn(cfg, after, es, id, key);
      }
    }
  }

  /** So in a run without a late Stop, a punctual re-announce saves the call, whatever comes
      with this user online, if and only if no cleanup of this user is still queued. */
  lemma PunctualReannounceSaves(cfg: Config, es: seq<Event>, u: UserId, w: UserId, c: ChannelId, now: int)
    requires DMsArePrivate(cfg) && Possible(cfg, es) && u in Run(cfg, es).online
    requires forall n :: 0 <= n < |es| ==> !StopsLate(cfg, Run(cfg, es[..n]), es[n], GraceKey(c, u))
    requires c != 0 && c in cfg.channels && cfg.channels[c].isDM && CanAccess(cfg, c, u)
    requires u != w && w in cfg.channels[c].members
    ensures var key, after := GraceKey(c, u), OnJoin(cfg, Run(cfg, es), u, c, now, false);
      (forall more, id :: !EndsCall(cfg, after, more, id, key)) <==> u !in Run(cfg, es).cleanups
  {
    hide StopsLate, Pending, OnJoin, Inv, EndsCall, MayRun, Run;
    RunKeepsInv(cfg, es);
    PunctualRunSavesCall(cfg, es, u, c, now);
    ComingBackExactly(cfg, Run(cfg, es), u, w, c, now, false);
  }

  // ----- The same cleanup in a group -----

  /** Callbacks are only armed for DMs. */
  ghost predicate TimersForDMs(cfg: Config, s: State) {
    forall id <- s.timers :: s.timers[id].channel in cfg.channels && cfg.channels[s.timers[id].channel].isDM
  }

  lemma {:induction false} CleanupArmsDMs(cfg: Config, s: State, u: UserId, order: seq<ChannelId>, v: Voice, late: bool)
    requires TimersForDMs(cfg, s)
    ensures TimersForDMs(cfg, CleanupAll(cfg, s, u, order, v, late))
  {
    if order != [] {
      hide Leave, RosterOf;
      CleanupArmsDMs(cfg, s, u, order[..|order| - 1], v, late);
    }
  }

  lemma NextArmsDMs(cfg: Config, s: State, e: Event)
    requires TimersForDMs(cfg, s)
    ensures TimersForDMs(cfg, Next(cfg, s, e))
  {
    hide CanAccess, JoinIsFull, VideoIsFull, CleanupAll, Join, LeaveAll, Leave, SetMute, Clear, RosterOf;
    if e.CleansUp? {
      CleanupArmsDMs(cfg, s.(cleanups := s.cleanups - multiset{e.user}), e.user, e.order, s.voice, e.late);
    }
  }

  lemma {:induction false} RunArmsDMs(cfg: Config, es: seq<Event>)
    ensures TimersForDMs(cfg, Run(cfg, es))
  {
    if es != [] {
      hide Next, TimersForDMs;
      RunArmsDMs(cfg, es[..|es| - 1]);
      NextArmsDMs(cfg, Run(cfg, es[..|es| - 1]), es[|es| - 1]);
    }
  }

  /** The user neither joins nor leaves anything. */
  predicate StaysPut(es: seq<Event>, u: UserId) {
    forall e <- es :: !((e.Joins? || e.Leaves?) && e.user == u)
  }

  /** The events es, during which u is online and stays put, take u out of channel c. */
  ghost predicate LosesPlace(cfg: Config, s: State, es: seq<Event>, u: UserId, c: ChannelId) {
    && PossibleFrom(cfg, s, es) && StaysOnline(cfg, s, es, u) && StaysPut(es, u)
    && u !in RosterOf(RunFrom(cfg, s, es).voice, c)
  }

  lemma {:induction false} OthersCleanup(cfg: Config, s: State, x: UserId, order: seq<ChannelId>, v: Voice, late: bool,
                                         u: UserId, c: ChannelId)
    requires x != u && u in RosterOf(s.voice, c)
    ensures u in RosterOf(CleanupAll(cfg, s, x, order, v, late).voice, c)
  {
    if order != [] {
      OthersCleanup(cfg, s, x, order[..|order| - 1], v, late, u, c);
    }
  }

  lemma KeepsPlace(cfg: Config, s: State, e: Event, u: UserId, c: ChannelId)
    requires Inv(cfg, s) && Enabled(s, e) && TimersForDMs(cfg, s) && StaysPut([e], u)
    requires c in cfg.channels && !cfg.channels[c].isDM && u in RosterOf(s.voice, c)
    requires u !in s.cleanups && u in Next(cfg, s, e).online
    ensures u in RosterOf(Next(cfg, s, e).voice, c) && u !in Next(cfg, s, e).cleanups
  {
    hide Inv, Lists, CanAccess, JoinIsFull, VideoIsFull, CleanupAll, Join, LeaveAll, OnLeave, OnMute, RosterOf, Clear;
    assert e in [e];
    match e
    case Joins(x, d, now, late) => ListedAfterJoin(s.voice, d, x, now, c, u);
    case Leaves(x, d) => OthersLeave(cfg, s, x, d, u, c);
    case Mutes(x, d, muted, video, sharing) =>
      MuteAndDM(cfg, s, x, d, muted, video, sharing, c);
      MuteOnly(cfg, s, e);
    case CleansUp(x, order, late) =>
      var s0 := s.(cleanups := s.cleanups - multiset{x});
      CleanupTouches(cfg, s0, x, order, s.voice, late);
      OthersCleanup(cfg, s0, x, order, s.voice, late, u, c);
    case Expires(_) => ClearsOrNot(s.voice, c);
    case _ =>
  }

  lemma OthersLeave(cfg: Config, s: State, x: UserId, d: ChannelId, u: UserId, c: ChannelId)
    requires x != u && u in RosterOf(s.voice, c) && c in cfg.channels && !cfg.channels[c].isDM
    ensures var after := OnLeave(cfg, s, x, d); u in RosterOf(after.voice, c) && after.cleanups == s.cleanups
  {}

  lemma MuteOnly(cfg: Config, s: State, e: Event)
    requires e.Mutes?
    ensures Next(cfg, s, e).cleanups == s.cleanups
  {}

  lemma {:induction false} KeepsPlaceOn(cfg: Config, s: State, es: seq<Event>, u: UserId, c: ChannelId)
    requires DMsArePrivate(cfg) && Inv(cfg, s) && TimersForDMs(cfg, s) && u !in s.cleanups
    requires c in cfg.channels && !cfg.channels[c].isDM && u in RosterOf(s.voice, c)
    ensures !LosesPlace(cfg, s, es, u, c)
    decreases |es|
  {
    hide Inv, Next, Enabled, DMsArePrivate, TimersForDMs;
    if es != [] && Enabled(s, es[0]) && StaysOnline(cfg, s, es, u) && StaysPut(es, u) {
      var next := Next(cfg, s, es[0]);
      assert StaysOnline(cfg, next, es[1..], u);
      assert es == [es[0]] + es[1..];
      NextKeepsInv(cfg, s, es[0]);
      NextArmsDMs(cfg, s, es[0]);
      KeepsPlace(cfg, s, es[0], u, c);
      KeepsPlaceOn(cfg, next, es[1..], u, c);
    }
  }

  /** A user who is online, in a group call and stays put can be taken out of it if and only if
      a cleanup of an earlier connection is still queued. */
  lemma GroupPlaceExactly(cfg: Config, s: State, u: UserId, c: ChannelId)
    requires DMsArePrivate(cfg) && Inv(cfg, s) && TimersForDMs(cfg, s) && u in s.online
    requires c in cfg.channels && !cfg.channels[c].isDM && u in RosterOf(s.voice, c)
    ensures (exists es :: LosesPlace(cfg, s, es, u, c)) <==> u in s.cleanups
  {
    hide Inv, DMsArePrivate, TimersForDMs, LosesPlace, Next;
    if u in s.cleanups {
      var clean := CleansUp(u, [c], false);
      QueuedCleanupRuns(cfg, s, u, c, false);
      RunsOne(cfg, s, clean, u);
      TakenOut(cfg, s, clean, u, c);
    } else {
      forall es ensures !LosesPlace(cfg, s, es, u, c) {
        KeepsPlaceOn(cfg, s, es, u, c);
      }
    }
  }

  lemma TakenOut(cfg: Config, s: State, e: Event, u: UserId, c: ChannelId)
    requires PossibleFrom(cfg, s, [e]) && StaysOnline(cfg, s, [e], u) && e.CleansUp?
    requires u !in RosterOf(RunFrom(cfg, s, [e]).voice, c)
    ensures LosesPlace(cfg, s, [e], u, c)
  {
    hide PossibleFrom, StaysOnline, RunFrom, RosterOf;
  }

  // ----- Two runs in which it goes wrong -----

  const PAIR := Config(map[1 := ChannelInfo(true, true, {1, 2})], {}, 0, 0)

  lemma Extend(cfg: Config, es: seq<Event>, e: Event)
    requires Possible(cfg, es) && Enabled(Run(cfg, es), e)
    ensures Possible(cfg, es + [e]) && Run(cfg, es + [e]) == Next(cfg, Run(cfg, es), e)
  {
    hide Enabled, Next;
    assert (es + [e])[..|es|] == es;
  }

  /** No Stop comes too late. */
  predicate NeverLate(es: seq<Event>) {
    forall e <- es :: e.Joins? || e.CleansUp? ==> !e.late
  }

  lemma NeverLateStopsNone(cfg: Config, es: seq<Event>, key: GraceKey)
    requires NeverLate(es)
    ensures forall n :: 0 <= n < |es| ==> !StopsLate(cfg, Run(cfg, es[..n]), es[n], key)
  {
    hide Run;
    forall n | 0 <= n < |es| ensures !StopsLate(cfg, Run(cfg, es[..n]), es[n], key) {
      assert es[n] in es;
    }
  }

  /** Both members are in the call. */
  lemma PairTalks(now: int) returns (es: seq<Event>)
    ensures Possible(PAIR, es) && NeverLate(es)
    ensures var s := Run(PAIR, es);
      && s.online == map[1 := map[0 := false], 2 := map[0 := false]]
      && s.cleanups == multiset{} && s.grace == map[] && s.timers == map[] && s.nextTimer == 0
      && s.voice.channels.Keys == {1} && s.voice.channels[1].Keys == {1, 2}
  {
    hide Run, Possible;
    es := [];
    NoEvents(PAIR);
    Extend(PAIR, es, Connects(1, 0));
    es := es + [Connects(1, 0)];
    assert Run(PAIR, es).online == map[1 := map[0 := false]];
    Extend(PAIR, es, Connects(2, 0));
    es := es + [Connects(2, 0)];
    Extend(PAIR, es, Joins(1, 1, now, false));
    es := es + [Joins(1, 1, now, false)];
    assert Run(PAIR, es).voice.channels.Keys == {1} && Run(PAIR, es).voice.channels[1].Keys == {1};
    Extend(PAIR, es, Joins(2, 1, now, false));
    es := es + [Joins(2, 1, now, false)];
  }

  lemma NoEvents(cfg: Config)
    ensures Possible(cfg, []) && Run(cfg, []) == INITIAL
  {}

  /** The first member drops out of the call, and the cleanup arms the timer. */
  lemma DropArms(s: State)
    requires s.online == map[1 := map[0 := false], 2 := map[0 := false]]
    requires s.cleanups == multiset{} && s.grace == map[] && s.timers == map[] && s.nextTimer == 0
    requires s.voice.channels.Keys == {1} && s.voice.channels[1].Keys == {1, 2}
    ensures var gone := Next(PAIR, s, Disconnects(1, 0));
      && Enabled(gone, CleansUp(1, [1], false))
      && Next(PAIR, gone, CleansUp(1, [1], false)) ==
           State(s.voice, map[2 := map[0 := false]], multiset{},
                 map[GraceKey(1, 1) := 0], map[0 := GraceKey(1, 1)], 1)
  {
    var gone := OnDisconnect(s, 1, 0);
    assert gone.online == map[2 := map[0 := false]];
    assert ChannelsOf(s.voice, 1) == {1};
    assert |RosterOf(gone.voice, 1).Keys| == |{1, 2}| == 2;
    assert |RosterOf(gone.voice, 1)| == 2;
    var s0 := gone.(cleanups := gone.cleanups - multiset{1});
    OneChannel(PAIR, s0, 1, 1, gone.voice, false);
    assert OnCleanup(PAIR, gone, 1, [1], false) == ArmGrace(s0, GraceKey(1, 1), false);
  }

  lemma ComesBackLate(s: State, now: int)
    requires s.online == map[2 := map[0 := false]]
    requires s.grace == map[GraceKey(1, 1) := 0] && s.timers == map[0 := GraceKey(1, 1)]
    requires s.voice.channels.Keys == {1} && s.voice.channels[1].Keys == {1, 2}
    ensures var again := Next(PAIR, s, Connects(1, 1));
      var back := Next(PAIR, again, Joins(1, 1, now, true));
      && Enabled(again, Joins(1, 1, now, true))
      && back.online.Keys == {1, 2} && RosterOf(back.voice, 1).Keys == {1, 2}
      && Enabled(back, Expires(0)) && RosterOf(Next(PAIR, back, Expires(0)).voice, 1) == map[]
  {
    LeaveAllRosters(s.voice, 1, 1);
    hide LeaveAll;
  }

  /** A member of a two-person DM call drops, comes back, and is announced again after the
      timer has fired. The call then ends under both. */
  lemma LateStopLosesCall(now: int) returns (es: seq<Event>)
    ensures Possible(PAIR, es) && Enabled(Run(PAIR, es), Joins(1, 1, now, true))
    ensures var back := Next(PAIR, Run(PAIR, es), Joins(1, 1, now, true));
      && back.online.Keys == {1, 2} && RosterOf(back.voice, 1).Keys == {1, 2}
      && Enabled(back, Expires(0)) && RosterOf(Next(PAIR, back, Expires(0)).voice, 1) == map[]
  {
    es := PairTalks(now);
    DropArms(Run(PAIR, es));
    hide Run, Possible, Next;
    Extend(PAIR, es, Disconnects(1, 0));
    es := es + [Disconnects(1, 0)];
    Extend(PAIR, es, CleansUp(1, [1], false));
    es := es + [CleansUp(1, [1], false)];
    ComesBackLate(Run(PAIR, es), now);
    Extend(PAIR, es, Connects(1, 1));
    es := es + [Connects(1, 1)];
  }

  /** The first member's connection is replaced by another one before its cleanup has run. */
  lemma BackBeforeCleanup(s: State, now: int)
    requires s.online == map[1 := map[0 := false], 2 := map[0 := false]]
    requires s.cleanups == multiset{} && s.grace == map[] && s.timers == map[] && s.nextTimer == 0
    requires s.voice.channels.Keys == {1} && s.voice.channels[1].Keys == {1, 2}
    ensures var gone := Next(PAIR, s, Disconnects(1, 0));
      var again := Next(PAIR, gone, Connects(1, 1));
      var back := Next(PAIR, again, Joins(1, 1, now, false));
      && Enabled(again, Joins(1, 1, now, false))
      && back.online.Keys == {1, 2} && RosterOf(back.voice, 1).Keys == {1, 2}
      && back.cleanups == multiset{1} && back.timers == map[]
  {
    LeaveAllRosters(s.voice, 1, 1);
    hide LeaveAll;
    var gone := OnDisconnect(s, 1, 0);
    assert gone.online == map[2 := map[0 := false]];
    assert gone.cleanups == multiset{1};
  }

  /** Without any late Stop: a member of a two-person DM call drops, comes back and is announced
      again before the cleanup of the dropped connection has run. No callback is left then, but
      the cleanup arms one, and the call ends under both. */
  lemma QueuedCleanupLosesCall(now: int) returns (es: seq<Event>, id: TimerId)
    ensures Possible(PAIR, es) && NeverLate(es)
    ensures forall n :: 0 <= n < |es| ==> !StopsLate(PAIR, Run(PAIR, es[..n]), es[n], GraceKey(1, 1))
    ensures es != [] && es[|es| - 1] == Joins(1, 1, now, false)
    ensures var back := Run(PAIR, es);
      && back.online.Keys == {1, 2} && RosterOf(back.voice, 1).Keys == {1, 2} && !Pending(back, GraceKey(1, 1))
      && EndsCall(PAIR, back, [CleansUp(1, [1], false)], id, GraceKey(1, 1))
  {
    hide Run, Possible, Next, EndsCall, StopsLate, Pending, RosterOf;
    es := PairReannounces(now);
    NeverLateStopsNone(PAIR, es, GraceKey(1, 1));
    id := CleanupThenEnds(es);
  }

  lemma PairReannounces(now: int) returns (es: seq<Event>)
    ensures Possible(PAIR, es) && NeverLate(es) && es != [] && es[|es| - 1] == Joins(1, 1, now, false)
    ensures var back := Run(PAIR, es);
      && back.online.Keys == {1, 2} && RosterOf(back.voice, 1).Keys == {1, 2} && !Pending(back, GraceKey(1, 1))
      && 1 in back.cleanups
  {
    es := PairTalks(now);
    BackBeforeCleanup(Run(PAIR, es), now);
    hide Run, Possible, Next, RosterOf;
    Extend(PAIR, es, Disconnects(1, 0));
    es := es + [Disconnects(1, 0)];
    Extend(PAIR, es, Connects(1, 1));
    es := es + [Connects(1, 1)];
    Extend(PAIR, es, Joins(1, 1, now, false));
    es := es + [Joins(1, 1, now, false)];
  }

  lemma CleanupThenEnds(es: seq<Event>) returns (id: TimerId)
    requires Possible(PAIR, es)
    requires var back := Run(PAIR, es); 1 in back.online && 1 in back.cleanups && RosterOf(back.voice, 1).Keys == {1, 2}
    ensures EndsCall(PAIR, Run(PAIR, es), [CleansUp(1, [1], false)], id, GraceKey(1, 1))
  {
    var back, clean := Run(PAIR, es), CleansUp(1, [1], false);
    RunKeepsInv(PAIR, es);
    hide Inv, Run, Possible, Next, Enabled, RosterOf;
    assert |RosterOf(back.voice, 1)| == |RosterOf(back.voice, 1).Keys| == |{1, 2}| == 2;
    QueuedCleanupRuns(PAIR, back, 1, 1, false);
    RunsOne(PAIR, back, clean, 1);
    id := Next(PAIR, back, clean).grace[GraceKey(1, 1)];
    ExpireClears(PAIR, Next(PAIR, back, clean), id);
  }
}
