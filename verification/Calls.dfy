/** Voice calls as internal/httpapi/ws_dispatch.go runs them: joins, leaves, mutes, dropped
    connections and the reconnection grace timers of DM calls. Each handler is one step. */
module Calls {
  import opened VoiceState
  import opened Presence

  datatype ChannelInfo = ChannelInfo(isPrivate: bool, isDM: bool, members: set<UserId>)

  /** What the store and the configuration say; a cap of 0 or less means no cap. */
  datatype Config =
    Config(channels: map<ChannelId, ChannelInfo>, admins: set<UserId>, maxAudio: int, maxVideo: int)

  /** DMs are created private (internal/store/store_channels.go:134-137). */
  ghost predicate DMsArePrivate(cfg: Config) {
    forall c <- cfg.channels :: cfg.channels[c].isDM ==> cfg.channels[c].isPrivate
  }

  datatype GraceKey = GraceKey(channel: ChannelId, user: UserId)
  type TimerId = nat

  /** `grace` is the table of pending teardowns. `timers` holds every callback that may still
      run: a timer whose Stop came too late stays there although no longer in the table.
      `cleanups` are the users whose last connection dropped and whose cleanup has not run. */
  datatype State = State(
    voice: Voice,
    online: Online,
    cleanups: multiset<UserId>,
    grace: map<GraceKey, TimerId>,
    timers: map<TimerId, GraceKey>,
    nextTimer: TimerId)

  const INITIAL := State(EMPTY_VOICE, map[], multiset{}, map[], map[], 0)

  /** `channelVisibleTo`, with the public fast path. */
  predicate CanAccess(cfg: Config, c: ChannelId, u: UserId)
    requires c in cfg.channels
  {
    var ch := cfg.channels[c];
    !ch.isPrivate || u in ch.members || (!ch.isDM && u in cfg.admins)
  }

  // ----- Handlers -----

  /** `cancelDMTeardown`; `late` says that Stop found the callback already started. */
  function CancelGrace(s: State, key: GraceKey, late: bool): State {
    if key !in s.grace then s
    else s.(grace := s.grace - {key}, timers := if late then s.timers else s.timers - {s.grace[key]})
  }

  /** `scheduleDMTeardown`: arm, or re-arm. */
  function ArmGrace(s: State, key: GraceKey, late: bool): State {
    var stopped := if key in s.grace && !late then s.timers - {s.grace[key]} else s.timers;
    s.(grace := s.grace[key := s.nextTimer], timers := stopped[s.nextTimer := key], nextTimer := s.nextTimer + 1)
  }

  function OnConnect(s: State, u: UserId, client: ClientId): State {
    s.(online := Added(s.online, u, client))
  }

  function OnDisconnect(s: State, u: UserId, client: ClientId): State {
    var online := Dropped(s.online, u, client);
    s.(online := online,
       cleanups := if u in s.online && u !in online then s.cleanups + multiset{u} else s.cleanups)
  }

  predicate JoinIsFull(cfg: Config, v: Voice, c: ChannelId, u: UserId)
    requires c in cfg.channels
  {
    !cfg.channels[c].isDM && cfg.maxAudio > 0 && |RosterOf(v, c).Keys - {u}| >= cfg.maxAudio
  }

  /** voice.join. */
  function OnJoin(cfg: Config, s: State, u: UserId, c: ChannelId, now: int, late: bool): State {
    if c == 0 || c !in cfg.channels || !CanAccess(cfg, c, u) then s
    else
      var s1 := CancelGrace(s, GraceKey(c, u), late);
      if JoinIsFull(cfg, s.voice, c, u) then s1
      else s1.(voice := Join(LeaveAll(s.voice, u), c, u, now))
  }

  /** voice.leave. */
  function OnLeave(cfg: Config, s: State, u: UserId, c: ChannelId): State {
    if c == 0 || c !in cfg.channels then s
    else if cfg.channels[c].isDM then s.(voice := Clear(s.voice, c))
    else s.(voice := Leave(s.voice, c, u))
  }

  predicate VideoIsFull(cfg: Config, v: Voice, c: ChannelId, u: UserId)
    requires c in cfg.channels
  {
    !cfg.channels[c].isDM && cfg.maxVideo > 0 && |CamerasOn(RosterOf(v, c)) - {u}| >= cfg.maxVideo
  }

  /** voice.mute. */
  function OnMute(cfg: Config, s: State, u: UserId, c: ChannelId, muted: bool, videoMuted: bool, sharing: bool): State {
    if c == 0 || c !in cfg.channels || !CanAccess(cfg, c, u) then s
    else
      var off := videoMuted || VideoIsFull(cfg, s.voice, c, u);
      s.(voice := SetMute(s.voice, c, u, muted, off, !off && sharing))
  }

  /** The grace callback. It forgets the table entry by key, whichever timer that names. */
  function OnExpire(s: State, id: TimerId): State
    requires id in s.timers
  {
    var key := s.timers[id];
    s.(grace := s.grace - {key},
       timers := s.timers - {id},
       voice := if key.user in RosterOf(s.voice, key.channel) then Clear(s.voice, key.channel) else s.voice)
  }

  /** `cleanupVoiceForUser` on one channel of the snapshot `v` it starts from. */
  function CleanupOne(cfg: Config, s: State, u: UserId, c: ChannelId, v: Voice, late: bool): State {
    if c !in cfg.channels then s
    else if cfg.channels[c].isDM && |RosterOf(v, c)| > 1 then ArmGrace(s, GraceKey(c, u), late)
    else s.(voice := Leave(s.voice, c, u))
  }

  /** ... and on all of them, in the order the map happens to be walked. */
  function CleanupAll(cfg: Config, s: State, u: UserId, order: seq<ChannelId>, v: Voice, late: bool): State {
    if order == [] then s
    else CleanupOne(cfg, CleanupAll(cfg, s, u, order[..|order| - 1], v, late), u, order[|order| - 1], v, late)
  }

  function OnCleanup(cfg: Config, s: State, u: UserId, order: seq<ChannelId>, late: bool): State {
    CleanupAll(cfg, s.(cleanups := s.cleanups - multiset{u}), u, order, s.voice, late)
  }

  // ----- Events -----

  datatype Event =
    | Connects(user: UserId, client: ClientId)
    | Disconnects(user: UserId, client: ClientId)
    | Joins(user: UserId, channel: ChannelId, now: int, late: bool)
    | Leaves(user: UserId, channel: ChannelId)
    | Mutes(user: UserId, channel: ChannelId, muted: bool, videoMuted: bool, sharing: bool)
    | CleansUp(user: UserId, order: seq<ChannelId>, late: bool)
    | Expires(timer: TimerId)

  /** `order` walks the set once, in some order. */
  ghost predicate Lists(order: seq<ChannelId>, channels: set<ChannelId>) {
    && (forall c :: c in order <==> c in channels)
    && (forall i, j :: 0 <= i < j < |order| ==> order[i] != order[j])
  }

  /** Client frames are handled on a live connection's own goroutine, so their sender is
      online; cleanups and callbacks run only if queued. */
  ghost predicate Enabled(s: State, e: Event) {
    match e
    case Joins(u, _, _, _) => u in s.online
    case Leaves(u, _) => u in s.online
    case Mutes(u, _, _, _, _) => u in s.online
    case CleansUp(u, order, _) => u in s.cleanups && Lists(order, ChannelsOf(s.voice, u))
    case Expires(id) => id in s.timers
    case _ => true
  }

  function Next(cfg: Config, s: State, e: Event): State {
    match e
    case Connects(u, client) => OnConnect(s, u, client)
    case Disconnects(u, client) => OnDisconnect(s, u, client)
    case Joins(u, c, now, late) => OnJoin(cfg, s, u, c, now, late)
    case Leaves(u, c) => OnLeave(cfg, s, u, c)
    case Mutes(u, c, m, v, sh) => OnMute(cfg, s, u, c, m, v, sh)
    case CleansUp(u, order, late) => OnCleanup(cfg, s, u, order, late)
    case Expires(id) => if id in s.timers then OnExpire(s, id) else s
  }

  // ----- The invariant -----

  ghost predicate RosterOk(cfg: Config, c: ChannelId, r: Roster) {
    && r != map[] && c in cfg.channels && Keyed(r)
    && (forall u <- r :: r[u].sharing ==> !r[u].videoMuted)
    && var ch := cfg.channels[c];
       && (ch.isDM ==> r.Keys <= ch.members)
       && (ch.isPrivate && !ch.isDM ==> r.Keys <= ch.members + cfg.admins)
       && (!ch.isDM && cfg.maxAudio > 0 ==> |r| <= cfg.maxAudio)
       && (!ch.isDM && cfg.maxVideo > 0 ==> |CamerasOn(r)| <= cfg.maxVideo)
  }

  ghost predicate OneRosterEach(v: Voice) {
    forall c, d, u {:trigger u in v.channels[c], u in v.channels[d]} ::
      c in v.channels && d in v.channels && u in v.channels[c] && u in v.channels[d] ==> c == d
  }

  ghost predicate VoiceOk(cfg: Config, v: Voice) {
    (forall c <- v.channels :: RosterOk(cfg, c, v.channels[c])) && OneRosterEach(v)
  }

  /** Someone will look after u's place in channel c: u itself, a queued cleanup, or a timer. */
  ghost predicate LookedAfter(cfg: Config, s: State, c: ChannelId, u: UserId) {
    || u in s.online
    || u in s.cleanups
    || (c in cfg.channels && cfg.channels[c].isDM && GraceKey(c, u) in s.grace)
  }

  ghost predicate NobodyForgotten(cfg: Config, s: State) {
    forall c, u {:trigger u in s.voice.channels[c]} ::
      c in s.voice.channels && u in s.voice.channels[c] ==> LookedAfter(cfg, s, c, u)
  }

  ghost predicate TimersOk(s: State) {
    && (forall id <- s.timers :: id < s.nextTimer)
    && (forall k <- s.grace :: s.grace[k] in s.timers && s.timers[s.grace[k]] == k)
  }

  ghost predicate Inv(cfg: Config, s: State) {
    VoiceOk(cfg, s.voice) && NoEmptyEntry(s.online) && NobodyForgotten(cfg, s) && TimersOk(s)
  }

  // ----- What one roster change keeps -----

  lemma ShrinkKeepsOk(cfg: Config, c: ChannelId, r: Roster, u: UserId)
    requires RosterOk(cfg, c, r) && r - {u} != map[]
    ensures RosterOk(cfg, c, r - {u})
  {
    var q := r - {u};
    assert q.Keys <= r.Keys && CamerasOn(q) <= CamerasOn(r);
    Fewer(q.Keys, r.Keys);
    Fewer(CamerasOn(q), CamerasOn(r));
  }

  lemma Fewer<T>(a: set<T>, b: set<T>)
    requires a <= b
    ensures |a| <= |b|
  {
    assert b == a + (b - a);
  }

  lemma JoinKeepsOk(cfg: Config, c: ChannelId, r: Roster, u: UserId, now: int)
    requires c in cfg.channels && (r == map[] || RosterOk(cfg, c, r)) && u !in r
    requires cfg.channels[c].isDM ==> u in cfg.channels[c].members
    requires cfg.channels[c].isPrivate && !cfg.channels[c].isDM ==> u in cfg.channels[c].members + cfg.admins
    requires !cfg.channels[c].isDM && cfg.maxAudio > 0 ==> |r| < cfg.maxAudio
    ensures RosterOk(cfg, c, Joined(r, u, now))
  {
    var q := Joined(r, u, now);
    assert u in q && q.Keys == r.Keys + {u};
    assert CamerasOn(q) == CamerasOn(r);
  }

  lemma FlagKeepsOk(cfg: Config, c: ChannelId, r: Roster, u: UserId, muted: bool, off: bool, sharing: bool)
    requires RosterOk(cfg, c, r) && (sharing ==> !off)
    requires !off && !cfg.channels[c].isDM && cfg.maxVideo > 0 ==> |CamerasOn(r) - {u}| < cfg.maxVideo
    ensures RosterOk(cfg, c, Flagged(r, u, muted, off, sharing))
  {
    if u in r {
      var q := Flagged(r, u, muted, off, sharing);
      assert q.Keys == r.Keys && |q| == |q.Keys|;
      if off {
        assert CamerasOn(q) <= CamerasOn(r);
        Fewer(CamerasOn(q), CamerasOn(r));
      } else {
        assert CamerasOn(q) == (CamerasOn(r) - {u}) + {u};
      }
    }
  }

  // ----- What one mutation keeps -----

  lemma ClearKeepsOk(cfg: Config, v: Voice, c: ChannelId)
    requires VoiceOk(cfg, v)
    ensures VoiceOk(cfg, Clear(v, c))
  {
    hide RosterOk;
  }

  lemma LeaveKeepsOk(cfg: Config, v: Voice, c: ChannelId, u: UserId)
    requires VoiceOk(cfg, v)
    ensures VoiceOk(cfg, Leave(v, c, u))
  {
    if c in v.channels && v.channels[c] - {u} != map[] {
      ShrinkKeepsOk(cfg, c, v.channels[c], u);
    }
    hide RosterOk;
  }

  lemma LeaveAllKeepsOk(cfg: Config, v: Voice, u: UserId)
    requires VoiceOk(cfg, v)
    ensures VoiceOk(cfg, LeaveAll(v, u))
    ensures forall c <- LeaveAll(v, u).channels :: u !in LeaveAll(v, u).channels[c]
  {
    var after := LeaveAll(v, u);
    forall c | c in after.channels ensures RosterOk(cfg, c, after.channels[c]) {
      if u in v.channels[c] {
        ShrinkKeepsOk(cfg, c, v.channels[c], u);
      } else {
        assert v.channels[c] - {u} == v.channels[c];
      }
    }
    hide RosterOk;
  }

  /** Joining, for a user who is in no roster. */
  lemma JoinsFresh(cfg: Config, v: Voice, c: ChannelId, u: UserId, now: int)
    requires VoiceOk(cfg, v) && forall d <- v.channels :: u !in v.channels[d]
    requires RosterOk(cfg, c, Joined(RosterOf(v, c), u, now))
    ensures VoiceOk(cfg, Join(v, c, u, now))
  {
    hide RosterOk;
    var after := Join(v, c, u, now);
    assert after.channels[c].Keys == RosterOf(v, c).Keys + {u};
    assert forall d <- after.channels :: d != c ==> after.channels[d] == v.channels[d];
  }

  lemma JoinAfterLeaveKeepsOk(cfg: Config, v: Voice, c: ChannelId, u: UserId, now: int)
    requires VoiceOk(cfg, v) && DMsArePrivate(cfg)
    requires c in cfg.channels && CanAccess(cfg, c, u) && !JoinIsFull(cfg, v, c, u)
    ensures VoiceOk(cfg, Join(LeaveAll(v, u), c, u, now))
  {
    hide LeaveAll, RosterOk;
    LeaveAllKeepsOk(cfg, v, u);
    LeaveAllRosters(v, u, c);
    var left := LeaveAll(v, u);
    var r := RosterOf(left, c);
    assert r.Keys == RosterOf(v, c).Keys - {u} && |r| == |r.Keys|;
    assert r == map[] || RosterOk(cfg, c, r);
    JoinKeepsOk(cfg, c, r, u, now);
    JoinsFresh(cfg, left, c, u, now);
  }

  /** Who is listed after a join: the joiner in that channel, and whoever was listed before. */
  lemma ListedAfterJoin(v: Voice, c: ChannelId, u: UserId, now: int, d: ChannelId, x: UserId)
    ensures x in RosterOf(Join(LeaveAll(v, u), c, u, now), d)
        <==> (d == c && x == u) || (x != u && x in RosterOf(v, d))
  {
    hide LeaveAll;
    LeaveAllRosters(v, u, d);
  }

  lemma MuteKeepsOk(cfg: Config, v: Voice, c: ChannelId, u: UserId, muted: bool, off: bool, sharing: bool)
    requires VoiceOk(cfg, v) && c in cfg.channels
    requires sharing ==> !off
    requires !off ==> !VideoIsFull(cfg, v, c, u)
    ensures VoiceOk(cfg, SetMute(v, c, u, muted, off, sharing))
  {
    hide RosterOk, Flagged;
    if c in v.channels {
      assert RosterOk(cfg, c, v.channels[c]);
      FlagKeepsOk(cfg, c, v.channels[c], u, muted, off, sharing);
      FlagKeepsKeys(v.channels[c], u, muted, off, sharing);
    }
  }

  lemma FlagKeepsKeys(r: Roster, u: UserId, muted: bool, off: bool, sharing: bool)
    ensures Flagged(r, u, muted, off, sharing).Keys == r.Keys
  {}

  // ----- What every step keeps -----

  /** Nobody is newly listed. */
  ghost predicate NoNewcomers(v: Voice, w: Voice) {
    forall c <- w.channels :: c in v.channels && w.channels[c].Keys <= v.channels[c].Keys
  }

  lemma CancelKeepsInv(cfg: Config, s: State, u: UserId, c: ChannelId, late: bool)
    requires Inv(cfg, s) && u in s.online
    ensures Inv(cfg, CancelGrace(s, GraceKey(c, u), late))
  {
    hide VoiceOk, NoEmptyEntry;
    var after := CancelGrace(s, GraceKey(c, u), late);
    forall d, x {:trigger x in s.voice.channels[d]} | d in s.voice.channels && x in s.voice.channels[d]
      ensures LookedAfter(cfg, after, d, x)
    {
      assert LookedAfter(cfg, s, d, x);
    }
    forall k | k in after.grace ensures after.grace[k] in after.timers && after.timers[after.grace[k]] == k {
      assert k in s.grace && s.timers[s.grace[k]] == k;
    }
  }

  lemma EnterKeepsInv(cfg: Config, s: State, u: UserId, c: ChannelId, now: int)
    requires Inv(cfg, s) && DMsArePrivate(cfg) && u in s.online
    requires c in cfg.channels && CanAccess(cfg, c, u) && !JoinIsFull(cfg, s.voice, c, u)
    ensures Inv(cfg, s.(voice := Join(LeaveAll(s.voice, u), c, u, now)))
  {
    hide VoiceOk, LeaveAll, Join, CanAccess, JoinIsFull, NoEmptyEntry, TimersOk, DMsArePrivate;
    var after := s.(voice := Join(LeaveAll(s.voice, u), c, u, now));
    JoinAfterLeaveKeepsOk(cfg, s.voice, c, u, now);
    forall d, x {:trigger x in after.voice.channels[d]} | d in after.voice.channels && x in after.voice.channels[d]
      ensures LookedAfter(cfg, after, d, x)
    {
      assert x in RosterOf(after.voice, d);
      ListedAfterJoin(s.voice, c, u, now, d, x);
      if x != u {
        assert x in s.voice.channels[d] && LookedAfter(cfg, s, d, x);
      }
    }
    SameTable(s, after);
  }

  lemma SameTable(s: State, after: State)
    requires after.timers == s.timers && after.grace == s.grace && after.nextTimer == s.nextTimer
    ensures TimersOk(s) ==> TimersOk(after)
  {}

  lemma JoinKeepsInv(cfg: Config, s: State, u: UserId, c: ChannelId, now: int, late: bool)
    requires Inv(cfg, s) && DMsArePrivate(cfg) && u in s.online
    ensures Inv(cfg, OnJoin(cfg, s, u, c, now, late))
  {
    hide Inv, LeaveAll, Join, CanAccess, JoinIsFull, DMsArePrivate;
    CancelKeepsInv(cfg, s, u, c, late);
    var s1 := CancelGrace(s, GraceKey(c, u), late);
    if c != 0 && c in cfg.channels && CanAccess(cfg, c, u) && !JoinIsFull(cfg, s.voice, c, u) {
      EnterKeepsInv(cfg, s1, u, c, now);
    }
  }

  lemma LeaveKeepsInv(cfg: Config, s: State, u: UserId, c: ChannelId)
    requires Inv(cfg, s)
    ensures Inv(cfg, OnLeave(cfg, s, u, c))
  {
    hide RosterOk;
    ClearKeepsOk(cfg, s.voice, c);
    LeaveKeepsOk(cfg, s.voice, c, u);
  }

  lemma MuteKeepsInv(cfg: Config, s: State, u: UserId, c: ChannelId, muted: bool, videoMuted: bool, sharing: bool)
    requires Inv(cfg, s)
    ensures Inv(cfg, OnMute(cfg, s, u, c, muted, videoMuted, sharing))
  {
    hide VoiceOk, NoEmptyEntry, VideoIsFull, CanAccess;
    var after := OnMute(cfg, s, u, c, muted, videoMuted, sharing);
    if c != 0 && c in cfg.channels && CanAccess(cfg, c, u) {
      var off := videoMuted || VideoIsFull(cfg, s.voice, c, u);
      MuteKeepsOk(cfg, s.voice, c, u, muted, off, !off && sharing);
      forall d, x {:trigger x in after.voice.channels[d]} | d in after.voice.channels && x in after.voice.channels[d]
        ensures LookedAfter(cfg, after, d, x)
      {
        assert d in s.voice.channels && x in s.voice.channels[d];
        assert LookedAfter(cfg, s, d, x);
      }
    }
  }

  lemma ExpireKeepsInv(cfg: Config, s: State, id: TimerId)
    requires Inv(cfg, s) && id in s.timers
    ensures Inv(cfg, OnExpire(s, id))
  {
    hide RosterOk;
    var key := s.timers[id];
    ClearKeepsOk(cfg, s.voice, key.channel);
    var after := OnExpire(s, id);
    forall k | k in after.grace ensures after.grace[k] in after.timers && after.timers[after.grace[k]] == k {
      assert k in s.grace && s.timers[s.grace[k]] == k;
    }
  }

  lemma ConnectKeepsInv(cfg: Config, s: State, u: UserId, client: ClientId)
    requires Inv(cfg, s)
    ensures Inv(cfg, OnConnect(s, u, client))
    ensures Inv(cfg, OnDisconnect(s, u, client))
  {
    hide VoiceOk;
    StepKeepsEntries(s.online, Connect(u, client));
    StepKeepsEntries(s.online, Disconnect(u, client));
    var after := OnDisconnect(s, u, client);
    forall c, x {:trigger x in s.voice.channels[c]} | c in s.voice.channels && x in s.voice.channels[c]
      ensures LookedAfter(cfg, after, c, x)
    {
      assert LookedAfter(cfg, s, c, x);
    }
  }

  /** While u's cleanup runs: everyone else is looked after, and so is u wherever the walk
      has already been. */
  ghost predicate CleaningUp(cfg: Config, s: State, u: UserId, v: Voice, done: seq<ChannelId>) {
    && VoiceOk(cfg, s.voice) && NoEmptyEntry(s.online) && TimersOk(s) && NoNewcomers(v, s.voice)
    && (forall c, x {:trigger x in s.voice.channels[c]} ::
          c in s.voice.channels && x in s.voice.channels[c] && (x != u || c in done) ==> LookedAfter(cfg, s, c, x))
  }

  lemma ArmKeepsTimers(s: State, key: GraceKey, late: bool)
    requires TimersOk(s)
    ensures TimersOk(ArmGrace(s, key, late))
  {
    var after := ArmGrace(s, key, late);
    forall k | k in after.grace ensures after.grace[k] in after.timers && after.timers[after.grace[k]] == k {
      if k != key { assert s.timers[s.grace[k]] == k; }
    }
  }

  lemma CleanupOneKeeps(cfg: Config, s: State, u: UserId, c: ChannelId, v: Voice, late: bool, done: seq<ChannelId>)
    requires CleaningUp(cfg, s, u, v, done)
    ensures CleaningUp(cfg, CleanupOne(cfg, s, u, c, v, late), u, v, done + [c])
  {
    hide RosterOk, NoEmptyEntry, OneRosterEach;
    var after := CleanupOne(cfg, s, u, c, v, late);
    if c in cfg.channels {
      ArmKeepsTimers(s, GraceKey(c, u), late);
      LeaveKeepsOk(cfg, s.voice, c, u);
    }
    forall d, x {:trigger x in after.voice.channels[d]}
      | d in after.voice.channels && x in after.voice.channels[d] && (x != u || d in done + [c])
      ensures LookedAfter(cfg, after, d, x)
    {
      assert d in s.voice.channels && x in s.voice.channels[d];
      if x == u && d == c {
        assert c in cfg.channels by { InConfig(cfg, s.voice, c); }
      } else {
        assert LookedAfter(cfg, s, d, x);
      }
    }
  }

  lemma InConfig(cfg: Config, v: Voice, c: ChannelId)
    requires VoiceOk(cfg, v) && c in v.channels
    ensures c in cfg.channels
  {
    assert RosterOk(cfg, c, v.channels[c]);
  }

  lemma {:induction false} CleanupAllKeeps(cfg: Config, s: State, u: UserId, order: seq<ChannelId>, v: Voice,
                                           late: bool)
    requires CleaningUp(cfg, s, u, v, [])
    ensures CleaningUp(cfg, CleanupAll(cfg, s, u, order, v, late), u, v, order)
  {
    hide CleaningUp, CleanupOne;
    if order != [] {
      var init, c := order[..|order| - 1], order[|order| - 1];
      CleanupAllKeeps(cfg, s, u, init, v, late);
      CleanupOneKeeps(cfg, CleanupAll(cfg, s, u, init, v, late), u, c, v, late, init);
      assert init + [c] == order;
    }
  }

  lemma CleanupKeepsInv(cfg: Config, s: State, u: UserId, order: seq<ChannelId>, late: bool)
    requires Inv(cfg, s) && u in s.cleanups && Lists(order, ChannelsOf(s.voice, u))
    ensures Inv(cfg, OnCleanup(cfg, s, u, order, late))
  {
    hide RosterOk;
    var s0 := s.(cleanups := s.cleanups - multiset{u});
    assert CleaningUp(cfg, s0, u, s.voice, []) by {
      forall c, x {:trigger x in s.voice.channels[c]} | c in s.voice.channels && x in s.voice.channels[c] && x != u
        ensures LookedAfter(cfg, s0, c, x)
      {
        assert LookedAfter(cfg, s, c, x);
      }
    }
    CleanupAllKeeps(cfg, s0, u, order, s.voice, late);
    var after := OnCleanup(cfg, s, u, order, late);
    forall c, x {:trigger x in after.voice.channels[c]} | c in after.voice.channels && x in after.voice.channels[c]
      ensures LookedAfter(cfg, after, c, x)
    {
      assert c in s.voice.channels && x in s.voice.channels[c];
      if x == u { assert c in ChannelsOf(s.voice, u); }
    }
  }

  lemma NextKeepsInv(cfg: Config, s: State, e: Event)
    requires DMsArePrivate(cfg) && Inv(cfg, s) && Enabled(s, e)
    ensures Inv(cfg, Next(cfg, s, e))
  {
    hide Inv, OnJoin, OnLeave, OnMute, OnExpire, OnCleanup, OnConnect, OnDisconnect, ChannelsOf, Lists;
    match e
    case Connects(u, client) => ConnectKeepsInv(cfg, s, u, client);
    case Disconnects(u, client) => ConnectKeepsInv(cfg, s, u, client);
    case Joins(u, c, now, late) => JoinKeepsInv(cfg, s, u, c, now, late);
    case Leaves(u, c) => LeaveKeepsInv(cfg, s, u, c);
    case Mutes(u, c, m, v, sh) => MuteKeepsInv(cfg, s, u, c, m, v, sh);
    case CleansUp(u, order, late) => CleanupKeepsInv(cfg, s, u, order, late);
    case Expires(id) => ExpireKeepsInv(cfg, s, id);
  }

  // ----- Whole runs -----

  function Run(cfg: Config, es: seq<Event>): State {
    if es == [] then INITIAL else Next(cfg, Run(cfg, es[..|es| - 1]), es[|es| - 1])
  }

  ghost predicate Possible(cfg: Config, es: seq<Event>) {
    es == [] || (Possible(cfg, es[..|es| - 1]) && Enabled(Run(cfg, es[..|es| - 1]), es[|es| - 1]))
  }

  lemma {:induction false} RunKeepsInv(cfg: Config, es: seq<Event>)
    requires DMsArePrivate(cfg) && Possible(cfg, es)
    ensures Inv(cfg, Run(cfg, es))
  {
    hide Next, Enabled, Inv;
    if es == [] {
      InitialInv(cfg);
    } else {
      RunKeepsInv(cfg, es[..|es| - 1]);
      NextKeepsInv(cfg, Run(cfg, es[..|es| - 1]), es[|es| - 1]);
    }
  }

  lemma InitialInv(cfg: Config)
    ensures Inv(cfg, INITIAL)
  {}

  /** Call invariants, after any run of handlers: nobody is in two rosters; no empty roster is
      stored; a group never exceeds its positive caps on people and on cameras; a DM call has
      only members of the DM, a private group only its members and admins; whoever shares has
      video on. */
  lemma CallInvariants(cfg: Config, es: seq<Event>, c: ChannelId)
    requires DMsArePrivate(cfg) && Possible(cfg, es) && c in Run(cfg, es).voice.channels
    ensures var v := Run(cfg, es).voice;
      var r := v.channels[c];
      && c in cfg.channels && r != map[]
      && (forall u <- r :: r[u].userId == u && (r[u].sharing ==> !r[u].videoMuted) && ChannelsOf(v, u) == {c})
      && (cfg.channels[c].isDM ==> r.Keys <= cfg.channels[c].members)
      && (cfg.channels[c].isPrivate && !cfg.channels[c].isDM ==> r.Keys <= cfg.channels[c].members + cfg.admins)
      && (!cfg.channels[c].isDM && cfg.maxAudio > 0 ==> |r| <= cfg.maxAudio)
      && (!cfg.channels[c].isDM && cfg.maxVideo > 0 ==> |CamerasOn(r)| <= cfg.maxVideo)
  {
    RunKeepsInv(cfg, es);
    var v := Run(cfg, es).voice;
    assert RosterOk(cfg, c, v.channels[c]);
    forall u | u in v.channels[c] ensures ChannelsOf(v, u) == {c} {
      forall d ensures d in ChannelsOf(v, u) <==> d in {c} {}
    }
  }

  lemma GraceHasTimer(s: State, k: GraceKey)
    requires TimersOk(s) && k in s.grace
    ensures s.timers != map[]
  {
    assert s.grace[k] in s.timers;
  }

  lemma NoTimersNoGrace(s: State)
    requires TimersOk(s) && s.timers == map[]
    ensures forall k :: k !in s.grace
  {
    forall k ensures k !in s.grace {
      if k in s.grace { GraceHasTimer(s, k); }
    }
  }

  /** Disconnect safety: after any run, once no cleanup is queued and no callback is left,
      everyone listed in any roster holds a live connection. */
  lemma DrainedMeansConnected(cfg: Config, es: seq<Event>, c: ChannelId, u: UserId)
    requires DMsArePrivate(cfg) && Possible(cfg, es)
    requires Run(cfg, es).cleanups == multiset{} && Run(cfg, es).timers == map[]
    requires u in RosterOf(Run(cfg, es).voice, c)
    ensures u in Run(cfg, es).online
  {
    RunKeepsInv(cfg, es);
    var s := Run(cfg, es);
    assert u in s.voice.channels[c];
    assert LookedAfter(cfg, s, c, u);
    NoTimersNoGrace(s);
  }

  /** Draining always ends: run the queued cleanups, then the callbacks, until none is left.
      The state reached satisfies the invariant, so only connected users are listed in it. */
  lemma {:induction false} DrainEnds(cfg: Config, s: State) returns (es: seq<Event>, end: State)
    requires DMsArePrivate(cfg) && Inv(cfg, s)
    ensures forall e <- es :: e.CleansUp? || e.Expires?
    ensures end == RunFrom(cfg, s, es) && PossibleFrom(cfg, s, es)
    ensures end.online == s.online && end.cleanups == multiset{} && end.timers == map[]
    ensures forall c, u :: u in RosterOf(end.voice, c) ==> u in s.online
    decreases |s.cleanups|, |s.timers|
  {
    if s.cleanups != multiset{} {
      var u := SomeElement(s.cleanups);
      var order := Listing(ChannelsOf(s.voice, u));
      var e := CleansUp(u, order, false);
      NextKeepsInv(cfg, s, e);
      CleanupTouches(cfg, s.(cleanups := s.cleanups - multiset{u}), u, order, s.voice, false);
      var more;
      more, end := DrainEnds(cfg, Next(cfg, s, e));
      es := [e] + more;
      assert es[1..] == more;
    } else if s.timers != map[] {
      var id :| id in s.timers;
      var e := Expires(id);
      NextKeepsInv(cfg, s, e);
      assert Next(cfg, s, e).timers.Keys == s.timers.Keys - {id};
      var more;
      more, end := DrainEnds(cfg, Next(cfg, s, e));
      es := [e] + more;
      assert es[1..] == more;
    } else {
      es, end := [], s;
      forall c, u | u in RosterOf(s.voice, c) ensures u in s.online {
        assert u in s.voice.channels[c] && LookedAfter(cfg, s, c, u);
        NoTimersNoGrace(s);
      }
    }
  }

  lemma SomeElement<T>(m: multiset<T>) returns (x: T)
    requires m != multiset{}
    ensures x in m
  {
    x :| x in m;
  }

  lemma SomeMember<T>(m: set<T>) returns (x: T)
    requires m != {}
    ensures x in m
  {
    x :| x in m;
  }

  function RunFrom(cfg: Config, s: State, es: seq<Event>): State
    decreases |es|
  {
    if es == [] then s else RunFrom(cfg, Next(cfg, s, es[0]), es[1..])
  }

  ghost predicate PossibleFrom(cfg: Config, s: State, es: seq<Event>)
    decreases |es|
  {
    es == [] || (Enabled(s, es[0]) && PossibleFrom(cfg, Next(cfg, s, es[0]), es[1..]))
  }

  lemma {:induction false} Listing(channels: set<ChannelId>) returns (order: seq<ChannelId>)
    ensures Lists(order, channels)
    decreases |channels|
  {
    if channels == {} {
      order := [];
    } else {
      var c := SomeMember(channels);
      var more := Listing(channels - {c});
      order := [c] + more;
    }
  }

  lemma {:induction false} CleanupTouches(cfg: Config, s: State, u: UserId, order: seq<ChannelId>, v: Voice, late: bool)
    ensures var after := CleanupAll(cfg, s, u, order, v, late);
      after.online == s.online && after.cleanups == s.cleanups
  {
    if order != [] {
      CleanupTouches(cfg, s, u, order[..|order| - 1], v, late);
    }
  }

  // ----- DM calls -----

  /** A DM call of two or more either keeps everyone or ends for everyone, in every step but
      one: a member who joins another channel is taken out, and the other stays on alone. */
  lemma DMCallEndsForAll(cfg: Config, s: State, e: Event, c: ChannelId)
    requires DMsArePrivate(cfg) && Inv(cfg, s) && Enabled(s, e)
    requires c in cfg.channels && cfg.channels[c].isDM && |RosterOf(s.voice, c)| >= 2
    ensures var before, after := RosterOf(s.voice, c).Keys, RosterOf(Next(cfg, s, e).voice, c).Keys;
      if JoinsElsewhere(cfg, s, e, c) then after == before - {e.user}
      else before <= after || after == {}
  {
    hide Inv, Enabled, Join, LeaveAll, RosterOf, JoinIsFull, VideoIsFull, CleanupAll;
    match e
    case Connects(_, _) =>
    case Disconnects(_, _) =>
    case Joins(u, d, now, late) => JoinAndDM(cfg, s, u, d, now, late, c);
    case Leaves(u, d) => LeaveAndDM(cfg, s, u, d, c);
    case Mutes(u, d, muted, video, sharing) => MuteAndDM(cfg, s, u, d, muted, video, sharing, c);
    case CleansUp(u, order, late) =>
      CleanupSparesDM(cfg, s.(cleanups := s.cleanups - multiset{u}), u, order, s.voice, late, c);
    case Expires(_) => ClearsOrNot(s.voice, c);
  }

  lemma JoinAndDM(cfg: Config, s: State, u: UserId, d: ChannelId, now: int, late: bool, c: ChannelId)
    requires c in cfg.channels && cfg.channels[c].isDM
    ensures var before, after := RosterOf(s.voice, c).Keys, RosterOf(OnJoin(cfg, s, u, d, now, late).voice, c).Keys;
      if JoinsElsewhere(cfg, s, Joins(u, d, now, late), c) then after == before - {u} else before <= after
  {
    hide Join, LeaveAll, JoinIsFull, RosterOf;
    if d != 0 && d in cfg.channels && CanAccess(cfg, d, u) && !JoinIsFull(cfg, s.voice, d, u) {
      forall x
        ensures x in RosterOf(OnJoin(cfg, s, u, d, now, late).voice, c)
          <==> (c == d && x == u) || (x != u && x in RosterOf(s.voice, c))
      {
        ListedAfterJoin(s.voice, d, u, now, c, x);
      }
    }
  }

  lemma LeaveAndDM(cfg: Config, s: State, u: UserId, d: ChannelId, c: ChannelId)
    requires c in cfg.channels && cfg.channels[c].isDM
    ensures var after := RosterOf(OnLeave(cfg, s, u, d).voice, c);
      after == RosterOf(s.voice, c) || after == map[]
  {}

  lemma MuteAndDM(cfg: Config, s: State, u: UserId, d: ChannelId, muted: bool, video: bool, sharing: bool, c: ChannelId)
    ensures RosterOf(OnMute(cfg, s, u, d, muted, video, sharing).voice, c).Keys == RosterOf(s.voice, c).Keys
  {
    hide VideoIsFull;
  }

  lemma ClearsOrNot(v: Voice, c: ChannelId)
    ensures forall d :: RosterOf(Clear(v, d), c) == if d == c then map[] else RosterOf(v, c)
  {}

  /** An admitted join to another channel by someone in the call. */
  ghost predicate JoinsElsewhere(cfg: Config, s: State, e: Event, c: ChannelId) {
    && e.Joins? && e.user in RosterOf(s.voice, c) && e.channel != c
    && e.channel != 0 && e.channel in cfg.channels && CanAccess(cfg, e.channel, e.user)
    && !JoinIsFull(cfg, s.voice, e.channel, e.user)
  }

  lemma {:induction false} CleanupSparesDM(cfg: Config, s: State, u: UserId, order: seq<ChannelId>, v: Voice,
                                           late: bool, c: ChannelId)
    requires c in cfg.channels && cfg.channels[c].isDM && |RosterOf(v, c)| > 1
    ensures RosterOf(CleanupAll(cfg, s, u, order, v, late).voice, c) == RosterOf(s.voice, c)
  {
    if order != [] {
      CleanupSparesDM(cfg, s, u, order[..|order| - 1], v, late, c);
    }
  }
}
