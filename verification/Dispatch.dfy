/** The server side of voice calls and rings, as internal/httpapi/ws_dispatch.go writes it:
    handlers that read and update the hub, the grace table and the ring table. */
module Dispatch {
  import opened VoiceState
  import opened Presence
  import opened Hubs
  import opened Calls
  import opened Announcing
  import E = Effects
  import R = Rings

  class Server {
    const cfg: Config
    const hub: Hub
    var voiceGraceTimers: map<GraceKey, TimerId>
    var rings: map<ChannelId, R.Ring>
    /** The runtime's view: callbacks that may still run. */
    var graceCallbacks: map<TimerId, GraceKey>
    var ringCallbacks: map<nat, R.Callback>
    var nextTimer: TimerId
    var nextRing: nat
    /** Users whose last connection dropped and whose cleanup has not run yet. */
    var cleanups: multiset<UserId>
    /** What went out: voice.state broadcasts, and voice.end per user and channel. */
    var outbox: seq<Frame>
    var ends: seq<(UserId, ChannelId)>

    ghost function State(): Calls.State
      reads this, hub
    {
      Calls.State.State(hub.State(), hub.byUser, cleanups, voiceGraceTimers, graceCallbacks, nextTimer)
    }

    ghost function RingState(): R.RingState
      reads this
    {
      R.RingState(rings, ringCallbacks, nextRing)
    }

    ghost predicate Valid()
      reads this, hub
    {
      hub.Valid()
    }

    constructor (cfg: Config)
      ensures Valid() && this.cfg == cfg && fresh(hub)
      ensures State() == Calls.INITIAL && RingState() == R.NO_RINGS && outbox == [] && ends == []
    {
      this.cfg := cfg;
      hub := new Hub();
      voiceGraceTimers, graceCallbacks, nextTimer := map[], map[], 0;
      rings, ringCallbacks, nextRing := map[], map[], 0;
      cleanups, outbox, ends := multiset{}, [], [];
    }

    // ----- Connections -----

    method Connected(u: UserId, client: ClientId)
      requires Valid()
      modifies hub
      ensures Valid() && State() == OnConnect(old(State()), u, client)
    {
      var first, changed := hub.Add(u, client);
    }

    /** The end of `Serve`: the last connection's end queues the voice cleanup. */
    method Disconnected(u: UserId, client: ClientId)
      requires Valid()
      modifies this`cleanups, hub
      ensures Valid() && State() == OnDisconnect(old(State()), u, client)
    {
      var last, changed := hub.Remove(u, client);
      if last { cleanups := cleanups + multiset{u}; }
    }

    // ----- Grace timers -----

    /** `cancelDMTeardown`. */
    method CancelDMTeardown(c: ChannelId, u: UserId, late: bool)
      requires Valid()
      modifies this`voiceGraceTimers, this`graceCallbacks
      ensures Valid() && State() == CancelGrace(old(State()), GraceKey(c, u), late)
    {
      var key := GraceKey(c, u);
      if key in voiceGraceTimers {
        if !late { graceCallbacks := graceCallbacks - {voiceGraceTimers[key]}; }
        voiceGraceTimers := voiceGraceTimers - {key};
      }
    }

    /** `scheduleDMTeardown`. */
    method ScheduleDMTeardown(c: ChannelId, u: UserId, late: bool)
      requires Valid()
      modifies this`voiceGraceTimers, this`graceCallbacks, this`nextTimer
      ensures Valid() && State() == ArmGrace(old(State()), GraceKey(c, u), late)
    {
      var key := GraceKey(c, u);
      if key in voiceGraceTimers && !late {
        graceCallbacks := graceCallbacks - {voiceGraceTimers[key]};
      }
      graceCallbacks := graceCallbacks[nextTimer := key];
      voiceGraceTimers := voiceGraceTimers[key := nextTimer];
      nextTimer := nextTimer + 1;
    }

    /** The callback `scheduleDMTeardown` arms. */
    method GraceExpired(id: TimerId)
      requires Valid() && id in graceCallbacks
      modifies this, hub
      ensures Valid() && State() == OnExpire(old(State()), id) && RingState() == old(RingState())
      ensures old(ends) <= ends
      ensures var key, before := old(graceCallbacks)[id], old(State()).voice;
        var listed := key.user in RosterOf(before, key.channel);
        && outbox == (if listed then old(outbox) + [Frame(key.channel, [], State().voice.stamp)] else old(outbox))
        && forall x :: x in ends[|old(ends)|..] <==>
             listed && x.1 == key.channel && x.0 != key.user && x.0 in RosterOf(before, key.channel)
    {
      var key := graceCallbacks[id];
      graceCallbacks := graceCallbacks - {id};
      voiceGraceTimers := voiceGraceTimers - {key};
      var listed := hub.VoiceHasUser(key.channel, key.user);
      if listed { EndDMVoiceCall(key.channel, key.user); }
    }

    /** `endDMVoiceCall`: everyone but the leaver is told, and an empty roster broadcast. */
    method EndDMVoiceCall(c: ChannelId, leaver: UserId)
      requires Valid()
      modifies this`outbox, this`ends, hub`voiceChannels, hub`voiceSeq
      ensures Valid() && State() == old(State()).(voice := Clear(old(State()).voice, c))
      ensures outbox == old(outbox) + [Frame(c, [], State().voice.stamp)]
      ensures old(ends) <= ends
      ensures forall x :: x in ends[|old(ends)|..] <==>
        x.1 == c && x.0 != leaver && x.0 in RosterOf(old(State()).voice, c)
    {
      var ids, stamp := hub.VoiceClear(c);
      var told: seq<(UserId, ChannelId)> := [];
      for k := 0 to |ids|
        invariant forall x :: x in told <==> x.1 == c && x.0 != leaver && x.0 in ids[..k]
        modifies {}
      {
        assert ids[..k + 1] == ids[..k] + [ids[k]];
        if ids[k] != leaver { told := told + [(ids[k], c)]; }
      }
      assert ids[..|ids|] == ids;
      ends := ends + told;
      assert ends[|old(ends)|..] == told;
      outbox := outbox + [Frame(c, [], stamp)];
    }

    /** The channel is left, rather than its call given a grace period. */
    predicate LeftBehind(c: ChannelId, v: Voice) {
      c in cfg.channels && !(cfg.channels[c].isDM && |RosterOf(v, c)| > 1)
    }

    /** Those of `order` that the cleanup leaves. */
    function Gone(order: seq<ChannelId>, v: Voice): seq<ChannelId> {
      if order == [] then []
      else
        var gone, c := Gone(order[..|order| - 1], v), order[|order| - 1];
        if LeftBehind(c, v) then gone + [c] else gone
    }

    /** `cleanupVoiceForUser`: the order is whatever the map iteration gives. Each channel that
        is left gets one broadcast, in that order, under the stamp of its own change. */
    method CleanupVoiceForUser(u: UserId, late: bool) returns (ghost order: seq<ChannelId>)
      requires Valid()
      modifies this`cleanups, this`voiceGraceTimers, this`graceCallbacks, this`nextTimer, this`outbox,
               hub`voiceChannels, hub`voiceSeq
      ensures Lists(order, ChannelsOf(old(State()).voice, u))
      ensures Valid() && State() == OnCleanup(cfg, old(State()), u, order, late)
      ensures old(outbox) <= outbox
      ensures var v := old(State()).voice; EachAnnounced(v, State().voice, outbox[|old(outbox)|..], Gone(order, v))
    {
      hide EachAnnounced, IsBroadcast, IsSnapshot, CleanupOne, CleanupAll, RosterOf, ChannelsOf;
      hide LeftBehind, Gone, Lists;
      ghost var v := hub.State();
      cleanups := cleanups - multiset{u};
      var snapshot := hub.VoiceChannelsForUser(u);
      var left := snapshot.Keys;
      order := [];
      ghost var s0 := State();
      CleanupNone(s0, u, v, late);
      NothingWalked(left);
      NothingToTell(v, outbox[|old(outbox)|..]);
      while left != {}
        invariant left <= snapshot.Keys && Lists(order, snapshot.Keys - left)
        invariant Valid() && State() == CleanupAll(cfg, s0, u, order, v, late)
        invariant old(outbox) <= outbox
        invariant EachAnnounced(v, State().voice, outbox[|old(outbox)|..], Gone(order, v))
        decreases |left|
      {
        var c := Pick(left);
        WalkOn(order, snapshot.Keys, left, c);
        left := left - {c};
        CleanupNext(u, c, snapshot[c], late, order, s0, v, old(outbox));
        order := order + [c];
      }
      assert snapshot.Keys - left == snapshot.Keys;
    }

    lemma WalkOn(order: seq<ChannelId>, all: set<ChannelId>, left: set<ChannelId>, c: ChannelId)
      requires left <= all && c in left && Lists(order, all - left)
      ensures c !in order && Lists(order + [c], all - (left - {c}))
    {}

    lemma NothingWalked(all: set<ChannelId>)
      ensures Lists([], all - all)
    {}

    /** So `Announcing.LeavesAreSteps` speaks of it: what it does to the rosters is one leave
        for each of those channels. */
    lemma {:induction false} CleanupLeavesEach(s: Calls.State, u: UserId, order: seq<ChannelId>, v: Voice, late: bool)
      ensures CleanupAll(cfg, s, u, order, v, late).voice == LeaveEach(s.voice, u, Gone(order, v))
    {
      if order != [] {
        var init, c := order[..|order| - 1], order[|order| - 1];
        CleanupLeavesEach(s, u, init, v, late);
        if LeftBehind(c, v) { assert (Gone(init, v) + [c])[..|Gone(init, v)|] == Gone(init, v); }
      }
    }

    /** That loop's body: one more channel, after those of `order`. */
    method CleanupNext(u: UserId, c: ChannelId, participants: seq<Participant>, late: bool,
                       ghost order: seq<ChannelId>, ghost s0: Calls.State, ghost v: Voice, ghost start: seq<Frame>)
      requires Valid() && IsSnapshot(participants, RosterOf(v, c)) && c !in order
      requires State() == CleanupAll(cfg, s0, u, order, v, late) && start <= outbox
      requires EachAnnounced(v, State().voice, outbox[|start|..], Gone(order, v))
      modifies this`voiceGraceTimers, this`graceCallbacks, this`nextTimer, this`outbox, hub`voiceChannels, hub`voiceSeq
      ensures Valid() && State() == CleanupAll(cfg, s0, u, order + [c], v, late) && start <= outbox
      ensures EachAnnounced(v, State().voice, outbox[|start|..], Gone(order + [c], v))
    {
      hide EachAnnounced, IsBroadcast, IsSnapshot, CleanupOne, CleanupAll, RosterOf, LeftBehind, Gone;
      CleanupMore(s0, u, order, c, v, late);
      ghost var mid, sent := State().voice, outbox;
      CleanupChannel(u, c, participants, v, late);
      GoneIn(order, v, c);
      if LeftBehind(c, v) {
        ghost var f := outbox[|sent|];
        Appended(start, sent, outbox, f);
        TellMore(v, mid, State().voice, c, sent[|start|..], f, Gone(order, v));
      }
    }

    lemma CleanupNone(s: Calls.State, u: UserId, v: Voice, late: bool)
      ensures CleanupAll(cfg, s, u, [], v, late) == s
    {}

    lemma Appended(before: seq<Frame>, sent: seq<Frame>, all: seq<Frame>, f: Frame)
      requires before <= sent <= all && |all| == |sent| + 1 && all[|sent|] == f
      ensures before <= all && all[|before|..] == sent[|before|..] + [f]
    {}

    lemma NothingToTell(v: Voice, frames: seq<Frame>)
      requires frames == []
      ensures EachAnnounced(v, v, frames, Gone([], v))
    {}

    lemma {:induction false} GoneIn(order: seq<ChannelId>, v: Voice, c: ChannelId)
      ensures Gone(order + [c], v) == if LeftBehind(c, v) then Gone(order, v) + [c] else Gone(order, v)
      ensures c !in order ==> c !in Gone(order, v)
    {
      assert (order + [c])[..|order|] == order;
      if order != [] {
        var last := order[|order| - 1];
        assert order == order[..|order| - 1] + [last];
        GoneIn(order[..|order| - 1], v, c);
        GoneIn(order[..|order| - 1], v, last);
      }
    }

    lemma TellMore(before: Voice, mid: Voice, after: Voice, c: ChannelId, sent: seq<Frame>, f: Frame,
                   gone: seq<ChannelId>)
      requires EachAnnounced(before, mid, sent, gone) && IsBroadcast(after, c, f) && c !in gone
      requires after.stamp == mid.stamp + 1 && forall d :: d != c ==> RosterOf(after, d) == RosterOf(mid, d)
      ensures EachAnnounced(before, after, sent + [f], gone + [c])
    {
      hide IsSnapshot;
      forall k | 0 <= k < |gone| ensures IsSnapshot((sent + [f])[k].list, RosterOf(after, gone[k])) {
        assert gone[k] in gone;
      }
      forall d | d !in gone + [c] ensures RosterOf(after, d) == RosterOf(before, d) {
        assert c in gone + [c] && d !in gone;
      }
    }

    lemma CleanupMore(s: Calls.State, u: UserId, order: seq<ChannelId>, c: ChannelId, v: Voice, late: bool)
      ensures CleanupAll(cfg, s, u, order + [c], v, late)
           == CleanupOne(cfg, CleanupAll(cfg, s, u, order, v, late), u, c, v, late)
    {
      assert (order + [c])[..|order|] == order;
    }

    /** The body of that loop, on one channel. */
    method CleanupChannel(u: UserId, c: ChannelId, participants: seq<Participant>, ghost v: Voice, late: bool)
      requires Valid() && IsSnapshot(participants, RosterOf(v, c))
      modifies this`voiceGraceTimers, this`graceCallbacks, this`nextTimer, this`outbox, hub`voiceChannels, hub`voiceSeq
      ensures Valid() && State() == CleanupOne(cfg, old(State()), u, c, v, late)
      ensures forall d :: d != c ==> RosterOf(State().voice, d) == RosterOf(old(State()).voice, d)
      ensures !LeftBehind(c, v) ==> State().voice == old(State()).voice && outbox == old(outbox)
      ensures LeftBehind(c, v) ==>
        && State().voice.stamp == old(State()).voice.stamp + 1
        && |outbox| == |old(outbox)| + 1 && old(outbox) <= outbox
        && IsBroadcast(State().voice, c, outbox[|old(outbox)|])
    {
      if c !in cfg.channels { return; }
      if cfg.channels[c].isDM && |participants| > 1 {
        ScheduleDMTeardown(c, u, late);
        return;
      }
      hide IsSnapshot, Leave;
      LeaveElsewhere(hub.State(), c, u);
      var remaining, stamp := hub.VoiceLeave(c, u);
      outbox := outbox + [Frame(c, remaining, stamp)];
    }

    // ----- voice.join, voice.leave, voice.mute -----

    method HandleJoin(u: UserId, c: ChannelId, now: int, late: bool) returns (deniedFull: bool)
      requires Valid()
      modifies this`voiceGraceTimers, this`graceCallbacks, this`outbox, hub`voiceChannels, hub`voiceSeq
      ensures Valid() && State() == OnJoin(cfg, old(State()), u, c, now, late)
      ensures E.JoinStored(cfg, old(State()).voice, State().voice, u, c, now)
      ensures old(outbox) <= outbox
      ensures State().voice == old(State()).voice ==> outbox == old(outbox)
      ensures State().voice != old(State()).voice ==>
        JoinAnnounced(old(State()).voice, State().voice, outbox[|old(outbox)|..], u, c)
      ensures deniedFull <==>
        c != 0 && c in cfg.channels && CanAccess(cfg, c, u) && JoinIsFull(cfg, old(State()).voice, c, u)
    {
      hide LeaveAll, Join, IsSnapshot, CanAccess, E.JoinStored;
      E.JoinStores(cfg, State(), u, c, now, late);
      if c == 0 { return false; }
      if c !in cfg.channels || !CanAccess(cfg, c, u) { return false; }
      ghost var before := hub.State();
      CancelDMTeardown(c, u, late);
      if !cfg.channels[c].isDM && cfg.maxAudio > 0 {
        var total, _ := hub.VoiceCounts(c, u);
        if total >= cfg.maxAudio { return true; }
      }
      LeaveThenJoin(u, c, now);
      return false;
    }

    /** One broadcast per channel the user was taken out of, except the one being joined. */
    method FramesFor(leftAll: map<ChannelId, seq<Participant>>, c: ChannelId, stamp: nat) returns (frames: seq<Frame>)
      ensures forall f <- frames ::
        f.channel in leftAll && f.channel != c && f == Frame(f.channel, leftAll[f.channel], stamp)
      ensures ChannelsIn(frames) == leftAll.Keys - {c} && OneEach(frames)
    {
      var left := leftAll.Keys;
      frames := [];
      while left != {}
        invariant left <= leftAll.Keys
        invariant forall f <- frames ::
          f.channel in leftAll && f.channel != c && f == Frame(f.channel, leftAll[f.channel], stamp)
        invariant ChannelsIn(frames) == leftAll.Keys - left - {c} && OneEach(frames)
        decreases |left|
      {
        var d := Pick(left);
        left := left - {d};
        if d == c { continue; }
        ChannelsInPush(frames, Frame(d, leftAll[d], stamp));
        frames := frames + [Frame(d, leftAll[d], stamp)];
      }
    }

    lemma ChannelsInPush(frames: seq<Frame>, f: Frame)
      ensures ChannelsIn(frames + [f]) == ChannelsIn(frames) + {f.channel}
      ensures OneEach(frames) && f.channel !in ChannelsIn(frames) ==> OneEach(frames + [f])
    {
      assert f in frames + [f];
      assert forall k :: 0 <= k < |frames| ==> frames[k] in frames;
      assert forall g :: g in frames + [f] <==> g in frames || g == f;
      assert forall d :: d in ChannelsIn(frames + [f]) <==> d in ChannelsIn(frames) || d == f.channel;
    }

    /** The admitted half of voice.join: `VoiceLeaveAll`, its broadcasts, `VoiceJoin`, its broadcast. */
    method LeaveThenJoin(u: UserId, c: ChannelId, now: int)
      requires Valid()
      modifies this`outbox, hub`voiceChannels, hub`voiceSeq
      ensures Valid() && hub.State() == Join(LeaveAll(old(hub.State()), u), c, u, now)
      ensures hub.State().stamp == old(hub.State()).stamp + 2
      ensures old(outbox) <= outbox
      ensures JoinAnnounced(old(hub.State()), hub.State(), outbox[|old(outbox)|..], u, c)
    {
      hide LeaveAll, IsSnapshot, ChannelsIn, OneEach;
      ghost var before := hub.State();
      StampsOf(before, c, u, now);
      var leftAll, leftStamp := hub.VoiceLeaveAll(u);
      ghost var middle := hub.State();
      var sent := FramesFor(leftAll, c, leftStamp);
      var participants, stamp := hub.VoiceJoin(c, u, now);
      JoinElsewhere(middle, c, u, now);
      var frames := sent + [Frame(c, participants, stamp)];
      assert frames[..|frames| - 1] == sent;
      outbox := outbox + frames;
      assert outbox[|old(outbox)|..] == frames;
    }

    lemma StampsOf(v: Voice, c: ChannelId, u: UserId, now: int)
      ensures LeaveAll(v, u).stamp == v.stamp + 1
    {}

    lemma JoinElsewhere(v: Voice, c: ChannelId, u: UserId, now: int)
      ensures forall d :: d != c ==> RosterOf(Join(v, c, u, now), d) == RosterOf(v, d)
    {}

    method HandleLeave(u: UserId, c: ChannelId)
      requires Valid()
      modifies this`outbox, this`ends, hub`voiceChannels, hub`voiceSeq
      ensures Valid() && State() == OnLeave(cfg, old(State()), u, c)
      ensures E.LeaveStored(cfg, old(State()).voice, State().voice, u, c)
      ensures old(outbox) <= outbox && old(ends) <= ends
      ensures if State().voice == old(State()).voice then outbox == old(outbox)
        else |outbox| == |old(outbox)| + 1 && IsBroadcast(State().voice, c, outbox[|old(outbox)|])
      ensures forall x :: x in ends[|old(ends)|..] <==>
        c != 0 && c in cfg.channels && cfg.channels[c].isDM
        && x.1 == c && x.0 != u && x.0 in RosterOf(old(State()).voice, c)
    {
      hide E.LeaveStored;
      E.LeaveStores(cfg, State(), u, c);
      if c == 0 { return; }
      if c !in cfg.channels { return; }
      if cfg.channels[c].isDM {
        EndDMVoiceCall(c, u);
        Nobody();
        return;
      }
      var participants, stamp := hub.VoiceLeave(c, u);
      outbox := outbox + [Frame(c, participants, stamp)];
    }

    method HandleMute(u: UserId, c: ChannelId, muted: bool, videoMuted: bool, sharing: bool) returns (deniedVideo: bool)
      requires Valid()
      modifies this`outbox, hub`voiceChannels, hub`voiceSeq
      ensures Valid() && State() == OnMute(cfg, old(State()), u, c, muted, videoMuted, sharing)
      ensures E.MuteStored(cfg, old(State()).voice, State().voice, u, c, muted, videoMuted, sharing)
      ensures old(outbox) <= outbox
      ensures if State().voice == old(State()).voice then outbox == old(outbox)
        else |outbox| == |old(outbox)| + 1 && IsBroadcast(State().voice, c, outbox[|old(outbox)|])
      ensures deniedVideo <==> c != 0 && c in cfg.channels && CanAccess(cfg, c, u)
                               && !videoMuted && VideoIsFull(cfg, old(State()).voice, c, u)
    {
      hide E.MuteStored;
      E.MuteStores(cfg, State(), u, c, muted, videoMuted, sharing);
      if c == 0 { return false; }
      if c !in cfg.channels || !CanAccess(cfg, c, u) { return false; }
      var off, share := videoMuted, sharing;
      deniedVideo := false;
      if !cfg.channels[c].isDM && !off && cfg.maxVideo > 0 {
        var _, videoOn := hub.VoiceCounts(c, u);
        if videoOn >= cfg.maxVideo { off, deniedVideo := true, true; }
      }
      if off { share := false; }
      var participants, stamp := hub.VoiceSetMute(c, u, muted, off, share);
      outbox := outbox + [Frame(c, participants, stamp)];
    }

    // ----- Rings -----

    /** The callee is told, and only the callee. */
    method HandleRing(u: UserId, dm: ChannelId, late: bool) returns (told: seq<R.Note>)
      modifies this`rings, this`ringCallbacks, this`nextRing
      ensures RingState() == R.OnRing(cfg, old(RingState()), u, dm, late)
      ensures match R.OtherMember(cfg, dm, u)
        case Refused => told == []
        case Other(callee) => told == [R.Ringing(callee, u)]
    {
      var target := R.OtherMember(cfg, dm, u);
      if target.Refused? { return []; }
      if dm in rings && !late { ringCallbacks := ringCallbacks - {rings[dm].id}; }
      var ring := R.Ring(nextRing, u, target.user);
      ringCallbacks := ringCallbacks[nextRing := R.Callback(dm, ring)];
      rings := rings[dm := ring];
      nextRing := nextRing + 1;
      return [R.Ringing(target.user, u)];
    }

    /** The answer goes to the other member, whether or not anything was ringing, and the
        responder's own connections are told to stop. */
    method HandleRingResponse(u: UserId, dm: ChannelId, late: bool) returns (told: seq<R.Note>)
      modifies this`rings, this`ringCallbacks
      ensures RingState() == R.OnResponse(cfg, old(RingState()), u, dm, late)
      ensures match R.OtherMember(cfg, dm, u)
        case Refused => told == []
        case Other(other) => told == [R.Answered(other, u), R.Dismissed(u)]
    {
      var target := R.OtherMember(cfg, dm, u);
      if target.Refused? { return []; }
      if dm in rings {
        if !late { ringCallbacks := ringCallbacks - {rings[dm].id}; }
        rings := rings - {dm};
      }
      return [R.Answered(target.user, u), R.Dismissed(u)];
    }

    method RingTimedOut(id: nat) returns (told: seq<UserId>)
      requires id in ringCallbacks
      modifies this`rings, this`ringCallbacks
      ensures RingState() == R.OnTimeout(old(RingState()), id) && told == R.TimeoutTold(old(RingState()), id)
    {
      var cb := ringCallbacks[id];
      ringCallbacks := ringCallbacks - {id};
      if cb.dm in rings && rings[cb.dm] == cb.ring { rings := rings - {cb.dm}; }
      told := [cb.ring.caller, cb.ring.callee];
    }

    /** `pendingRingFrames`: a fresh socket is shown exactly the rings pending for its user. */
    method PendingRingFrames(u: UserId) returns (frames: seq<R.RingFrame>)
      ensures forall f :: f in frames <==> f.dm in rings && rings[f.dm].callee == u && rings[f.dm].caller == f.caller
      ensures forall i, j :: 0 <= i < j < |frames| ==> frames[i].dm != frames[j].dm
    {
      frames := [];
      var left := rings.Keys;
      while left != {}
        invariant left <= rings.Keys
        invariant forall f :: f in frames <==>
          f.dm in rings.Keys - left && rings[f.dm].callee == u && rings[f.dm].caller == f.caller
        invariant forall i, j :: 0 <= i < j < |frames| ==> frames[i].dm != frames[j].dm
        decreases |left|
      {
        var dm := Pick(left);
        left := left - {dm};
        if rings[dm].callee != u { continue; }
        frames := frames + [R.RingFrame(dm, rings[dm].caller)];
      }
    }
  }
}
