/** What voice.join, voice.leave and voice.mute store, entry by entry and field by field, and
    from that where a listed user's flags come from over a whole run. */
module Effects {
  import opened VoiceState
  import opened Calls

  // ----- One handler -----

  /** The channel exists and u may use it: a public one, one of u's own, or, for an admin, any
      group. */
  ghost predicate Open(cfg: Config, c: ChannelId, u: UserId) {
    && c != 0 && c in cfg.channels
    && var ch := cfg.channels[c];
       || !ch.isPrivate
       || u in ch.members
       || (u in cfg.admins && !ch.isDM)
  }

  /** Rosters of channels other than c are as they were. */
  ghost predicate OnlyAt(c: ChannelId, before: Voice, after: Voice) {
    forall d :: d != c ==> RosterOf(after, d) == RosterOf(before, d)
  }

  /** c is a DM, has no cap, or holds fewer others than its cap allows. */
  ghost predicate HasRoom(cfg: Config, v: Voice, u: UserId, c: ChannelId)
    requires c in cfg.channels
  {
    cfg.channels[c].isDM || cfg.maxAudio <= 0 || |set x | x in RosterOf(v, c) && x != u| < cfg.maxAudio
  }

  /** An admitted join lists the joiner as a fresh entry, unmuted and without video, and in no
      other channel; a group that is full of others admits nobody. */
  ghost predicate JoinStored(cfg: Config, before: Voice, after: Voice, u: UserId, c: ChannelId, now: int) {
    var r := RosterOf(before, c);
    if Open(cfg, c, u) && HasRoom(cfg, before, u, c) then
      && RosterOf(after, c) == r[u := Participant(u, now, false, true, false)]
      && (forall d :: d != c ==> RosterOf(after, d) == RosterOf(before, d) - {u})
      && after.stamp == before.stamp + 2
    else after == before
  }

  /** Hanging up ends a DM call for everyone; in a group only the leaver goes. */
  ghost predicate LeaveStored(cfg: Config, before: Voice, after: Voice, u: UserId, c: ChannelId) {
    if c != 0 && c in cfg.channels then
      && RosterOf(after, c) == (if cfg.channels[c].isDM then map[] else RosterOf(before, c) - {u})
      && OnlyAt(c, before, after)
      && after.stamp == before.stamp + 1
    else after == before
  }

  /** The sender's video is off because it was asked for, or because as many others as the cap
      of the group allows have a camera on. */
  ghost predicate VideoOff(cfg: Config, v: Voice, u: UserId, c: ChannelId, videoMuted: bool)
    requires c in cfg.channels
  {
    var r := RosterOf(v, c);
    || videoMuted
    || (!cfg.channels[c].isDM && 0 < cfg.maxVideo <= |set x | x in r && x != u && !r[x].videoMuted|)
  }

  /** The sender's entry, if there is one, takes the flags as asked, but for video that is off
      and then drops the share too; id and join time stay, and so does every other entry. */
  ghost predicate MuteStored(cfg: Config, before: Voice, after: Voice, u: UserId, c: ChannelId,
                             muted: bool, videoMuted: bool, sharing: bool)
  {
    var r := RosterOf(before, c);
    if Open(cfg, c, u) then
      var off := VideoOff(cfg, before, u, c, videoMuted);
      && RosterOf(after, c) ==
           (if u in r then r[u := Participant(r[u].userId, r[u].joinedAt, muted, off, sharing && !off)] else r)
      && OnlyAt(c, before, after)
      && after.stamp == before.stamp + 1
    else after == before
  }

  lemma JoinRosters(v: Voice, c: ChannelId, u: UserId, now: int)
    ensures var after := Join(LeaveAll(v, u), c, u, now);
      && RosterOf(after, c) == RosterOf(v, c)[u := Participant(u, now, false, true, false)]
      && (forall d :: d != c ==> RosterOf(after, d) == RosterOf(v, d) - {u})
      && after.stamp == v.stamp + 2
  {
    var left := LeaveAll(v, u);
    var after := Join(left, c, u, now);
    forall d ensures RosterOf(left, d) == RosterOf(v, d) - {u} {
      LeaveAllRosters(v, u, d);
    }
    assert left.stamp == v.stamp + 1;
    hide LeaveAll;
    assert RosterOf(after, c) == RosterOf(v, c)[u := Participant(u, now, false, true, false)];
  }

  lemma RoomIs(cfg: Config, v: Voice, u: UserId, c: ChannelId)
    requires c in cfg.channels
    ensures HasRoom(cfg, v, u, c) <==> !JoinIsFull(cfg, v, c, u)
  {
    var r := RosterOf(v, c);
    assert (set x | x in r && x != u) == r.Keys - {u};
  }

  lemma JoinStores(cfg: Config, s: State, u: UserId, c: ChannelId, now: int, late: bool)
    ensures JoinStored(cfg, s.voice, OnJoin(cfg, s, u, c, now, late).voice, u, c, now)
  {
    hide HasRoom, JoinIsFull, Join, LeaveAll;
    if Open(cfg, c, u) { RoomIs(cfg, s.voice, u, c); }
    JoinRosters(s.voice, c, u, now);
  }

  lemma LeaveRosters(v: Voice, c: ChannelId, u: UserId)
    ensures var after := Leave(v, c, u);
      RosterOf(after, c) == RosterOf(v, c) - {u} && OnlyAt(c, v, after) && after.stamp == v.stamp + 1
  {}

  lemma ClearRosters(v: Voice, c: ChannelId)
    ensures var after := Clear(v, c);
      RosterOf(after, c) == map[] && OnlyAt(c, v, after) && after.stamp == v.stamp + 1
  {}

  lemma LeaveStores(cfg: Config, s: State, u: UserId, c: ChannelId)
    ensures LeaveStored(cfg, s.voice, OnLeave(cfg, s, u, c).voice, u, c)
  {
    hide Leave, Clear, RosterOf, OnlyAt;
    LeaveRosters(s.voice, c, u);
    ClearRosters(s.voice, c);
  }

  lemma VideoIsOff(cfg: Config, v: Voice, u: UserId, c: ChannelId, videoMuted: bool)
    requires c in cfg.channels
    ensures VideoOff(cfg, v, u, c, videoMuted) <==> videoMuted || VideoIsFull(cfg, v, c, u)
  {
    var r := RosterOf(v, c);
    assert (set x | x in r && x != u && !r[x].videoMuted) == CamerasOn(r) - {u};
  }

  /** The flags of one entry. */
  lemma FlagsSet(v: Voice, c: ChannelId, u: UserId, muted: bool, off: bool, sharing: bool)
    ensures var r, after := RosterOf(v, c), SetMute(v, c, u, muted, off, sharing);
      && RosterOf(after, c) ==
           (if u in r then r[u := Participant(r[u].userId, r[u].joinedAt, muted, off, sharing)] else r)
      && OnlyAt(c, v, after)
      && after.stamp == v.stamp + 1
  {}

  lemma MuteStores(cfg: Config, s: State, u: UserId, c: ChannelId, muted: bool, videoMuted: bool, sharing: bool)
    ensures MuteStored(cfg, s.voice, OnMute(cfg, s, u, c, muted, videoMuted, sharing).voice,
                       u, c, muted, videoMuted, sharing)
  {
    hide VideoOff, VideoIsFull, SetMute, OnlyAt, RosterOf;
    if Open(cfg, c, u) {
      VideoIsOff(cfg, s.voice, u, c, videoMuted);
      var off := videoMuted || VideoIsFull(cfg, s.voice, c, u);
      FlagsSet(s.voice, c, u, muted, off, !off && sharing);
    }
  }

  // ----- Whole runs -----

  /** A join that is let in, at the state it meets. */
  ghost predicate Enters(cfg: Config, s: State, e: Event, u: UserId) {
    e.Joins? && e.user == u && Open(cfg, e.channel, u) && HasRoom(cfg, s.voice, u, e.channel)
  }

  /** A mute that reaches u's entry in channel c. */
  ghost predicate Mutes(cfg: Config, e: Event, u: UserId, c: ChannelId) {
    e.Mutes? && e.user == u && e.channel == c && Open(cfg, c, u)
  }

  /** An admitted join makes the entry. */
  lemma EntryEntered(cfg: Config, s: State, e: Event, u: UserId, c: ChannelId)
    requires Enters(cfg, s, e, u) && u in RosterOf(Next(cfg, s, e).voice, c)
    ensures e.channel == c && RosterOf(Next(cfg, s, e).voice, c)[u] == Participant(u, e.now, false, true, false)
  {
    hide HasRoom, OnJoin, Open;
    JoinStores(cfg, s, u, e.channel, e.now, e.late);
  }

  /** A mute sets its flags, and nothing else of it. */
  lemma EntryMuted(cfg: Config, s: State, e: Event, u: UserId, c: ChannelId)
    requires Mutes(cfg, e, u, c) && u in RosterOf(Next(cfg, s, e).voice, c)
    ensures u in RosterOf(s.voice, c)
    ensures var p, off := RosterOf(s.voice, c)[u], VideoOff(cfg, s.voice, u, c, e.videoMuted);
      RosterOf(Next(cfg, s, e).voice, c)[u] == Participant(p.userId, p.joinedAt, e.muted, off, e.sharing && !off)
  {
    hide VideoOff, OnMute;
    MuteStores(cfg, s, u, c, e.muted, e.videoMuted, e.sharing);
  }

  /** Nothing but u's own joins and mutes brings u's entry about or changes it. */
  lemma EntryStays(cfg: Config, s: State, e: Event, u: UserId, c: ChannelId)
    requires !Enters(cfg, s, e, u) && !Mutes(cfg, e, u, c)
    requires u in RosterOf(Next(cfg, s, e).voice, c)
    ensures u in RosterOf(s.voice, c) && RosterOf(Next(cfg, s, e).voice, c)[u] == RosterOf(s.voice, c)[u]
  {
    hide HasRoom, VideoOff, OnJoin, OnMute, OnLeave, CleanupAll;
    match e
    case Joins(w, d, now, late) => JoinStores(cfg, s, w, d, now, late);
    case Leaves(w, d) => LeaveStores(cfg, s, w, d);
    case Mutes(w, d, muted, video, sharing) => MuteStores(cfg, s, w, d, muted, video, sharing);
    case CleansUp(w, order, late) =>
      CleanupKeepsEntry(cfg, s.(cleanups := s.cleanups - multiset{w}), w, order, s.voice, late, u, c);
    case _ =>
  }

  lemma {:induction false} CleanupKeepsEntry(cfg: Config, s: State, w: UserId, order: seq<ChannelId>, v: Voice,
                                             late: bool, u: UserId, c: ChannelId)
    requires u in RosterOf(CleanupAll(cfg, s, w, order, v, late).voice, c)
    ensures u in RosterOf(s.voice, c)
    ensures RosterOf(CleanupAll(cfg, s, w, order, v, late).voice, c)[u] == RosterOf(s.voice, c)[u]
  {
    if order != [] {
      CleanupKeepsEntry(cfg, s, w, order[..|order| - 1], v, late, u, c);
    }
  }

  /** j is u's last join that was let in, and was to channel c; k is u's last mute for c since
      then, or j when there is none. */
  ghost predicate Sources(cfg: Config, es: seq<Event>, u: UserId, c: ChannelId, j: nat, k: nat) {
    && j <= k < |es|
    && Enters(cfg, Run(cfg, es[..j]), es[j], u) && es[j].channel == c
    && (forall i :: j < i < |es| ==> !Enters(cfg, Run(cfg, es[..i]), es[i], u))
    && (k == j || Mutes(cfg, es[k], u, c))
    && (forall i :: k < i < |es| ==> !Mutes(cfg, es[i], u, c))
  }

  lemma SourcesGrow(cfg: Config, es: seq<Event>, u: UserId, c: ChannelId, j: nat, k: nat)
    requires es != [] && Sources(cfg, es[..|es| - 1], u, c, j, k)
    requires !Enters(cfg, Run(cfg, es[..|es| - 1]), es[|es| - 1], u)
    ensures Sources(cfg, es, u, c, j, if Mutes(cfg, es[|es| - 1], u, c) then |es| - 1 else k)
  {
    hide Run, Enters, Mutes;
    SamePrefixes(es, |es| - 1);
  }

  lemma SamePrefixes(es: seq<Event>, n: nat)
    requires n <= |es|
    ensures forall i :: 0 <= i < n ==> es[..n][..i] == es[..i]
  {}

  lemma NobodyAtFirst(cfg: Config, u: UserId, c: ChannelId)
    ensures u !in RosterOf(Run(cfg, []).voice, c)
  {}

  /** The entry of a listed user, after any run: id and join time are those of the user's last
      join that was let in, which was to this channel; the flags are those of the user's last
      mute for the channel since, as asked at the state it met, and without one the user is
      unmuted, with video off and nothing shared. */
  lemma {:induction false} FlagsAreSaid(cfg: Config, es: seq<Event>, u: UserId, c: ChannelId)
    returns (j: nat, k: nat)
    requires u in RosterOf(Run(cfg, es).voice, c)
    ensures Sources(cfg, es, u, c, j, k)
    ensures RosterOf(Run(cfg, es).voice, c)[u] ==
      if k == j then Participant(u, es[j].now, false, true, false)
      else
        var off := VideoOff(cfg, Run(cfg, es[..k]).voice, u, c, es[k].videoMuted);
        Participant(u, es[j].now, es[k].muted, off, es[k].sharing && !off)
  {
    hide HasRoom, VideoOff, Next, Open, RosterOf;
    NobodyAtFirst(cfg, u, c);
    var n := |es| - 1;
    var init, e := es[..n], es[n];
    var s := Run(cfg, init);
    if Enters(cfg, s, e, u) {
      EntryEntered(cfg, s, e, u, c);
      j, k := n, n;
    } else {
      if Mutes(cfg, e, u, c) {
        EntryMuted(cfg, s, e, u, c);
      } else {
        EntryStays(cfg, s, e, u, c);
      }
      j, k := FlagsAreSaid(cfg, init, u, c);
      SourcesGrow(cfg, es, u, c, j, k);
      assert init[j] == es[j] && init[k] == es[k] && init[..k] == es[..k];
      if Mutes(cfg, e, u, c) { k := n; }
    }
  }
}
