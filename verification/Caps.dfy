/** The caps on people and cameras in a voice channel (internal/httpapi/ws_dispatch.go:290-300,
    357-369). A handler counts under one lock and changes the roster under another, so other
    handlers may run between the two: how far over a cap that can lead. */
module Caps {
  import opened VoiceState
  import opened Calls

  /** The channel has a cap on people, and one on cameras. */
  predicate CapsPeople(cfg: Config, c: ChannelId) {
    c in cfg.channels && !cfg.channels[c].isDM && cfg.maxAudio > 0
  }

  predicate CapsCameras(cfg: Config, c: ChannelId) {
    c in cfg.channels && !cfg.channels[c].isDM && cfg.maxVideo > 0
  }

  // ----- One entry, wherever it comes -----

  lemma JoinedKeys(w: Voice, c: ChannelId, u: UserId, now: int)
    ensures RosterOf(Join(w, c, u, now), c).Keys == RosterOf(w, c).Keys + {u}
    ensures |RosterOf(Join(w, c, u, now), c)| == |RosterOf(w, c).Keys - {u}| + 1
  {
    var r := RosterOf(Join(w, c, u, now), c);
    assert r.Keys == (RosterOf(w, c).Keys - {u}) + {u};
    assert |r| == |r.Keys|;
  }

  /** A join that enters at w keeps to the cap exactly when the check would pass at w, however
      long ago it did pass, and whether the user is taken out of other channels first or not. */
  lemma EntryWithinCap(cfg: Config, w: Voice, c: ChannelId, u: UserId, now: int)
    requires CapsPeople(cfg, c)
    ensures |RosterOf(Join(w, c, u, now), c)| <= cfg.maxAudio <==> !JoinIsFull(cfg, w, c, u)
    ensures |RosterOf(Join(LeaveAll(w, u), c, u, now), c)| <= cfg.maxAudio <==> !JoinIsFull(cfg, w, c, u)
  {
    hide LeaveAll, Join;
    JoinedKeys(w, c, u, now);
    JoinedKeys(LeaveAll(w, u), c, u, now);
    LeaveAllRosters(w, u, c);
    assert RosterOf(LeaveAll(w, u), c).Keys - {u} == RosterOf(w, c).Keys - {u};
  }

  lemma CamerasAfterMute(w: Voice, c: ChannelId, u: UserId, muted: bool, off: bool, sharing: bool)
    ensures RosterOf(SetMute(w, c, u, muted, off, sharing), c).Keys == RosterOf(w, c).Keys
    ensures CamerasOn(RosterOf(SetMute(w, c, u, muted, off, sharing), c)) ==
      if u in RosterOf(w, c) && !off then CamerasOn(RosterOf(w, c)) + {u} else CamerasOn(RosterOf(w, c)) - {u}
  {}

  /** A camera switched on at w, by someone in the channel, likewise. */
  lemma CameraWithinCap(cfg: Config, w: Voice, c: ChannelId, u: UserId, muted: bool, sharing: bool)
    requires CapsCameras(cfg, c) && u in RosterOf(w, c)
    ensures |CamerasOn(RosterOf(SetMute(w, c, u, muted, false, sharing), c))| <= cfg.maxVideo
      <==> !VideoIsFull(cfg, w, c, u)
  {
    hide SetMute;
    CamerasAfterMute(w, c, u, muted, false, sharing);
    var on := CamerasOn(RosterOf(w, c));
    assert on + {u} == (on - {u}) + {u};
  }

  // ----- What happens between check and entry -----

  /** The hub's mutations, each under its own lock. */
  datatype Mutation =
    | Joining(channel: ChannelId, user: UserId, now: int)
    | Leaving(channel: ChannelId, user: UserId)
    | LeavingAll(user: UserId)
    | Muting(channel: ChannelId, user: UserId, muted: bool, off: bool, sharing: bool)
    | Clearing(channel: ChannelId)

  function Mutate(v: Voice, m: Mutation): Voice {
    match m
    case Joining(c, u, now) => Join(v, c, u, now)
    case Leaving(c, u) => Leave(v, c, u)
    case LeavingAll(u) => LeaveAll(v, u)
    case Muting(c, u, muted, off, sharing) => SetMute(v, c, u, muted, off, sharing)
    case Clearing(c) => Clear(v, c)
  }

  function MutateAll(v: Voice, ms: seq<Mutation>): Voice {
    if ms == [] then v else Mutate(MutateAll(v, ms[..|ms| - 1]), ms[|ms| - 1])
  }

  /** What each mutation does to every roster. */
  lemma MutationSays(v: Voice, m: Mutation, d: ChannelId)
    ensures var r := RosterOf(v, d);
      RosterOf(Mutate(v, m), d) ==
        match m
        case Joining(c, u, now) => if d != c || u in r then r else r[u := Participant(u, now, false, true, false)]
        case Leaving(c, u) => if d == c then r - {u} else r
        case LeavingAll(u) => r - {u}
        case Muting(c, u, muted, off, sharing) =>
          if d != c || u !in r then r else r[u := Participant(r[u].userId, r[u].joinedAt, muted, off, sharing)]
        case Clearing(c) => if d == c then map[] else r
  {
    if m.LeavingAll? { LeaveAllRosters(v, m.user, d); }
  }

  /** The users other than u who join channel c in ms, and who switch a camera on in it. */
  function OthersJoin(ms: seq<Mutation>, c: ChannelId, u: UserId): set<UserId> {
    set m | m in ms && m.Joining? && m.channel == c && m.user != u :: m.user
  }

  function OthersFilm(ms: seq<Mutation>, c: ChannelId, u: UserId): set<UserId> {
    set m | m in ms && m.Muting? && m.channel == c && m.user != u && !m.off :: m.user
  }

  /** What one mutation can add to a channel: the user who joins, the camera switched on. */
  lemma MutationAdds(v: Voice, m: Mutation, c: ChannelId)
    ensures RosterOf(Mutate(v, m), c).Keys
      <= RosterOf(v, c).Keys + (if m.Joining? && m.channel == c then {m.user} else {})
    ensures CamerasOn(RosterOf(Mutate(v, m), c))
      <= CamerasOn(RosterOf(v, c)) + (if m.Muting? && m.channel == c && !m.off then {m.user} else {})
  {
    match m
    case LeavingAll(u) => LeaveAllRosters(v, u, c);
    case Muting(d, u, muted, off, sharing) => CamerasAfterMute(v, d, u, muted, off, sharing);
    case _ =>
  }

  lemma {:induction false} MutationsAdd(v: Voice, ms: seq<Mutation>, c: ChannelId, u: UserId)
    ensures RosterOf(MutateAll(v, ms), c).Keys - {u} <= (RosterOf(v, c).Keys - {u}) + OthersJoin(ms, c, u)
    ensures CamerasOn(RosterOf(MutateAll(v, ms), c)) - {u} <= (CamerasOn(RosterOf(v, c)) - {u}) + OthersFilm(ms, c, u)
  {
    if ms != [] {
      hide Mutate, CamerasOn, RosterOf, OthersJoin, OthersFilm;
      var init, m := ms[..|ms| - 1], ms[|ms| - 1];
      MutationsAdd(v, init, c, u);
      MutationAdds(MutateAll(v, init), m, c);
      OthersGrow(ms, c, u);
      var w, after := MutateAll(v, init), MutateAll(v, ms);
      AddOn(RosterOf(v, c).Keys, RosterOf(w, c).Keys, RosterOf(after, c).Keys, u,
            OthersJoin(init, c, u), if m.Joining? && m.channel == c then {m.user} else {}, OthersJoin(ms, c, u));
      AddOn(CamerasOn(RosterOf(v, c)), CamerasOn(RosterOf(w, c)), CamerasOn(RosterOf(after, c)), u,
            OthersFilm(init, c, u), if m.Muting? && m.channel == c && !m.off then {m.user} else {},
            OthersFilm(ms, c, u));
    }
  }

  lemma AddOn<T>(first: set<T>, next: set<T>, last: set<T>, u: T, some: set<T>, one: set<T>, all: set<T>)
    requires next - {u} <= (first - {u}) + some && last <= next + one
    requires some <= all && one - {u} <= all
    ensures last - {u} <= (first - {u}) + all
  {
    forall x | x in last - {u} ensures x in (first - {u}) + all {
      assert x in next - {u} || x in one - {u};
    }
  }

  lemma OthersGrow(ms: seq<Mutation>, c: ChannelId, u: UserId)
    requires ms != []
    ensures var init, m := ms[..|ms| - 1], ms[|ms| - 1];
      && OthersJoin(init, c, u) <= OthersJoin(ms, c, u) && OthersFilm(init, c, u) <= OthersFilm(ms, c, u)
      && (m.Joining? && m.channel == c && m.user != u ==> m.user in OthersJoin(ms, c, u))
      && (m.Muting? && m.channel == c && m.user != u && !m.off ==> m.user in OthersFilm(ms, c, u))
  {
    assert ms[|ms| - 1] in ms;
  }

  lemma Fits<T>(a: set<T>, b: set<T>, more: set<T>)
    requires a <= b + more
    ensures |a| <= |b| + |more|
  {
    Fewer(a, b + more);
    Fewer(b + more, b + more);
    assert |b + more| == |b| + |more - b|;
    Fewer(more - b, more);
  }

  /** A join that passed its check at v enters over the cap by at most the number of others who
      joined the channel since; so only those can make it overrun. */
  lemma OverrunBySinceJoined(cfg: Config, v: Voice, ms: seq<Mutation>, c: ChannelId, u: UserId, now: int)
    requires CapsPeople(cfg, c) && !JoinIsFull(cfg, v, c, u)
    ensures |RosterOf(Join(MutateAll(v, ms), c, u, now), c)| <= cfg.maxAudio + |OthersJoin(ms, c, u)|
  {
    hide MutateAll, Join, OthersJoin, OthersFilm;
    var w := MutateAll(v, ms);
    MutationsAdd(v, ms, c, u);
    JoinedKeys(w, c, u, now);
    Fits(RosterOf(w, c).Keys - {u}, RosterOf(v, c).Keys - {u}, OthersJoin(ms, c, u));
  }

  /** A camera that passed its check at v, likewise. */
  lemma OverrunBySinceFilmed(cfg: Config, v: Voice, ms: seq<Mutation>, c: ChannelId, u: UserId,
                             muted: bool, sharing: bool)
    requires CapsCameras(cfg, c) && !VideoIsFull(cfg, v, c, u) && u in RosterOf(MutateAll(v, ms), c)
    ensures |CamerasOn(RosterOf(SetMute(MutateAll(v, ms), c, u, muted, false, sharing), c))|
      <= cfg.maxVideo + |OthersFilm(ms, c, u)|
  {
    hide MutateAll, SetMute, OthersJoin, OthersFilm;
    var w := MutateAll(v, ms);
    MutationsAdd(v, ms, c, u);
    CamerasAfterMute(w, c, u, muted, false, sharing);
    var on := CamerasOn(RosterOf(w, c));
    assert on + {u} == (on - {u}) + {u};
    Fits(on - {u}, CamerasOn(RosterOf(v, c)) - {u}, OthersFilm(ms, c, u));
  }

  // ----- Whole runs of interleaved handlers -----

  /** A handler between its check and its entry. */
  datatype Ticket = ToJoin(channel: ChannelId, user: UserId) | ToFilm(channel: ChannelId, user: UserId)

  /** The rosters, and the handlers that passed their check and have not entered yet. */
  datatype Flight = Flight(voice: Voice, waiting: multiset<Ticket>)

  datatype Step =
    | ChecksJoin(channel: ChannelId, user: UserId)
    | EntersJoin(channel: ChannelId, user: UserId, now: int)
    | ChecksCamera(channel: ChannelId, user: UserId)
    | FilmsNow(channel: ChannelId, user: UserId, muted: bool, sharing: bool)
    | OtherMutation(mutation: Mutation)

  /** Nobody joins or films without a check; everything else may happen at any time. */
  ghost predicate CanTake(f: Flight, step: Step) {
    match step
    case EntersJoin(c, u, _) => ToJoin(c, u) in f.waiting
    case FilmsNow(c, u, _, _) => ToFilm(c, u) in f.waiting
    case OtherMutation(m) => !m.Joining? && (m.Muting? ==> m.off)
    case _ => true
  }

  function Take(cfg: Config, f: Flight, step: Step): Flight {
    match step
    case ChecksJoin(c, u) =>
      if c !in cfg.channels || JoinIsFull(cfg, f.voice, c, u) then f
      else f.(waiting := f.waiting + multiset{ToJoin(c, u)})
    case EntersJoin(c, u, now) => Flight(Join(f.voice, c, u, now), f.waiting - multiset{ToJoin(c, u)})
    case ChecksCamera(c, u) =>
      if c !in cfg.channels || VideoIsFull(cfg, f.voice, c, u) then f
      else f.(waiting := f.waiting + multiset{ToFilm(c, u)})
    case FilmsNow(c, u, muted, sharing) =>
      Flight(SetMute(f.voice, c, u, muted, false, sharing), f.waiting - multiset{ToFilm(c, u)})
    case OtherMutation(m) => f.(voice := Mutate(f.voice, m))
  }

  function Joiners(f: Flight, c: ChannelId): set<UserId> {
    set t | t in f.waiting && t.ToJoin? && t.channel == c :: t.user
  }

  function Filmers(f: Flight, c: ChannelId): set<UserId> {
    set t | t in f.waiting && t.ToFilm? && t.channel == c :: t.user
  }

  function Fly(cfg: Config, steps: seq<Step>): Flight {
    if steps == [] then Flight(EMPTY_VOICE, multiset{})
    else Take(cfg, Fly(cfg, steps[..|steps| - 1]), steps[|steps| - 1])
  }

  /** A run in which never more than k users at a time are between check and entry in c. */
  ghost predicate Flies(cfg: Config, steps: seq<Step>, c: ChannelId, k: nat) {
    && |Joiners(Fly(cfg, steps), c)| <= k && |Filmers(Fly(cfg, steps), c)| <= k
    && (steps == [] || (
          && Flies(cfg, steps[..|steps| - 1], c, k)
          && CanTake(Fly(cfg, steps[..|steps| - 1]), steps[|steps| - 1])))
  }

  /** Who is in the channel or about to be, and whose camera is on or about to be. */
  function People(f: Flight, c: ChannelId): set<UserId> {
    RosterOf(f.voice, c).Keys + Joiners(f, c)
  }

  function Cameras(f: Flight, c: ChannelId): set<UserId> {
    CamerasOn(RosterOf(f.voice, c)) + Filmers(f, c)
  }

  /** Only a passed check adds to either. */
  lemma TakeAddsPeople(cfg: Config, f: Flight, step: Step, c: ChannelId)
    requires CanTake(f, step)
    ensures var after := Take(cfg, f, step);
      People(after, c) <= People(f, c) || (
        && step.ChecksJoin? && step.channel == c && c in cfg.channels && !JoinIsFull(cfg, f.voice, c, step.user)
        && after.voice == f.voice && step.user in Joiners(after, c))
  {
    hide JoinIsFull, VideoIsFull, Join, SetMute, Mutate, CamerasOn, RosterOf;
    var after := Take(cfg, f, step);
    match step
    case ChecksJoin(d, u) =>
      if after != f { assert ToJoin(d, u) in after.waiting; }
    case ChecksCamera(d, u) =>
    case EntersJoin(d, u, now) => EntryAdds(f.voice, Joining(d, u, now), c);
    case FilmsNow(d, u, muted, sharing) => EntryAdds(f.voice, Muting(d, u, muted, false, sharing), c);
    case OtherMutation(m) => MutationAdds(f.voice, m, c);
  }

  lemma TakeAddsCameras(cfg: Config, f: Flight, step: Step, c: ChannelId)
    requires CanTake(f, step)
    ensures var after := Take(cfg, f, step);
      Cameras(after, c) <= Cameras(f, c) || (
        && step.ChecksCamera? && step.channel == c && c in cfg.channels && !VideoIsFull(cfg, f.voice, c, step.user)
        && after.voice == f.voice && step.user in Filmers(after, c))
  {
    hide JoinIsFull, VideoIsFull, Join, SetMute, Mutate, CamerasOn, RosterOf;
    var after := Take(cfg, f, step);
    match step
    case ChecksJoin(d, u) =>
    case ChecksCamera(d, u) =>
      if after != f { assert ToFilm(d, u) in after.waiting; }
    case EntersJoin(d, u, now) => EntryAdds(f.voice, Joining(d, u, now), c);
    case FilmsNow(d, u, muted, sharing) => EntryAdds(f.voice, Muting(d, u, muted, false, sharing), c);
    case OtherMutation(m) => MutationAdds(f.voice, m, c);
  }

  lemma EntryAdds(v: Voice, m: Mutation, c: ChannelId)
    requires m.Joining? || m.Muting?
    ensures var after := if m.Joining? then Join(v, m.channel, m.user, m.now)
                         else SetMute(v, m.channel, m.user, m.muted, m.off, m.sharing);
      && RosterOf(after, c).Keys <= RosterOf(v, c).Keys + (if m.Joining? && m.channel == c then {m.user} else {})
      && CamerasOn(RosterOf(after, c))
           <= CamerasOn(RosterOf(v, c)) + (if m.Muting? && m.channel == c && !m.off then {m.user} else {})
  {
    hide Join, SetMute, CamerasOn, RosterOf;
    MutationAdds(v, m, c);
  }

  /** However handlers interleave, a channel is over its caps by at most one less than the
      number of handlers that are between check and entry at the same time. For k == 1, when
      handlers run one after the other, the caps hold. */
  lemma {:induction false} InterleavedCaps(cfg: Config, steps: seq<Step>, c: ChannelId, k: nat)
    requires Flies(cfg, steps, c, k) && k >= 1
    ensures CapsPeople(cfg, c) ==> |RosterOf(Fly(cfg, steps).voice, c)| <= cfg.maxAudio + k - 1
    ensures CapsPeople(cfg, c) ==> |People(Fly(cfg, steps), c)| <= cfg.maxAudio + k - 1
    ensures CapsCameras(cfg, c) ==> |CamerasOn(RosterOf(Fly(cfg, steps).voice, c))| <= cfg.maxVideo + k - 1
    ensures CapsCameras(cfg, c) ==> |Cameras(Fly(cfg, steps), c)| <= cfg.maxVideo + k - 1
  {
    var f := Fly(cfg, steps);
    if steps == [] {
      assert People(f, c) == {} && Cameras(f, c) == {};
    } else {
      var init, step := steps[..|steps| - 1], steps[|steps| - 1];
      InterleavedCaps(cfg, init, c, k);
      hide People, Cameras, Joiners, Filmers, CamerasOn, Take, CanTake;
      StepWithinCaps(cfg, Fly(cfg, init), step, c, k);
    }
    PartOfPeople(f, c);
  }

  lemma PartOfPeople(f: Flight, c: ChannelId)
    ensures |RosterOf(f.voice, c)| <= |People(f, c)|
    ensures |CamerasOn(RosterOf(f.voice, c))| <= |Cameras(f, c)|
  {
    assert |RosterOf(f.voice, c)| == |RosterOf(f.voice, c).Keys|;
    Fewer(RosterOf(f.voice, c).Keys, People(f, c));
    Fewer(CamerasOn(RosterOf(f.voice, c)), Cameras(f, c));
  }

  lemma StepWithinCaps(cfg: Config, f: Flight, step: Step, c: ChannelId, k: nat)
    requires CanTake(f, step) && k >= 1
    requires |Joiners(Take(cfg, f, step), c)| <= k && |Filmers(Take(cfg, f, step), c)| <= k
    requires CapsPeople(cfg, c) ==> |People(f, c)| <= cfg.maxAudio + k - 1
    requires CapsCameras(cfg, c) ==> |Cameras(f, c)| <= cfg.maxVideo + k - 1
    ensures CapsPeople(cfg, c) ==> |People(Take(cfg, f, step), c)| <= cfg.maxAudio + k - 1
    ensures CapsCameras(cfg, c) ==> |Cameras(Take(cfg, f, step), c)| <= cfg.maxVideo + k - 1
  {
    hide Joiners, Filmers, CamerasOn, Take, CanTake, RosterOf;
    var after := Take(cfg, f, step);
    TakeAddsPeople(cfg, f, step, c);
    TakeAddsCameras(cfg, f, step, c);
    if People(after, c) <= People(f, c) {
      Fewer(People(after, c), People(f, c));
    } else {
      Fits(People(after, c), RosterOf(f.voice, c).Keys - {step.user}, Joiners(after, c));
    }
    if Cameras(after, c) <= Cameras(f, c) {
      Fewer(Cameras(after, c), Cameras(f, c));
    } else {
      Fits(Cameras(after, c), CamerasOn(RosterOf(f.voice, c)) - {step.user}, Filmers(after, c));
    }
  }

  // ----- Who is between check and entry -----

  /** The step is a check of u for channel c that finds room: a camera's when `filming`, else a
      join's. */
  ghost predicate Passes(cfg: Config, v: Voice, step: Step, c: ChannelId, u: UserId, filming: bool) {
    var r := RosterOf(v, c);
    if filming then
      && step == ChecksCamera(c, u) && c in cfg.channels
      && !(CapsCameras(cfg, c) && |set x | x in r && x != u && !r[x].videoMuted| >= cfg.maxVideo)
    else
      && step == ChecksJoin(c, u) && c in cfg.channels
      && !(CapsPeople(cfg, c) && |set x | x in r && x != u| >= cfg.maxAudio)
  }

  /** u enters c in this step, or switches the camera on there. */
  ghost predicate Enters(step: Step, c: ChannelId, u: UserId, filming: bool) {
    (if filming then step.FilmsNow? else step.EntersJoin?) && step.channel == c && step.user == u
  }

  ghost function Passed(cfg: Config, steps: seq<Step>, c: ChannelId, u: UserId, filming: bool): nat {
    if steps == [] then 0
    else
      var init := steps[..|steps| - 1];
      Passed(cfg, init, c, u, filming)
      + (if Passes(cfg, Fly(cfg, init).voice, steps[|steps| - 1], c, u, filming) then 1 else 0)
  }

  ghost function Entered(steps: seq<Step>, c: ChannelId, u: UserId, filming: bool): nat {
    if steps == [] then 0
    else
      Entered(steps[..|steps| - 1], c, u, filming) + (if Enters(steps[|steps| - 1], c, u, filming) then 1 else 0)
  }

  ghost function TicketFor(c: ChannelId, u: UserId, filming: bool): Ticket {
    if filming then ToFilm(c, u) else ToJoin(c, u)
  }

  lemma PassesIsRoom(cfg: Config, v: Voice, c: ChannelId, u: UserId)
    requires c in cfg.channels
    ensures Passes(cfg, v, ChecksJoin(c, u), c, u, false) <==> !JoinIsFull(cfg, v, c, u)
    ensures Passes(cfg, v, ChecksCamera(c, u), c, u, true) <==> !VideoIsFull(cfg, v, c, u)
  {
    hide RosterOf;
    var r := RosterOf(v, c);
    assert r.Keys - {u} == set x | x in r && x != u;
    assert CamerasOn(r) - {u} == set x | x in r && x != u && !r[x].videoMuted;
  }

  lemma TakeWaits(cfg: Config, f: Flight, step: Step, c: ChannelId, u: UserId, filming: bool)
    requires CanTake(f, step)
    ensures var t := TicketFor(c, u, filming);
      Take(cfg, f, step).waiting[t] + (if Enters(step, c, u, filming) then 1 else 0)
      == f.waiting[t] + (if Passes(cfg, f.voice, step, c, u, filming) then 1 else 0)
  {
    hide Join, SetMute, Mutate, RosterOf, JoinIsFull, VideoIsFull;
    if c in cfg.channels { PassesIsRoom(cfg, f.voice, c, u); }
  }

  /** Over every run, the handlers between check and entry are the checks that passed less the
      entries: each entry uses up one passed check. */
  lemma {:induction false} EntriesUseUpChecks(cfg: Config, steps: seq<Step>, c: ChannelId, u: UserId,
                                              filming: bool, d: ChannelId, k: nat)
    requires Flies(cfg, steps, d, k)
    ensures var t := if filming then ToFilm(c, u) else ToJoin(c, u);
      Fly(cfg, steps).waiting[t] == Passed(cfg, steps, c, u, filming) - Entered(steps, c, u, filming)
  {
    if steps != [] {
      var init, step := steps[..|steps| - 1], steps[|steps| - 1];
      EntriesUseUpChecks(cfg, init, c, u, filming, d, k);
      hide Take, CanTake, Passes, Enters;
      TakeWaits(cfg, Fly(cfg, init), step, c, u, filming);
    }
  }

  // ----- The bound is reached -----

  function JoinEach(v: Voice, c: ChannelId, users: seq<UserId>, now: int): Voice {
    if users == [] then v
    else
      var u := users[|users| - 1];
      Join(LeaveAll(JoinEach(v, c, users[..|users| - 1], now), u), c, u, now)
  }

  function Members(users: seq<UserId>): set<UserId> {
    set u | u in users
  }

  predicate Distinct(users: seq<UserId>) {
    forall i, j :: 0 <= i < j < |users| ==> users[i] != users[j]
  }

  lemma LastOne(users: seq<UserId>)
    requires users != [] && Distinct(users)
    ensures var init, u := users[..|users| - 1], users[|users| - 1];
      Distinct(init) && Members(users) == Members(init) + {u} && u !in Members(init)
  {
    assert users == users[..|users| - 1] + [users[|users| - 1]];
  }

  /** Any number of joins that all check first, one place short of the cap, are all let in, and
      the channel ends over its cap by one less than their number. */
  lemma InterleavedJoinsOverrunCap(cfg: Config, v: Voice, c: ChannelId, users: seq<UserId>, now: int)
    requires CapsPeople(cfg, c) && |RosterOf(v, c)| == cfg.maxAudio - 1
    requires Distinct(users) && Members(users) !! RosterOf(v, c).Keys
    ensures forall u <- users :: !JoinIsFull(cfg, v, c, u)
    ensures |RosterOf(JoinEach(v, c, users, now), c)| == cfg.maxAudio - 1 + |users|
  {
    hide JoinIsFull, RosterOf, JoinEach;
    forall u | u in users ensures !JoinIsFull(cfg, v, c, u) {
      assert u in Members(users);
      OnePlaceFree(cfg, v, c, u);
    }
    EachJoins(v, c, users, now);
  }

  lemma {:induction false} EachJoins(v: Voice, c: ChannelId, users: seq<UserId>, now: int)
    requires Distinct(users) && Members(users) !! RosterOf(v, c).Keys
    ensures RosterOf(JoinEach(v, c, users, now), c).Keys == RosterOf(v, c).Keys + Members(users)
    ensures |RosterOf(JoinEach(v, c, users, now), c)| == |RosterOf(v, c)| + |users|
  {
    hide LeaveAll, Join, RosterOf, Distinct, Members, JoinEach;
    if users == [] {
      NobodyJoins(v, c, now);
    } else {
      var init, u := users[..|users| - 1], users[|users| - 1];
      LastOne(users);
      PartsDisjoint(Members(init), u, RosterOf(v, c).Keys);
      EachJoins(v, c, init, now);
      LastJoins(v, c, users, now);
    }
  }

  lemma PartsDisjoint<T>(a: set<T>, x: T, b: set<T>)
    requires a + {x} !! b && x !in a
    ensures a !! b && x !in b + a && b + (a + {x}) == (b + a) + {x}
  {}

  lemma NobodyJoins(v: Voice, c: ChannelId, now: int)
    ensures JoinEach(v, c, [], now) == v && Members([]) == {}
  {}

  lemma LastJoins(v: Voice, c: ChannelId, users: seq<UserId>, now: int)
    requires users != [] && users[|users| - 1] !in RosterOf(JoinEach(v, c, users[..|users| - 1], now), c).Keys
    ensures var before := RosterOf(JoinEach(v, c, users[..|users| - 1], now), c);
      var r := RosterOf(JoinEach(v, c, users, now), c);
      r.Keys == before.Keys + {users[|users| - 1]} && |r| == |before| + 1
  {
    hide LeaveAll, Join, RosterOf;
    JoinAddsOne(JoinEach(v, c, users[..|users| - 1], now), c, users[|users| - 1], now);
  }

  lemma OnePlaceFree(cfg: Config, v: Voice, c: ChannelId, u: UserId)
    requires CapsPeople(cfg, c) && |RosterOf(v, c)| == cfg.maxAudio - 1 && u !in RosterOf(v, c)
    ensures !JoinIsFull(cfg, v, c, u)
  {
    var r := RosterOf(v, c);
    assert |r| == |r.Keys|;
    assert r.Keys - {u} == r.Keys;
  }

  lemma JoinAddsOne(v: Voice, c: ChannelId, u: UserId, now: int)
    requires u !in RosterOf(v, c)
    ensures var r := RosterOf(Join(LeaveAll(v, u), c, u, now), c);
      r.Keys == RosterOf(v, c).Keys + {u} && |r| == |RosterOf(v, c)| + 1
  {
    hide LeaveAll;
    LeaveAllRosters(v, u, c);
    assert RosterOf(v, c) - {u} == RosterOf(v, c);
    var r := RosterOf(Join(LeaveAll(v, u), c, u, now), c);
    assert |r| == |r.Keys|;
  }
}
