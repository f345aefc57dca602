/** Convergence of voice.state broadcasts. Hub mutations are atomic, but a handler sends the
    snapshot it took only after releasing the lock, so frames from different handlers reach a
    receiver in any order. Receivers keep the newest stamp they applied
    (internal/ws/hub.go:35-43, web/static/voice.js:1870-1883). */
module VoiceConvergence {
  import opened VoiceState

  /** A handler in the middle of its work: snapshots taken but not yet sent, by channel, and
      the second mutation a join still has to make after `VoiceLeaveAll`. */
  datatype PendingJoin = NoJoin | Joins(channel: ChannelId, user: UserId)
  datatype Handler = Handler(toSend: map<ChannelId, Frame>, join: PendingJoin)

  /** A client in (or watching) the call of one channel. `since` records the hub's counter
      when the client last started afresh or last lost a frame; the proof needs it, the
      client does not have it. */
  datatype Receiver =
    Receiver(channel: ChannelId, lastStamp: nat, list: seq<Participant>, inbox: multiset<Frame>, since: nat)

  type HandlerId = int
  type ReceiverId = int

  /** `touched` records, per channel, the stamp of the last mutation that changed or
      re-announced its roster. Like `since`, only the proof looks at it. */
  datatype State = State(
    voice: Voice,
    handlers: map<HandlerId, Handler>,
    receivers: map<ReceiverId, Receiver>,
    touched: map<ChannelId, nat>)

  ghost const INITIAL := State(EMPTY_VOICE, map[], map[], map[])

  function Touched(s: State, c: ChannelId): nat {
    if c in s.touched then s.touched[c] else 0
  }

  // ----- Steps -----

  /** A handler whose one mutation is on channel c: leave, mute or clear. */
  ghost predicate MutatesOnce(s: State, s': State, h: HandlerId, after: Voice, c: ChannelId, list: seq<Participant>) {
    && h !in s.handlers
    && IsSnapshot(list, RosterOf(after, c))
    && s' == s.(voice := after,
                handlers := s.handlers[h := Handler(map[c := Frame(c, list, after.stamp)], NoJoin)],
                touched := s.touched[c := after.stamp])
  }

  ghost predicate LeaveStep(s: State, s': State, h: HandlerId, c: ChannelId, u: UserId, list: seq<Participant>) {
    MutatesOnce(s, s', h, Leave(s.voice, c, u), c, list)
  }

  ghost predicate MuteStep(s: State, s': State, h: HandlerId, c: ChannelId, u: UserId,
                           muted: bool, videoMuted: bool, sharing: bool, list: seq<Participant>)
  {
    MutatesOnce(s, s', h, SetMute(s.voice, c, u, muted, videoMuted, sharing), c, list)
  }

  /** `endDMVoiceCall` broadcasts an empty list rather than taking a snapshot. */
  ghost predicate ClearStep(s: State, s': State, h: HandlerId, c: ChannelId) {
    MutatesOnce(s, s', h, Clear(s.voice, c), c, [])
  }

  /** First half of voice.join: leave everywhere, keep the snapshots of the other channels. */
  ghost predicate BeginJoinStep(s: State, s': State, h: HandlerId, c: ChannelId, u: UserId,
                                lists: map<ChannelId, seq<Participant>>)
  {
    var after := LeaveAll(s.voice, u);
    var affected := ChannelsOf(s.voice, u);
    && h !in s.handlers
    && lists.Keys == affected - {c}
    && (forall d <- lists :: IsSnapshot(lists[d], RosterOf(after, d)))
    && s' == s.(voice := after,
                handlers := s.handlers[h :=
                  Handler(map d | d in lists :: Frame(d, lists[d], after.stamp), Joins(c, u))],
                touched := map d | d in s.touched.Keys + affected ::
                  if d in affected then after.stamp else Touched(s, d))
  }

  /** Second half of voice.join, after every other channel's broadcast went out. */
  ghost predicate EndJoinStep(s: State, s': State, h: HandlerId, now: int, list: seq<Participant>) {
    && h in s.handlers && s.handlers[h].join.Joins? && s.handlers[h].toSend == map[]
    && var Joins(c, u) := s.handlers[h].join;
       var after := Join(s.voice, c, u, now);
       && IsSnapshot(list, RosterOf(after, c))
       && s' == s.(voice := after,
                   handlers := s.handlers[h := Handler(map[c := Frame(c, list, after.stamp)], NoJoin)],
                   touched := s.touched[c := after.stamp])
  }

  /** A handler sends one of its snapshots: every receiver's queue gets it. */
  ghost predicate SendStep(s: State, s': State, h: HandlerId, c: ChannelId) {
    && h in s.handlers && c in s.handlers[h].toSend
    && var f := s.handlers[h].toSend[c];
       s' == s.(handlers := s.handlers[h := s.handlers[h].(toSend := s.handlers[h].toSend - {c})],
                receivers := map r | r in s.receivers :: s.receivers[r].(inbox := s.receivers[r].inbox + multiset{f}))
  }

  /** The receiver's rule: ignore other channels, and anything not strictly newer. */
  function Apply(r: Receiver, f: Frame): Receiver {
    if f.channel != r.channel || f.stamp <= r.lastStamp then r
    else r.(lastStamp := f.stamp, list := f.list)
  }

  /** A frame is taken whole if it is of this channel and strictly newer, and dropped otherwise. */
  lemma OnlyNewerApplies(r: Receiver, f: Frame)
    ensures f.channel == r.channel && r.lastStamp < f.stamp ==>
      Apply(r, f) == Receiver(r.channel, f.stamp, f.list, r.inbox, r.since)
    ensures f.channel != r.channel || r.lastStamp >= f.stamp ==> Apply(r, f) == r
  {}

  /** Any queued frame may be the next to arrive. */
  ghost predicate DeliverStep(s: State, s': State, r: ReceiverId, f: Frame) {
    && r in s.receivers && f in s.receivers[r].inbox
    && s' == s.(receivers := s.receivers[r :=
                  Apply(s.receivers[r].(inbox := s.receivers[r].inbox - multiset{f}), f)])
  }

  /** A frame to a slow or disconnected client is lost. */
  ghost predicate LoseStep(s: State, s': State, r: ReceiverId, f: Frame) {
    && r in s.receivers && f in s.receivers[r].inbox
    && s' == s.(receivers := s.receivers[r :=
                  s.receivers[r].(inbox := s.receivers[r].inbox - multiset{f}, since := s.voice.stamp)])
  }

  /** A client starts a call: nothing applied yet, stale frames may still be queued. */
  ghost predicate StartStep(s: State, s': State, r: ReceiverId, c: ChannelId) {
    var inbox := if r in s.receivers then s.receivers[r].inbox else multiset{};
    s' == s.(receivers := s.receivers[r := Receiver(c, 0, [], inbox, s.voice.stamp)])
  }

  ghost predicate Next(s: State, s': State) {
    || (exists h, c, u, list :: LeaveStep(s, s', h, c, u, list))
    || (exists h, c, u, m, v, sh, list :: MuteStep(s, s', h, c, u, m, v, sh, list))
    || (exists h, c :: ClearStep(s, s', h, c))
    || (exists h, c, u, lists :: BeginJoinStep(s, s', h, c, u, lists))
    || (exists h, now, list :: EndJoinStep(s, s', h, now, list))
    || (exists h, c :: SendStep(s, s', h, c))
    || (exists r, f :: DeliverStep(s, s', r, f))
    || (exists r, f :: LoseStep(s, s', r, f))
    || (exists r, c :: StartStep(s, s', r, c))
  }

  // ----- The invariant -----

  /** No frame is newer than its channel; one as new as its channel shows its roster. */
  ghost predicate Truthful(s: State, f: Frame) {
    && 0 < f.stamp <= Touched(s, f.channel)
    && (f.stamp == Touched(s, f.channel) ==> IsSnapshot(f.list, RosterOf(s.voice, f.channel)))
  }

  ghost predicate Carries(h: Handler, c: ChannelId, stamp: nat) {
    (c in h.toSend && h.toSend[c].stamp == stamp) || (h.join.Joins? && h.join.channel == c)
  }

  /** The newest news about the receiver's channel was applied or is still on its way. */
  ghost predicate Informed(s: State, r: Receiver) {
    var t := Touched(s, r.channel);
    || t <= r.since
    || r.lastStamp == t
    || (exists f <- r.inbox :: f.channel == r.channel && f.stamp == t)
    || (exists h <- s.handlers :: Carries(s.handlers[h], r.channel, t))
  }

  ghost predicate Shows(s: State, r: Receiver) {
    && r.lastStamp <= Touched(s, r.channel) && r.since <= s.voice.stamp
    && (0 < r.lastStamp == Touched(s, r.channel) ==> IsSnapshot(r.list, RosterOf(s.voice, r.channel)))
  }

  ghost predicate Inv(s: State) {
    && (forall c <- s.touched :: s.touched[c] <= s.voice.stamp)
    && (forall h <- s.handlers :: forall c <- s.handlers[h].toSend ::
          s.handlers[h].toSend[c].channel == c && Truthful(s, s.handlers[h].toSend[c]))
    && (forall r <- s.receivers :: forall f <- s.receivers[r].inbox :: Truthful(s, f))
    && (forall r <- s.receivers :: Shows(s, s.receivers[r]) && Informed(s, s.receivers[r]))
  }

  // ----- Every step keeps it -----

  /** Any mutation of the channels in `hit`, by handler h, which is left holding `now`. */
  lemma MutationKeepsInv(s: State, s': State, h: HandlerId, hit: set<ChannelId>, now: Handler)
    requires Inv(s)
    requires s'.voice.stamp == s.voice.stamp + 1
    requires s'.receivers == s.receivers && s'.handlers == s.handlers[h := now]
    requires h in s.handlers ==>
      s.handlers[h].toSend == map[] && s.handlers[h].join.Joins? && s.handlers[h].join.channel in hit
    requires forall c <- s'.touched :: s'.touched[c] <= s'.voice.stamp
    requires forall c :: Touched(s', c) == if c in hit then s'.voice.stamp else Touched(s, c)
    requires forall c :: c !in hit ==> RosterOf(s'.voice, c) == RosterOf(s.voice, c)
    requires forall c <- hit :: Carries(now, c, s'.voice.stamp)
    requires forall c <- now.toSend :: now.toSend[c].channel == c && Truthful(s', now.toSend[c])
    ensures Inv(s')
  {
    forall f | Truthful(s, f) ensures Truthful(s', f) {
      assert Touched(s, f.channel) <= s.voice.stamp;
    }
    forall r | r in s.receivers ensures Shows(s', s.receivers[r]) && Informed(s', s.receivers[r]) {
      var c := s.receivers[r].channel;
      assert Touched(s, c) <= s.voice.stamp;
      if c in hit {
        assert Carries(s'.handlers[h], c, s'.voice.stamp);
      } else if exists k :: k in s.handlers && Carries(s.handlers[k], c, Touched(s, c)) {
        var k :| k in s.handlers && Carries(s.handlers[k], c, Touched(s, c));
        assert k != h;
        assert k in s'.handlers && s'.handlers[k] == s.handlers[k];
      }
    }
  }

  lemma MutatesOneChannel(v: Voice, c: ChannelId, u: UserId, muted: bool, videoMuted: bool, sharing: bool, now: int)
    ensures forall after <- {Leave(v, c, u), SetMute(v, c, u, muted, videoMuted, sharing),
                             Clear(v, c), Join(v, c, u, now)} ::
      after.stamp == v.stamp + 1 && forall d :: d != c ==> RosterOf(after, d) == RosterOf(v, d)
  {}

  lemma MutatesOnceKeepsInv(s: State, s': State, h: HandlerId, after: Voice, c: ChannelId, list: seq<Participant>)
    requires Inv(s) && MutatesOnce(s, s', h, after, c, list)
    requires after.stamp == s.voice.stamp + 1 && forall d :: d != c ==> RosterOf(after, d) == RosterOf(s.voice, d)
    ensures Inv(s')
  {
    hide IsSnapshot;
    var now := Handler(map[c := Frame(c, list, after.stamp)], NoJoin);
    assert now.toSend[c].stamp == after.stamp;
    MutationKeepsInv(s, s', h, {c}, now);
  }

  lemma BeginJoinKeepsInv(s: State, s': State, h: HandlerId, c: ChannelId, u: UserId,
                          lists: map<ChannelId, seq<Participant>>)
    requires Inv(s) && BeginJoinStep(s, s', h, c, u, lists)
    ensures Inv(s')
  {
    hide IsSnapshot;
    var after := LeaveAll(s.voice, u);
    var now := s'.handlers[h];
    var hit := ChannelsOf(s.voice, u);
    forall d ensures d !in hit ==> RosterOf(after, d) == RosterOf(s.voice, d) {
      LeaveAllRosters(s.voice, u, d);
      if d !in hit { assert RosterOf(s.voice, d) - {u} == RosterOf(s.voice, d); }
    }
    forall d ensures Touched(s', d) == if d in hit then after.stamp else Touched(s, d) {}
    forall d | d in hit ensures Carries(now, d, after.stamp) {
      if d != c { assert d in lists && now.toSend[d].stamp == after.stamp; }
    }
    MutationKeepsInv(s, s', h, hit, now);
  }

  lemma EndJoinKeepsInv(s: State, s': State, h: HandlerId, at: int, list: seq<Participant>)
    requires Inv(s) && EndJoinStep(s, s', h, at, list)
    ensures Inv(s')
  {
    hide IsSnapshot;
    var Joins(c, u) := s.handlers[h].join;
    MutatesOneChannel(s.voice, c, u, false, false, false, at);
    var now := s'.handlers[h];
    assert now.toSend[c].stamp == s'.voice.stamp;
    MutationKeepsInv(s, s', h, {c}, now);
  }

  lemma SendKeepsInv(s: State, s': State, h: HandlerId, c: ChannelId)
    requires Inv(s) && SendStep(s, s', h, c)
    ensures Inv(s')
  {
    hide IsSnapshot;
    var f := s.handlers[h].toSend[c];
    forall k | k in s'.handlers
      ensures forall d <- s'.handlers[k].toSend ::
        s'.handlers[k].toSend[d].channel == d && Truthful(s', s'.handlers[k].toSend[d]) {}
    forall r | r in s'.receivers
      ensures Shows(s', s'.receivers[r]) && Informed(s', s'.receivers[r])
      ensures forall g <- s'.receivers[r].inbox :: Truthful(s', g)
    {
      var old_r, new_r := s.receivers[r], s'.receivers[r];
      assert Truthful(s, f);
      assert f in new_r.inbox;
      var t := Touched(s, old_r.channel);
      if exists k :: k in s.handlers && Carries(s.handlers[k], old_r.channel, t) {
        var k :| k in s.handlers && Carries(s.handlers[k], old_r.channel, t);
        if !Carries(s'.handlers[k], old_r.channel, t) {
          assert k == h && old_r.channel == c && f.stamp == t;
        }
      } else if exists g :: g in old_r.inbox && g.channel == old_r.channel && g.stamp == t {
        var g :| g in old_r.inbox && g.channel == old_r.channel && g.stamp == t;
        assert g in new_r.inbox;
      }
    }
  }

  /** Changing one receiver only, in a way that keeps what the invariant says of it. */
  lemma ReceiverKeepsInv(s: State, s': State, r: ReceiverId, now: Receiver)
    requires Inv(s) && s' == s.(receivers := s.receivers[r := now])
    requires forall f <- now.inbox :: Truthful(s, f)
    requires Shows(s, now) && Informed(s, now)
    ensures Inv(s')
  {
    hide IsSnapshot;
    forall q | q in s'.receivers
      ensures Shows(s', s'.receivers[q]) && Informed(s', s'.receivers[q])
      ensures forall f <- s'.receivers[q].inbox :: Truthful(s', f)
    {
      assert q != r ==> s'.receivers[q] == s.receivers[q];
    }
  }

  lemma DeliverKeepsInv(s: State, s': State, r: ReceiverId, f: Frame)
    requires Inv(s) && DeliverStep(s, s', r, f)
    ensures Inv(s')
  {
    hide IsSnapshot;
    var before := s.receivers[r];
    var now := s'.receivers[r];
    assert Truthful(s, f);
    var t := Touched(s, before.channel);
    if exists g :: g in before.inbox && g.channel == before.channel && g.stamp == t {
      var g :| g in before.inbox && g.channel == before.channel && g.stamp == t;
      if g != f {
        assert g in now.inbox;
      } else {
        assert now.lastStamp == t;
      }
    }
    ReceiverKeepsInv(s, s', r, now);
  }

  lemma LoseKeepsInv(s: State, s': State, r: ReceiverId, f: Frame)
    requires Inv(s) && LoseStep(s, s', r, f)
    ensures Inv(s')
  {
    hide IsSnapshot;
    assert Shows(s, s.receivers[r]);
    ReceiverKeepsInv(s, s', r, s'.receivers[r]);
  }

  lemma StartKeepsInv(s: State, s': State, r: ReceiverId, c: ChannelId)
    requires Inv(s) && StartStep(s, s', r, c)
    ensures Inv(s')
  {
    hide IsSnapshot;
    ReceiverKeepsInv(s, s', r, s'.receivers[r]);
  }

  lemma NextKeepsInv(s: State, s': State)
    requires Inv(s) && Next(s, s')
    ensures Inv(s')
  {
    hide Inv, MutatesOnce, BeginJoinStep, EndJoinStep, SendStep, DeliverStep, LoseStep, StartStep;
    if h, c, u, list :| LeaveStep(s, s', h, c, u, list) {
      MutatesOneChannel(s.voice, c, u, false, false, false, 0);
      MutatesOnceKeepsInv(s, s', h, Leave(s.voice, c, u), c, list);
    } else if h, c, u, m, v, sh, list :| MuteStep(s, s', h, c, u, m, v, sh, list) {
      MutatesOneChannel(s.voice, c, u, m, v, sh, 0);
      MutatesOnceKeepsInv(s, s', h, SetMute(s.voice, c, u, m, v, sh), c, list);
    } else if h, c :| ClearStep(s, s', h, c) {
      MutatesOneChannel(s.voice, c, 0, false, false, false, 0);
      MutatesOnceKeepsInv(s, s', h, Clear(s.voice, c), c, []);
    } else if h, c, u, lists :| BeginJoinStep(s, s', h, c, u, lists) {
      BeginJoinKeepsInv(s, s', h, c, u, lists);
    } else if h, now, list :| EndJoinStep(s, s', h, now, list) {
      EndJoinKeepsInv(s, s', h, now, list);
    } else if h, c :| SendStep(s, s', h, c) {
      SendKeepsInv(s, s', h, c);
    } else if r, f :| DeliverStep(s, s', r, f) {
      DeliverKeepsInv(s, s', r, f);
    } else if r, f :| LoseStep(s, s', r, f) {
      LoseKeepsInv(s, s', r, f);
    } else {
      var r, c :| StartStep(s, s', r, c);
      StartKeepsInv(s, s', r, c);
    }
  }

  // ----- Whole runs -----

  ghost predicate IsRun(trace: seq<State>) {
    && trace != [] && trace[0] == INITIAL
    && forall k :: 0 < k < |trace| ==> Next(trace[k - 1], trace[k])
  }

  lemma {:induction false} RunKeepsInv(trace: seq<State>)
    requires IsRun(trace)
    ensures Inv(trace[|trace| - 1])
    decreases |trace|
  {
    if |trace| > 1 {
      var prefix := trace[..|trace| - 1];
      assert IsRun(prefix) by {
        forall k | 0 < k < |prefix| ensures Next(prefix[k - 1], prefix[k]) {
          assert Next(trace[k - 1], trace[k]);
        }
      }
      RunKeepsInv(prefix);
      NextKeepsInv(trace[|trace| - 2], trace[|trace| - 1]);
    }
  }

  /** A client's own join always counts as an announcement: once its second half has run,
      every receiver in that channel is one that `Converges` speaks about. */
  lemma JoinAnnounces(s: State, s': State, h: HandlerId, now: int, list: seq<Participant>, r: ReceiverId)
    requires Inv(s) && EndJoinStep(s, s', h, now, list)
    requires r in s.receivers && s.receivers[r].channel == s.handlers[h].join.channel
    ensures Touched(s', s'.receivers[r].channel) > s'.receivers[r].since
  {
    assert Shows(s, s.receivers[r]);
  }

  /** No handler is mid-flight. */
  ghost predicate HandlersDone(s: State) {
    forall h <- s.handlers :: s.handlers[h].toSend == map[] && s.handlers[h].join == NoJoin
  }

  /** Convergence: at the end of any run in which no handler is mid-flight and nothing about
      the receiver's channel is still queued for it, a receiver whose channel was announced
      at all since it started afresh shows exactly the hub's roster for that channel, and
      its stamp is that of the channel's last change. */
  lemma Converges(trace: seq<State>, r: ReceiverId)
    requires IsRun(trace)
    requires var s := trace[|trace| - 1];
      && HandlersDone(s) && r in s.receivers
      && (forall f <- s.receivers[r].inbox :: f.channel != s.receivers[r].channel)
      && Touched(s, s.receivers[r].channel) > s.receivers[r].since
    ensures var s := trace[|trace| - 1];
      && IsSnapshot(s.receivers[r].list, RosterOf(s.voice, s.receivers[r].channel))
      && s.receivers[r].lastStamp == Touched(s, s.receivers[r].channel)
  {
    RunKeepsInv(trace);
    assert Informed(trace[|trace| - 1], trace[|trace| - 1].receivers[r]);
  }
}
