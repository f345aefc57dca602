/** What the handlers of internal/httpapi/ws_dispatch.go send for the changes they make, and why
    it is what the convergence model says is sent. */
module Announcing {
  import opened VoiceState
  import opened VoiceConvergence

  ghost function ChannelsIn(frames: seq<Frame>): set<ChannelId> {
    set f <- frames :: f.channel
  }

  ghost predicate OneEach(frames: seq<Frame>) {
    forall i, j :: 0 <= i < j < |frames| ==> frames[i].channel != frames[j].channel
  }

  /** The one broadcast of a mutation: the channel's roster, under the mutation's stamp. */
  ghost predicate IsBroadcast(after: Voice, c: ChannelId, f: Frame) {
    f.channel == c && f.stamp == after.stamp && IsSnapshot(f.list, RosterOf(after, c))
  }

  /** The frames of a join: every other channel the user was taken out of, once, then its own. */
  ghost predicate JoinAnnounced(before: Voice, after: Voice, frames: seq<Frame>, u: UserId, c: ChannelId) {
    && frames != []
    && IsBroadcast(after, c, frames[|frames| - 1])
    && var others := frames[..|frames| - 1];
       && OneEach(others) && ChannelsIn(others) == ChannelsOf(before, u) - {c}
       && forall f <- others :: f.stamp == before.stamp + 1 && IsSnapshot(f.list, RosterOf(after, f.channel))
  }

  /** One broadcast for each channel of `gone`, in order, and nothing else changed. */
  ghost predicate EachAnnounced(before: Voice, after: Voice, frames: seq<Frame>, gone: seq<ChannelId>) {
    && |frames| == |gone| && after.stamp == before.stamp + |gone|
    && (forall k :: 0 <= k < |gone| ==>
          frames[k].channel == gone[k] && frames[k].stamp == before.stamp + k + 1
          && IsSnapshot(frames[k].list, RosterOf(after, gone[k])))
    && (forall d :: d !in gone ==> RosterOf(after, d) == RosterOf(before, d))
  }

  // ----- As steps of the convergence model -----

  ghost predicate Steps(trace: seq<State>) {
    trace != [] && forall k :: 0 < k < |trace| ==> Next(trace[k - 1], trace[k])
  }

  function Queued(receivers: map<ReceiverId, Receiver>, frames: seq<Frame>): map<ReceiverId, Receiver> {
    map r | r in receivers :: receivers[r].(inbox := receivers[r].inbox + multiset(frames))
  }

  /** The handler h turned the rosters into `after`, put the frames into every receiver's queue,
      and has nothing left to do. */
  ghost predicate Did(s: State, end: State, h: HandlerId, after: Voice, frames: seq<Frame>) {
    && end.voice == after
    && end.handlers == s.handlers[h := Handler(map[], NoJoin)]
    && end.receivers == Queued(s.receivers, frames)
  }

  lemma StepsOn(trace: seq<State>, more: seq<State>)
    requires Steps(trace) && Steps(more) && trace[|trace| - 1] == more[0]
    ensures Steps(trace + more[1..])
    ensures (trace + more[1..])[0] == trace[0]
    ensures (trace + more[1..])[|trace| + |more| - 2] == more[|more| - 1]
  {
    hide Next;
    var all := trace + more[1..];
    forall k | 0 < k < |all| ensures Next(all[k - 1], all[k]) {
      if k < |trace| {
        assert Next(trace[k - 1], trace[k]);
      } else {
        var j := k - |trace| + 1;
        assert Next(more[j - 1], more[j]);
        assert all[k] == more[j] && all[k - 1] == more[j - 1];
      }
    }
  }

  /** The frames, by channel. */
  function ByChannel(frames: seq<Frame>): map<ChannelId, Frame> {
    if frames == [] then map[] else ByChannel(frames[1..])[frames[0].channel := frames[0]]
  }

  lemma {:induction false} ByChannelHas(frames: seq<Frame>)
    requires OneEach(frames)
    ensures ByChannel(frames).Keys == ChannelsIn(frames)
    ensures forall f <- frames :: f.channel in ByChannel(frames) && ByChannel(frames)[f.channel] == f
  {
    if frames != [] {
      var first, more := frames[0], frames[1..];
      assert OneEach(more);
      ByChannelHas(more);
      assert frames == [first] + more;
      ChannelsInFirst(first, more);
      forall f | f in more ensures f.channel != first.channel {
        NotAgain(frames, f);
      }
      hide OneEach, ChannelsIn;
    }
  }

  lemma ChannelsInFirst(first: Frame, more: seq<Frame>)
    ensures ChannelsIn([first] + more) == {first.channel} + ChannelsIn(more)
  {
    assert forall f :: f in [first] + more <==> f == first || f in more;
  }

  lemma QueuedTwice(receivers: map<ReceiverId, Receiver>, a: seq<Frame>, b: seq<Frame>)
    ensures Queued(Queued(receivers, a), b) == Queued(receivers, a + b)
  {
    assert multiset(a + b) == multiset(a) + multiset(b);
    forall r | r in receivers
      ensures receivers[r].inbox + multiset(a) + multiset(b) == receivers[r].inbox + multiset(a + b) {}
  }

  lemma NothingQueued(receivers: map<ReceiverId, Receiver>)
    ensures Queued(receivers, []) == receivers
  {
    var none: seq<Frame> := [];
    forall r | r in receivers ensures receivers[r].inbox + multiset(none) == receivers[r].inbox {}
  }

  /** The handler sends what it holds, in the order of the frames. */
  lemma {:induction false} SendsAll(s: State, h: HandlerId, frames: seq<Frame>) returns (trace: seq<State>)
    requires h in s.handlers && OneEach(frames) && s.handlers[h].toSend == ByChannel(frames)
    ensures Steps(trace) && trace[0] == s
    ensures trace[|trace| - 1] == AllSent(s, h, frames)
    decreases |frames|
  {
    hide Next, Sent, Queued, AllSent, OneEach, ByChannel;
    if frames == [] {
      trace := [s];
      NothingToSend(s, h);
    } else {
      var s1, more := Sent(s, h, frames[0]), frames[1..];
      SendsOne(s, h, frames);
      var rest := SendsAll(s1, h, more);
      StepsOn([s, s1], rest);
      trace := [s, s1] + rest[1..];
      SentOn(s, h, frames);
    }
  }

  function AllSent(s: State, h: HandlerId, frames: seq<Frame>): State
    requires h in s.handlers
  {
    s.(handlers := s.handlers[h := s.handlers[h].(toSend := map[])], receivers := Queued(s.receivers, frames))
  }

  lemma NothingToSend(s: State, h: HandlerId)
    requires h in s.handlers && s.handlers[h].toSend == ByChannel([])
    ensures AllSent(s, h, []) == s
  {
    NothingQueued(s.receivers);
    hide Queued;
    assert s.handlers[h := s.handlers[h].(toSend := map[])] == s.handlers;
  }

  function Sent(s: State, h: HandlerId, f: Frame): State
    requires h in s.handlers
  {
    s.(handlers := s.handlers[h := s.handlers[h].(toSend := s.handlers[h].toSend - {f.channel})],
       receivers := Queued(s.receivers, [f]))
  }

  lemma SentOn(s: State, h: HandlerId, frames: seq<Frame>)
    requires h in s.handlers && frames != []
    ensures h in Sent(s, h, frames[0]).handlers
    ensures AllSent(Sent(s, h, frames[0]), h, frames[1..]) == AllSent(s, h, frames)
  {
    assert frames == [frames[0]] + frames[1..];
    QueuedTwice(s.receivers, [frames[0]], frames[1..]);
    hide Queued;
  }

  lemma SendsOne(s: State, h: HandlerId, frames: seq<Frame>)
    requires h in s.handlers && frames != [] && OneEach(frames) && s.handlers[h].toSend == ByChannel(frames)
    ensures Next(s, Sent(s, h, frames[0])) && OneEach(frames[1..]) && h in Sent(s, h, frames[0]).handlers
    ensures Sent(s, h, frames[0]).handlers[h].toSend == ByChannel(frames[1..])
  {
    var f := frames[0];
    FirstSent(frames);
    assert SendStep(s, Sent(s, h, f), h, f.channel) by {
      hide OneEach, ByChannel;
      OneQueued(s.receivers, f);
    }
  }

  lemma OneQueued(receivers: map<ReceiverId, Receiver>, f: Frame)
    ensures Queued(receivers, [f])
      == map r | r in receivers :: receivers[r].(inbox := receivers[r].inbox + multiset{f})
  {}

  lemma FirstSent(frames: seq<Frame>)
    requires frames != [] && OneEach(frames)
    ensures var f := frames[0];
      && OneEach(frames[1..]) && f.channel in ByChannel(frames) && ByChannel(frames)[f.channel] == f
      && ByChannel(frames) - {f.channel} == ByChannel(frames[1..])
  {
    var more := frames[1..];
    ByChannelHas(more);
    forall f | f in more ensures f.channel != frames[0].channel {
      NotAgain(frames, f);
    }
  }

  lemma NotAgain(frames: seq<Frame>, f: Frame)
    requires frames != [] && OneEach(frames) && f in frames[1..]
    ensures f.channel != frames[0].channel
  {
    var k :| 0 <= k < |frames| - 1 && frames[1..][k] == f;
    assert frames[k + 1] == f;
  }

  /** A handler with one mutation and its broadcast: leave, mute, or the end of a DM call. */
  lemma OneBroadcast(s: State, h: HandlerId, after: Voice, c: ChannelId, f: Frame) returns (trace: seq<State>)
    requires h !in s.handlers && IsBroadcast(after, c, f)
    requires
      || (exists u :: after == Leave(s.voice, c, u))
      || (exists u, m, v, sh :: after == SetMute(s.voice, c, u, m, v, sh))
      || (after == Clear(s.voice, c) && f.list == [])
    ensures Steps(trace) && trace[0] == s && Did(s, trace[|trace| - 1], h, after, [f])
  {
    hide IsSnapshot, Leave, SetMute, Clear;
    var s1 := s.(voice := after,
                 handlers := s.handlers[h := Handler(map[c := Frame(c, f.list, after.stamp)], NoJoin)],
                 touched := s.touched[c := after.stamp]);
    assert MutatesOnce(s, s1, h, after, c, f.list);
    assert Next(s, s1) by {
      if u :| after == Leave(s.voice, c, u) {
        assert LeaveStep(s, s1, h, c, u, f.list);
      } else if u, m, v, sh :| after == SetMute(s.voice, c, u, m, v, sh) {
        assert MuteStep(s, s1, h, c, u, m, v, sh, f.list);
      } else {
        assert ClearStep(s, s1, h, c);
      }
    }
    hide Next;
    assert ByChannel([f]) == map[c := f] by { assert [f][1..] == []; }
    var sends := SendsAll(s1, h, [f]);
    StepsOn([s, s1], sends);
    trace := [s, s1] + sends[1..];
  }

  /** The admitted half of voice.join: its frames are those of a `BeginJoinStep`, sent one by
      one, and of an `EndJoinStep`. */
  lemma JoinIsSteps(s: State, h: HandlerId, u: UserId, c: ChannelId, now: int, frames: seq<Frame>)
    returns (trace: seq<State>)
    requires h !in s.handlers
    requires JoinAnnounced(s.voice, Join(LeaveAll(s.voice, u), c, u, now), frames, u, c)
    ensures Steps(trace) && trace[0] == s
    ensures Did(s, trace[|trace| - 1], h, Join(LeaveAll(s.voice, u), c, u, now), frames)
  {
    hide IsSnapshot, LeaveAll, Join, Next, ChannelsOf, ChannelsIn, OneEach, Queued, IsBroadcast;
    var others, own := frames[..|frames| - 1], frames[|frames| - 1];
    assert frames == others + [own];
    var s1 := JoinBegins(s, h, u, c, now, frames);
    var sends := SendsAll(s1, h, others);
    var s2 := sends[|sends| - 1];
    var s3 := JoinEnds(s2, h, u, c, now, own);
    var last := SendsAll(s3, h, [own]);
    hide JoinAnnounced, ByChannel;
    StepsOn([s, s1], sends);
    var upto := [s, s1] + sends[1..];
    StepsOn([s2, s3], last);
    StepsOn(upto, [s2, s3] + last[1..]);
    trace := upto + ([s2, s3] + last[1..])[1..];
    QueuedTwice(s.receivers, others, [own]);
  }

  lemma OneByChannel(f: Frame)
    ensures OneEach([f]) && ByChannel([f]) == map[f.channel := f]
  {
    assert [f][1..] == [];
  }

  lemma JoinBegins(s: State, h: HandlerId, u: UserId, c: ChannelId, now: int, frames: seq<Frame>) returns (s1: State)
    requires h !in s.handlers
    requires JoinAnnounced(s.voice, Join(LeaveAll(s.voice, u), c, u, now), frames, u, c)
    ensures Next(s, s1) && s1.voice == LeaveAll(s.voice, u) && s1.receivers == s.receivers
    ensures s1.handlers == s.handlers[h := Handler(ByChannel(frames[..|frames| - 1]), Joins(c, u))]
  {
    hide IsSnapshot, ChannelsOf, OneEach, ByChannel, LeaveAll, Join, IsBroadcast;
    var others := frames[..|frames| - 1];
    var after, affected := LeaveAll(s.voice, u), ChannelsOf(s.voice, u);
    var lists := ListsOf(s.voice, u, c, now, frames);
    s1 := s.(voice := after,
             handlers := s.handlers[h := Handler(ByChannel(others), Joins(c, u))],
             touched := map d | d in s.touched.Keys + affected :: if d in affected then after.stamp else Touched(s, d));
    hide JoinAnnounced;
    assert BeginJoinStep(s, s1, h, c, u, lists);
  }

  /** The snapshots in the frames of the other channels. */
  lemma ListsOf(before: Voice, u: UserId, c: ChannelId, now: int, frames: seq<Frame>)
    returns (lists: map<ChannelId, seq<Participant>>)
    requires JoinAnnounced(before, Join(LeaveAll(before, u), c, u, now), frames, u, c)
    ensures var after := LeaveAll(before, u);
      && lists.Keys == ChannelsOf(before, u) - {c}
      && (forall d <- lists :: IsSnapshot(lists[d], RosterOf(after, d)))
      && ByChannel(frames[..|frames| - 1]) == map d | d in lists :: Frame(d, lists[d], after.stamp)
  {
    hide IsSnapshot, ChannelsOf, OneEach, ByChannel, LeaveAll, IsBroadcast;
    var others, after := frames[..|frames| - 1], LeaveAll(before, u);
    ByChannelHas(others);
    var frameOf := ByChannel(others);
    lists := map d | d in frameOf :: frameOf[d].list;
    OneLater(before, u);
    forall d | d in lists
      ensures d != c && frameOf[d] == Frame(d, lists[d], after.stamp) && IsSnapshot(lists[d], RosterOf(after, d))
    {
      assert d in ChannelsIn(others);
      var f :| f in others && f.channel == d;
      assert RosterOf(Join(after, c, u, now), d) == RosterOf(after, d);
    }
  }

  lemma OneLater(v: Voice, u: UserId)
    ensures LeaveAll(v, u).stamp == v.stamp + 1
  {}

  lemma JoinEnds(s: State, h: HandlerId, u: UserId, c: ChannelId, now: int, f: Frame) returns (s1: State)
    requires h in s.handlers && s.handlers[h] == Handler(map[], Joins(c, u))
    requires IsBroadcast(Join(s.voice, c, u, now), c, f)
    ensures Next(s, s1) && s1.voice == Join(s.voice, c, u, now) && s1.receivers == s.receivers
    ensures OneEach([f]) && s1.handlers == s.handlers[h := Handler(ByChannel([f]), NoJoin)]
  {
    hide IsSnapshot, Join;
    OneByChannel(f);
    var after := Join(s.voice, c, u, now);
    s1 := s.(voice := after,
             handlers := s.handlers[h := Handler(map[c := Frame(c, f.list, after.stamp)], NoJoin)],
             touched := s.touched[c := after.stamp]);
    assert EndJoinStep(s, s1, h, now, f.list);
  }

  // ----- A cleanup is a leave for each channel -----

  function LeaveEach(v: Voice, u: UserId, gone: seq<ChannelId>): Voice {
    if gone == [] then v else Leave(LeaveEach(v, u, gone[..|gone| - 1]), gone[|gone| - 1], u)
  }

  lemma LeaveElsewhere(v: Voice, c: ChannelId, u: UserId)
    ensures Leave(v, c, u).stamp == v.stamp + 1
    ensures forall d :: d != c ==> RosterOf(Leave(v, c, u), d) == RosterOf(v, d)
  {}

  lemma {:induction false} LeaveEachElsewhere(v: Voice, u: UserId, gone: seq<ChannelId>)
    ensures LeaveEach(v, u, gone).stamp == v.stamp + |gone|
    ensures forall d :: d !in gone ==> RosterOf(LeaveEach(v, u, gone), d) == RosterOf(v, d)
  {
    if gone != [] {
      hide Leave, RosterOf;
      var init, c := gone[..|gone| - 1], gone[|gone| - 1];
      assert gone == init + [c];
      LeaveEachElsewhere(v, u, init);
      LeaveElsewhere(LeaveEach(v, u, init), c, u);
    }
  }

  /** The broadcasts of a cleanup are those of one leave after the other, by the handlers
      numbered from h on. */
  lemma {:induction false} LeavesAreSteps(s: State, h: HandlerId, u: UserId, gone: seq<ChannelId>, frames: seq<Frame>)
    returns (trace: seq<State>)
    requires forall k :: h <= k < h + |gone| ==> k !in s.handlers
    requires forall i, j :: 0 <= i < j < |gone| ==> gone[i] != gone[j]
    requires EachAnnounced(s.voice, LeaveEach(s.voice, u, gone), frames, gone)
    ensures Steps(trace) && trace[0] == s
    ensures var end := trace[|trace| - 1];
      && end.voice == LeaveEach(s.voice, u, gone) && end.receivers == Queued(s.receivers, frames)
      && (forall k :: k in end.handlers <==> k in s.handlers || h <= k < h + |gone|)
      && (forall k <- end.handlers ::
            end.handlers[k] == if k in s.handlers then s.handlers[k] else Handler(map[], NoJoin))
    decreases |gone|
  {
    hide Next, Leave, EachAnnounced, IsBroadcast, Queued;
    if gone == [] {
      trace := [s];
      assert frames == [] by { NoFrames(s.voice, LeaveEach(s.voice, u, gone), frames); }
      NothingQueued(s.receivers);
    } else {
      var n := |gone| - 1;
      EachButLast(s.voice, u, gone, frames);
      var some := LeavesAreSteps(s, h, u, gone[..n], frames[..n]);
      var mid := some[|some| - 1];
      var last := OneBroadcast(mid, h + n, LeaveEach(s.voice, u, gone), gone[n], frames[n]);
      StepsOn(some, last);
      trace := some + last[1..];
      QueuedTwice(s.receivers, frames[..n], [frames[n]]);
      assert frames == frames[..n] + [frames[n]];
    }
  }

  lemma NoFrames(before: Voice, after: Voice, frames: seq<Frame>)
    requires EachAnnounced(before, after, frames, [])
    ensures frames == []
  {}

  lemma EachButLast(before: Voice, u: UserId, gone: seq<ChannelId>, frames: seq<Frame>)
    requires gone != [] && forall i, j :: 0 <= i < j < |gone| ==> gone[i] != gone[j]
    requires EachAnnounced(before, LeaveEach(before, u, gone), frames, gone)
    ensures var n := |gone| - 1;
      && |frames| == |gone| && EachAnnounced(before, LeaveEach(before, u, gone[..n]), frames[..n], gone[..n])
      && IsBroadcast(LeaveEach(before, u, gone), gone[n], frames[n])
  {
    hide IsSnapshot, Leave, RosterOf;
    var n := |gone| - 1;
    var some := LeaveEach(before, u, gone[..n]);
    LeaveEachElsewhere(before, u, gone[..n]);
    LeaveElsewhere(some, gone[n], u);
    forall k | 0 <= k < n ensures RosterOf(some, gone[k]) == RosterOf(LeaveEach(before, u, gone), gone[k]) {
      assert gone[k] != gone[n];
    }
  }
}
