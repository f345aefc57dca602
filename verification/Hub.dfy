/** The hub of internal/ws/hub.go: connections, presence, and voice rosters.
    A mutex makes each method one atomic step, so each is proved as one. */
module Hubs {
  import opened VoiceState
  import opened Presence

  /** Ranging over a Go map: the next key is an arbitrary one. */
  method Pick<T(==)>(keys: set<T>) returns (k: T)
    requires keys != {}
    ensures k in keys
  {
    k :| k in keys;
  }

  lemma OneMore(m: Roster, left: set<UserId>, u: UserId)
    requires u in left && left <= m.Keys
    ensures m - (left - {u}) == (m - left)[u := m[u]]
    ensures u !in m - left && |m - (left - {u})| == |m - left| + 1
  {
    var a, b := m - left, m - (left - {u});
    assert b == a[u := m[u]];
    assert b.Keys == a.Keys + {u};
  }

  lemma NothingRemoved(all: map<ChannelId, Roster>, u: UserId)
    ensures Removed(all, u, {}) == all
  {}

  lemma AffectedAre(all: map<ChannelId, Roster>, u: UserId, affected: set<ChannelId>)
    requires forall c :: c in affected <==> c in all && u in all[c]
    ensures forall stamp: nat :: affected == ChannelsOf(Voice(all, stamp), u)
  {
    forall stamp: nat ensures affected == ChannelsOf(Voice(all, stamp), u) {
      assert forall c :: c in affected <==> c in ChannelsOf(Voice(all, stamp), u);
    }
  }

  lemma PutElsewhere(channels: map<ChannelId, Roster>, c: ChannelId, r: Roster)
    ensures var next := Put(channels, c, r);
      forall x :: x != c ==> (x in next <==> x in channels) && (x in next ==> next[x] == channels[x])
  {}

  lemma StillKeyed(channels: map<ChannelId, Roster>, gone: set<ChannelId>)
    requires WellKeyed(channels)
    ensures WellKeyed(channels - gone)
  {}

  lemma Nobody()
    ensures IsSnapshot([], map[])
  {}

  lemma CamerasAre(m: Roster, counted: set<UserId>, filming: set<UserId>, exclude: UserId)
    requires forall u :: u in counted <==> u in m && u != exclude
    requires forall u :: u in filming <==> u in counted && !m[u].videoMuted
    ensures counted == m.Keys - {exclude} && filming == CamerasOn(m) - {exclude}
  {
    assert forall u :: u in counted <==> u in m.Keys - {exclude};
    assert forall u :: u in filming <==> u in CamerasOn(m) - {exclude};
  }

  class Hub {
    var byUser: map<UserId, Connections>
    var voiceChannels: map<ChannelId, Roster>
    var voiceSeq: nat

    ghost function State(): Voice
      reads this
    {
      Voice(voiceChannels, voiceSeq)
    }

    /** Every roster is keyed by its participants' own ids; no user entry is empty. */
    ghost predicate Valid()
      reads this
    {
      WellKeyed(voiceChannels) && NoEmptyEntry(byUser)
    }

    constructor ()
      ensures Valid() && State() == EMPTY_VOICE && byUser == map[]
    {
      byUser, voiceChannels, voiceSeq := map[], map[], 0;
    }

    // ----- Presence -----

    /** `userIdleLocked`. */
    method UserIdle(u: UserId) returns (idle: bool)
      ensures idle == EffectiveIdle(byUser, u)
    {
      if u !in byUser || |byUser[u]| == 0 { return false; }
      var conns := byUser[u];
      var left := conns.Keys;
      while left != {}
        invariant left <= conns.Keys
        invariant forall c | c in conns.Keys - left :: conns[c]
        decreases |left|
      {
        var c := Pick(left);
        if !conns[c] { return false; }
        left := left - {c};
      }
      return true;
    }

    /** `add`: a fresh connection starts active. */
    method Add(u: UserId, c: ClientId) returns (firstForUser: bool, idleChanged: bool)
      requires Valid()
      modifies this`byUser
      ensures Valid()
      ensures byUser == Added(old(byUser), u, c)
      ensures firstForUser == (u !in old(byUser))
      ensures idleChanged == (EffectiveIdle(old(byUser), u) != EffectiveIdle(byUser, u))
    {
      firstForUser := u !in byUser;
      var before := UserIdle(u);
      var conns: Connections := if u in byUser then byUser[u] else map[];
      byUser := byUser[u := conns[c := false]];
      assert c in byUser[u];
      var after := UserIdle(u);
      idleChanged := before != after;
    }

    /** `remove`. */
    method Remove(u: UserId, c: ClientId) returns (lastForUser: bool, idleChanged: bool)
      requires Valid()
      modifies this`byUser
      ensures Valid()
      ensures byUser == Dropped(old(byUser), u, c)
      ensures lastForUser == (u in old(byUser) && u !in byUser)
      ensures idleChanged == (!lastForUser && EffectiveIdle(old(byUser), u) != EffectiveIdle(byUser, u))
    {
      if u !in byUser { return false, false; }
      var before := UserIdle(u);
      var conns := byUser[u] - {c};
      if |conns| == 0 {
        byUser := byUser - {u};
        return true, false;
      }
      byUser := byUser[u := conns];
      var after := UserIdle(u);
      return false, before != after;
    }

    /** `SetClientIdle`. */
    method SetClientIdle(u: UserId, c: ClientId, idle: bool) returns (changed: bool)
      requires Valid()
      modifies this`byUser
      ensures Valid()
      ensures byUser == Marked(old(byUser), u, c, idle)
      ensures changed == (EffectiveIdle(old(byUser), u) != EffectiveIdle(byUser, u))
    {
      var before := UserIdle(u);
      if u in byUser && c in byUser[u] {
        byUser := byUser[u := byUser[u][c := idle]];
        assert c in byUser[u];
      }
      var after := UserIdle(u);
      changed := before != after;
    }

    // ----- Voice -----

    /** `voiceList`: copy the roster in map order, sorted by join time. */
    method VoiceList(m: Roster) returns (list: seq<Participant>)
      requires Keyed(m)
      ensures IsSnapshot(list, m)
    {
      hide InsertByJoin, ToRoster, SortedByJoin;
      list := [];
      Nobody();
      assert m - m.Keys == map[];
      var left := m.Keys;
      while left != {}
        invariant left <= m.Keys
        invariant IsSnapshot(list, m - left)
        decreases |left|
      {
        var u := Pick(left);
        OneMore(m, left, u);
        InsertKeepsSnapshot(list, m[u]);
        list := InsertByJoin(list, m[u]);
        left := left - {u};
      }
      assert m - {} == m;
    }

    /** `VoiceJoin`. */
    method VoiceJoin(c: ChannelId, u: UserId, now: int) returns (list: seq<Participant>, stamp: nat)
      requires Valid()
      modifies this`voiceChannels, this`voiceSeq
      ensures Valid()
      ensures State() == Join(old(State()), c, u, now)
      ensures var r := RosterOf(old(State()), c);
        RosterOf(State(), c) == if u in r then r else r[u := Participant(u, now, false, true, false)]
      ensures IsSnapshot(list, RosterOf(State(), c)) && stamp == State().stamp
    {
      var m: Roster := if c in voiceChannels then voiceChannels[c] else map[];
      if u !in m {
        m := m[u := Participant(u, now, false, true, false)];
      }
      voiceChannels := voiceChannels[c := m];
      voiceSeq := voiceSeq + 1;
      list := VoiceList(voiceChannels[c]);
      stamp := voiceSeq;
    }

    /** Remove u from one roster, and the roster with it when that empties it. */
    method TakeOut(c: ChannelId, u: UserId)
      requires Valid() && c in voiceChannels
      modifies this`voiceChannels
      ensures Valid() && voiceChannels == Put(old(voiceChannels), c, old(voiceChannels)[c] - {u})
    {
      var m := voiceChannels[c] - {u};
      if |m| == 0 {
        voiceChannels := voiceChannels - {c};
      } else {
        voiceChannels := voiceChannels[c := m];
      }
    }

    /** `VoiceLeave`. */
    method VoiceLeave(c: ChannelId, u: UserId) returns (list: seq<Participant>, stamp: nat)
      requires Valid()
      modifies this`voiceChannels, this`voiceSeq
      ensures Valid()
      ensures State() == Leave(old(State()), c, u)
      ensures IsSnapshot(list, RosterOf(State(), c)) && stamp == State().stamp
    {
      if c in voiceChannels {
        TakeOut(c, u);
      }
      voiceSeq := voiceSeq + 1;
      list := VoiceList(if c in voiceChannels then voiceChannels[c] else map[]);
      stamp := voiceSeq;
    }

    /** `VoiceSetMute`. */
    method VoiceSetMute(c: ChannelId, u: UserId, muted: bool, videoMuted: bool, sharing: bool)
      returns (list: seq<Participant>, stamp: nat)
      requires Valid()
      modifies this`voiceChannels, this`voiceSeq
      ensures Valid()
      ensures State() == SetMute(old(State()), c, u, muted, videoMuted, sharing)
      ensures var r := RosterOf(old(State()), c);
        RosterOf(State(), c) ==
          if u in r then r[u := Participant(r[u].userId, r[u].joinedAt, muted, videoMuted, sharing)] else r
      ensures IsSnapshot(list, RosterOf(State(), c)) && stamp == State().stamp
    {
      if c in voiceChannels {
        var m := voiceChannels[c];
        if u in m {
          m := m[u := m[u].(muted := muted, videoMuted := videoMuted, sharing := sharing)];
        }
        voiceChannels := voiceChannels[c := m];
      }
      voiceSeq := voiceSeq + 1;
      list := VoiceList(if c in voiceChannels then voiceChannels[c] else map[]);
      stamp := voiceSeq;
    }

    /** `VoiceClear`: returns everyone who was in the channel, in map order. */
    method VoiceClear(c: ChannelId) returns (ids: seq<UserId>, stamp: nat)
      requires Valid()
      modifies this`voiceChannels, this`voiceSeq
      ensures Valid()
      ensures State() == Clear(old(State()), c) && stamp == State().stamp
      ensures forall u :: u in ids <==> u in RosterOf(old(State()), c)
      ensures |ids| == |RosterOf(old(State()), c)|
    {
      ids := [];
      var m: Roster := if c in voiceChannels then voiceChannels[c] else map[];
      var left := m.Keys;
      while left != {}
        invariant left <= m.Keys
        invariant forall u :: u in ids <==> u in m && u !in left
        invariant |ids| + |left| == |m|
        invariant unchanged(this)
        decreases |left|
      {
        var u := Pick(left);
        ids := ids + [u];
        left := left - {u};
      }
      StillKeyed(voiceChannels, {c});
      voiceChannels := voiceChannels - {c};
      voiceSeq := voiceSeq + 1;
      stamp := voiceSeq;
    }

    /** `VoiceCounts`: everyone but `exclude`, and those of them with a camera on. */
    method VoiceCounts(c: ChannelId, exclude: UserId) returns (total: nat, videoOn: nat)
      ensures total == |RosterOf(State(), c).Keys - {exclude}|
      ensures videoOn == |CamerasOn(RosterOf(State(), c)) - {exclude}|
    {
      hide CamerasOn;
      total, videoOn := 0, 0;
      var m: Roster := if c in voiceChannels then voiceChannels[c] else map[];
      var left := m.Keys;
      ghost var counted: set<UserId>, filming: set<UserId> := {}, {};
      while left != {}
        invariant left <= m.Keys
        invariant forall u :: u in counted <==> u in m && u !in left && u != exclude
        invariant forall u :: u in filming <==> u in counted && !m[u].videoMuted
        invariant total == |counted| && videoOn == |filming|
        decreases |left|
      {
        var u := Pick(left);
        left := left - {u};
        if u == exclude { continue; }
        total := total + 1;
        counted := counted + {u};
        if !m[u].videoMuted {
          videoOn := videoOn + 1;
          filming := filming + {u};
        }
      }
      CamerasAre(m, counted, filming, exclude);
    }

    /** `VoiceLeaveAll`: one stamp for every roster the user is taken out of. */
    method VoiceLeaveAll(u: UserId) returns (affected: map<ChannelId, seq<Participant>>, stamp: nat)
      requires Valid()
      modifies this`voiceChannels, this`voiceSeq
      ensures Valid()
      ensures State() == LeaveAll(old(State()), u) && stamp == State().stamp
      ensures affected.Keys == ChannelsOf(old(State()), u)
      ensures forall c <- affected :: IsSnapshot(affected[c], RosterOf(State(), c))
    {
      hide IsSnapshot, Removed, Put;
      affected := map[];
      ghost var all := voiceChannels;
      var left := voiceChannels.Keys;
      ghost var done: set<ChannelId> := {};
      NothingRemoved(all, u);
      while left != {}
        invariant left == all.Keys - done && done <= all.Keys && Valid()
        invariant voiceChannels == Removed(all, u, done)
        invariant forall c :: c in affected <==> c in done && u in all[c]
        invariant forall c <- affected :: IsSnapshot(affected[c], RosterOf(State(), c))
        invariant voiceSeq == old(voiceSeq) && byUser == old(byUser)
        decreases |left|
      {
        var c := Pick(left);
        RemovedOneMore(all, u, done, c);
        left := left - {c};
        done := done + {c};
        if u !in voiceChannels[c] { continue; }
        affected := LeaveOneMore(c, u, affected);
      }
      assert done == all.Keys;
      AffectedAre(all, u, affected.Keys);
      voiceSeq := voiceSeq + 1;
      stamp := voiceSeq;
    }

    /** That loop's body: leave one roster and note what is left of it. */
    method LeaveOneMore(c: ChannelId, u: UserId, sofar: map<ChannelId, seq<Participant>>)
      returns (affected: map<ChannelId, seq<Participant>>)
      requires Valid() && c in voiceChannels && u in voiceChannels[c] && c !in sofar
      requires forall x <- sofar :: IsSnapshot(sofar[x], RosterOf(State(), x))
      modifies this`voiceChannels
      ensures Valid() && voiceChannels == Put(old(voiceChannels), c, old(voiceChannels)[c] - {u})
      ensures affected.Keys == sofar.Keys + {c}
      ensures forall x <- affected :: IsSnapshot(affected[x], RosterOf(State(), x))
    {
      hide IsSnapshot, Put;
      PutElsewhere(voiceChannels, c, voiceChannels[c] - {u});
      TakeOut(c, u);
      var list := VoiceList(if c in voiceChannels then voiceChannels[c] else map[]);
      affected := sofar[c := list];
    }

    /** `VoiceChannelsForUser`: a snapshot of every channel the user is listed in. */
    method VoiceChannelsForUser(u: UserId) returns (out: map<ChannelId, seq<Participant>>)
      requires Valid()
      ensures out.Keys == ChannelsOf(State(), u)
      ensures forall c <- out :: IsSnapshot(out[c], RosterOf(State(), c))
    {
      hide IsSnapshot;
      out := map[];
      var left := voiceChannels.Keys;
      while left != {}
        invariant left <= voiceChannels.Keys
        invariant out.Keys == set c | c in voiceChannels.Keys - left && u in voiceChannels[c]
        invariant forall c <- out :: IsSnapshot(out[c], voiceChannels[c])
        decreases |left|
      {
        var c := Pick(left);
        left := left - {c};
        if u in voiceChannels[c] {
          var list := VoiceList(voiceChannels[c]);
          out := out[c := list];
        }
      }
    }

    method VoiceHasUser(c: ChannelId, u: UserId) returns (r: bool)
      ensures r == (u in RosterOf(State(), c))
    {
      r := c in voiceChannels && u in voiceChannels[c];
    }
  }
}
