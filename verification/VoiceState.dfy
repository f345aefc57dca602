/** Voice rosters as values: what each hub mutation in internal/ws/hub.go does to them. */
module VoiceState {

  type ChannelId = int
  type UserId = int

  /** One user in a voice channel. `joinedAt` is the clock reading at the join. */
  datatype Participant =
    Participant(userId: UserId, joinedAt: int, muted: bool, videoMuted: bool, sharing: bool)

  type Roster = map<UserId, Participant>

  /** The rosters, and the counter stamped on every broadcast. */
  datatype Voice = Voice(channels: map<ChannelId, Roster>, stamp: nat)

  const EMPTY_VOICE := Voice(map[], 0)

  /** A voice.state broadcast. */
  datatype Frame = Frame(channel: ChannelId, list: seq<Participant>, stamp: nat)

  function RosterOf(v: Voice, c: ChannelId): Roster {
    if c in v.channels then v.channels[c] else map[]
  }

  /** Store roster r for channel c, or forget the channel when nobody is left. */
  function Put(channels: map<ChannelId, Roster>, c: ChannelId, r: Roster): map<ChannelId, Roster> {
    if r == map[] then channels - {c} else channels[c := r]
  }

  function Joined(r: Roster, u: UserId, now: int): Roster {
    if u in r then r else r[u := Participant(u, now, false, true, false)]
  }

  function Join(v: Voice, c: ChannelId, u: UserId, now: int): Voice {
    Voice(v.channels[c := Joined(RosterOf(v, c), u, now)], v.stamp + 1)
  }

  function Leave(v: Voice, c: ChannelId, u: UserId): Voice {
    Voice(if c in v.channels then Put(v.channels, c, v.channels[c] - {u}) else v.channels, v.stamp + 1)
  }

  function Flagged(r: Roster, u: UserId, muted: bool, videoMuted: bool, sharing: bool): Roster {
    if u in r then r[u := r[u].(muted := muted, videoMuted := videoMuted, sharing := sharing)] else r
  }

  function SetMute(v: Voice, c: ChannelId, u: UserId, muted: bool, videoMuted: bool, sharing: bool): Voice {
    var flagged := Flagged(RosterOf(v, c), u, muted, videoMuted, sharing);
    Voice(if c in v.channels then v.channels[c := flagged] else v.channels, v.stamp + 1)
  }

  function Clear(v: Voice, c: ChannelId): Voice {
    Voice(v.channels - {c}, v.stamp + 1)
  }

  /** The channels user u is listed in. */
  function ChannelsOf(v: Voice, u: UserId): set<ChannelId> {
    set c | c in v.channels && u in v.channels[c]
  }

  /** Remove u from the channels in `from` only, forgetting those left empty. */
  function Removed(channels: map<ChannelId, Roster>, u: UserId, from: set<ChannelId>): map<ChannelId, Roster> {
    map c | c in channels && !(c in from && u in channels[c] && channels[c] - {u} == map[])
      :: if c in from then channels[c] - {u} else channels[c]
  }

  function LeaveAll(v: Voice, u: UserId): Voice {
    Voice(Removed(v.channels, u, v.channels.Keys), v.stamp + 1)
  }

  /** Taking u out of one more channel. */
  lemma RemovedOneMore(all: map<ChannelId, Roster>, u: UserId, done: set<ChannelId>, c: ChannelId)
    requires c in all && c !in done
    ensures var now := Removed(all, u, done);
      && c in now && now[c] == all[c]
      && Removed(all, u, done + {c}) == if u in all[c] then Put(now, c, all[c] - {u}) else now
  {
    var now := Removed(all, u, done);
    var next := Removed(all, u, done + {c});
    if u !in all[c] {
      assert all[c] - {u} == all[c];
    }
    assert next == if u in all[c] then Put(now, c, all[c] - {u}) else now;
  }

  lemma LeaveAllRosters(v: Voice, u: UserId, c: ChannelId)
    ensures RosterOf(LeaveAll(v, u), c) == RosterOf(v, c) - {u}
  {
    if c in v.channels && u !in v.channels[c] {
      assert v.channels[c] - {u} == v.channels[c];
    }
  }

  function CamerasOn(r: Roster): set<UserId> {
    set u | u in r && !r[u].videoMuted
  }

  // ----- Snapshots -----

  predicate SortedByJoin(list: seq<Participant>) {
    forall i, j :: 0 <= i < j < |list| ==> list[i].joinedAt <= list[j].joinedAt
  }

  function ToRoster(list: seq<Participant>): Roster {
    if list == [] then map[] else ToRoster(list[1..])[list[0].userId := list[0]]
  }

  /** A list that shows exactly roster r: each participant once, in join order. Ties may
      come in any order, as sort.Slice is not stable and map iteration is random. */
  predicate IsSnapshot(list: seq<Participant>, r: Roster) {
    SortedByJoin(list) && ToRoster(list) == r && |list| == |r|
  }

  /** Who a snapshot lists is who the roster holds, with the same flags. */
  lemma {:induction false} SnapshotMembers(list: seq<Participant>, r: Roster, u: UserId)
    requires ToRoster(list) == r
    ensures u in r ==> r[u] in list && r[u].userId == u
  {
    if list != [] && u in r && list[0].userId != u {
      SnapshotMembers(list[1..], ToRoster(list[1..]), u);
    }
  }

  ghost predicate Keyed(r: Roster) {
    forall u <- r :: r[u].userId == u
  }

  /** Every key of every roster is the participant's own id, as each mutation keeps it. */
  ghost predicate WellKeyed(channels: map<ChannelId, Roster>) {
    forall c <- channels :: Keyed(channels[c])
  }

  /** Insert p where the join order puts it. */
  function InsertByJoin(list: seq<Participant>, p: Participant): seq<Participant> {
    if list == [] || p.joinedAt < list[0].joinedAt then [p] + list
    else [list[0]] + InsertByJoin(list[1..], p)
  }

  lemma {:induction false} InsertKeepsSnapshot(list: seq<Participant>, p: Participant)
    requires SortedByJoin(list) && p.userId !in ToRoster(list)
    ensures SortedByJoin(InsertByJoin(list, p))
    ensures ToRoster(InsertByJoin(list, p)) == ToRoster(list)[p.userId := p]
    ensures |InsertByJoin(list, p)| == |list| + 1
    ensures forall q <- InsertByJoin(list, p) :: q == p || q in list
  {
    var r := InsertByJoin(list, p);
    if list == [] || p.joinedAt < list[0].joinedAt {
      assert r[1..] == list;
    } else {
      var first, rest := list[0], list[1..];
      var more := InsertByJoin(rest, p);
      InsertKeepsSnapshot(rest, p);
      assert list == [first] + rest && r == [first] + more;
      SortedFirst(first, more) by {
        assert forall q <- more :: q == p || q in rest;
        assert forall q <- rest :: exists k :: 0 < k < |list| && list[k] == q;
      }
      InAnyOrder(ToRoster(rest), p.userId, p, first.userId, first);
    }
  }

  lemma SortedFirst(first: Participant, more: seq<Participant>)
    requires SortedByJoin(more) && forall q <- more :: first.joinedAt <= q.joinedAt
    ensures SortedByJoin([first] + more) && ToRoster([first] + more) == ToRoster(more)[first.userId := first]
  {
    assert ([first] + more)[1..] == more;
  }

  lemma InAnyOrder(r: Roster, u: UserId, p: Participant, w: UserId, q: Participant)
    requires u != w
    ensures r[u := p][w := q] == r[w := q][u := p]
  {}
}
