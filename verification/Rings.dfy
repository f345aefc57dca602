/** DM rings: voice.ring, voice.ring_response, their timeouts, and the replay to a callee
    who connects mid-ring (internal/httpapi/ws_dispatch.go:377-498). */
module Rings {
  import opened VoiceState
  import opened Calls

  /** One pending ring. In the source a ring is known by its address; `id` stands for that. */
  datatype Ring = Ring(id: nat, caller: UserId, callee: UserId)

  /** A timer callback captures its channel and its ring. */
  datatype Callback = Callback(dm: ChannelId, ring: Ring)

  /** `rings` is the table; `timers` every timeout callback that may still run. */
  datatype RingState = RingState(rings: map<ChannelId, Ring>, timers: map<nat, Callback>, nextId: nat)

  const NO_RINGS := RingState(map[], map[], 0)

  datatype Target = Refused | Other(user: UserId)

  /** The other member of a two-person DM that u belongs to. */
  function OtherMember(cfg: Config, dm: ChannelId, u: UserId): Target {
    if dm == 0 || dm !in cfg.channels || !cfg.channels[dm].isDM then Refused
    else
      var members := cfg.channels[dm].members;
      if |members| != 2 || u !in members then Refused
      else
        SoleOther(members, u);
        var w :| w in members - {u};
        if w == 0 then Refused else Other(w)
  }

  /** Of a two-member set without one member, exactly one is left: the choice is no choice. */
  lemma SoleOther(members: set<UserId>, u: UserId)
    requires |members| == 2 && u in members
    ensures exists w :: w in members - {u}
    ensures forall w, x :: w in members - {u} && x in members - {u} ==> w == x
  {
    var rest := members - {u};
    assert |rest| == 1;
    var w := SomeMember(rest);
    assert rest == {w} by {
      assert |rest - {w}| == 0;
    }
    assert w in members - {u};
  }

  /** A DM of exactly two has for each of them the other one, and nothing else has. */
  lemma OtherMemberIs(cfg: Config, dm: ChannelId, u: UserId, w: UserId)
    ensures OtherMember(cfg, dm, u) == Other(w) <==>
      dm != 0 && dm in cfg.channels && cfg.channels[dm].isDM && cfg.channels[dm].members == {u, w} && u != w && w != 0
  {
    if dm in cfg.channels {
      var members := cfg.channels[dm].members;
      if |members| == 2 && u in members {
        SoleOther(members, u);
        var x :| x in members - {u};
        assert members == {u, x} by {
          forall y | y in members ensures y in {u, x} {
            if y != u { assert y in members - {u}; }
          }
        }
        assert members == {u, w} && u != w ==> w in members - {u};
      }
      if members == {u, w} && u != w { assert |members| == 2 && u in members; }
    }
  }

  /** Stop a ring's timer; `late` says its callback had already started. */
  function Stopped(s: RingState, dm: ChannelId, late: bool): map<nat, Callback> {
    if dm in s.rings && !late then s.timers - {s.rings[dm].id} else s.timers
  }

  /** voice.ring: cancel any ring of this DM, start a new one. */
  function OnRing(cfg: Config, s: RingState, u: UserId, dm: ChannelId, late: bool): RingState {
    match OtherMember(cfg, dm, u)
    case Refused => s
    case Other(callee) =>
      var ring := Ring(s.nextId, u, callee);
      RingState(s.rings[dm := ring], Stopped(s, dm, late)[s.nextId := Callback(dm, ring)], s.nextId + 1)
  }

  /** voice.ring_response, whether it accepts or declines. */
  function OnResponse(cfg: Config, s: RingState, u: UserId, dm: ChannelId, late: bool): RingState {
    match OtherMember(cfg, dm, u)
    case Refused => s
    case Other(_) => s.(rings := s.rings - {dm}, timers := Stopped(s, dm, late))
  }

  /** The timeout callback: it deletes the table entry only if that is its own ring. */
  function OnTimeout(s: RingState, id: nat): RingState
    requires id in s.timers
  {
    var cb := s.timers[id];
    s.(rings := if cb.dm in s.rings && s.rings[cb.dm] == cb.ring then s.rings - {cb.dm} else s.rings,
       timers := s.timers - {id})
  }

  /** Who is told voice.ring_timeout: caller and callee, even when the callback ran late. */
  function TimeoutTold(s: RingState, id: nat): seq<UserId>
    requires id in s.timers
  {
    [s.timers[id].ring.caller, s.timers[id].ring.callee]
  }

  /** What one user is sent about a DM's ring: the ring or the answer of the other member, or
      that an answer was given on another connection. */
  datatype Note = Ringing(to: UserId, caller: UserId) | Answered(to: UserId, responder: UserId) | Dismissed(to: UserId)

  /** The ring a fresh socket of its callee is shown. */
  datatype RingFrame = RingFrame(dm: ChannelId, caller: UserId)

  datatype Event =
    | Rings(user: UserId, dm: ChannelId, late: bool)
    | Responds(user: UserId, dm: ChannelId, late: bool)
    | TimesOut(id: nat)

  ghost predicate Enabled(s: RingState, e: Event) {
    e.TimesOut? ==> e.id in s.timers
  }

  function Next(cfg: Config, s: RingState, e: Event): RingState {
    match e
    case Rings(u, dm, late) => OnRing(cfg, s, u, dm, late)
    case Responds(u, dm, late) => OnResponse(cfg, s, u, dm, late)
    case TimesOut(id) => if id in s.timers then OnTimeout(s, id) else s
  }

  /** Each callback is for the ring whose id it has, ids are never reused, every ring in the
      table has its own callback still to come, and rings two members of its DM. */
  ghost predicate Inv(cfg: Config, s: RingState) {
    && (forall id <- s.timers :: s.timers[id].ring.id == id < s.nextId)
    && (forall dm <- s.rings ::
          && s.rings[dm].id in s.timers
          && s.timers[s.rings[dm].id] == Callback(dm, s.rings[dm])
          && OtherMember(cfg, dm, s.rings[dm].caller) == Other(s.rings[dm].callee))
  }

  lemma NextKeepsInv(cfg: Config, s: RingState, e: Event)
    requires Inv(cfg, s) && Enabled(s, e)
    ensures Inv(cfg, Next(cfg, s, e))
  {
    hide OtherMember;
    var after := Next(cfg, s, e);
    forall dm | dm in after.rings
      ensures after.rings[dm].id in after.timers
      ensures after.timers[after.rings[dm].id] == Callback(dm, after.rings[dm])
      ensures OtherMember(cfg, dm, after.rings[dm].caller) == Other(after.rings[dm].callee)
    {
      if dm in s.rings && after.rings[dm] == s.rings[dm] {
        assert s.timers[s.rings[dm].id] == Callback(dm, s.rings[dm]);
      }
    }
  }

  function Run(cfg: Config, es: seq<Event>): RingState {
    if es == [] then NO_RINGS else Next(cfg, Run(cfg, es[..|es| - 1]), es[|es| - 1])
  }

  ghost predicate Possible(cfg: Config, es: seq<Event>) {
    es == [] || (Possible(cfg, es[..|es| - 1]) && Enabled(Run(cfg, es[..|es| - 1]), es[|es| - 1]))
  }

  lemma {:induction false} RunKeepsInv(cfg: Config, es: seq<Event>)
    requires Possible(cfg, es)
    ensures Inv(cfg, Run(cfg, es))
  {
    if es != [] {
      RunKeepsInv(cfg, es[..|es| - 1]);
      NextKeepsInv(cfg, Run(cfg, es[..|es| - 1]), es[|es| - 1]);
    }
  }

  /** A ring leaves the table by its own timeout, by a response in its DM, or by a new ring in
      its DM, and by nothing else. */
  predicate Ends(s: RingState, e: Event, dm: ChannelId)
    requires dm in s.rings
  {
    match e
    case Rings(_, d, _) => d == dm
    case Responds(_, d, _) => d == dm
    case TimesOut(id) => id == s.rings[dm].id
  }

  /** In any reachable state a callback removes the ring it belongs to and no other: one that
      runs late, after its ring was answered or replaced, leaves the table as it is. */
  lemma LateTimeoutIsHarmless(cfg: Config, es: seq<Event>, id: nat)
    requires Possible(cfg, es) && id in Run(cfg, es).timers
    ensures var s := Run(cfg, es);
      var dm := s.timers[id].dm;
      if dm in s.rings && s.rings[dm].id == id then OnTimeout(s, id).rings == s.rings - {dm}
      else OnTimeout(s, id).rings == s.rings
  {
    RunKeepsInv(cfg, es);
  }

  /** A pending ring is still pending, unchanged, after any event that does not end it. */
  lemma RingStays(cfg: Config, es: seq<Event>, e: Event, dm: ChannelId)
    requires Possible(cfg, es) && Enabled(Run(cfg, es), e)
    requires dm in Run(cfg, es).rings && !Ends(Run(cfg, es), e, dm)
    ensures dm in Next(cfg, Run(cfg, es), e).rings
    ensures Next(cfg, Run(cfg, es), e).rings[dm] == Run(cfg, es).rings[dm]
  {
    hide OtherMember;
    RunKeepsInv(cfg, es);
  }

  /** Every pending ring's own timeout is still to come, and does remove it. */
  lemma RingTimesOut(cfg: Config, es: seq<Event>, dm: ChannelId)
    requires Possible(cfg, es) && dm in Run(cfg, es).rings
    ensures var s := Run(cfg, es);
      var id := s.rings[dm].id;
      && id in s.timers && dm !in OnTimeout(s, id).rings
      && TimeoutTold(s, id) == [s.rings[dm].caller, s.rings[dm].callee]
      && OtherMember(cfg, dm, s.rings[dm].caller) == Other(s.rings[dm].callee)
  {
    RunKeepsInv(cfg, es);
  }

  /** What a response and a new ring do to the table. */
  lemma AnsweredOrReplaced(cfg: Config, s: RingState, u: UserId, dm: ChannelId, late: bool)
    requires OtherMember(cfg, dm, u).Other?
    ensures dm !in OnResponse(cfg, s, u, dm, late).rings
    ensures var now := OnRing(cfg, s, u, dm, late).rings;
      dm in now && now[dm] == Ring(s.nextId, u, OtherMember(cfg, dm, u).user)
    ensures forall d :: d != dm && d in s.rings ==>
      && d in OnResponse(cfg, s, u, dm, late).rings && OnResponse(cfg, s, u, dm, late).rings[d] == s.rings[d]
      && d in OnRing(cfg, s, u, dm, late).rings && OnRing(cfg, s, u, dm, late).rings[d] == s.rings[d]
  {
    hide OtherMember;
  }

  // ----- Which ring is pending, told from the events alone -----

  /** A ring or a response in this DM, by one of its two members. */
  predicate Accepted(cfg: Config, e: Event, dm: ChannelId) {
    (e.Rings? || e.Responds?) && e.dm == dm && OtherMember(cfg, dm, e.user).Other?
  }

  /** The n-th event rings in this DM; no ring and no response in it comes after that, and the
      ring's own timeout has not run. */
  ghost predicate StillRings(cfg: Config, es: seq<Event>, n: int, dm: ChannelId) {
    && 0 <= n < |es| && es[n].Rings? && Accepted(cfg, es[n], dm)
    && forall k :: n < k < |es| ==> !Accepted(cfg, es[k], dm) && es[k] != TimesOut(Run(cfg, es[..n]).nextId)
  }

  ghost predicate IsRingOf(cfg: Config, es: seq<Event>, n: int, dm: ChannelId, ring: Ring) {
    && 0 <= n < |es| && es[n].Rings? && ring.id == Run(cfg, es[..n]).nextId && ring.caller == es[n].user
    && OtherMember(cfg, dm, es[n].user) == Other(ring.callee)
  }

  /** One more event. */
  lemma StillRingsOn(cfg: Config, es: seq<Event>, n: int, dm: ChannelId)
    requires es != []
    ensures var init, e := es[..|es| - 1], es[|es| - 1];
      StillRings(cfg, es, n, dm) <==>
        if n == |init| then e.Rings? && Accepted(cfg, e, dm)
        else StillRings(cfg, init, n, dm) && !Accepted(cfg, e, dm) && e != TimesOut(Run(cfg, init[..n]).nextId)
  {
    hide Accepted, Run;
    var init := es[..|es| - 1];
    if 0 <= n < |init| { assert init[..n] == es[..n]; }
    if StillRings(cfg, init, n, dm) {
      assert forall k :: n < k < |es| && es[k] != es[|es| - 1] ==> k < |init| && es[k] == init[k];
    }
    if StillRings(cfg, es, n, dm) {
      assert forall k :: 0 <= k < |init| ==> init[k] == es[k];
    }
  }

  lemma OnceRang(cfg: Config, es: seq<Event>, dm: ChannelId, n: int)
    requires es != [] && !Accepted(cfg, es[|es| - 1], dm)
    ensures StillRings(cfg, es, n, dm) ==> n < |es| - 1
    ensures StillRings(cfg, es[..|es| - 1], n, dm) ==> 0 <= n < |es| - 1
  {}

  lemma SameRing(cfg: Config, es: seq<Event>, n: nat, dm: ChannelId, ring: Ring)
    requires n < |es| - 1 && es[n].Rings?
    ensures IsRingOf(cfg, es, n, dm, ring) <==> IsRingOf(cfg, es[..|es| - 1], n, dm, ring)
    ensures es[..n] == es[..|es| - 1][..n]
  {
    assert es[..n] == es[..|es| - 1][..n];
  }

  lemma AcceptedNext(cfg: Config, s: RingState, e: Event, dm: ChannelId)
    requires Accepted(cfg, e, dm)
    ensures var after := Next(cfg, s, e).rings;
      if e.Rings? then dm in after && after[dm] == Ring(s.nextId, e.user, OtherMember(cfg, dm, e.user).user)
      else dm !in after
  {
    hide OtherMember, OnRing, OnResponse;
    AnsweredOrReplaced(cfg, s, e.user, dm, e.late);
  }

  lemma OthersLeaveIt(cfg: Config, s: RingState, e: Event, dm: ChannelId)
    requires Inv(cfg, s) && Enabled(s, e) && !Accepted(cfg, e, dm)
    ensures var after := Next(cfg, s, e).rings;
      if dm in s.rings && e == TimesOut(s.rings[dm].id) then dm !in after
      else (dm in after <==> dm in s.rings) && (dm in after ==> after[dm] == s.rings[dm])
  {
    hide OtherMember;
  }

  /** After any run a DM's ring is pending, and replayed to its callee, if and only if some
      event rang and nothing has answered, replaced or timed out that ring since: a ring once
      answered or replaced never comes back, however late its callback runs. */
  lemma {:induction false} PendingExactly(cfg: Config, es: seq<Event>, dm: ChannelId)
    requires Possible(cfg, es)
    ensures dm in Run(cfg, es).rings <==> exists n :: StillRings(cfg, es, n, dm)
    ensures forall n :: StillRings(cfg, es, n, dm) ==>
      dm in Run(cfg, es).rings && IsRingOf(cfg, es, n, dm, Run(cfg, es).rings[dm])
  {
    if es != [] {
      hide OtherMember, Inv, Accepted, StillRings, Next, IsRingOf, Enabled;
      var init, e := es[..|es| - 1], es[|es| - 1];
      PendingExactly(cfg, init, dm);
      RunKeepsInv(cfg, init);
      if Accepted(cfg, e, dm) {
        PendingAccepted(cfg, es, dm);
      } else {
        PendingOtherwise(cfg, es, dm);
      }
    }
  }

  lemma PendingAccepted(cfg: Config, es: seq<Event>, dm: ChannelId)
    requires es != [] && Accepted(cfg, es[|es| - 1], dm)
    ensures dm in Run(cfg, es).rings <==> exists n :: StillRings(cfg, es, n, dm)
    ensures forall n :: StillRings(cfg, es, n, dm) ==>
      dm in Run(cfg, es).rings && IsRingOf(cfg, es, n, dm, Run(cfg, es).rings[dm])
  {
    hide OtherMember, StillRings, Next;
    var last := |es| - 1;
    AcceptedNext(cfg, Run(cfg, es[..last]), es[last], dm);
    forall n ensures StillRings(cfg, es, n, dm) <==> n == last && es[last].Rings? {
      StillRingsOn(cfg, es, n, dm);
    }
    if es[last].Rings? { assert StillRings(cfg, es, last, dm); }
  }

  lemma PendingOtherwise(cfg: Config, es: seq<Event>, dm: ChannelId)
    requires es != [] && !Accepted(cfg, es[|es| - 1], dm)
    requires var init := es[..|es| - 1]; Inv(cfg, Run(cfg, init)) && Enabled(Run(cfg, init), es[|es| - 1])
    requires var init := es[..|es| - 1];
      && (dm in Run(cfg, init).rings <==> exists n :: StillRings(cfg, init, n, dm))
      && forall n :: StillRings(cfg, init, n, dm) ==>
           dm in Run(cfg, init).rings && IsRingOf(cfg, init, n, dm, Run(cfg, init).rings[dm])
    ensures dm in Run(cfg, es).rings <==> exists n :: StillRings(cfg, es, n, dm)
    ensures forall n :: StillRings(cfg, es, n, dm) ==>
      dm in Run(cfg, es).rings && IsRingOf(cfg, es, n, dm, Run(cfg, es).rings[dm])
  {
    hide OtherMember, StillRings, Next, Inv, Enabled, Accepted;
    var init, e := es[..|es| - 1], es[|es| - 1];
    var s := Run(cfg, init);
    OthersLeaveIt(cfg, s, e, dm);
    forall n
      ensures StillRings(cfg, es, n, dm) <==>
        StillRings(cfg, init, n, dm) && !(dm in s.rings && e == TimesOut(s.rings[dm].id))
      ensures StillRings(cfg, init, n, dm) ==> IsRingOf(cfg, es, n, dm, s.rings[dm])
    {
      StillRingsOn(cfg, es, n, dm);
      OnceRang(cfg, es, dm, n);
      if StillRings(cfg, init, n, dm) { SameRing(cfg, es, n, dm, s.rings[dm]); }
    }
  }
}
