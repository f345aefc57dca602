/** Who is online and who is idle, over whole runs of connects and disconnects. */
module Presence {
  import opened VoiceState

  type ClientId = int

  /** A user's live connections, each with its own idle flag. */
  type Connections = map<ClientId, bool>

  type Online = map<UserId, Connections>

  ghost predicate NoEmptyEntry(o: Online) {
    forall u <- o :: o[u] != map[]
  }

  /** Idle means: at least one connection, and every one of them idle. */
  ghost predicate EffectiveIdle(o: Online, u: UserId) {
    u in o && o[u] != map[] && forall c <- o[u] :: o[u][c]
  }

  function Added(o: Online, u: UserId, c: ClientId): Online {
    o[u := (if u in o then o[u] else map[])[c := false]]
  }

  function Dropped(o: Online, u: UserId, c: ClientId): Online {
    if u !in o then o
    else if o[u] - {c} == map[] then o - {u}
    else o[u := o[u] - {c}]
  }

  function Marked(o: Online, u: UserId, c: ClientId, idle: bool): Online {
    if u in o && c in o[u] then o[u := o[u][c := idle]] else o
  }

  // ----- Runs -----

  datatype Event =
    | Connect(user: UserId, client: ClientId)
    | Disconnect(user: UserId, client: ClientId)
    | SetIdle(user: UserId, client: ClientId, idle: bool)

  function Step(o: Online, e: Event): Online {
    match e
    case Connect(u, c) => Added(o, u, c)
    case Disconnect(u, c) => Dropped(o, u, c)
    case SetIdle(u, c, idle) => Marked(o, u, c, idle)
  }

  /** What the hub's methods report about the user of event e. */
  ghost predicate FirstReported(o: Online, e: Event) {
    e.Connect? && e.user !in o
  }

  ghost predicate LastReported(o: Online, e: Event) {
    e.Disconnect? && e.user in o && e.user !in Step(o, e)
  }

  ghost predicate IdleChangeReported(o: Online, e: Event) {
    !LastReported(o, e) && EffectiveIdle(o, e.user) != EffectiveIdle(Step(o, e), e.user)
  }

  function Run(o: Online, es: seq<Event>): Online
    decreases |es|
  {
    if es == [] then o else Step(Run(o, es[..|es| - 1]), es[|es| - 1])
  }

  /** "First connection" reports for u so far, less "last connection" reports. */
  ghost function Balance(o: Online, es: seq<Event>, u: UserId): int
    decreases |es|
  {
    if es == [] then 0
    else
      var before, e := Run(o, es[..|es| - 1]), es[|es| - 1];
      Balance(o, es[..|es| - 1], u)
      + (if e.user == u && FirstReported(before, e) then 1 else 0)
      - (if e.user == u && LastReported(before, e) then 1 else 0)
  }

  /** The idle state an observer keeps by flipping on each reported change and clearing
      on each "last connection" report. */
  ghost function ObservedIdle(o: Online, es: seq<Event>, u: UserId): bool
    decreases |es|
  {
    if es == [] then false
    else
      var before, e := Run(o, es[..|es| - 1]), es[|es| - 1];
      var view := ObservedIdle(o, es[..|es| - 1], u);
      if e.user != u then view
      else if LastReported(before, e) then false
      else if IdleChangeReported(before, e) then !view
      else view
  }

  lemma StepKeepsEntries(o: Online, e: Event)
    requires NoEmptyEntry(o)
    ensures NoEmptyEntry(Step(o, e))
    ensures forall u :: u != e.user ==>
      (u in Step(o, e) <==> u in o) && EffectiveIdle(Step(o, e), u) == EffectiveIdle(o, u)
  {
    var next := Step(o, e);
    match e
    case Connect(u, c) => assert c in next[u];
    case Disconnect(u, c) =>
    case SetIdle(u, c, idle) => assert u in o && c in o[u] ==> c in next[u];
  }

  /** For every run, whatever the order of events: first and last reports alternate, since
      after every prefix their balance is 1 when the user holds a connection and 0 when not;
      and the reported idle changes add up to exactly the effective idle state. */
  lemma {:induction false} ReportsMatchConnections(es: seq<Event>, u: UserId)
    ensures NoEmptyEntry(Run(map[], es))
    ensures Balance(map[], es, u) == if u in Run(map[], es) then 1 else 0
    ensures ObservedIdle(map[], es, u) == EffectiveIdle(Run(map[], es), u)
    decreases |es|
  {
    if es != [] {
      var prefix, e := es[..|es| - 1], es[|es| - 1];
      ReportsMatchConnections(prefix, u);
      var before := Run(map[], prefix);
      StepKeepsEntries(before, e);
      if e.user == u && e.Connect? {
        assert e.client in Step(before, e)[u] && !Step(before, e)[u][e.client];
      }
    }
  }

  // ----- One connection -----

  predicate Has(o: Online, u: UserId, c: ClientId) {
    u in o && c in o[u]
  }

  /** The event is about this very connection. */
  predicate About(e: Event, u: UserId, c: ClientId) {
    e.user == u && e.client == c
  }

  /** What one event does to each connection: it is there if it was just made, or was there and
      was not just ended; a fresh one is active, a marked one as it was marked, and any other
      keeps its mark. */
  lemma ConnectionAfter(o: Online, e: Event, u: UserId, c: ClientId)
    ensures Has(Step(o, e), u, c) <==>
      (e.Connect? && About(e, u, c)) || (Has(o, u, c) && !(e.Disconnect? && About(e, u, c)))
    ensures Has(Step(o, e), u, c) ==>
      Step(o, e)[u][c] ==
        if e.Connect? && About(e, u, c) then false
        else if e.SetIdle? && About(e, u, c) then e.idle
        else o[u][c]
  {
    if e.Disconnect? && e.user == u && Has(o, u, c) && c != e.client {
      assert c in o[u] - {e.client};
    }
  }

  /** The last event about the connection, the marks of one that is not there left out. */
  ghost predicate LastAbout(es: seq<Event>, j: int, u: UserId, c: ClientId) {
    0 <= j < |es| && About(es[j], u, c) && forall k :: j < k < |es| ==> !About(es[k], u, c)
  }

  /** A connection that is there, after any run: the last event about it made it, and then it is
      active, or marked it, and then it is as marked. One that is not there was never made, or
      the last event about it other than marks ended it. */
  lemma {:induction false} ConnectionIsSaid(es: seq<Event>, u: UserId, c: ClientId) returns (j: int)
    ensures Has(Run(map[], es), u, c) ==>
      LastAbout(es, j, u, c) && !es[j].Disconnect?
      && Run(map[], es)[u][c] == (es[j].SetIdle? && es[j].idle)
    ensures !Has(Run(map[], es), u, c) ==>
      -1 <= j < |es| && (j >= 0 ==> About(es[j], u, c) && es[j].Disconnect?)
      && forall k :: j < k < |es| && About(es[k], u, c) ==> es[k].SetIdle?
    decreases |es|
  {
    j := -1;
    if es != [] {
      var n := |es| - 1;
      var e := es[n];
      ConnectionAfter(Run(map[], es[..n]), e, u, c);
      j := ConnectionIsSaid(es[..n], u, c);
      if About(e, u, c) && (!e.SetIdle? || Has(Run(map[], es[..n]), u, c)) { j := n; }
      hide Step;
    }
  }
}
