/** `createUndoHistory` of web/static/composer-richtext.js: a bounded, coalescing undo stack. */
module UndoStack {
  import opened Basics

  datatype Snapshot = Snapshot(value: string, start: int, end: int)

  /** When the last recorded edit happened; Never stands for -Infinity. */
  datatype Time = Never | At(ms: int)

  const BLANK := Snapshot("", 0, 0)

  // ----- What a history is: a past, a present and a future -----

  datatype Zipper = Zipper(past: seq<Snapshot>, present: Snapshot, future: seq<Snapshot>) {
    function Size(): nat {
      |past| + 1 + |future|
    }
  }

  /** A history and its coalescing clock. */
  datatype History = History(z: Zipper, last: Time)

  predicate IsAppend(before: string, now: string) {
    |now| > |before| && now[..|before|] == before
  }

  predicate Recent(last: Time, now: int, coalesceMs: int) {
    last.At? && now - last.ms < coalesceMs
  }

  /** A new step: the present becomes past, the future is gone, the oldest may drop off. */
  function Fresh(z: Zipper, s: Snapshot, limit: nat): Zipper {
    var past := z.past + [z.present];
    Zipper(if |past| + 1 > limit then past[1..] else past, s, [])
  }

  predicate Coalesces(h: History, s: Snapshot, now: int, force: bool, coalesceMs: int) {
    !force && h.z.future == [] && Recent(h.last, now, coalesceMs) && IsAppend(h.z.present.value, s.value)
  }

  function Recorded(h: History, s: Snapshot, now: int, force: bool, limit: nat, coalesceMs: int): History {
    if s.value == h.z.present.value then History(h.z.(present := s), h.last)
    else if Coalesces(h, s, now, force, coalesceMs) then History(h.z.(present := s), At(now))
    else History(Fresh(h.z, s, limit), At(now))
  }

  function UndoOne(z: Zipper): Zipper {
    if z.past == [] then z
    else Zipper(z.past[..|z.past| - 1], z.past[|z.past| - 1], [z.present] + z.future)
  }

  function RedoOne(z: Zipper): Zipper {
    if z.future == [] then z else Zipper(z.past + [z.present], z.future[0], z.future[1..])
  }

  // ----- The array and index -----

  function View(entries: seq<Snapshot>, index: nat): Zipper
    requires index < |entries|
  {
    Zipper(entries[..index], entries[index], entries[index + 1..])
  }

  lemma ViewAt(entries: seq<Snapshot>, index: nat)
    requires index < |entries|
    ensures View(entries, index).present == entries[index]
    ensures View(entries, index).future == [] <==> index == |entries| - 1
  {}

  lemma ViewReplaced(entries: seq<Snapshot>, index: nat, s: Snapshot)
    requires index < |entries|
    ensures View(entries[index := s], index) == View(entries, index).(present := s)
  {}

  lemma ViewFresh(entries: seq<Snapshot>, index: nat, s: Snapshot, limit: nat)
    requires index < |entries|
    ensures var grown := entries[..index + 1] + [s];
      var kept := if |grown| > limit then grown[1..] else grown;
      View(kept, |kept| - 1) == Fresh(View(entries, index), s, limit)
  {
    assert entries[..index + 1] == entries[..index] + [entries[index]];
  }

  class UndoHistory {
    const limit: nat
    const coalesceMs: int
    var entries: seq<Snapshot>
    var index: nat
    var lastTime: Time

    ghost predicate Valid()
      reads this
    {
      index < |entries| && |entries| <= Max(limit, 1)
    }

    ghost function Now(): History
      requires Valid()
      reads this
    {
      History(View(entries, index), lastTime)
    }

    constructor (limit: nat := 250, coalesceMs: int := 400)
      ensures Valid() && this.limit == limit && this.coalesceMs == coalesceMs
      ensures Now() == History(Zipper([], BLANK, []), Never)
    {
      this.limit, this.coalesceMs := limit, coalesceMs;
      entries, index, lastTime := [BLANK], 0, Never;
    }

    method Record(value: string, start: int, end: int, now: int, force: bool)
      requires Valid()
      modifies this
      ensures Valid()
      ensures Now() == Recorded(old(Now()), Snapshot(value, start, end), now, force, limit, coalesceMs)
      ensures Now() == Next(old(Now()), Records(Snapshot(value, start, end), now, force), limit, coalesceMs)
    {
      hide View, Fresh;
      var cur := entries[index];
      ViewAt(entries, index);
      if value == cur.value {
        ViewReplaced(entries, index, Snapshot(value, start, end));
        entries := entries[index := Snapshot(value, start, end)];
        return;
      }
      var isAppend := |value| > |cur.value| && value[..|cur.value|] == cur.value;
      var coalesce := !force && index == |entries| - 1 && lastTime.At? && now - lastTime.ms < coalesceMs && isAppend;
      lastTime := At(now);
      if coalesce {
        ViewReplaced(entries, index, Snapshot(value, start, end));
        entries := entries[index := Snapshot(value, start, end)];
        return;
      }
      ViewFresh(entries, index, Snapshot(value, start, end), limit);
      entries := entries[..index + 1];
      entries := entries + [Snapshot(value, start, end)];
      if |entries| > limit { entries := entries[1..]; }
      index := |entries| - 1;
    }

    method Undo() returns (r: Option<Snapshot>)
      requires Valid()
      modifies this
      ensures Valid()
      ensures Now() == Next(old(Now()), Undoes, limit, coalesceMs)
      ensures old(Now()).z.past == [] ==> r == None && Now() == old(Now())
      ensures old(Now()).z.past != [] ==> Now() == History(UndoOne(old(Now()).z), Never) && r == Some(Now().z.present)
    {
      if index <= 0 { return None; }
      index := index - 1;
      lastTime := Never;
      return Some(entries[index]);
    }

    method Redo() returns (r: Option<Snapshot>)
      requires Valid()
      modifies this
      ensures Valid()
      ensures Now() == Next(old(Now()), Redoes, limit, coalesceMs)
      ensures old(Now()).z.future == [] ==> r == None && Now() == old(Now())
      ensures old(Now()).z.future != [] ==> Now() == History(RedoOne(old(Now()).z), Never) && r == Some(Now().z.present)
    {
      if index >= |entries| - 1 { return None; }
      index := index + 1;
      lastTime := Never;
      return Some(entries[index]);
    }

    method Reset(value: string, start: int, end: int)
      requires Valid()
      modifies this
      ensures Valid() && Now() == History(Zipper([], Snapshot(value, start, end), []), Never)
      ensures Now() == Next(old(Now()), Resets(Snapshot(value, start, end)), limit, coalesceMs)
    {
      entries, index, lastTime := [Snapshot(value, start, end)], 0, Never;
    }
  }

  function Max(a: nat, b: nat): nat {
    if a > b then a else b
  }

  // ----- What a user may rely on -----

  function UndoTimes(z: Zipper, n: nat): Zipper
    decreases n
  {
    if n == 0 then z else UndoTimes(UndoOne(z), n - 1)
  }

  function RedoTimes(z: Zipper, n: nat): Zipper
    decreases n
  {
    if n == 0 then z else RedoOne(RedoTimes(z, n - 1))
  }

  lemma RedoUndoesUndo(z: Zipper)
    ensures z.past != [] ==> RedoOne(UndoOne(z)) == z
    ensures z.future != [] ==> UndoOne(RedoOne(z)) == z
  {}

  /** As many redos as undos bring everything back, as long as the undos had steps to undo. */
  lemma {:induction false} RedosRestore(z: Zipper, n: nat)
    requires n <= |z.past|
    ensures RedoTimes(UndoTimes(z, n), n) == z
    decreases n
  {
    if n > 0 {
      RedosRestore(UndoOne(z), n - 1);
      RedoUndoesUndo(z);
    }
  }

  /** n undos show the n-th most recent state of the past, and lose nothing. */
  lemma {:induction false} UndosReachBack(z: Zipper, n: nat)
    requires n <= |z.past|
    ensures var back := UndoTimes(z, n);
      && back.Size() == z.Size()
      && back.past == z.past[..|z.past| - n]
      && (n > 0 ==> back.present == z.past[|z.past| - n])
    decreases n
  {
    if n > 0 {
      UndosReachBack(UndoOne(z), n - 1);
    }
  }

  /** A record drops the future exactly when it changes the value, even after undos. */
  lemma RecordDropsFuture(h: History, s: Snapshot, now: int, force: bool, limit: nat, coalesceMs: int)
    ensures var after := Recorded(h, s, now, force, limit, coalesceMs);
      && after.z.present == s
      && after.z.future == (if s.value == h.z.present.value then h.z.future else [])
      && (h.z.Size() <= Max(limit, 1) ==> after.z.Size() <= Max(limit, 1))
  {}

  /** What a record does to the steps. Without a new value the present one takes the caret. More
      text at the end, typed less than the window after the last edit, not forced and with
      nothing to redo, goes into the present step. Anything else is a step of its own behind it,
      and the oldest goes when there are more than the limit. */
  lemma RecordSays(h: History, s: Snapshot, now: int, force: bool, limit: nat, coalesceMs: int)
    ensures var after := Recorded(h, s, now, force, limit, coalesceMs);
      && after.z.present == s
      && (s.value == h.z.present.value ==>
            after.z.past == h.z.past && after.z.future == h.z.future && after.last == h.last)
      && (s.value != h.z.present.value ==> after.z.future == [] && after.last == At(now))
      && (s.value != h.z.present.value ==>
            var more := h.z.past + [h.z.present];
            after.z.past ==
              if !force && h.z.future == [] && h.last.At? && now < h.last.ms + coalesceMs
                 && h.z.present.value <= s.value
              then h.z.past
              else if |h.z.past| + 2 > limit then more[1..] else more)
  {
    if h.z.present.value <= s.value && |s.value| == |h.z.present.value| {
      assert s.value == h.z.present.value;
    }
  }

  /** A burst: edits that each append to the value before them, inside the window. */
  predicate IsBurst(first: Snapshot, at: int, edits: seq<(Snapshot, int)>, coalesceMs: int)
    decreases |edits|
  {
    edits == [] || (
      && IsAppend(first.value, edits[0].0.value)
      && edits[0].1 - at < coalesceMs
      && IsBurst(edits[0].0, edits[0].1, edits[1..], coalesceMs))
  }

  function RecordAll(h: History, edits: seq<(Snapshot, int)>, limit: nat, coalesceMs: int): History
    decreases |edits|
  {
    if edits == [] then h
    else RecordAll(Recorded(h, edits[0].0, edits[0].1, false, limit, coalesceMs), edits[1..], limit, coalesceMs)
  }

  lemma {:induction false} BurstStaysOneStep(h: History, at: int, edits: seq<(Snapshot, int)>, limit: nat,
                                             coalesceMs: int)
    requires h.z.future == [] && h.last == At(at) && IsBurst(h.z.present, at, edits, coalesceMs)
    ensures var after := RecordAll(h, edits, limit, coalesceMs);
      && after.z.past == h.z.past && after.z.future == []
      && after.z.present == if edits == [] then h.z.present else edits[|edits| - 1].0
    decreases |edits|
  {
    if edits != [] {
      var next := Recorded(h, edits[0].0, edits[0].1, false, limit, coalesceMs);
      BurstStaysOneStep(next, edits[0].1, edits[1..], limit, coalesceMs);
    }
  }

  /** One undo removes a whole burst of typing: whatever starts a fresh step (a forced edit, a
      deletion, a pause, an edit after an undo) and any appends that follow it in time are
      undone together, back to exactly the state before. */
  lemma BurstUndoneAtOnce(h: History, s: Snapshot, at: int, force: bool, edits: seq<(Snapshot, int)>,
                          limit: nat, coalesceMs: int)
    requires s.value != h.z.present.value && !Coalesces(h, s, at, force, coalesceMs)
    requires IsBurst(s, at, edits, coalesceMs) && limit >= 2 && h.z.Size() <= limit
    ensures var typed := RecordAll(Recorded(h, s, at, force, limit, coalesceMs), edits, limit, coalesceMs);
      && UndoOne(typed.z).present == h.z.present
      && UndoOne(typed.z).past == (if |h.z.past| + 2 > limit then h.z.past[1..] else h.z.past)
      && UndoOne(typed.z).future == [typed.z.present]
  {
    BurstStaysOneStep(Recorded(h, s, at, force, limit, coalesceMs), at, edits, limit, coalesceMs);
  }

  // ----- Whole runs -----

  /** What a user does to the history. */
  datatype Event = Records(s: Snapshot, now: int, force: bool) | Undoes | Redoes | Resets(s: Snapshot)

  function Next(h: History, e: Event, limit: nat, coalesceMs: int): History {
    match e
    case Records(s, now, force) => Recorded(h, s, now, force, limit, coalesceMs)
    case Undoes => if h.z.past == [] then h else History(UndoOne(h.z), Never)
    case Redoes => if h.z.future == [] then h else History(RedoOne(h.z), Never)
    case Resets(s) => History(Zipper([], s, []), Never)
  }

  function RunFrom(h: History, events: seq<Event>, limit: nat, coalesceMs: int): History {
    if events == [] then h
    else Next(RunFrom(h, events[..|events| - 1], limit, coalesceMs), events[|events| - 1], limit, coalesceMs)
  }

  lemma RunSnoc(h: History, events: seq<Event>, n: nat, limit: nat, coalesceMs: int)
    requires n < |events|
    ensures RunFrom(h, events[..n + 1], limit, coalesceMs)
         == Next(RunFrom(h, events[..n], limit, coalesceMs), events[n], limit, coalesceMs)
  {
    hide Next;
    assert events[..n + 1][..n] == events[..n];
  }

  lemma {:induction false} OneMoreUndo(z: Zipper, n: nat)
    ensures UndoTimes(z, n + 1) == UndoOne(UndoTimes(z, n))
    decreases n
  {
    if n > 0 { OneMoreUndo(UndoOne(z), n - 1); }
  }

  /** A run of undos, or of redos, goes that far back or forward and no further than the end. */
  lemma {:induction false} RunOfSteps(h: History, events: seq<Event>, back: bool, limit: nat, coalesceMs: int)
    requires forall e <- events :: e == if back then Undoes else Redoes
    ensures RunFrom(h, events, limit, coalesceMs).z
         == if back then UndoTimes(h.z, |events|) else RedoTimes(h.z, |events|)
  {
    if events != [] {
      var n := |events| - 1;
      assert events[n] in events && forall e <- events[..n] :: e in events;
      RunOfSteps(h, events[..n], back, limit, coalesceMs);
      OneMoreUndo(h.z, n);
    }
  }

  /** The values of all entries, oldest first. */
  function Values(z: Zipper): (values: seq<string>)
    ensures |values| == z.Size()
  {
    var entries := z.past + [z.present] + z.future;
    seq(|entries|, i requires 0 <= i < |entries| => entries[i].value)
  }

  /** The history never grows over its limit. */
  lemma {:induction false} RunStaysBounded(h: History, events: seq<Event>, limit: nat, coalesceMs: int)
    requires h.z.Size() <= Max(limit, 1)
    ensures RunFrom(h, events, limit, coalesceMs).z.Size() <= Max(limit, 1)
  {
    if events != [] {
      RunStaysBounded(h, events[..|events| - 1], limit, coalesceMs);
    }
  }

  /** An undo, a redo, or a record that only moves the caret. */
  predicate Navigates(h: History, e: Event) {
    match e
    case Records(s, _, _) => s.value == h.z.present.value
    case Undoes => true
    case Redoes => true
    case Resets(_) => false
  }

  /** Undos, redos and caret moves, in any number and order, lose no value. */
  lemma {:induction false} NavigationLosesNothing(h: History, events: seq<Event>, limit: nat, coalesceMs: int)
    requires forall n :: 0 <= n < |events| ==> Navigates(RunFrom(h, events[..n], limit, coalesceMs), events[n])
    ensures Values(RunFrom(h, events, limit, coalesceMs).z) == Values(h.z)
  {
    if events != [] {
      hide Values, Navigates, Next;
      var n := |events| - 1;
      forall k | 0 <= k < n ensures Navigates(RunFrom(h, events[..n][..k], limit, coalesceMs), events[..n][k]) {
        assert events[..n][..k] == events[..k];
      }
      NavigationLosesNothing(h, events[..n], limit, coalesceMs);
      StepLosesNothing(RunFrom(h, events[..n], limit, coalesceMs), events[n], limit, coalesceMs);
    }
  }

  lemma StepLosesNothing(h: History, e: Event, limit: nat, coalesceMs: int)
    requires Navigates(h, e)
    ensures Values(Next(h, e, limit, coalesceMs).z) == Values(h.z)
  {}

  // ----- When an undo is invisible -----

  /** No two neighbouring entries have the same value. */
  ghost predicate Apart(z: Zipper) {
    forall i :: 0 <= i < |Values(z)| - 1 ==> Values(z)[i] != Values(z)[i + 1]
  }

  /** An append inside the window that types the previous entry's value back. */
  predicate TypesBack(h: History, e: Event, coalesceMs: int) {
    && e.Records? && Coalesces(h, e.s, e.now, e.force, coalesceMs)
    && h.z.past != [] && h.z.past[|h.z.past| - 1].value == e.s.value
  }

  /** Right after a record, an undo shows nothing exactly when the record moved the caret or
      folded into the present step, and the step before holds the value recorded. */
  lemma RecordLeavesEqual(h: History, s: Snapshot, now: int, force: bool, limit: nat, coalesceMs: int)
    ensures var z := Recorded(h, s, now, force, limit, coalesceMs).z;
      z.past != [] && UndoOne(z).present.value == z.present.value <==>
        && (s.value == h.z.present.value || Coalesces(h, s, now, force, coalesceMs))
        && h.z.past != [] && h.z.past[|h.z.past| - 1].value == s.value
  {}

  lemma {:induction false} RedosReachForward(z: Zipper, n: nat)
    requires n <= |z.future|
    ensures var on := RedoTimes(z, n);
      && on.Size() == z.Size()
      && on.future == z.future[n..]
      && (n > 0 ==> on.present == z.future[n - 1])
    decreases n
  {
    if n > 0 {
      RedosReachForward(z, n - 1);
    }
  }

  /** Going all the way back and all the way forward, every single step changes the value. */
  ghost predicate EveryStepShows(z: Zipper) {
    && (forall n :: 0 < n <= |z.past| ==>
          UndoTimes(z, n).present.value != UndoTimes(z, n - 1).present.value)
    && (forall n :: 0 < n <= |z.future| ==>
          RedoTimes(z, n).present.value != RedoTimes(z, n - 1).present.value)
  }

  lemma BackValue(z: Zipper, n: nat)
    requires n <= |z.past|
    ensures UndoTimes(z, n).present.value == Values(z)[|z.past| - n]
  {
    UndosReachBack(z, n);
  }

  lemma OnValue(z: Zipper, n: nat)
    requires n <= |z.future|
    ensures RedoTimes(z, n).present.value == Values(z)[|z.past| + n]
  {
    RedosReachForward(z, n);
  }

  lemma ApartMeansEveryStepShows(z: Zipper)
    ensures Apart(z) <==> EveryStepShows(z)
  {
    hide UndoTimes, RedoTimes, Values;
    var v, p := Values(z), |z.past|;
    if EveryStepShows(z) {
      forall i | 0 <= i < |v| - 1 ensures v[i] != v[i + 1] {
        if i < p {
          var n := p - i;
          BackValue(z, n);
          BackValue(z, n - 1);
        } else {
          var n := i + 1 - p;
          OnValue(z, n);
          OnValue(z, n - 1);
        }
      }
    }
    if Apart(z) {
      forall n | 0 < n <= p ensures UndoTimes(z, n).present.value != UndoTimes(z, n - 1).present.value {
        var i := p - n;
        BackValue(z, n);
        BackValue(z, n - 1);
        assert v[i] != v[i + 1];
      }
      forall n | 0 < n <= |z.future| ensures RedoTimes(z, n).present.value != RedoTimes(z, n - 1).present.value {
        var i := p + n - 1;
        OnValue(z, n);
        OnValue(z, n - 1);
        assert v[i] != v[i + 1];
      }
    }
  }

  /** One step leaves neighbours distinct unless it types a value back. */
  lemma StepKeepsApart(h: History, e: Event, limit: nat, coalesceMs: int)
    requires Apart(h.z)
    ensures Apart(Next(h, e, limit, coalesceMs).z) <==> !TypesBack(h, e, coalesceMs)
  {
    var v, next := Values(h.z), Next(h, e, limit, coalesceMs);
    var w, n := Values(next.z), |h.z.past|;
    if Navigates(h, e) {
      StepLosesNothing(h, e, limit, coalesceMs);
    } else if e.Records? {
      if Coalesces(h, e.s, e.now, e.force, coalesceMs) {
        assert w == v[..n] + [e.s.value];
        FoldKeepsApart(v, n, e.s.value);
      } else {
        var grown := v[..n + 1] + [e.s.value];
        assert w == grown || w == grown[1..];
      }
    }
  }

  lemma FoldKeepsApart(v: seq<string>, n: nat, value: string)
    requires |v| == n + 1 && forall i :: 0 <= i < |v| - 1 ==> v[i] != v[i + 1]
    ensures var w := v[..n] + [value];
      (forall i :: 0 <= i < |w| - 1 ==> w[i] != w[i + 1]) <==> (n == 0 || v[n - 1] != value)
  {
    var w := v[..n] + [value];
    if n > 0 {
      assert w[n - 1] == v[n - 1] && w[n - 1 + 1] == value;
    }
  }

  ghost predicate AlwaysApart(h: History, events: seq<Event>, limit: nat, coalesceMs: int) {
    forall n :: 0 <= n <= |events| ==> Apart(RunFrom(h, events[..n], limit, coalesceMs).z)
  }

  /** None of the first n events types a value back. */
  ghost predicate NothingTypedBack(h: History, events: seq<Event>, n: nat, limit: nat, coalesceMs: int)
    requires n <= |events|
  {
    forall k :: 0 <= k < n ==> !TypesBack(RunFrom(h, events[..k], limit, coalesceMs), events[k], coalesceMs)
  }

  /** Over a whole run, neighbours stay distinct if and only if no record types back the
      value of the step before. */
  lemma EveryUndoShows(h: History, events: seq<Event>, limit: nat, coalesceMs: int)
    requires Apart(h.z)
    ensures AlwaysApart(h, events, limit, coalesceMs) <==> NothingTypedBack(h, events, |events|, limit, coalesceMs)
  {
    hide Apart, TypesBack, Next, RunFrom;
    if AlwaysApart(h, events, limit, coalesceMs) {
      forall n | 0 <= n < |events|
        ensures !TypesBack(RunFrom(h, events[..n], limit, coalesceMs), events[n], coalesceMs)
      {
        RunSnoc(h, events, n, limit, coalesceMs);
        assert Apart(RunFrom(h, events[..n + 1], limit, coalesceMs).z);
        StepKeepsApart(RunFrom(h, events[..n], limit, coalesceMs), events[n], limit, coalesceMs);
      }
    }
    if NothingTypedBack(h, events, |events|, limit, coalesceMs) {
      forall n | 0 <= n <= |events| ensures Apart(RunFrom(h, events[..n], limit, coalesceMs).z) {
        PrefixApart(h, events, n, limit, coalesceMs);
      }
    }
  }

  lemma {:induction false} PrefixApart(h: History, events: seq<Event>, n: nat, limit: nat, coalesceMs: int)
    requires Apart(h.z) && n <= |events| && NothingTypedBack(h, events, n, limit, coalesceMs)
    ensures Apart(RunFrom(h, events[..n], limit, coalesceMs).z)
    decreases n
  {
    hide Apart, TypesBack, Next;
    if n > 0 {
      PrefixApart(h, events, n - 1, limit, coalesceMs);
      RunSnoc(h, events, n - 1, limit, coalesceMs);
      StepKeepsApart(RunFrom(h, events[..n - 1], limit, coalesceMs), events[n - 1], limit, coalesceMs);
    }
  }

  /** Such a run: delete a character and type it again inside the window, and
      the retyping folds into the deletion, leaving two equal entries side by side. */
  lemma RetypingLeavesEqualEntries(v: string, c: char, at: int, limit: nat, coalesceMs: int)
    requires coalesceMs > 0 && limit >= 2
    ensures var h := History(Zipper([], Snapshot(v + [c], 0, 0), []), Never);
      var deleted := Recorded(h, Snapshot(v, 0, 0), at, false, limit, coalesceMs);
      var retyped := Recorded(deleted, Snapshot(v + [c], 0, 0), at, false, limit, coalesceMs);
      retyped.z.past != [] && UndoOne(retyped.z).present == retyped.z.present
  {
    assert IsAppend(v, v + [c]);
    assert v != v + [c] && !IsAppend(v + [c], v);
  }
}
