/** Grouping of message rows: the backward walk of web/static/grouping.js against the forward
    loop of `renderMessages` in web/static/app.js. */
module Grouping {
  import opened Basics

  datatype Msg = Msg(id: int, user: int, time: int, system: bool, deleted: bool, reply: bool)

  /** The author and time a row may continue under; Nothing after a reset. */
  datatype Anchor = Nothing | Under(user: int, time: int)

  const GROUP_WINDOW_MS := 5 * 60 * 1000

  /** `shouldGroupMessage`. */
  predicate ShouldGroup(a: Anchor, m: Msg) {
    a.Under? && m.user == a.user && m.time - a.time < GROUP_WINDOW_MS && !m.reply
  }

  // ----- Backward: groupingAnchor -----

  function AnchorAt(msgs: seq<Msg>, idx: nat, live: set<int>): Anchor
    requires idx <= |msgs|
  {
    if idx == 0 then Nothing
    else
      var p := msgs[idx - 1];
      if p.system then Nothing
      else if p.deleted then (if p.id in live then Nothing else AnchorAt(msgs, idx - 1, live))
      else Under(p.user, p.time)
  }

  method GroupingAnchor(msgs: seq<Msg>, idx: nat, live: set<int>) returns (a: Anchor)
    requires idx <= |msgs|
    ensures a == AnchorAt(msgs, idx, live)
  {
    var k := idx - 1;
    while k >= 0
      invariant -1 <= k < idx
      invariant AnchorAt(msgs, idx, live) == AnchorAt(msgs, k + 1, live)
    {
      var p := msgs[k];
      if p.system { return Nothing; }
      if p.deleted {
        if p.id in live { return Nothing; }
        k := k - 1;
        continue;
      }
      return Under(p.user, p.time);
    }
    return Nothing;
  }

  // ----- Forward: renderMessages -----

  /** What the loop puts in the pane. Rows and system lines carry the message id. */
  datatype Node = Row(id: int, grouped: bool) | SystemLine(id: int) | Tombstone(count: nat) | Divider

  function RunEnd(msgs: seq<Msg>, i: nat): (j: nat)
    requires i <= |msgs|
    ensures i <= j <= |msgs|
    ensures forall k :: i <= k < j ==> msgs[k].deleted
    ensures j < |msgs| ==> !msgs[j].deleted
    decreases |msgs| - i
  {
    if i == |msgs| || !msgs[i].deleted then i else RunEnd(msgs, i + 1)
  }

  function LiveCount(msgs: seq<Msg>, i: nat, j: nat, live: set<int>): (n: nat)
    requires i <= j <= |msgs|
    ensures n > 0 <==> exists k :: i <= k < j && msgs[k].id in live
  {
    if i == j then 0 else LiveCount(msgs, i, j - 1, live) + (if msgs[j - 1].id in live then 1 else 0)
  }

  /** The loop's state at its head: next index, accumulator, whether the divider is drawn. */
  datatype Head = Head(i: nat, acc: Anchor, marked: bool)

  /** One turn of the loop from a head before |msgs|: what it draws, and the next head. */
  function Turn(msgs: seq<Msg>, h: Head, live: set<int>, markerAt: int): (r: (seq<Node>, Head))
    requires h.i < |msgs|
    ensures h.i < r.1.i <= |msgs|
  {
    var m := msgs[h.i];
    if m.deleted then
      var j := RunEnd(msgs, h.i);
      var drawn := LiveCount(msgs, h.i, j, live);
      (if drawn > 0 then [Tombstone(drawn)] else [], Head(j, if drawn > 0 then Nothing else h.acc, h.marked))
    else if m.system then ([SystemLine(m.id)], Head(h.i + 1, Nothing, h.marked))
    else
      var divider := !h.marked && markerAt > 0 && m.id > markerAt;
      ((if divider then [Divider] else []) + [Row(m.id, ShouldGroup(h.acc, m))],
       Head(h.i + 1, Under(m.user, m.time), h.marked || divider))
  }

  function DrawFrom(msgs: seq<Msg>, h: Head, live: set<int>, markerAt: int): seq<Node>
    requires h.i <= |msgs|
    decreases |msgs| - h.i
  {
    if h.i == |msgs| then []
    else var t := Turn(msgs, h, live, markerAt); t.0 + DrawFrom(msgs, t.1, live, markerAt)
  }

  /** The rows a full rebuild draws between the two sentinels. */
  function DrawAll(msgs: seq<Msg>, live: set<int>, markerAt: int): seq<Node> {
    DrawFrom(msgs, Head(0, Nothing, false), live, markerAt)
  }

  method RenderDeletedRun(msgs: seq<Msg>, start: nat, live: set<int>) returns (next: nat, drawn: nat)
    requires start < |msgs|
    ensures next == RunEnd(msgs, start) && drawn == LiveCount(msgs, start, next, live)
  {
    var j := start;
    drawn := 0;
    while j < |msgs| && msgs[j].deleted
      invariant start <= j <= |msgs|
      invariant RunEnd(msgs, start) == RunEnd(msgs, j)
      invariant drawn == LiveCount(msgs, start, j, live)
    {
      if msgs[j].id in live { drawn := drawn + 1; }
      j := j + 1;
    }
    next := j;
  }

  /** The `renderMessages` loop. */
  method RenderMessages(msgs: seq<Msg>, live: set<int>, markerAt: int) returns (wrap: seq<Node>)
    ensures wrap == DrawAll(msgs, live, markerAt)
  {
    hide RunEnd, LiveCount;
    wrap := [];
    var markerInserted := false;
    var last := Nothing;
    var i := 0;
    assert [] + DrawAll(msgs, live, markerAt) == DrawAll(msgs, live, markerAt);
    while i < |msgs|
      invariant 0 <= i <= |msgs|
      invariant DrawAll(msgs, live, markerAt) == wrap + DrawFrom(msgs, Head(i, last, markerInserted), live, markerAt)
    {
      ghost var before, t := wrap, Turn(msgs, Head(i, last, markerInserted), live, markerAt);
      Associative(wrap, t.0, DrawFrom(msgs, t.1, live, markerAt));
      if msgs[i].deleted {
        var next, drawn := RenderDeletedRun(msgs, i, live);
        if drawn > 0 {
          wrap := wrap + [Tombstone(drawn)];
          last := Nothing;
        }
        assert wrap == before + t.0;
        i := next;
        continue;
      }
      var m := msgs[i];
      if m.system {
        wrap := wrap + [SystemLine(m.id)];
        last := Nothing;
        i := i + 1;
        continue;
      }
      if !markerInserted && markerAt > 0 && m.id > markerAt {
        markerInserted := true;
        wrap := wrap + [Divider];
      }
      wrap := wrap + [Row(m.id, ShouldGroup(last, m))];
      last := Under(m.user, m.time);
      assert wrap == before + t.0;
      i := i + 1;
    }
    assert wrap + [] == wrap;
  }

  // ----- Parity -----

  /** The loop's accumulator when it gets from head h to index idx. */
  function AccFrom(msgs: seq<Msg>, h: Head, idx: nat, live: set<int>, markerAt: int): Anchor
    requires h.i <= idx <= |msgs|
    decreases |msgs| - h.i
  {
    if h.i >= idx then h.acc
    else
      var t := Turn(msgs, h, live, markerAt).1;
      if t.i > idx then t.acc else AccFrom(msgs, t, idx, live, markerAt)
  }

  /** Index idx is one the loop's head reaches: the end, or a row that is not deleted. */
  predicate IsHead(msgs: seq<Msg>, idx: nat) {
    idx == |msgs| || (idx < |msgs| && !msgs[idx].deleted)
  }

  /** The last row in i..idx that is not deleted; i - 1 if all are. */
  function LastKept(msgs: seq<Msg>, i: nat, idx: nat): (k: int)
    requires i <= idx <= |msgs|
    ensures i - 1 <= k < idx
    ensures k >= i ==> !msgs[k].deleted
    ensures forall j :: k < j < idx && i <= j ==> msgs[j].deleted
  {
    if i == idx then i - 1 else if !msgs[idx - 1].deleted then idx - 1 else LastKept(msgs, i, idx - 1)
  }

  ghost predicate AnyLive(msgs: seq<Msg>, from: nat, to: nat, live: set<int>)
    requires to <= |msgs|
  {
    exists j :: from <= j < to && msgs[j].id in live
  }

  /** What the forward loop has accumulated at idx, said without the loop. */
  ghost function ForwardAt(msgs: seq<Msg>, i: nat, acc: Anchor, idx: nat, live: set<int>): Anchor
    requires i <= idx <= |msgs|
  {
    var k := LastKept(msgs, i, idx);
    if AnyLive(msgs, k + 1, idx, live) then Nothing
    else if k < i then acc
    else if msgs[k].system then Nothing
    else Under(msgs[k].user, msgs[k].time)
  }

  lemma {:induction false} LoopAccumulates(msgs: seq<Msg>, h: Head, idx: nat, live: set<int>, markerAt: int)
    requires h.i <= idx <= |msgs| && IsHead(msgs, idx)
    ensures AccFrom(msgs, h, idx, live, markerAt) == ForwardAt(msgs, h.i, h.acc, idx, live)
    decreases |msgs| - h.i
  {
    if h.i < idx {
      hide ForwardAt, Turn;
      HeadSkips(msgs, h, idx, live, markerAt);
      LoopAccumulates(msgs, Turn(msgs, h, live, markerAt).1, idx, live, markerAt);
      TurnForwards(msgs, h, idx, live, markerAt);
    }
  }

  /** The loop does not jump over a head. */
  lemma HeadSkips(msgs: seq<Msg>, h: Head, idx: nat, live: set<int>, markerAt: int)
    requires h.i < idx <= |msgs| && IsHead(msgs, idx)
    ensures Turn(msgs, h, live, markerAt).1.i <= idx
  {}

  lemma TurnForwards(msgs: seq<Msg>, h: Head, idx: nat, live: set<int>, markerAt: int)
    requires h.i < idx <= |msgs| && IsHead(msgs, idx) && Turn(msgs, h, live, markerAt).1.i <= idx
    ensures var t := Turn(msgs, h, live, markerAt).1;
      ForwardAt(msgs, t.i, t.acc, idx, live) == ForwardAt(msgs, h.i, h.acc, idx, live)
  {
    var t := Turn(msgs, h, live, markerAt).1;
    var k, k' := LastKept(msgs, h.i, idx), LastKept(msgs, t.i, idx);
    if msgs[h.i].deleted {
      if t.i < idx {
        assert !msgs[t.i].deleted;
        assert k' >= t.i && k == k';
      } else {
        assert k == h.i - 1;
      }
    } else {
      assert k == if k' >= t.i then k' else h.i;
    }
  }

  /** A deleted system row hides behind an invisible deletion: the loop skips over it, the
      backward walk stops at it. There is then a plain row before it that only the loop sees. */
  ghost predicate Hidden(msgs: seq<Msg>, idx: nat, live: set<int>)
    requires idx <= |msgs|
  {
    var k := LastKept(msgs, 0, idx);
    && k >= 0 && !msgs[k].system
    && !AnyLive(msgs, k + 1, idx, live)
    && exists j :: k < j < idx && msgs[j].system
  }

  /** What the backward walk finds, said without the walk. */
  lemma {:induction false} WalkFinds(msgs: seq<Msg>, idx: nat, live: set<int>)
    requires idx <= |msgs|
    ensures var k := LastKept(msgs, 0, idx);
      AnchorAt(msgs, idx, live) ==
        if AnyLive(msgs, k + 1, idx, live) || (exists j :: k < j < idx && msgs[j].system) then Nothing
        else if k < 0 || msgs[k].system then Nothing
        else Under(msgs[k].user, msgs[k].time)
  {
    if idx > 0 && msgs[idx - 1].deleted {
      WalkFinds(msgs, idx - 1, live);
      var k := LastKept(msgs, 0, idx);
      assert k == LastKept(msgs, 0, idx - 1);
      assert AnyLive(msgs, k + 1, idx, live) <==> AnyLive(msgs, k + 1, idx - 1, live) || msgs[idx - 1].id in live;
      assert (exists j :: k < j < idx && msgs[j].system)
        <==> (exists j :: k < j < idx - 1 && msgs[j].system) || msgs[idx - 1].system;
    }
  }

  /** Parity, exactly: for every list, every set of live deletions and every row, the backward
      walk gives the anchor the loop has accumulated there if and only if no deleted system
      row is hidden in front of it. In particular when no row is both deleted and system. */
  lemma AnchorsAgree(msgs: seq<Msg>, idx: nat, live: set<int>, markerAt: int)
    requires IsHead(msgs, idx)
    ensures AnchorAt(msgs, idx, live) == AccFrom(msgs, Head(0, Nothing, false), idx, live, markerAt)
        <==> !Hidden(msgs, idx, live)
    ensures (forall m <- msgs :: !(m.system && m.deleted)) ==> !Hidden(msgs, idx, live)
  {
    LoopAccumulates(msgs, Head(0, Nothing, false), idx, live, markerAt);
    WalkFinds(msgs, idx, live);
    var k := LastKept(msgs, 0, idx);
    if Hidden(msgs, idx, live) {
      var j :| k < j < idx && msgs[j].system;
      assert msgs[j] in msgs;
    }
  }

  lemma {:induction false} DrawnWith(msgs: seq<Msg>, h: Head, idx: nat, live: set<int>, markerAt: int)
    requires h.i <= idx < |msgs| && !msgs[idx].deleted && !msgs[idx].system
    ensures Row(msgs[idx].id, ShouldGroup(AccFrom(msgs, h, idx, live, markerAt), msgs[idx]))
         in DrawFrom(msgs, h, live, markerAt)
    decreases |msgs| - h.i
  {
    var t := Turn(msgs, h, live, markerAt);
    if h.i < idx {
      DrawnWith(msgs, t.1, idx, live, markerAt);
    }
  }

  /** So a row is drawn by the loop with the very flag the backward walk computes for it. */
  lemma RowsGroupAlike(msgs: seq<Msg>, idx: nat, live: set<int>, markerAt: int)
    requires idx < |msgs| && !msgs[idx].deleted && !msgs[idx].system && !Hidden(msgs, idx, live)
    ensures Row(msgs[idx].id, ShouldGroup(AnchorAt(msgs, idx, live), msgs[idx])) in DrawAll(msgs, live, markerAt)
  {
    AnchorsAgree(msgs, idx, live, markerAt);
    DrawnWith(msgs, Head(0, Nothing, false), idx, live, markerAt);
  }

  // ----- Appending is the same as rebuilding -----

  /** The divider state the loop reaches at the end. */
  function MarkedFrom(msgs: seq<Msg>, h: Head, live: set<int>, markerAt: int): bool
    requires h.i <= |msgs|
    decreases |msgs| - h.i
  {
    if h.i == |msgs| then h.marked else MarkedFrom(msgs, Turn(msgs, h, live, markerAt).1, live, markerAt)
  }

  /** No run of deletions goes on from one list to the other. */
  predicate Separate(msgs: seq<Msg>, more: seq<Msg>) {
    msgs == [] || more == [] || !msgs[|msgs| - 1].deleted || !more[0].deleted
  }

  /** More messages behind a list are drawn from the state the loop reaches at its end, unless
      they go on with a run of deletions. */
  lemma {:induction false} DrawSplits(msgs: seq<Msg>, more: seq<Msg>, h: Head, live: set<int>, markerAt: int)
    requires h.i <= |msgs| && Separate(msgs, more)
    ensures var next := Head(0, AccFrom(msgs, h, |msgs|, live, markerAt), MarkedFrom(msgs, h, live, markerAt));
      DrawFrom(msgs + more, h, live, markerAt)
      == DrawFrom(msgs, h, live, markerAt) + DrawFrom(more, next, live, markerAt)
    decreases |msgs| - h.i
  {
    if h.i < |msgs| {
      SameTurn(msgs, more, h, live, markerAt);
      var t := Turn(msgs, h, live, markerAt);
      DrawSplits(msgs, more, t.1, live, markerAt);
      hide Turn;
      var next := Head(0, AccFrom(msgs, h, |msgs|, live, markerAt), MarkedFrom(msgs, h, live, markerAt));
      Associative(t.0, DrawFrom(msgs, t.1, live, markerAt), DrawFrom(more, next, live, markerAt));
    } else {
      DrawShifts(msgs, more, h.(i := 0), live, markerAt);
    }
  }

  /** What is drawn from a state on does not depend on what came before. */
  lemma {:induction false} DrawShifts(msgs: seq<Msg>, more: seq<Msg>, h: Head, live: set<int>, markerAt: int)
    requires h.i <= |more|
    ensures DrawFrom(msgs + more, h.(i := |msgs| + h.i), live, markerAt) == DrawFrom(more, h, live, markerAt)
    decreases |more| - h.i
  {
    if h.i < |more| {
      hide Turn;
      TurnShifts(msgs, more, h, live, markerAt);
      DrawShifts(msgs, more, Turn(more, h, live, markerAt).1, live, markerAt);
    }
  }

  lemma TurnShifts(msgs: seq<Msg>, more: seq<Msg>, h: Head, live: set<int>, markerAt: int)
    requires h.i < |more|
    ensures var t := Turn(more, h, live, markerAt);
      Turn(msgs + more, h.(i := |msgs| + h.i), live, markerAt) == (t.0, t.1.(i := |msgs| + t.1.i))
  {
    assert (msgs + more)[|msgs| + h.i] == more[h.i];
    if more[h.i].deleted {
      RunShifts(msgs, more, h.i);
      CountShifts(msgs, more, h.i, RunEnd(more, h.i), live);
    }
  }

  lemma {:induction false} RunShifts(msgs: seq<Msg>, more: seq<Msg>, i: nat)
    requires i <= |more|
    ensures RunEnd(msgs + more, |msgs| + i) == |msgs| + RunEnd(more, i)
    decreases |more| - i
  {
    if i < |more| && more[i].deleted {
      RunShifts(msgs, more, i + 1);
    }
  }

  lemma {:induction false} CountShifts(msgs: seq<Msg>, more: seq<Msg>, i: nat, j: nat, live: set<int>)
    requires i <= j <= |more|
    ensures LiveCount(msgs + more, |msgs| + i, |msgs| + j, live) == LiveCount(more, i, j, live)
    decreases j - i
  {
    if i < j {
      CountShifts(msgs, more, i, j - 1, live);
    }
  }

  /** From any head, one more plain row at the end only adds that row to what is drawn. */
  lemma DrawOneMore(msgs: seq<Msg>, m: Msg, h: Head, live: set<int>, markerAt: int)
    requires h.i <= |msgs| && !m.deleted && !m.system
    ensures var acc := AccFrom(msgs, h, |msgs|, live, markerAt);
      var divider := !MarkedFrom(msgs, h, live, markerAt) && markerAt > 0 && m.id > markerAt;
      DrawFrom(msgs + [m], h, live, markerAt)
      == DrawFrom(msgs, h, live, markerAt) + (DividerIf(divider) + [Row(m.id, ShouldGroup(acc, m))])
  {
    DrawSplits(msgs, [m], h, live, markerAt);
    var next := Head(0, AccFrom(msgs, h, |msgs|, live, markerAt), MarkedFrom(msgs, h, live, markerAt));
    PlainFirst([m], next, live, markerAt);
    var drawn := Turn([m], next, live, markerAt).0;
    assert drawn + [] == drawn;
  }

  function DividerIf(due: bool): seq<Node> {
    if due then [Divider] else []
  }

  /** A plain message at the front. */
  lemma PlainFirst(msgs: seq<Msg>, h: Head, live: set<int>, markerAt: int)
    requires h.i == 0 && msgs != [] && !msgs[0].deleted && !msgs[0].system
    ensures var m := msgs[0];
      var divider := !h.marked && markerAt > 0 && m.id > markerAt;
      DrawFrom(msgs, h, live, markerAt) == DividerIf(divider) + [Row(m.id, ShouldGroup(h.acc, m))]
        + DrawFrom(msgs[1..], Head(0, Under(m.user, m.time), h.marked || divider), live, markerAt)
  {
    var t := Turn(msgs, h, live, markerAt);
    assert msgs == [msgs[0]] + msgs[1..];
    DrawShifts([msgs[0]], msgs[1..], t.1.(i := 0), live, markerAt);
  }

  lemma SameTurn(msgs: seq<Msg>, more: seq<Msg>, h: Head, live: set<int>, markerAt: int)
    requires h.i < |msgs| && Separate(msgs, more)
    ensures Turn(msgs + more, h, live, markerAt) == Turn(msgs, h, live, markerAt)
  {
    assert (msgs + more)[h.i] == msgs[h.i];
    SameRun(msgs, more, h.i);
    SameCount(msgs, more, h.i, RunEnd(msgs, h.i), live);
  }

  lemma {:induction false} SameRun(msgs: seq<Msg>, more: seq<Msg>, i: nat)
    requires i <= |msgs| && Separate(msgs, more) && (i == |msgs| ==> more == [] || !more[0].deleted)
    ensures RunEnd(msgs + more, i) == RunEnd(msgs, i)
    decreases |msgs| - i
  {
    if i < |msgs| && msgs[i].deleted {
      SameRun(msgs, more, i + 1);
    }
  }

  lemma {:induction false} SameCount(msgs: seq<Msg>, more: seq<Msg>, i: nat, j: nat, live: set<int>)
    requires i <= j <= |msgs|
    ensures LiveCount(msgs + more, i, j, live) == LiveCount(msgs, i, j, live)
    decreases j - i
  {
    if i < j {
      SameCount(msgs, more, i, j - 1, live);
    }
  }

  /** The next row beyond the marker would bring the divider with it. */
  predicate DividerDue(msgs: seq<Msg>, m: Msg, live: set<int>, markerAt: int) {
    !MarkedFrom(msgs, Head(0, Nothing, false), live, markerAt) && markerAt > 0 && m.id > markerAt
  }

  /** At the end of the list: a deleted system row is hidden there, and m continues the plain
      row before it. */
  ghost predicate ContinuesHidden(msgs: seq<Msg>, m: Msg, live: set<int>) {
    Hidden(msgs, |msgs|, live) &&
    var k := LastKept(msgs, 0, |msgs|); ShouldGroup(Under(msgs[k].user, msgs[k].time), m)
  }

  /** Appending one row, shaped by the backward walk, to a freshly drawn pane gives the pane a
      full rebuild would draw if and only if no divider is due and the row does not continue a
      row hidden from the walk. */
  lemma AppendEqualsRebuild(msgs: seq<Msg>, m: Msg, live: set<int>, markerAt: int)
    requires !m.deleted && !m.system
    ensures DrawAll(msgs + [m], live, markerAt)
         == DrawAll(msgs, live, markerAt) + [Row(m.id, ShouldGroup(AnchorAt(msgs, |msgs|, live), m))]
        <==> !DividerDue(msgs, m, live, markerAt) && !ContinuesHidden(msgs, m, live)
  {
    var start := Head(0, Nothing, false);
    DrawOneMore(msgs, m, start, live, markerAt);
    FlagsAtEnd(msgs, m, live, markerAt);
    var divider := DividerDue(msgs, m, live, markerAt);
    var row := Row(m.id, ShouldGroup(AccFrom(msgs, start, |msgs|, live, markerAt), m));
    var appended := Row(m.id, ShouldGroup(AnchorAt(msgs, |msgs|, live), m));
    hide DrawFrom, ShouldGroup, MarkedFrom, AccFrom, AnchorAt, ContinuesHidden;
    SamePrefix(DrawAll(msgs, live, markerAt), DividerIf(divider) + [row], [appended]);
    if divider {
      assert |[Divider] + [row]| == 2;
    } else {
      assert [] + [row] == [row];
      assert [row] == [appended] <==> row == appended;
    }
  }

  lemma FlagsAtEnd(msgs: seq<Msg>, m: Msg, live: set<int>, markerAt: int)
    ensures ShouldGroup(AnchorAt(msgs, |msgs|, live), m)
         == ShouldGroup(AccFrom(msgs, Head(0, Nothing, false), |msgs|, live, markerAt), m)
        <==> !ContinuesHidden(msgs, m, live)
  {
    AnchorsAgree(msgs, |msgs|, live, markerAt);
    LoopAccumulates(msgs, Head(0, Nothing, false), |msgs|, live, markerAt);
    WalkFinds(msgs, |msgs|, live);
    hide ShouldGroup, AccFrom, AnchorAt;
  }

  // ----- Forgetting live deletions -----

  /** The live deletions some loaded window still has a deleted row for. */
  function StillLoaded(windows: seq<seq<Msg>>, live: set<int>): set<int> {
    set w <- windows, m <- w | m.deleted && m.id in live :: m.id
  }

  /** `liveDeletedStillLoaded`. */
  method LiveDeletedStillLoaded(windows: seq<seq<Msg>>, live: set<int>) returns (still: set<int>)
    ensures still == StillLoaded(windows, live)
  {
    still := {};
    for i := 0 to |windows|
      invariant still == StillLoaded(windows[..i], live)
    {
      var w := windows[i];
      for j := 0 to |w|
        invariant still == StillLoaded(windows[..i], live) + StillLoaded([w[..j]], live)
      {
        OneRowMore(w, j, live);
        if w[j].deleted && w[j].id in live { still := still + {w[j].id}; }
      }
      assert w[..|w|] == w;
    }
    assert windows[..|windows|] == windows;
  }

  lemma OneRowMore(w: seq<Msg>, j: nat, live: set<int>)
    requires j < |w|
    ensures StillLoaded([w[..j + 1]], live)
         == StillLoaded([w[..j]], live) + (if w[j].deleted && w[j].id in live then {w[j].id} else {})
  {
    var before, after := [w[..j]], [w[..j + 1]];
    assert before[0] in before && after[0] in after;
    assert forall m :: m in after[0] <==> m in before[0] || m == w[j];
  }

  /** Two sets of live deletions look the same to a window if they agree on its deleted rows. */
  ghost predicate Alike(msgs: seq<Msg>, live: set<int>, other: set<int>) {
    forall k :: 0 <= k < |msgs| && msgs[k].deleted ==> (msgs[k].id in live <==> msgs[k].id in other)
  }

  lemma {:induction false} CountAlike(msgs: seq<Msg>, i: nat, j: nat, live: set<int>, other: set<int>)
    requires i <= j <= |msgs| && Alike(msgs, live, other) && forall k :: i <= k < j ==> msgs[k].deleted
    ensures LiveCount(msgs, i, j, live) == LiveCount(msgs, i, j, other)
    decreases j - i
  {
    if i < j { CountAlike(msgs, i, j - 1, live, other); }
  }

  lemma {:induction false} DrawnAlike(msgs: seq<Msg>, h: Head, live: set<int>, other: set<int>, markerAt: int)
    requires h.i <= |msgs| && Alike(msgs, live, other)
    ensures DrawFrom(msgs, h, live, markerAt) == DrawFrom(msgs, h, other, markerAt)
    decreases |msgs| - h.i
  {
    if h.i < |msgs| {
      if msgs[h.i].deleted { CountAlike(msgs, h.i, RunEnd(msgs, h.i), live, other); }
      DrawnAlike(msgs, Turn(msgs, h, live, markerAt).1, live, other, markerAt);
    }
  }

  lemma {:induction false} AnchoredAlike(msgs: seq<Msg>, idx: nat, live: set<int>, other: set<int>)
    requires idx <= |msgs| && Alike(msgs, live, other)
    ensures AnchorAt(msgs, idx, live) == AnchorAt(msgs, idx, other)
  {
    if idx > 0 { AnchoredAlike(msgs, idx - 1, live, other); }
  }

  /** Forgetting every live deletion that no loaded window has a row for changes nothing that
      any loaded window draws, and no anchor in it. */
  lemma PruneIsInvisible(windows: seq<seq<Msg>>, w: seq<Msg>, live: set<int>, markerAt: int, idx: nat)
    requires w in windows && idx <= |w|
    ensures DrawAll(w, StillLoaded(windows, live), markerAt) == DrawAll(w, live, markerAt)
    ensures AnchorAt(w, idx, StillLoaded(windows, live)) == AnchorAt(w, idx, live)
  {
    var still := StillLoaded(windows, live);
    forall k | 0 <= k < |w| && w[k].deleted ensures w[k].id in live <==> w[k].id in still {
      assert w[k] in w;
    }
    DrawnAlike(w, Head(0, Nothing, false), still, live, markerAt);
    AnchoredAlike(w, idx, still, live);
  }
}
