/** Putting one new row into a freshly drawn pane, against drawing everything again
    (web/static/app.js:2071-2120, 2276-2290). */
module Splicing {
  import opened Basics
  import opened Grouping

  // ----- In front of a plain row -----

  /** The row after an inserted one keeps its grouping, and no divider should come between. */
  ghost predicate FitsBetween(msgs: seq<Msg>, m: Msg, next: Msg, live: set<int>, markerAt: int) {
    && ShouldGroup(Under(m.user, m.time), next) == ShouldGroup(ForwardAt(msgs, 0, Nothing, |msgs|, live), next)
    && (DividerDue(msgs, next, live, markerAt) ==> DividerDue(msgs, m, live, markerAt))
  }

  /** Inserting one row, shaped by the backward walk, in front of a plain row of a freshly drawn
      pane gives what a rebuild would draw if and only if it does not continue a hidden row, the
      row behind it keeps its grouping, and the divider is not due exactly between the two. */
  lemma InsertEqualsRebuild(a: seq<Msg>, m: Msg, b: seq<Msg>, live: set<int>, markerAt: int) returns (at: nat)
    requires !m.deleted && !m.system && b != [] && !b[0].deleted && !b[0].system && m.id < b[0].id
    ensures var body := DrawAll(a + b, live, markerAt);
      && at < |body| && body[at].Row? && body[at].id == b[0].id
      && (body[..at] + [Row(m.id, ShouldGroup(AnchorAt(a, |a|, live), m))] + body[at..]
            == DrawAll(a + [m] + b, live, markerAt)
          <==> !ContinuesHidden(a, m, live) && FitsBetween(a, m, b[0], live, markerAt))
  {
    hide DrawAll, ShouldGroup, AnchorAt, ForwardAt, ContinuesHidden, DividerDue;
    var dueM, dueB := DividerDue(a, m, live, markerAt), DividerDue(a, b[0], live, markerAt);
    var tail := DrawnBehind(a, b, live, markerAt);
    DrawnBehindInserted(a, m, b, live, markerAt, tail);
    FlagsAgree(a, m, b[0], live, markerAt);
    var acc := ForwardAt(a, 0, Nothing, |a|, live);
    at := |DrawAll(a, live, markerAt)| + |DividerIf(dueB)|;
    SpliceInMiddle(DrawAll(a, live, markerAt), dueM, dueB,
      Row(m.id, ShouldGroup(AnchorAt(a, |a|, live), m)), Row(m.id, ShouldGroup(acc, m)),
      Row(b[0].id, ShouldGroup(acc, b[0])), Row(b[0].id, ShouldGroup(Under(m.user, m.time), b[0])), tail);
  }

  lemma FlagsAgree(a: seq<Msg>, m: Msg, next: Msg, live: set<int>, markerAt: int)
    ensures ShouldGroup(AnchorAt(a, |a|, live), m) == ShouldGroup(ForwardAt(a, 0, Nothing, |a|, live), m)
        <==> !ContinuesHidden(a, m, live)
    ensures m.id <= next.id && DividerDue(a, m, live, markerAt) ==> DividerDue(a, next, live, markerAt)
  {
    FlagsAtEnd(a, m, live, markerAt);
    LoopAccumulates(a, Head(0, Nothing, false), |a|, live, markerAt);
  }

  /** The drawing of a + b, for a plain message at the front of b. */
  lemma DrawnBehind(a: seq<Msg>, b: seq<Msg>, live: set<int>, markerAt: int) returns (tail: seq<Node>)
    requires b != [] && !b[0].deleted && !b[0].system
    ensures var due, acc := DividerDue(a, b[0], live, markerAt), ForwardAt(a, 0, Nothing, |a|, live);
      && tail == TailBehind(a, b, due, live, markerAt)
      && DrawAll(a + b, live, markerAt)
           == DrawAll(a, live, markerAt) + (DividerIf(due) + [Row(b[0].id, ShouldGroup(acc, b[0]))] + tail)
  {
    hide ShouldGroup, ForwardAt;
    var start := Head(0, Nothing, false);
    DrawSplits(a, b, start, live, markerAt);
    LoopAccumulates(a, start, |a|, live, markerAt);
    var acc, marked := AccFrom(a, start, |a|, live, markerAt), MarkedFrom(a, start, live, markerAt);
    PlainFirst(b, Head(0, acc, marked), live, markerAt);
    tail := TailBehind(a, b, DividerDue(a, b[0], live, markerAt), live, markerAt);
  }

  /** What is drawn after the first message of b. */
  function TailBehind(a: seq<Msg>, b: seq<Msg>, due: bool, live: set<int>, markerAt: int): seq<Node>
    requires b != []
  {
    var marked := MarkedFrom(a, Head(0, Nothing, false), live, markerAt);
    DrawFrom(b[1..], Head(0, Under(b[0].user, b[0].time), marked || due), live, markerAt)
  }

  /** The drawing of a + [m] + b. */
  lemma DrawnBehindInserted(a: seq<Msg>, m: Msg, b: seq<Msg>, live: set<int>, markerAt: int, tail: seq<Node>)
    requires !m.deleted && !m.system && b != [] && !b[0].deleted && !b[0].system && m.id < b[0].id
    requires tail == TailBehind(a, b, DividerDue(a, b[0], live, markerAt), live, markerAt)
    ensures var dueM, dueB := DividerDue(a, m, live, markerAt), DividerDue(a, b[0], live, markerAt);
      var row := Row(m.id, ShouldGroup(ForwardAt(a, 0, Nothing, |a|, live), m));
      var next := Row(b[0].id, ShouldGroup(Under(m.user, m.time), b[0]));
      DrawAll(a + [m] + b, live, markerAt)
      == DrawAll(a, live, markerAt) + (DividerIf(dueM) + [row] + (DividerIf(dueB && !dueM) + [next] + tail))
  {
    hide ShouldGroup, ForwardAt;
    var start := Head(0, Nothing, false);
    assert a + [m] + b == a + ([m] + b);
    var acc, marked := AccFrom(a, start, |a|, live, markerAt), MarkedFrom(a, start, live, markerAt);
    DrawSplits(a, [m] + b, start, live, markerAt);
    LoopAccumulates(a, start, |a|, live, markerAt);
    PlainFirst([m] + b, Head(0, acc, marked), live, markerAt);
    assert ([m] + b)[1..] == b;
    PlainFirst(b, Head(0, Under(m.user, m.time), marked || DividerDue(a, m, live, markerAt)), live, markerAt);
    hide DrawFrom, AccFrom, MarkedFrom;
  }

  lemma SpliceInMiddle(first: seq<Node>, dueM: bool, dueB: bool, drawn: Node, row: Node, was: Node, becomes: Node,
                       tail: seq<Node>)
    requires drawn.Row? && row.Row? && was.Row? && becomes.Row? && (dueM ==> dueB)
    ensures var body := first + (DividerIf(dueB) + [was] + tail);
      var at := |first| + |DividerIf(dueB)|;
      && at < |body| && body[at] == was
      && (body[..at] + [drawn] + body[at..]
            == first + (DividerIf(dueM) + [row] + (DividerIf(dueB && !dueM) + [becomes] + tail))
          <==> drawn == row && was == becomes && (dueB ==> dueM))
  {
    var body := first + (DividerIf(dueB) + [was] + tail);
    var at := |first| + |DividerIf(dueB)|;
    var x := DividerIf(dueB) + [drawn, was];
    var y := DividerIf(dueM) + [row] + DividerIf(dueB && !dueM) + [becomes];
    assert body[..at] + [drawn] + body[at..] == first + (x + tail);
    assert first + (DividerIf(dueM) + [row] + (DividerIf(dueB && !dueM) + [becomes] + tail)) == first + (y + tail);
    SamePrefix(first, x + tail, y + tail);
    assert |x| == |y|;
    assert x + tail == y + tail <==> x == y by { assert (x + tail)[..|x|] == x && (y + tail)[..|y|] == y; }
    assert x == y ==> x[0] == y[0] && x[1] == y[1] && x[|x| - 1] == y[|x| - 1];
  }

  // ----- In front of a system line -----

  /** There the row behind has no grouping to keep, and the divider must not be due. */
  lemma BeforeSystemLine(a: seq<Msg>, m: Msg, b: seq<Msg>, live: set<int>, markerAt: int) returns (at: nat)
    requires !m.deleted && !m.system && b != [] && !b[0].deleted && b[0].system
    ensures var body := DrawAll(a + b, live, markerAt);
      && at < |body| && body[at] == SystemLine(b[0].id)
      && (body[..at] + [Row(m.id, ShouldGroup(AnchorAt(a, |a|, live), m))] + body[at..]
            == DrawAll(a + [m] + b, live, markerAt)
          <==> !ContinuesHidden(a, m, live) && !DividerDue(a, m, live, markerAt))
  {
    var start := Head(0, Nothing, false);
    var acc, marked := AccFrom(a, start, |a|, live, markerAt), MarkedFrom(a, start, live, markerAt);
    var due := DividerDue(a, m, live, markerAt);
    assert a + [m] + b == a + ([m] + b) && ([m] + b)[1..] == b;
    DrawSplits(a, b, start, live, markerAt);
    DrawSplits(a, [m] + b, start, live, markerAt);
    PlainFirst([m] + b, Head(0, acc, marked), live, markerAt);
    SystemFirst(b, Head(0, acc, marked), live, markerAt);
    SystemFirst(b, Head(0, Under(m.user, m.time), marked || due), live, markerAt);
    FlagsAtEnd(a, m, live, markerAt);
    hide DrawFrom, AccFrom, MarkedFrom, ShouldGroup, AnchorAt, ContinuesHidden;
    at := |DrawAll(a, live, markerAt)|;
    SpliceBefore(DrawAll(a, live, markerAt), due,
      Row(m.id, ShouldGroup(AnchorAt(a, |a|, live), m)), Row(m.id, ShouldGroup(acc, m)), SystemLine(b[0].id),
      DrawFrom(b[1..], Head(0, Nothing, marked), live, markerAt),
      DrawFrom(b[1..], Head(0, Nothing, marked || due), live, markerAt));
  }

  lemma SystemFirst(msgs: seq<Msg>, h: Head, live: set<int>, markerAt: int)
    requires h.i == 0 && msgs != [] && !msgs[0].deleted && msgs[0].system
    ensures DrawFrom(msgs, h, live, markerAt)
      == [SystemLine(msgs[0].id)] + DrawFrom(msgs[1..], Head(0, Nothing, h.marked), live, markerAt)
  {
    var t := Turn(msgs, h, live, markerAt);
    assert msgs == [msgs[0]] + msgs[1..];
    DrawShifts([msgs[0]], msgs[1..], t.1.(i := 0), live, markerAt);
  }

  lemma SpliceBefore(first: seq<Node>, due: bool, drawn: Node, row: Node, next: Node, tail: seq<Node>, other: seq<Node>)
    requires drawn.Row? && row.Row? && (!due ==> tail == other)
    ensures var body := first + ([next] + tail);
      && |first| < |body| && body[|first|] == next
      && (body[..|first|] + [drawn] + body[|first|..] == first + (DividerIf(due) + [row] + ([next] + other))
          <==> drawn == row && !due)
  {
    var body := first + ([next] + tail);
    var x, y := [drawn] + ([next] + tail), DividerIf(due) + [row] + ([next] + other);
    assert body[..|first|] + [drawn] + body[|first|..] == first + x;
    SamePrefix(first, x, y);
    assert x[0] == drawn && y[0] == if due then Divider else row;
  }

  // ----- In front of deletions -----

  function Tombstones(n: nat): seq<Node> {
    if n > 0 then [Tombstone(n)] else []
  }

  function Live(msgs: seq<Msg>, live: set<int>): nat {
    LiveCount(msgs, 0, |msgs|, live)
  }

  lemma {:induction false} LiveAdds(x: seq<Msg>, y: seq<Msg>, live: set<int>)
    ensures Live(x + y, live) == Live(x, live) + Live(y, live)
    decreases |y|
  {
    if y == [] {
      assert x + y == x;
    } else {
      var init, last := y[..|y| - 1], y[|y| - 1];
      assert y == init + [last] && x + y == x + init + [last];
      LiveAdds(x, init, live);
      SameCount(x + init, [last], 0, |x + init|, live);
      SameCount(init, [last], 0, |init|, live);
    }
  }

  ghost predicate AllDeleted(r: seq<Msg>) {
    forall x <- r :: x.deleted
  }

  lemma {:induction false} RunIs(r: seq<Msg>, b: seq<Msg>, i: nat)
    requires i <= |r| && AllDeleted(r) && (b == [] || !b[0].deleted)
    ensures RunEnd(r + b, i) == |r|
    decreases |r| - i
  {
    if i < |r| {
      assert r[i] in r;
      RunIs(r, b, i + 1);
    }
  }

  /** A whole run of deletions at the front. */
  lemma RunFirst(r: seq<Msg>, b: seq<Msg>, h: Head, live: set<int>, markerAt: int)
    requires h.i == 0 && AllDeleted(r) && (b == [] || !b[0].deleted)
    ensures var n := Live(r, live);
      DrawFrom(r + b, h, live, markerAt)
      == Tombstones(n) + DrawFrom(b, h.(acc := if n > 0 then Nothing else h.acc), live, markerAt)
  {
    if r == [] {
      assert r + b == b;
    } else {
      assert r[0] in r;
      RunIs(r, b, 0);
      SameCount(r, b, 0, |r|, live);
      var n := Live(r, live);
      DrawShifts(r, b, h.(acc := if n > 0 then Nothing else h.acc), live, markerAt);
    }
  }

  /** The list up to its last row that is not deleted, and the run behind it. */
  lemma SplitTail(a: seq<Msg>) returns (kept: seq<Msg>, run: seq<Msg>)
    ensures a == kept + run && AllDeleted(run)
    ensures forall more :: Separate(kept, more)
  {
    var n := LastKept(a, 0, |a|) + 1;
    kept, run := a[..n], a[n..];
  }

  /** Deletions nobody saw can be left out. */
  lemma DropUnseen(a: seq<Msg>, r: seq<Msg>, b: seq<Msg>, live: set<int>, markerAt: int)
    requires AllDeleted(r) && Live(r, live) == 0 && (b == [] || !b[0].deleted)
    ensures DrawAll(a + r + b, live, markerAt) == DrawAll(a + b, live, markerAt)
  {
    var kept, run := SplitTail(a);
    var start := Head(0, Nothing, false);
    var next := Head(0, AccFrom(kept, start, |kept|, live, markerAt), MarkedFrom(kept, start, live, markerAt));
    assert a + r + b == kept + (run + r + b) && a + b == kept + (run + b);
    DrawSplits(kept, run + r + b, start, live, markerAt);
    DrawSplits(kept, run + b, start, live, markerAt);
    LiveAdds(run, r, live);
    RunFirst(run + r, b, next, live, markerAt);
    RunFirst(run, b, next, live, markerAt);
  }

  /** Deletions somebody saw: the pane has one tombstone for the whole run, where drawing again
      would have a smaller one, the divider or the row. */
  lemma SeenRunDiffers(a: seq<Msg>, m: Msg, r: seq<Msg>, b: seq<Msg>, live: set<int>, markerAt: int)
    returns (kept: seq<Msg>)
    requires !m.deleted && !m.system && AllDeleted(r) && Live(r, live) > 0 && (b == [] || !b[0].deleted)
    ensures kept <= a
    ensures var first, body, again :=
        DrawAll(kept, live, markerAt), DrawAll(a + r + b, live, markerAt), DrawAll(a + [m] + r + b, live, markerAt);
      && |first| < |body| && body[..|first|] == first && body[|first|].Tombstone?
      && |first| < |again| && again[|first|] != body[|first|]
  {
    var run;
    kept, run := SplitTail(a);
    var start := Head(0, Nothing, false);
    var next := Head(0, AccFrom(kept, start, |kept|, live, markerAt), MarkedFrom(kept, start, live, markerAt));
    assert a + r + b == kept + (run + r + b) && a + [m] + r + b == kept + (run + ([m] + (r + b)));
    DrawSplits(kept, run + r + b, start, live, markerAt);
    DrawSplits(kept, run + ([m] + (r + b)), start, live, markerAt);
    LiveAdds(run, r, live);
    RunFirst(run + r, b, next, live, markerAt);
    RunFirst(run, [m] + (r + b), next, live, markerAt);
    var n := Live(run, live);
    PlainFirst([m] + (r + b), next.(acc := if n > 0 then Nothing else next.acc), live, markerAt);
  }

  // ----- Anywhere -----

  /** Whether drawing m alone, between a and b, is enough: nobody saw the deletions right behind
      it, it continues no hidden row, and the first kept row behind it can stay as it is. */
  ghost predicate InsertFits(a: seq<Msg>, m: Msg, b: seq<Msg>, live: set<int>, markerAt: int) {
    var j := RunEnd(b, 0);
    && !AnyLive(b, 0, j, live) && !ContinuesHidden(a, m, live)
    && if j == |b| || b[j].system then !DividerDue(a, m, live, markerAt)
       else FitsBetween(a, m, b[j], live, markerAt)
  }

  /** The run b starts with, and what is behind it. */
  lemma SplitRun(b: seq<Msg>, live: set<int>) returns (r: seq<Msg>, rest: seq<Msg>)
    ensures b == r + rest && r == b[..RunEnd(b, 0)] && AllDeleted(r) && (rest == [] || !rest[0].deleted)
    ensures Live(r, live) > 0 <==> AnyLive(b, 0, RunEnd(b, 0), live)
  {
    var j := RunEnd(b, 0);
    r, rest := b[..j], b[j..];
    assert forall k :: 0 <= k < j ==> r[k] == b[k];
  }
}
