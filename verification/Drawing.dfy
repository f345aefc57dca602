/** What `renderMessages` draws, message by message and from the messages alone: the drawing of a
    channel grows by exactly this when a message, or a run of deleted ones, stands behind it. */
module Drawing {
  import opened Basics
  import opened Grouping

  predicate IsPlain(m: Msg) {
    !m.deleted && !m.system
  }

  /** m goes on under front[j]: the last message that is drawn, a plain one by the same author,
      less than five minutes older, and m is no reply. */
  predicate ContinuesAt(front: seq<Msg>, m: Msg, live: set<int>, j: nat)
    requires j < |front|
  {
    && IsPlain(front[j]) && (forall k :: j < k < |front| ==> front[k].deleted && front[k].id !in live)
    && front[j].user == m.user && m.time - front[j].time < 300_000 && !m.reply
  }

  ghost predicate Continues(front: seq<Msg>, m: Msg, live: set<int>) {
    exists j :: 0 <= j < |front| && ContinuesAt(front, m, live, j)
  }

  /** A message past the marker has been drawn. */
  predicate Crossed(front: seq<Msg>, from: nat, markerAt: int) {
    exists j :: from <= j < |front| && IsPlain(front[j]) && front[j].id > markerAt
  }

  lemma {:induction false} MarkedOnce(msgs: seq<Msg>, h: Head, live: set<int>, markerAt: int)
    requires h.i <= |msgs|
    ensures MarkedFrom(msgs, h, live, markerAt) <==> h.marked || (markerAt > 0 && Crossed(msgs, h.i, markerAt))
    decreases |msgs| - h.i
  {
    if h.i < |msgs| {
      var t := Turn(msgs, h, live, markerAt).1;
      MarkedOnce(msgs, t, live, markerAt);
      TurnCrosses(msgs, h, live, markerAt);
    }
  }

  lemma TurnCrosses(msgs: seq<Msg>, h: Head, live: set<int>, markerAt: int)
    requires h.i < |msgs|
    ensures var t := Turn(msgs, h, live, markerAt).1;
      (t.marked || (markerAt > 0 && Crossed(msgs, t.i, markerAt)))
      == (h.marked || (markerAt > 0 && Crossed(msgs, h.i, markerAt)))
  {
    var t := Turn(msgs, h, live, markerAt).1;
    assert forall j :: h.i < j < t.i ==> !IsPlain(msgs[j]);
    if Crossed(msgs, h.i, markerAt) {
      var j :| h.i <= j < |msgs| && IsPlain(msgs[j]) && msgs[j].id > markerAt;
      assert j == h.i || j >= t.i;
    }
  }

  lemma Accumulated(front: seq<Msg>, m: Msg, live: set<int>, markerAt: int)
    requires IsPlain(m)
    ensures ShouldGroup(AccFrom(front, Head(0, Nothing, false), |front|, live, markerAt), m)
        <==> Continues(front, m, live)
  {
    LoopAccumulates(front, Head(0, Nothing, false), |front|, live, markerAt);
    var k := LastKept(front, 0, |front|);
    if Continues(front, m, live) {
      var j :| 0 <= j < |front| && ContinuesAt(front, m, live, j);
      assert j == k;
    }
    if ShouldGroup(ForwardAt(front, 0, Nothing, |front|, live), m) {
      assert ContinuesAt(front, m, live, k);
    }
  }

  /** Whatever comes behind a list is drawn from the state the loop reaches at its end. */
  lemma DrawsBehind(front: seq<Msg>, more: seq<Msg>, live: set<int>, markerAt: int)
    requires Separate(front, more)
    ensures var start := Head(0, Nothing, false);
      var next := Head(0, AccFrom(front, start, |front|, live, markerAt), MarkedFrom(front, start, live, markerAt));
      DrawAll(front + more, live, markerAt) == DrawAll(front, live, markerAt) + DrawFrom(more, next, live, markerAt)
  {
    DrawSplits(front, more, Head(0, Nothing, false), live, markerAt);
  }

  lemma DrawsOne(m: Msg, h: Head, live: set<int>, markerAt: int)
    requires h.i == 0 && !m.deleted
    ensures DrawFrom([m], h, live, markerAt) == Turn([m], h, live, markerAt).0
  {
    var t := Turn([m], h, live, markerAt);
    assert DrawFrom([m], t.1, live, markerAt) == [];
  }

  /** A plain message: its row, grouped exactly when it goes on under the last one drawn, and in
      front of it the divider if it is the first message past the marker. */
  lemma DrawsRow(front: seq<Msg>, m: Msg, live: set<int>, markerAt: int)
    requires !m.deleted && !m.system
    ensures DrawAll(front + [m], live, markerAt)
         == DrawAll(front, live, markerAt)
            + ((if markerAt > 0 && m.id > markerAt && !Crossed(front, 0, markerAt) then [Divider] else [])
               + [Row(m.id, Continues(front, m, live))])
  {
    var start := Head(0, Nothing, false);
    DrawsBehind(front, [m], live, markerAt);
    Accumulated(front, m, live, markerAt);
    MarkedOnce(front, start, live, markerAt);
    DrawsOne(m, Head(0, AccFrom(front, start, |front|, live, markerAt), MarkedFrom(front, start, live, markerAt)),
             live, markerAt);
    hide AccFrom, MarkedFrom, ShouldGroup, Continues, Crossed, DrawFrom;
  }

  /** A system message: its line. */
  lemma DrawsSystemLine(front: seq<Msg>, m: Msg, live: set<int>, markerAt: int)
    requires !m.deleted && m.system
    ensures DrawAll(front + [m], live, markerAt) == DrawAll(front, live, markerAt) + [SystemLine(m.id)]
  {
    var start := Head(0, Nothing, false);
    DrawsBehind(front, [m], live, markerAt);
    DrawsOne(m, Head(0, AccFrom(front, start, |front|, live, markerAt), MarkedFrom(front, start, live, markerAt)),
             live, markerAt);
    hide AccFrom, MarkedFrom, DrawFrom;
  }

  lemma {:induction false} LiveCountIs(msgs: seq<Msg>, i: nat, j: nat, live: set<int>)
    requires i <= j <= |msgs|
    ensures LiveCount(msgs, i, j, live) == |set k | i <= k < j && msgs[k].id in live|
  {
    var counted := set k | i <= k < j && msgs[k].id in live;
    if i < j {
      LiveCountIs(msgs, i, j - 1, live);
      var before := set k | i <= k < j - 1 && msgs[k].id in live;
      assert counted == if msgs[j - 1].id in live then before + {j - 1} else before;
    }
  }

  lemma RunIsWhole(run: seq<Msg>, i: nat)
    requires i <= |run| && forall m <- run :: m.deleted
    ensures RunEnd(run, i) == |run|
  {}

  /** A run of deleted messages: one tombstone with the number of those somebody saw go, or
      nothing when nobody saw any. */
  lemma DrawsRun(front: seq<Msg>, run: seq<Msg>, live: set<int>, markerAt: int)
    requires front == [] || !front[|front| - 1].deleted
    requires run != [] && forall m <- run :: m.deleted
    ensures var seen := set k | 0 <= k < |run| && run[k].id in live;
      DrawAll(front + run, live, markerAt)
      == DrawAll(front, live, markerAt) + (if seen == {} then [] else [Tombstone(|seen|)])
  {
    var start := Head(0, Nothing, false);
    var h := Head(0, AccFrom(front, start, |front|, live, markerAt), MarkedFrom(front, start, live, markerAt));
    DrawsBehind(front, run, live, markerAt);
    RunIsWhole(run, 0);
    LiveCountIs(run, 0, |run|, live);
    assert run[0] in run;
    assert DrawFrom(run, Turn(run, h, live, markerAt).1, live, markerAt) == [];
  }
}
