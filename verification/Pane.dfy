/** The incremental message pane: `appendMessageRow`, `patchMessageRow`, `showOptimisticSend`,
    `reconcileOptimistic`, `removePending` of web/static/app.js:2276-2430 and
    `insertionPointFor` of web/static/messagelist.js:312-318. */
module Pane {
  import G = Grouping
  import S = Splicing

  /** A child of the message list. */
  datatype Child =
    | TopSentinel
    | BottomSentinel
    | Real(node: G.Node)
    | Pending(tempId: int, grouped: bool)

  datatype PendingSend = PendingSend(tempId: int, content: string)

  /** `data-msg-id` of a drawn row or system line. */
  predicate HasId(n: G.Node) {
    n.Row? || n.SystemLine?
  }

  ghost predicate IdsFollow(msgs: seq<G.Msg>) {
    forall i, j :: 0 <= i < j < |msgs| ==> msgs[i].id < msgs[j].id
  }

  ghost predicate Known(msgs: seq<G.Msg>, id: int) {
    exists m <- msgs :: m.id == id
  }

  /** Drawn rows stand in array order, and every one is of a loaded message. */
  ghost predicate InArrayOrder(body: seq<G.Node>, msgs: seq<G.Msg>) {
    && (forall i, j :: 0 <= i < j < |body| && HasId(body[i]) && HasId(body[j]) ==> body[i].id <= body[j].id)
    && (forall i :: 0 <= i < |body| && HasId(body[i]) ==> Known(msgs, body[i].id))
  }

  /** Where `querySelector('[data-msg-id=…]')` finds a row, or |body|. */
  function RowIndex(body: seq<G.Node>, id: int): (i: nat)
    ensures i <= |body|
    ensures i < |body| ==> HasId(body[i]) && body[i].id == id
    ensures forall j :: 0 <= j < i ==> HasId(body[j]) ==> body[j].id != id
  {
    if body == [] then 0
    else if HasId(body[0]) && body[0].id == id then 0
    else
      assert forall j :: 1 <= j < |body| ==> body[j] == body[1..][j - 1];
      1 + RowIndex(body[1..], id)
  }

  predicate IsDrawn(body: seq<G.Node>, id: int) {
    RowIndex(body, id) < |body|
  }

  /** The place in the body for a row of message number idx: before the next loaded message
      that is drawn, else at the end (in front of the pending rows). */
  function InsertAt(body: seq<G.Node>, msgs: seq<G.Msg>, k: nat): (i: nat)
    requires k <= |msgs|
    ensures i <= |body|
    decreases |msgs| - k
  {
    if k == |msgs| then |body|
    else if IsDrawn(body, msgs[k].id) then RowIndex(body, msgs[k].id)
    else InsertAt(body, msgs, k + 1)
  }

  function Inserted(body: seq<G.Node>, msgs: seq<G.Msg>, idx: nat, row: G.Node): seq<G.Node>
    requires idx < |msgs|
  {
    var i := InsertAt(body, msgs, idx + 1);
    body[..i] + [row] + body[i..]
  }

  lemma {:induction false} InsertAtSeparates(body: seq<G.Node>, msgs: seq<G.Msg>, k: nat, id: int)
    requires k <= |msgs| && InArrayOrder(body, msgs) && IdsFollow(msgs)
    requires forall i :: 0 <= i < |body| && HasId(body[i]) ==>
      body[i].id <= id || exists j :: k <= j < |msgs| && msgs[j].id == body[i].id
    requires forall j :: k <= j < |msgs| ==> msgs[j].id > id
    ensures var at := InsertAt(body, msgs, k);
      && (forall i :: 0 <= i < at && HasId(body[i]) ==> body[i].id <= id)
      && (forall i :: at <= i < |body| && HasId(body[i]) ==> body[i].id > id)
    decreases |msgs| - k
  {
    if k < |msgs| {
      var at := RowIndex(body, msgs[k].id);
      if at < |body| {
        forall i | 0 <= i < at && HasId(body[i]) ensures body[i].id <= id {
          assert body[i].id <= body[at].id;
          forall j | k <= j < |msgs| ensures msgs[j].id != body[i].id {
            if j > k { assert msgs[k].id < msgs[j].id; }
          }
        }
      } else {
        forall i | 0 <= i < |body| && HasId(body[i])
          ensures body[i].id <= id || exists j :: k + 1 <= j < |msgs| && msgs[j].id == body[i].id
        {
          if body[i].id > id {
            var j :| k <= j < |msgs| && msgs[j].id == body[i].id;
            assert j != k;
          }
        }
        InsertAtSeparates(body, msgs, k + 1, id);
      }
    }
  }

  /** A row placed by the insertion point keeps the drawn rows in array order. */
  lemma InsertKeepsOrder(body: seq<G.Node>, msgs: seq<G.Msg>, idx: nat, row: G.Node)
    requires IdsFollow(msgs) && InArrayOrder(body, msgs)
    requires idx < |msgs| && row.Row? && row.id == msgs[idx].id
    ensures InArrayOrder(Inserted(body, msgs, idx, row), msgs)
  {
    forall i | 0 <= i < |body| && HasId(body[i])
      ensures body[i].id <= row.id || exists j :: idx + 1 <= j < |msgs| && msgs[j].id == body[i].id
    {
      assert Known(msgs, body[i].id);
      var m :| m in msgs && m.id == body[i].id;
      var j :| 0 <= j < |msgs| && msgs[j] == m;
      if j < idx { assert msgs[j].id < msgs[idx].id; }
    }
    InsertAtSeparates(body, msgs, idx + 1, row.id);
    assert msgs[idx] in msgs;
    assert Known(msgs, row.id);
    SplicedInOrder(body, msgs, InsertAt(body, msgs, idx + 1), row);
  }

  lemma SplicedInOrder(body: seq<G.Node>, msgs: seq<G.Msg>, at: nat, row: G.Node)
    requires InArrayOrder(body, msgs) && at <= |body| && row.Row? && Known(msgs, row.id)
    requires forall i :: 0 <= i < at && HasId(body[i]) ==> body[i].id <= row.id
    requires forall i :: at <= i < |body| && HasId(body[i]) ==> body[i].id > row.id
    ensures InArrayOrder(body[..at] + [row] + body[at..], msgs)
  {
    hide Known;
    var after := body[..at] + [row] + body[at..];
    forall i | 0 <= i < |after| && HasId(after[i]) ensures Known(msgs, after[i].id) {
      assert after[i] == if i < at then body[i] else if i == at then row else body[i - 1];
    }
    forall i, j | 0 <= i < j < |after| && HasId(after[i]) && HasId(after[j]) ensures after[i].id <= after[j].id {
      assert after[i] == if i < at then body[i] else if i == at then row else body[i - 1];
      assert after[j] == if j < at then body[j] else if j == at then row else body[j - 1];
    }
  }

  /** No message is drawn twice. */
  ghost predicate Distinct(body: seq<G.Node>) {
    forall i, j :: 0 <= i < j < |body| && HasId(body[i]) && HasId(body[j]) ==> body[i].id != body[j].id
  }

  /** An inserted row is a second copy exactly when the message was already drawn. */
  lemma InsertedDistinct(body: seq<G.Node>, msgs: seq<G.Msg>, idx: nat, row: G.Node)
    requires idx < |msgs| && row.Row?
    ensures Distinct(Inserted(body, msgs, idx, row)) <==> Distinct(body) && !IsDrawn(body, row.id)
  {
    hide Distinct, IsDrawn, InsertAt;
    var at := InsertAt(body, msgs, idx + 1);
    if Distinct(Inserted(body, msgs, idx, row)) { SplicedWasDistinct(body, at, row); }
    if Distinct(body) && !IsDrawn(body, row.id) { SplicedIsDistinct(body, at, row); }
  }

  lemma SplicedWasDistinct(body: seq<G.Node>, at: nat, row: G.Node)
    requires at <= |body| && row.Row? && Distinct(body[..at] + [row] + body[at..])
    ensures Distinct(body) && !IsDrawn(body, row.id)
  {
    var after := body[..at] + [row] + body[at..];
    assert forall i :: 0 <= i < |body| ==> body[i] == after[if i < at then i else i + 1];
    forall i, j | 0 <= i < j < |body| && HasId(body[i]) && HasId(body[j]) ensures body[i].id != body[j].id {
      assert after[if i < at then i else i + 1].id != after[if j < at then j else j + 1].id;
    }
    forall i | 0 <= i < |body| && HasId(body[i]) ensures body[i].id != row.id {
      var k := if i < at then i else i + 1;
      if k < at { assert after[k].id != after[at].id; } else { assert after[at].id != after[k].id; }
    }
  }

  lemma SplicedIsDistinct(body: seq<G.Node>, at: nat, row: G.Node)
    requires at <= |body| && row.Row? && Distinct(body) && !IsDrawn(body, row.id)
    ensures Distinct(body[..at] + [row] + body[at..])
  {
    var after := body[..at] + [row] + body[at..];
    forall i, j | 0 <= i < j < |after| && HasId(after[i]) && HasId(after[j]) ensures after[i].id != after[j].id {
      assert after[i] == if i < at then body[i] else if i == at then row else body[i - 1];
      assert after[j] == if j < at then body[j] else if j == at then row else body[j - 1];
    }
  }

  lemma NoneIs(body: seq<G.Node>, id: int)
    requires forall j :: 0 <= j < |body| && HasId(body[j]) ==> body[j].id != id
    ensures !IsDrawn(body, id)
  {}

  lemma SomeIs(body: seq<G.Node>, id: int, i: nat)
    requires i < |body| && HasId(body[i]) && body[i].id == id
    ensures IsDrawn(body, id)
  {}

  lemma InsertedIsDrawn(body: seq<G.Node>, msgs: seq<G.Msg>, idx: nat, row: G.Node)
    requires idx < |msgs| && row.Row?
    ensures IsDrawn(Inserted(body, msgs, idx, row), row.id)
  {
    var at := InsertAt(body, msgs, idx + 1);
    assert Inserted(body, msgs, idx, row)[at] == row;
    SomeIs(Inserted(body, msgs, idx, row), row.id, at);
  }

  /** The drawn row of this id, drawn again as a message row of the same shape. */
  function Redrawn(body: seq<G.Node>, id: int): seq<G.Node>
    requires IsDrawn(body, id)
  {
    var i := RowIndex(body, id);
    body[i := G.Row(id, body[i].Row? && body[i].grouped)]
  }

  lemma RedrawnKeepsOrder(body: seq<G.Node>, msgs: seq<G.Msg>, id: int)
    requires InArrayOrder(body, msgs) && IsDrawn(body, id)
    ensures InArrayOrder(Redrawn(body, id), msgs)
  {
    hide Known;
  }

  lemma OnlyOneHas(msgs: seq<G.Msg>, idx: nat)
    requires IdsFollow(msgs) && idx < |msgs|
    ensures forall m <- msgs :: m.id == msgs[idx].id ==> m == msgs[idx]
  {
    forall m | m in msgs && m.id == msgs[idx].id ensures m == msgs[idx] {
      var k :| 0 <= k < |msgs| && msgs[k] == m;
    }
  }

  // ----- A full rebuild -----

  /** Every drawn row is of a message from index lo on, and ids rise strictly. */
  ghost predicate RisesFrom(body: seq<G.Node>, msgs: seq<G.Msg>, lo: nat) {
    && (forall i :: 0 <= i < |body| && HasId(body[i]) ==> exists k :: lo <= k < |msgs| && msgs[k].id == body[i].id)
    && (forall i, j :: 0 <= i < j < |body| && HasId(body[i]) && HasId(body[j]) ==> body[i].id < body[j].id)
  }

  lemma RisesOn(first: seq<G.Node>, rest: seq<G.Node>, msgs: seq<G.Msg>, lo: nat, next: nat)
    requires IdsFollow(msgs) && lo < next <= |msgs| && RisesFrom(rest, msgs, next)
    requires forall i :: 0 <= i < |first| && HasId(first[i]) ==> i == |first| - 1 && first[i].id == msgs[lo].id
    ensures RisesFrom(first + rest, msgs, lo)
  {
    var all := first + rest;
    forall i | 0 <= i < |all| && HasId(all[i])
      ensures exists k :: lo <= k < |msgs| && msgs[k].id == all[i].id
      ensures i >= |first| ==> all[i].id > msgs[lo].id
    {
      if i < |first| {
        assert msgs[lo].id == all[i].id;
      } else {
        assert all[i] == rest[i - |first|];
        var k :| next <= k < |msgs| && msgs[k].id == all[i].id;
        assert msgs[lo].id < msgs[k].id;
      }
    }
    forall i, j | 0 <= i < j < |all| && HasId(all[i]) && HasId(all[j]) ensures all[i].id < all[j].id {
      if i >= |first| { assert all[i] == rest[i - |first|] && all[j] == rest[j - |first|]; }
    }
  }

  lemma {:induction false} DrawnRises(msgs: seq<G.Msg>, h: G.Head, live: set<int>, markerAt: int)
    requires IdsFollow(msgs) && h.i <= |msgs|
    ensures RisesFrom(G.DrawFrom(msgs, h, live, markerAt), msgs, h.i)
    decreases |msgs| - h.i
  {
    if h.i < |msgs| {
      var t := G.Turn(msgs, h, live, markerAt);
      DrawnRises(msgs, t.1, live, markerAt);
      RisesOn(t.0, G.DrawFrom(msgs, t.1, live, markerAt), msgs, h.i, t.1.i);
    }
  }

  lemma {:induction false} DrawnIfKept(msgs: seq<G.Msg>, h: G.Head, live: set<int>, markerAt: int, idx: nat)
    requires h.i <= idx < |msgs| && !msgs[idx].deleted
    ensures IsDrawn(G.DrawFrom(msgs, h, live, markerAt), msgs[idx].id)
    decreases |msgs| - h.i
  {
    var t := G.Turn(msgs, h, live, markerAt);
    var rest := G.DrawFrom(msgs, t.1, live, markerAt);
    if t.1.i <= idx {
      DrawnIfKept(msgs, t.1, live, markerAt, idx);
      var k := RowIndex(rest, msgs[idx].id);
      SomeIs(t.0 + rest, msgs[idx].id, |t.0| + k);
    } else {
      SomeIs(t.0 + rest, msgs[idx].id, |t.0| - 1);
    }
  }

  /** A rebuild draws every message that is not deleted, in array order, once. */
  lemma RebuildDraws(msgs: seq<G.Msg>, live: set<int>, markerAt: int)
    requires IdsFollow(msgs)
    ensures var body := G.DrawAll(msgs, live, markerAt);
      InArrayOrder(body, msgs) && Distinct(body) && forall m <- msgs :: !m.deleted ==> IsDrawn(body, m.id)
  {
    var h := G.Head(0, G.Nothing, false);
    var body := G.DrawAll(msgs, live, markerAt);
    DrawnRises(msgs, h, live, markerAt);
    forall i | 0 <= i < |body| && HasId(body[i]) ensures Known(msgs, body[i].id) {
      var k :| 0 <= k < |msgs| && msgs[k].id == body[i].id;
      assert msgs[k] in msgs;
    }
    forall m | m in msgs && !m.deleted ensures IsDrawn(body, m.id) {
      var k :| 0 <= k < |msgs| && msgs[k] == m;
      DrawnIfKept(msgs, h, live, markerAt, k);
    }
  }

  lemma {:induction false} AnchorOfPrefix(msgs: seq<G.Msg>, more: seq<G.Msg>, idx: nat, live: set<int>)
    requires idx <= |msgs|
    ensures G.AnchorAt(msgs + more, idx, live) == G.AnchorAt(msgs, idx, live)
  {
    if idx > 0 { AnchorOfPrefix(msgs, more, idx - 1, live); }
  }

  /** The fast path for a new message at the end of a freshly drawn pane leaves the very pane
      a full rebuild would draw, exactly when no divider is due and the message does not
      continue a row behind an invisible deleted system row. */
  lemma AppendedIsRebuilt(msgs: seq<G.Msg>, m: G.Msg, live: set<int>, markerAt: int)
    requires !m.deleted && !m.system
    ensures var longer := msgs + [m];
      Inserted(G.DrawAll(msgs, live, markerAt), longer, |msgs|,
               G.Row(m.id, G.ShouldGroup(G.AnchorAt(longer, |msgs|, live), m)))
      == G.DrawAll(longer, live, markerAt)
      <==> !G.DividerDue(msgs, m, live, markerAt) && !G.ContinuesHidden(msgs, m, live)
  {
    hide G.DrawAll, G.ContinuesHidden, G.DividerDue, G.ShouldGroup;
    AnchorOfPrefix(msgs, [m], |msgs|, live);
    G.AppendEqualsRebuild(msgs, m, live, markerAt);
    var body := G.DrawAll(msgs, live, markerAt);
    assert body[..|body|] == body && body[|body|..] == [];
    assert InsertAt(body, msgs + [m], |msgs| + 1) == |body|;
  }

  lemma BeforePlainRow(a: seq<G.Msg>, m: G.Msg, b: seq<G.Msg>, live: set<int>, markerAt: int)
    requires !m.deleted && !m.system && b != [] && !b[0].deleted && !b[0].system && IdsFollow(a + [m] + b)
    ensures var longer := a + [m] + b;
      Inserted(G.DrawAll(a + b, live, markerAt), longer, |a|,
               G.Row(m.id, G.ShouldGroup(G.AnchorAt(longer, |a|, live), m)))
      == G.DrawAll(longer, live, markerAt)
      <==> !G.ContinuesHidden(a, m, live) && S.FitsBetween(a, m, b[0], live, markerAt)
  {
    hide G.DrawAll, G.ContinuesHidden, S.FitsBetween, G.ShouldGroup, InArrayOrder;
    NextInArray(a, m, b);
    AnchorOfPrefix(a, [m] + b, |a|, live);
    var at := S.InsertEqualsRebuild(a, m, b, live, markerAt);
    InsertsBefore(a, m, b, live, markerAt, at);
  }

  lemma BeforeSystemRow(a: seq<G.Msg>, m: G.Msg, b: seq<G.Msg>, live: set<int>, markerAt: int)
    requires !m.deleted && !m.system && b != [] && !b[0].deleted && b[0].system && IdsFollow(a + [m] + b)
    ensures var longer := a + [m] + b;
      Inserted(G.DrawAll(a + b, live, markerAt), longer, |a|,
               G.Row(m.id, G.ShouldGroup(G.AnchorAt(longer, |a|, live), m)))
      == G.DrawAll(longer, live, markerAt)
      <==> !G.ContinuesHidden(a, m, live) && !G.DividerDue(a, m, live, markerAt)
  {
    hide G.DrawAll, G.ContinuesHidden, G.DividerDue, G.ShouldGroup, InArrayOrder;
    NextInArray(a, m, b);
    AnchorOfPrefix(a, [m] + b, |a|, live);
    var at := S.BeforeSystemLine(a, m, b, live, markerAt);
    InsertsBefore(a, m, b, live, markerAt, at);
  }

  lemma NextInArray(a: seq<G.Msg>, m: G.Msg, b: seq<G.Msg>)
    requires b != [] && IdsFollow(a + [m] + b)
    ensures var longer := a + [m] + b; longer == a + ([m] + b) && longer[|a|] == m && longer[|a| + 1] == b[0]
    ensures m.id < b[0].id
  {
    var longer := a + [m] + b;
    assert longer[|a|] == m && longer[|a| + 1] == b[0];
  }

  /** The insertion point is in front of the next message, where that is drawn. */
  lemma InsertsBefore(a: seq<G.Msg>, m: G.Msg, b: seq<G.Msg>, live: set<int>, markerAt: int, at: nat)
    requires b != [] && IdsFollow(a + [m] + b)
    requires var body := G.DrawAll(a + b, live, markerAt); at < |body| && HasId(body[at]) && body[at].id == b[0].id
    ensures InsertAt(G.DrawAll(a + b, live, markerAt), a + [m] + b, |a| + 1) == at
  {
    hide G.DrawAll, InArrayOrder;
    var longer := a + [m] + b;
    assert longer[|a| + 1] == b[0];
    WithoutOne(a, m, b);
    RebuildDraws(a + b, live, markerAt);
    FirstDrawn(G.DrawAll(a + b, live, markerAt), b[0].id, at);
  }

  lemma {:induction false} InsertAtSuffix(body: seq<G.Node>, msgs: seq<G.Msg>, k: nat, other: seq<G.Msg>, l: nat)
    requires k <= |msgs| && l <= |other| && msgs[k..] == other[l..]
    ensures InsertAt(body, msgs, k) == InsertAt(body, other, l)
    decreases |msgs| - k
  {
    if k < |msgs| {
      assert msgs[k] == msgs[k..][0] && other[l] == other[l..][0];
      assert msgs[k + 1..] == msgs[k..][1..] && other[l + 1..] == other[l..][1..];
      InsertAtSuffix(body, msgs, k + 1, other, l + 1);
    }
  }

  /** Messages that are not drawn do not count. */
  lemma {:induction false} InsertAtSkips(body: seq<G.Node>, msgs: seq<G.Msg>, k: nat, n: nat)
    requires k <= n <= |msgs| && forall j :: k <= j < n ==> !IsDrawn(body, msgs[j].id)
    ensures InsertAt(body, msgs, k) == InsertAt(body, msgs, n)
    decreases n - k
  {
    if k < n {
      InsertAtSkips(body, msgs, k + 1, n);
    }
  }

  /** The insertion point is in front of a drawn message behind k, or at the end. */
  lemma {:induction false} InsertAtIs(body: seq<G.Node>, msgs: seq<G.Msg>, k: nat)
    requires k <= |msgs|
    ensures var at := InsertAt(body, msgs, k);
      at < |body| ==> HasId(body[at]) && exists j :: k <= j < |msgs| && body[at].id == msgs[j].id
    decreases |msgs| - k
  {
    if k < |msgs| && !IsDrawn(body, msgs[k].id) {
      InsertAtIs(body, msgs, k + 1);
    }
  }

  /** In front of deletions somebody saw, the row lands behind their tombstone. */
  lemma BehindTombstone(a: seq<G.Msg>, m: G.Msg, r: seq<G.Msg>, b: seq<G.Msg>, live: set<int>, markerAt: int,
                        row: G.Node)
    requires !m.deleted && !m.system && IdsFollow(a + [m] + r + b)
    requires S.AllDeleted(r) && S.Live(r, live) > 0 && (b == [] || !b[0].deleted)
    ensures Inserted(G.DrawAll(a + r + b, live, markerAt), a + [m] + r + b, |a|, row)
      != G.DrawAll(a + [m] + r + b, live, markerAt)
  {
    hide G.DrawAll, S.Live, S.AllDeleted, InArrayOrder;
    var longer := a + [m] + r + b;
    var kept := S.SeenRunDiffers(a, m, r, b, live, markerAt);
    var first, body := G.DrawAll(kept, live, markerAt), G.DrawAll(a + r + b, live, markerAt);
    var at := InsertAt(body, longer, |a| + 1);
    InsertAtIs(body, longer, |a| + 1);
    if at < |first| {
      KeptFollow(kept, longer);
      RebuildDraws(kept, live, markerAt);
      assert body[at] == body[..|first|][at] == first[at];
      NotBehind(kept, longer, |a| + 1, first, at);
    }
    assert at != |first|;
    assert Inserted(body, longer, |a|, row)[|first|] == body[|first|];
  }

  lemma KeptFollow(kept: seq<G.Msg>, msgs: seq<G.Msg>)
    requires IdsFollow(msgs) && kept <= msgs
    ensures IdsFollow(kept)
  {}

  /** A row drawn for the front of the array is of no message behind it. */
  lemma NotBehind(kept: seq<G.Msg>, msgs: seq<G.Msg>, k: nat, body: seq<G.Node>, at: nat)
    requires IdsFollow(msgs) && kept <= msgs && |kept| <= k && InArrayOrder(body, kept)
    requires at < |body| && HasId(body[at])
    ensures !exists j :: k <= j < |msgs| && body[at].id == msgs[j].id
  {
    assert Known(kept, body[at].id);
    var x :| x in kept && x.id == body[at].id;
    var i :| 0 <= i < |kept| && kept[i] == x;
    assert msgs[i] == x;
  }

  /** Deletions nobody saw do not move the insertion point. */
  lemma UnseenSkipped(a: seq<G.Msg>, m: G.Msg, r: seq<G.Msg>, b: seq<G.Msg>, live: set<int>, markerAt: int)
    requires IdsFollow(a + [m] + r + b)
    ensures var body := G.DrawAll(a + b, live, markerAt);
      InsertAt(body, a + [m] + r + b, |a| + 1) == InsertAt(body, a + [m] + b, |a| + 1)
    ensures IdsFollow(a + [m] + b)
  {
    WithoutRun(a, m, r, b);
    hide G.DrawAll, IdsFollow;
    var longer, shorter, body := a + [m] + r + b, a + [m] + b, G.DrawAll(a + b, live, markerAt);
    WithoutOne(a, m, b);
    RebuildDraws(a + b, live, markerAt);
    hide InArrayOrder, Distinct, IsDrawn, InsertAt;
    var n := |a| + 1 + |r|;
    forall j | |a| + 1 <= j < n ensures !IsDrawn(body, longer[j].id) {
      OthersOnly(a, m, r, b, j, body);
    }
    InsertAtSkips(body, longer, |a| + 1, n);
    assert longer[n..] == b && shorter[|a| + 1..] == b;
    InsertAtSuffix(body, longer, n, shorter, |a| + 1);
  }

  lemma WithoutRun(a: seq<G.Msg>, m: G.Msg, r: seq<G.Msg>, b: seq<G.Msg>)
    requires IdsFollow(a + [m] + r + b)
    ensures IdsFollow(a + [m] + b)
  {
    var longer, shorter := a + [m] + r + b, a + [m] + b;
    assert forall i :: 0 <= i < |shorter| ==> shorter[i] == longer[if i <= |a| then i else i + |r|];
  }

  lemma OthersOnly(a: seq<G.Msg>, m: G.Msg, r: seq<G.Msg>, b: seq<G.Msg>, j: nat, body: seq<G.Node>)
    requires IdsFollow(a + [m] + r + b) && |a| < j < |a| + 1 + |r| && InArrayOrder(body, a + b)
    ensures !IsDrawn(body, (a + [m] + r + b)[j].id)
  {
    var id := (a + [m] + r + b)[j].id;
    forall i | 0 <= i < |body| && HasId(body[i]) ensures body[i].id != id {
      OtherId(a, m, r, b, j, body[i].id);
    }
    NoneIs(body, id);
  }

  lemma OtherId(a: seq<G.Msg>, m: G.Msg, r: seq<G.Msg>, b: seq<G.Msg>, j: nat, id: int)
    requires IdsFollow(a + [m] + r + b) && |a| < j < |a| + 1 + |r| && Known(a + b, id)
    ensures id != (a + [m] + r + b)[j].id
  {
    var x :| x in a + b && x.id == id;
    var k :| 0 <= k < |a + b| && (a + b)[k] == x;
    var i := if k < |a| then k else k + 1 + |r|;
    assert (a + [m] + r + b)[i] == x;
  }

  /** The fast path for a message anywhere in the array, on a freshly drawn pane, leaves the very
      pane a full rebuild would draw exactly when the message fits: no live deletion right
      behind it, no hidden row it continues, and the next kept row can stay as it is. */
  lemma InsertedIsRebuilt(a: seq<G.Msg>, m: G.Msg, b: seq<G.Msg>, live: set<int>, markerAt: int)
    requires !m.deleted && !m.system && IdsFollow(a + [m] + b)
    ensures var longer := a + [m] + b;
      Inserted(G.DrawAll(a + b, live, markerAt), longer, |a|,
               G.Row(m.id, G.ShouldGroup(G.AnchorAt(longer, |a|, live), m)))
      == G.DrawAll(longer, live, markerAt)
      <==> S.InsertFits(a, m, b, live, markerAt)
  {
    hide G.DrawAll, G.ContinuesHidden, G.DividerDue, S.FitsBetween, G.ShouldGroup, S.Live, S.AllDeleted;
    var r, rest := S.SplitRun(b, live);
    var longer := a + [m] + b;
    assert longer == a + [m] + r + rest && a + b == a + r + rest;
    var row := G.Row(m.id, G.ShouldGroup(G.AnchorAt(longer, |a|, live), m));
    if S.Live(r, live) > 0 {
      BehindTombstone(a, m, r, rest, live, markerAt, row);
    } else {
      S.DropUnseen(a, r, rest, live, markerAt);
      S.DropUnseen(a + [m], r, rest, live, markerAt);
      UnseenSkipped(a, m, r, rest, live, markerAt);
      AnchorsSame(a, m, b, rest, live);
      FitsRest(a, m, rest, live, markerAt);
    }
  }

  lemma AnchorsSame(a: seq<G.Msg>, m: G.Msg, b: seq<G.Msg>, rest: seq<G.Msg>, live: set<int>)
    ensures G.AnchorAt(a + [m] + b, |a|, live) == G.AnchorAt(a + [m] + rest, |a|, live)
  {
    assert a + [m] + b == a + ([m] + b) && a + [m] + rest == a + ([m] + rest);
    AnchorOfPrefix(a, [m] + b, |a|, live);
    AnchorOfPrefix(a, [m] + rest, |a|, live);
  }

  /** The same without deletions right behind it. */
  lemma FitsRest(a: seq<G.Msg>, m: G.Msg, rest: seq<G.Msg>, live: set<int>, markerAt: int)
    requires !m.deleted && !m.system && IdsFollow(a + [m] + rest) && (rest == [] || !rest[0].deleted)
    ensures var longer := a + [m] + rest;
      Inserted(G.DrawAll(a + rest, live, markerAt), longer, |a|,
               G.Row(m.id, G.ShouldGroup(G.AnchorAt(longer, |a|, live), m)))
      == G.DrawAll(longer, live, markerAt)
      <==> !G.ContinuesHidden(a, m, live)
           && if rest == [] || rest[0].system then !G.DividerDue(a, m, live, markerAt)
              else S.FitsBetween(a, m, rest[0], live, markerAt)
  {
    hide G.DrawAll, G.ContinuesHidden, G.DividerDue, S.FitsBetween, G.ShouldGroup, G.AnchorAt, Inserted;
    if rest == [] {
      assert a + rest == a && a + [m] + rest == a + [m];
      AppendedIsRebuilt(a, m, live, markerAt);
    } else if rest[0].system {
      BeforeSystemRow(a, m, rest, live, markerAt);
    } else {
      BeforePlainRow(a, m, rest, live, markerAt);
    }
  }

  lemma WithoutOne(a: seq<G.Msg>, m: G.Msg, b: seq<G.Msg>)
    requires IdsFollow(a + [m] + b)
    ensures IdsFollow(a + b)
  {
    var longer := a + [m] + b;
    assert forall i :: 0 <= i < |a + b| ==> (a + b)[i] == longer[if i < |a| then i else i + 1];
  }

  lemma FirstDrawn(body: seq<G.Node>, id: int, at: nat)
    requires Distinct(body) && at < |body| && HasId(body[at]) && body[at].id == id
    ensures RowIndex(body, id) == at && IsDrawn(body, id)
  {
    var k := RowIndex(body, id);
    assert k <= at;
  }

  // ----- The message array -----

  /** Where a message of this id stands, or belongs, in the array. */
  function SlotFor(msgs: seq<G.Msg>, id: int): (k: nat)
    ensures k <= |msgs|
    ensures forall j :: 0 <= j < k ==> msgs[j].id < id
    ensures k < |msgs| ==> msgs[k].id >= id
  {
    if msgs == [] || msgs[0].id >= id then 0 else 1 + SlotFor(msgs[1..], id)
  }

  lemma ReplaceKeeps(body: seq<G.Node>, msgs: seq<G.Msg>, idx: nat, m: G.Msg)
    requires IdsFollow(msgs) && InArrayOrder(body, msgs) && idx < |msgs| && msgs[idx].id == m.id
    ensures IdsFollow(msgs[idx := m]) && InArrayOrder(body, msgs[idx := m])
  {
    var after := msgs[idx := m];
    forall x | x in msgs ensures exists y <- after :: y.id == x.id {
      var k :| 0 <= k < |msgs| && msgs[k] == x;
      assert after[k] in after && after[k].id == x.id;
    }
  }

  // ----- The pane as the page holds it -----

  function Reals(body: seq<G.Node>): (c: seq<Child>)
    ensures |c| == |body| && forall i :: 0 <= i < |c| ==> c[i] == Real(body[i])
  {
    seq(|body|, i requires 0 <= i < |body| => Real(body[i]))
  }

  function Layout(body: seq<G.Node>, tail: seq<Child>): seq<Child> {
    [TopSentinel] + Reals(body) + tail + [BottomSentinel]
  }

  /** Pending rows, oldest send first: each send takes the next lower temporary id. */
  ghost predicate InSendOrder(tail: seq<Child>) {
    && (forall i :: 0 <= i < |tail| ==> tail[i].Pending?)
    && (forall i, j :: 0 <= i < j < |tail| ==> tail[i].tempId > tail[j].tempId)
  }

  ghost predicate SendsInOrder(sends: seq<PendingSend>) {
    forall i, j :: 0 <= i < j < |sends| ==> sends[i].tempId > sends[j].tempId
  }

  lemma LayoutAt(body: seq<G.Node>, tail: seq<Child>, i: nat)
    requires i < |body| + |tail| + 2
    ensures Layout(body, tail)[i] ==
      if i == 0 then TopSentinel
      else if i <= |body| then Real(body[i - 1])
      else if i <= |body| + |tail| then tail[i - 1 - |body|]
      else BottomSentinel
  {}

  lemma InsertInBody(body: seq<G.Node>, tail: seq<Child>, i: nat, row: G.Node)
    requires i <= |body|
    ensures var dom := Layout(body, tail);
      dom[..i + 1] + [Real(row)] + dom[i + 1..] == Layout(body[..i] + [row] + body[i..], tail)
  {
    var dom := Layout(body, tail);
    var a := dom[..i + 1] + [Real(row)] + dom[i + 1..];
    var b := Layout(body[..i] + [row] + body[i..], tail);
    assert |a| == |b|;
    forall k | 0 <= k < |a| ensures a[k] == b[k] {}
  }

  lemma RedrawnInLayout(body: seq<G.Node>, tail: seq<Child>, id: int)
    requires IsDrawn(body, id)
    ensures var i := RowIndex(body, id);
      Layout(Redrawn(body, id), tail) == Layout(body, tail)[i + 1 := Real(Redrawn(body, id)[i])]
  {
    var i := RowIndex(body, id);
    assert Reals(Redrawn(body, id)) == Reals(body)[i := Real(Redrawn(body, id)[i])];
  }

  lemma InsertInTail(body: seq<G.Node>, tail: seq<Child>, row: Child)
    ensures var dom := Layout(body, tail);
      dom[..|dom| - 1] + [row] + dom[|dom| - 1..] == Layout(body, tail + [row])
  {
    var dom := Layout(body, tail);
    assert dom[..|dom| - 1] == [TopSentinel] + Reals(body) + tail;
  }

  lemma RemoveFromTail(body: seq<G.Node>, tail: seq<Child>, i: nat)
    requires i < |tail|
    ensures var dom := Layout(body, tail);
      var at := |body| + 1 + i;
      dom[..at] + dom[at + 1..] == Layout(body, tail[..i] + tail[i + 1..])
  {
    var dom := Layout(body, tail);
    var at := |body| + 1 + i;
    assert dom[..at] == [TopSentinel] + Reals(body) + tail[..i];
    assert dom[at + 1..] == tail[i + 1..] + [BottomSentinel];
  }

  // ----- Pending rows -----

  /** The pending rows without the one of this temporary id. */
  function Without(tail: seq<Child>, tempId: int): seq<Child> {
    if tail == [] then []
    else if tail[0] == Pending(tempId, true) || tail[0] == Pending(tempId, false) then tail[1..]
    else [tail[0]] + Without(tail[1..], tempId)
  }

  ghost predicate HasRow(tail: seq<Child>, tempId: int) {
    exists c <- tail :: c.Pending? && c.tempId == tempId
  }

  lemma {:induction false} WithoutAt(tail: seq<Child>, tempId: int, i: nat)
    requires i < |tail| && tail[i].Pending? && tail[i].tempId == tempId
    requires forall j :: 0 <= j < i ==> tail[j].Pending? && tail[j].tempId != tempId
    ensures Without(tail, tempId) == tail[..i] + tail[i + 1..]
    ensures HasRow(tail, tempId)
  {
    assert tail[i] in tail;
    if i > 0 {
      WithoutAt(tail[1..], tempId, i - 1);
      assert tail[..i] + tail[i + 1..] == [tail[0]] + (tail[1..][..i - 1] + tail[1..][i..]);
    }
  }

  lemma {:induction false} WithoutNone(tail: seq<Child>, tempId: int)
    requires !HasRow(tail, tempId)
    ensures Without(tail, tempId) == tail
  {
    if tail != [] {
      assert tail[0] in tail;
      assert forall c :: c in tail[1..] ==> c in tail;
      WithoutNone(tail[1..], tempId);
    }
  }

  /** The oldest pending send of this content, or |sends|. */
  function FirstSend(sends: seq<PendingSend>, content: string): (i: nat)
    ensures i <= |sends|
    ensures i < |sends| ==> sends[i].content == content
    ensures forall j :: 0 <= j < i ==> sends[j].content != content
  {
    if sends == [] || sends[0].content == content then 0 else 1 + FirstSend(sends[1..], content)
  }

  /** The sends left once the oldest of this content is taken. */
  function SendsAfter(sends: seq<PendingSend>, content: string): seq<PendingSend> {
    var i := FirstSend(sends, content);
    if i == |sends| then sends else sends[..i] + sends[i + 1..]
  }

  /** A message of mine with this content would take over a pending row. */
  ghost predicate WouldTake(sends: seq<PendingSend>, tail: seq<Child>, content: string) {
    var i := FirstSend(sends, content);
    i < |sends| && HasRow(tail, sends[i].tempId)
  }

  /** Rows and sends agree: both in send order, and every row is of a tracked send. */
  ghost predicate Tracked(tail: seq<Child>, sends: seq<PendingSend>) {
    && InSendOrder(tail) && SendsInOrder(sends)
    && (forall c <- tail :: exists p <- sends :: p.tempId == c.tempId)
  }

  lemma TailShrinks(tail: seq<Child>, i: nat, sends: seq<PendingSend>)
    requires Tracked(tail, sends) && i < |tail|
    ensures Tracked(tail[..i] + tail[i + 1..], sends)
    ensures !HasRow(tail[..i] + tail[i + 1..], tail[i].tempId)
  {
    var after := tail[..i] + tail[i + 1..];
    assert forall j :: 0 <= j < |after| ==> after[j] == tail[if j < i then j else j + 1];
    assert forall c :: c in after ==> c in tail;
    forall j | 0 <= j < |after| ensures after[j].tempId != tail[i].tempId {
      if j < i { assert tail[j].tempId > tail[i].tempId; } else { assert tail[i].tempId > tail[j + 1].tempId; }
    }
  }

  lemma SendsWithout(sends: seq<PendingSend>, i: nat, tail: seq<Child>)
    requires Tracked(tail, sends) && i < |sends| && !HasRow(tail, sends[i].tempId)
    ensures Tracked(tail, sends[..i] + sends[i + 1..])
  {
    var after := sends[..i] + sends[i + 1..];
    assert forall j :: 0 <= j < |after| ==> after[j] == sends[if j < i then j else j + 1];
    forall c | c in tail ensures exists p <- after :: p.tempId == c.tempId {
      var p :| p in sends && p.tempId == c.tempId;
      assert p != sends[i];
      var k :| 0 <= k < |sends| && sends[k] == p;
      assert after[if k < i then k else k - 1] == p;
    }
  }

  lemma Dropped(sends: seq<PendingSend>, i: nat)
    requires SendsInOrder(sends) && i < |sends|
    ensures forall p :: p in sends[..i] + sends[i + 1..] <==> p in sends && p.tempId != sends[i].tempId
  {
    var after := sends[..i] + sends[i + 1..];
    assert forall j :: 0 <= j < |after| ==> after[j] == sends[if j < i then j else j + 1];
    forall p | p in sends && p.tempId != sends[i].tempId ensures p in after {
      var k :| 0 <= k < |sends| && sends[k] == p;
      assert after[if k < i then k else k - 1] == p;
    }
    forall j | 0 <= j < |after| ensures after[j].tempId != sends[i].tempId {
      if j < i { assert sends[j].tempId > sends[i].tempId; } else { assert sends[i].tempId > sends[j + 1].tempId; }
    }
  }

  class MessagePane {
    const me: int
    var msgs: seq<G.Msg>
    var live: set<int>
    var markerAt: int
    var dom: seq<Child>
    var pendingSends: seq<PendingSend>
    var optimisticSeq: int
    ghost var body: seq<G.Node>
    ghost var tail: seq<Child>

    /** Drawn rows in array order, then pending rows in send order, then the bottom sentinel. */
    ghost predicate Valid()
      reads this
    {
      && IdsFollow(msgs) && InArrayOrder(body, msgs)
      && dom == Layout(body, tail)
      && Tracked(tail, pendingSends)
      && (forall p <- pendingSends :: optimisticSeq < p.tempId)
    }

    /** A channel's pane, freshly drawn from its loaded messages. */
    constructor (me: int, msgs: seq<G.Msg>, live: set<int>, markerAt: int)
      requires IdsFollow(msgs)
      ensures Valid() && this.me == me && this.msgs == msgs && this.live == live && this.markerAt == markerAt
      ensures body == G.DrawAll(msgs, live, markerAt) && tail == [] && pendingSends == [] && optimisticSeq == -1
    {
      this.me, this.msgs, this.live, this.markerAt := me, msgs, live, markerAt;
      pendingSends, optimisticSeq := [], -1;
      body, tail, dom := [], [], [TopSentinel, BottomSentinel];
      new;
      Render();
    }

    /** The row for msgs[idx], grouped under its anchor. */
    ghost function RowFor(idx: nat): G.Node
      requires idx < |msgs|
      reads this
    {
      G.Row(msgs[idx].id, G.ShouldGroup(G.AnchorAt(msgs, idx, live), msgs[idx]))
    }

    // ----- Looking things up -----

    method FindIndex(id: int) returns (idx: int)
      ensures -1 <= idx < |msgs|
      ensures idx >= 0 ==> msgs[idx].id == id
      ensures idx < 0 ==> !Known(msgs, id)
    {
      for k := 0 to |msgs|
        invariant forall j :: 0 <= j < k ==> msgs[j].id != id
      {
        if msgs[k].id == id { return k; }
      }
      return -1;
    }

    /** `querySelector('[data-msg-id=…]')`: its place among the children, or 0 if absent. */
    method QueryRow(id: int) returns (at: nat)
      requires Valid()
      ensures at == if IsDrawn(body, id) then RowIndex(body, id) + 1 else 0
    {
      hide Layout, RowIndex;
      var k := 0;
      Bounds();
      while k < |dom|
        invariant 0 <= k <= |dom|
        invariant forall j :: 0 <= j < |body| && j + 1 < k && HasId(body[j]) ==> body[j].id != id
      {
        LayoutAt(body, tail, k);
        if dom[k].Real? && HasId(dom[k].node) && dom[k].node.id == id {
          return k;
        }
        k := k + 1;
      }
      NoneIs(body, id);
      return 0;
    }

    lemma Bounds()
      requires Valid()
      ensures |dom| == |body| + |tail| + 2
    {}

    /** `querySelector(".msg.pending")`, else the bottom sentinel. */
    method PendingOrBottom() returns (at: nat)
      requires Valid()
      ensures at == |body| + 1
    {
      hide Layout;
      Bounds();
      LayoutAt(body, tail, |body| + 1);
      at := 0;
      while !dom[at].Pending? && !dom[at].BottomSentinel?
        invariant 0 <= at <= |body| + 1
        decreases |dom| - at
      {
        at := at + 1;
        LayoutAt(body, tail, at);
      }
      LayoutAt(body, tail, at);
    }

    /** `insertionPointFor`: the child a row for msgs[idx] goes in front of. */
    method InsertionPointFor(idx: nat) returns (at: nat)
      requires Valid() && idx < |msgs|
      ensures at == InsertAt(body, msgs, idx + 1) + 1
    {
      var k := idx + 1;
      while k < |msgs|
        invariant idx + 1 <= k <= |msgs|
        invariant InsertAt(body, msgs, idx + 1) == InsertAt(body, msgs, k)
      {
        var node := QueryRow(msgs[k].id);
        if node > 0 { return node; }
        k := k + 1;
      }
      at := PendingOrBottom();
    }

    // ----- Drawing -----

    /** `renderMessages`: everything is rebuilt, and pending rows are wiped. */
    method Render()
      requires Valid()
      modifies this
      ensures Valid() && body == G.DrawAll(msgs, live, markerAt) && tail == []
      ensures msgs == old(msgs) && pendingSends == old(pendingSends) && optimisticSeq == old(optimisticSeq)
      ensures live == old(live) && markerAt == old(markerAt)
    {
      hide InArrayOrder, Distinct, IsDrawn, G.DrawAll;
      var nodes := G.RenderMessages(msgs, live, markerAt);
      RebuildDraws(msgs, live, markerAt);
      body, tail := nodes, [];
      dom := [TopSentinel] + Reals(nodes) + [BottomSentinel];
      assert dom == Layout(body, tail);
    }

    /** `appendMessageRow`: draw one more row, in its array place above the pending rows. */
    method AppendMessageRow(idx: nat)
      requires Valid() && idx < |msgs|
      modifies this`dom, this`body
      ensures Valid() && body == Inserted(old(body), msgs, idx, RowFor(idx))
    {
      hide Layout, InArrayOrder, Tracked;
      var anchor := G.GroupingAnchor(msgs, idx, live);
      var row := G.Row(msgs[idx].id, G.ShouldGroup(anchor, msgs[idx]));
      var at := InsertionPointFor(idx);
      InsertKeepsOrder(body, msgs, idx, row);
      InsertInBody(body, tail, at - 1, row);
      Bounds();
      dom := dom[..at] + [Real(row)] + dom[at..];
      body := Inserted(body, msgs, idx, row);
    }

    /** `showOptimisticSend`: a dimmed row at the tail. */
    method ShowOptimisticSend(content: string, reply: bool, now: int) returns (tempId: int)
      requires Valid()
      modifies this`dom, this`tail, this`pendingSends, this`optimisticSeq
      ensures Valid() && body == old(body) && tempId == old(optimisticSeq)
      ensures pendingSends == old(pendingSends) + [PendingSend(tempId, content)]
      ensures var m := G.Msg(tempId, me, now, false, false, reply);
        tail == old(tail) + [Pending(tempId, G.ShouldGroup(G.AnchorAt(msgs, |msgs|, live), m))]
    {
      hide Layout, InArrayOrder;
      tempId := optimisticSeq;
      optimisticSeq := optimisticSeq - 1;
      var anchor := G.GroupingAnchor(msgs, |msgs|, live);
      var grouped := G.ShouldGroup(anchor, G.Msg(tempId, me, now, false, false, reply));
      Bounds();
      InsertInTail(body, tail, Pending(tempId, grouped));
      dom := dom[..|dom| - 1] + [Pending(tempId, grouped)] + dom[|dom| - 1..];
      tail := tail + [Pending(tempId, grouped)];
      pendingSends := pendingSends + [PendingSend(tempId, content)];
    }

    /** `querySelector` by temporary id: the child, or |dom|. */
    method PendingRowOf(tempId: int) returns (k: nat)
      requires Valid()
      ensures k <= |dom| == |body| + |tail| + 2
      ensures k == |dom| ==> !HasRow(tail, tempId)
      ensures k < |dom| ==>
        && |body| < k <= |body| + |tail| && tail[k - 1 - |body|].Pending? && tail[k - 1 - |body|].tempId == tempId
        && HasRow(tail, tempId)
        && forall j :: 0 <= j < k - 1 - |body| ==> tail[j].Pending? && tail[j].tempId != tempId
    {
      hide Layout, InArrayOrder, IdsFollow;
      Bounds();
      k := 0;
      while k < |dom| && !(dom[k].Pending? && dom[k].tempId == tempId)
        invariant 0 <= k <= |dom|
        invariant forall j :: 0 <= j < |tail| && j + |body| + 1 < k && tail[j].Pending? ==> tail[j].tempId != tempId
      {
        LayoutAt(body, tail, k);
        k := k + 1;
      }
      if k < |dom| { LayoutAt(body, tail, k); }
    }

    /** Remove the row of a pending send, if it is still in the pane. */
    method RemovePendingRow(tempId: int) returns (connected: bool)
      requires Valid()
      modifies this`dom, this`tail
      ensures Valid() && tail == Without(old(tail), tempId)
      ensures connected <==> HasRow(old(tail), tempId)
      ensures !connected ==> tail == old(tail)
      ensures !HasRow(tail, tempId)
    {
      hide Layout, InArrayOrder, IdsFollow, Tracked, Without, HasRow;
      var k := PendingRowOf(tempId);
      if k == |dom| {
        WithoutNone(tail, tempId);
        return false;
      }
      var i := k - 1 - |body|;
      RemoveFromTail(body, tail, i);
      TailShrinks(tail, i, pendingSends);
      WithoutAt(tail, tempId, i);
      dom := dom[..k] + dom[k + 1..];
      tail := tail[..i] + tail[i + 1..];
      return true;
    }

    /** Splice a send out, and its row with it if that is still in the pane. */
    method DropSend(i: nat) returns (connected: bool)
      requires Valid() && i < |pendingSends|
      modifies this`dom, this`tail, this`pendingSends
      ensures Valid() && tail == Without(old(tail), old(pendingSends)[i].tempId)
      ensures connected <==> HasRow(old(tail), old(pendingSends)[i].tempId)
      ensures !connected ==> tail == old(tail)
      ensures pendingSends == old(pendingSends)[..i] + old(pendingSends)[i + 1..]
    {
      hide Layout, InArrayOrder, Tracked, HasRow;
      connected := RemovePendingRow(pendingSends[i].tempId);
      SendsWithout(pendingSends, i, tail);
      pendingSends := pendingSends[..i] + pendingSends[i + 1..];
    }

    /** `removePending`: roll a failed send back. */
    method RemovePending(tempId: int)
      requires Valid()
      modifies this`dom, this`tail, this`pendingSends
      ensures Valid() && tail == Without(old(tail), tempId)
      ensures forall p :: p in pendingSends <==> p in old(pendingSends) && p.tempId != tempId
    {
      hide Layout, InArrayOrder;
      var i := 0;
      while i < |pendingSends| && pendingSends[i].tempId != tempId
        invariant 0 <= i <= |pendingSends|
        invariant forall j :: 0 <= j < i ==> pendingSends[j].tempId != tempId
      {
        i := i + 1;
      }
      if i == |pendingSends| {
        WithoutNone(tail, tempId);
        return;
      }
      var _ := DropSend(i);
      Dropped(old(pendingSends), i);
    }

    method FindSend(content: string) returns (i: nat)
      ensures i == FirstSend(pendingSends, content)
    {
      i := 0;
      while i < |pendingSends| && pendingSends[i].content != content
        invariant 0 <= i <= |pendingSends|
        invariant FirstSend(pendingSends, content) == i + FirstSend(pendingSends[i..], content)
      {
        assert pendingSends[i..][1..] == pendingSends[i + 1..];
        i := i + 1;
      }
    }

    /** `reconcileOptimistic`: the oldest pending send with this content becomes the real row
        of msgs[idx], in its array place. A message that was already drawn gets a second copy. */
    method ReconcileOptimistic(idx: nat, content: string) returns (placed: bool)
      requires Valid() && idx < |msgs|
      modifies this`dom, this`body, this`tail, this`pendingSends
      ensures Valid()
      ensures placed <==> msgs[idx].user == me && WouldTake(old(pendingSends), old(tail), content)
      ensures pendingSends ==
        if msgs[idx].user == me then SendsAfter(old(pendingSends), content) else old(pendingSends)
      ensures !placed ==> body == old(body) && tail == old(tail)
      ensures placed ==>
        && body == Inserted(old(body), msgs, idx, RowFor(idx))
        && tail == Without(old(tail), old(pendingSends)[FirstSend(old(pendingSends), content)].tempId)
        && (Distinct(body) <==> Distinct(old(body)) && !IsDrawn(old(body), msgs[idx].id))
    {
      hide Layout, InArrayOrder, Distinct, IsDrawn, Inserted, Tracked, FirstSend;
      if msgs[idx].user != me { return false; }
      var i := FindSend(content);
      if i == |pendingSends| { return false; }
      var connected := DropSend(i);
      if !connected { return false; }
      InsertedDistinct(body, msgs, idx, RowFor(idx));
      AppendMessageRow(idx);
      return true;
    }

    /** `patchMessageRow`: redraw one drawn row in place, grouped as it was. */
    method PatchMessageRow(id: int, editing: bool) returns (patched: bool)
      requires Valid()
      modifies this`dom, this`body
      ensures Valid()
      ensures patched <==>
        IsDrawn(old(body), id) && !editing && exists m <- msgs :: m.id == id && !m.system && !m.deleted
      ensures body == if patched then Redrawn(old(body), id) else old(body)
    {
      hide Layout, RowIndex, InArrayOrder, Tracked;
      var at := QueryRow(id);
      if at == 0 || editing { return false; }
      var idx := FindIndex(id);
      if idx >= 0 { OnlyOneHas(msgs, idx); }
      if idx < 0 || msgs[idx].system || msgs[idx].deleted { return false; }
      Bounds();
      LayoutAt(body, tail, at);
      var grouped := dom[at].node.Row? && dom[at].node.grouped;
      RedrawnKeepsOrder(body, msgs, id);
      RedrawnInLayout(body, tail, id);
      dom := dom[at := Real(G.Row(id, grouped))];
      body := Redrawn(body, id);
      assert msgs[idx] in msgs;
      return true;
    }

    /** `addMessage`: replace the message of that id, or add it in id order. */
    method AddMessage(m: G.Msg)
      requires Valid()
      modifies this`msgs
      ensures Valid() && m in msgs
      ensures forall x :: x in msgs <==> x == m || (x in old(msgs) && x.id != m.id)
    {
      hide Layout, Tracked;
      var idx := FindIndex(m.id);
      if idx >= 0 {
        ReplaceKeeps(body, msgs, idx, m);
        msgs := msgs[idx := m];
        assert forall j :: 0 <= j < |msgs| && j != idx ==> msgs[j].id != m.id;
        forall x | x in old(msgs) && x.id != m.id ensures x in msgs {
          var j :| 0 <= j < |old(msgs)| && old(msgs)[j] == x;
          assert msgs[j] == x;
        }
        assert msgs[idx] == m;
      } else {
        var k := SlotFor(msgs, m.id);
        msgs := msgs[..k] + [m] + msgs[k..];
      }
    }

    /** A message.new event in the open channel (web/static/app.js:828-849). The message ends up
        drawn unless it is deleted. It is drawn a second time exactly when its row was there
        already and a pending send with the same content still had its row. */
    method MessageNew(m: G.Msg, content: string, mayAppend: bool)
      requires Valid()
      modifies this
      ensures Valid() && m in msgs
      ensures IsDrawn(body, m.id) || m.deleted
      ensures Distinct(old(body)) ==>
        (Distinct(body) <==>
            !(m.user == me && IsDrawn(old(body), m.id) && WouldTake(old(pendingSends), old(tail), content)))
    {
      hide Layout, InArrayOrder, Distinct, IsDrawn, Inserted, Tracked, WouldTake;
      AddMessage(m);
      var idx := FindIndex(m.id);
      assert msgs[idx] == m;
      var done := ReconcileOptimistic(idx, content);
      InsertedIsDrawn(old(body), msgs, idx, RowFor(idx));
      if done { return; }
      var drawn := QueryRow(m.id);
      if drawn > 0 { return; }
      if !m.system && mayAppend {
        InsertedDistinct(body, msgs, idx, RowFor(idx));
        AppendMessageRow(idx);
      } else {
        RebuildDraws(msgs, live, markerAt);
        Render();
      }
    }
  }

  lemma TakingTwins(tail: seq<Child>, sends: seq<PendingSend>, content: string)
    requires |tail| == 2 && tail[0].Pending? && tail[1].Pending?
    requires sends == [PendingSend(tail[0].tempId, content), PendingSend(tail[1].tempId, content)]
    ensures WouldTake(sends, tail, content) && FirstSend(sends, content) == 0
    ensures WouldTake(SendsAfter(sends, content), Without(tail, tail[0].tempId), content)
  {
    assert tail[0] in tail && tail[1] in tail[1..];
    assert Without(tail, tail[0].tempId) == tail[1..];
    assert SendsAfter(sends, content) == [sends[1]];
  }

  /** Two pending sends with the same content: the response to the first send places its
      message, then the broadcast of that same message takes the second send's row and draws
      the message a second time. */
  method TwinSendsDrawTwice(m: G.Msg, content: string) returns (pane: MessagePane)
    ensures fresh(pane) && pane.Valid() && pane.msgs == [m] && !Distinct(pane.body)
  {
    hide Layout, InArrayOrder, Distinct, IsDrawn, G.DrawAll, Inserted;
    hide Tracked, Without, FirstSend, SendsAfter, WouldTake;
    pane := new MessagePane(m.user, [], {}, 0);
    var first := pane.ShowOptimisticSend(content, false, 0);
    var second := pane.ShowOptimisticSend(content, false, 0);
    TakingTwins(pane.tail, pane.pendingSends, content);
    pane.AddMessage(m);
    OnlyOne(pane.msgs, m);
    ghost var before := pane.body;
    var placed := pane.ReconcileOptimistic(0, content);
    InsertedIsDrawn(before, pane.msgs, 0, pane.RowFor(0));
    placed := pane.ReconcileOptimistic(0, content);
  }

  lemma OnlyOne(msgs: seq<G.Msg>, m: G.Msg)
    requires IdsFollow(msgs) && m in msgs && forall x <- msgs :: x == m
    ensures msgs == [m]
  {
    assert forall k :: 0 <= k < |msgs| ==> msgs[k] in msgs;
    assert |msgs| >= 2 ==> msgs[0].id < msgs[1].id;
  }
}
