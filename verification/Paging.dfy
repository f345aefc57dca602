/** History paging of one channel: web/static/history.js:86-210, the list reducers of
    web/static/state.js:291-350, and their use when a channel is opened, jumped into or
    receives a message (web/static/app.js:816-849, 1846-1851, 1906-1935). */
module Paging {
  import opened Listing

  const PAGE := 50

  // ----- Reducers -----

  /** The ids of `page` that are not in `seen`, in order. */
  function Unseen(page: seq<int>, seen: seq<int>): (r: seq<int>)
    ensures forall x :: x in r <==> x in page && x !in seen
  {
    if page == [] then []
    else
      assert page == [page[0]] + page[1..];
      (if page[0] in seen then [] else [page[0]]) + Unseen(page[1..], seen)
  }

  function SetMessages(list: seq<int>): seq<int> {
    Sort(list)
  }

  function PrependMessages(existing: seq<int>, older: seq<int>): seq<int> {
    Sort(Unseen(older, existing) + existing)
  }

  function AppendMessages(existing: seq<int>, newer: seq<int>): seq<int> {
    Sort(existing + Unseen(newer, existing))
  }

  function AddMessage(existing: seq<int>, id: int): seq<int> {
    if id in existing then existing else Sort(existing + [id])
  }

  lemma {:induction false} UnseenIsDistinct(page: seq<int>, seen: seq<int>)
    requires Distinct(page)
    ensures Distinct(Unseen(page, seen))
  {
    if page != [] {
      UnseenIsDistinct(page[1..], seen);
      var rest := Unseen(page[1..], seen);
      assert forall k :: 0 <= k < |rest| ==> rest[k] in rest;
    }
  }

  lemma Joined(a: seq<int>, b: seq<int>)
    requires Distinct(a) && Distinct(b) && forall x <- a :: x !in b
    ensures Distinct(a + b)
  {
    assert forall k :: 0 <= k < |a| ==> a[k] in a;
    assert forall k :: 0 <= k < |b| ==> b[k] in b;
  }

  /** Merging two loaded pages, in either way, gives the ascending sequence of their union. */
  lemma MergesAre(existing: seq<int>, page: seq<int>, union: seq<int>)
    requires Ascending(existing) && Ascending(page) && Ascending(union)
    requires forall x :: x in union <==> x in existing || x in page
    ensures PrependMessages(existing, page) == union && AppendMessages(existing, page) == union
  {
    hide Sort, Unseen;
    var unseen := Unseen(page, existing);
    UnseenIsDistinct(page, existing);
    Joined(unseen, existing);
    Joined(existing, unseen);
    SortAscends(unseen + existing);
    SortAscends(existing + unseen);
    SameAscending(Sort(unseen + existing), union);
    SameAscending(Sort(existing + unseen), union);
  }

  lemma AddIs(existing: seq<int>, id: int)
    requires Ascending(existing) && forall x <- existing :: x < id
    ensures AddMessage(existing, id) == existing + [id]
  {
    hide Sort;
    assert forall k :: 0 <= k < |existing| ==> existing[k] in existing;
    SortAscends(existing + [id]);
    SameAscending(Sort(existing + [id]), existing + [id]);
  }

  lemma SliceAscends(log: seq<int>, a: nat, b: nat)
    requires Ascending(log) && a <= b <= |log|
    ensures Ascending(log[a..b])
  {}

  lemma SetIs(list: seq<int>)
    requires Ascending(list)
    ensures SetMessages(list) == list
  {
    hide Sort;
    SortAscends(list);
    SameAscending(Sort(list), list);
  }

  /** The listings, asked with a loaded message as cursor, start right at the window's edge. */
  lemma Cursor(log: seq<int>, k: nat)
    requires Ascending(log) && k <= |log|
    ensures k < |log| ==> Below(log, log[k]) == k
    ensures k > 0 ==> Below(log, log[k - 1] + 1) == k
  {
    if k < |log| { BelowIs(log, log[k], k); }
    if k > 0 { BelowIs(log, log[k - 1] + 1, k); }
  }

  /** A window: messages of the history, oldest first, with holes or without. */
  ghost predicate IsWindow(w: seq<int>, log: seq<int>) {
    Ascending(w) && forall x <- w :: x in log
  }

  /** Nothing is missing between the first and the last. */
  ghost predicate IsBlock(w: seq<int>, log: seq<int>) {
    exists a, b :: 0 <= a <= b <= |log| && w == log[a..b]
  }

  lemma BlockIsWindow(log: seq<int>, lo: nat, hi: nat)
    requires Ascending(log) && lo <= hi <= |log|
    ensures IsWindow(log[lo..hi], log)
  {}

  function Newest(s: seq<int>): int {
    if s == [] then 0 else s[|s| - 1]
  }

  /** Ascending sequences, one wholly before the other. */
  lemma AscendingOn(a: seq<int>, b: seq<int>)
    requires Ascending(a) && Ascending(b)
    requires a != [] && b != [] ==> a[|a| - 1] < b[0]
    ensures Ascending(a + b)
  {
    forall i, j | 0 <= i < |a| && 0 <= j < |b| ensures a[i] < b[j] {
      assert a[i] <= a[|a| - 1] && b[0] <= b[j];
    }
  }

  lemma WindowsOn(log: seq<int>, a: seq<int>, b: seq<int>)
    requires IsWindow(a, log) && IsWindow(b, log) && (a != [] && b != [] ==> Newest(a) < b[0])
    ensures IsWindow(a + b, log) && forall x :: x in a + b <==> x in a || x in b
  {
    AscendingOn(a, b);
    hide Ascending;
  }

  lemma SamePlace(log: seq<int>, i: nat, j: nat)
    requires Ascending(log) && i < |log| && j < |log| && log[i] == log[j]
    ensures i == j
  {}

  lemma SliceOfSlice(log: seq<int>, a: nat, b: nat, i: nat, j: nat)
    requires a <= b <= |log| && i <= j <= b - a
    ensures log[a..b][i..j] == log[a + i..a + j]
  {
    var x, y := log[a..b][i..j], log[a + i..a + j];
    assert |x| == |y| && forall k :: 0 <= k < |x| ==> x[k] == log[a + i + k] && y[k] == log[a + i + k];
  }

  lemma SlicesJoin(log: seq<int>, a: nat, b: nat, c: nat)
    requires a <= b <= c <= |log|
    ensures log[a..b] + log[b..c] == log[a..c]
  {}

  /** One page further down: it goes behind the window, which it neither breaks nor mends. */
  lemma NewerAppends(log: seq<int>, w: seq<int>, k: nat)
    requires Ascending(log) && IsWindow(w, log) && w != [] && 0 < k <= |log| && log[k - 1] == Newest(w)
    ensures var newer := Newer(log, Below(log, Newest(w) + 1), PAGE);
      && AppendMessages(w, newer) == w + newer
      && IsWindow(w + newer, log) && (IsBlock(w + newer, log) <==> IsBlock(w, log))
  {
    hide PrependMessages, AppendMessages, IsBlock, IsWindow, Below, Newer, Ascending, Newest;
    var newer := Newer(log, Below(log, Newest(w) + 1), PAGE);
    var to := NewerFrom(log, k, Newest(w));
    WindowsOn(log, w, newer);
    MergedWindows(log, w, newer, w + newer);
    AppendedBlock(log, w, k, to);
  }

  lemma NewerFrom(log: seq<int>, k: nat, last: int) returns (to: nat)
    requires Ascending(log) && 0 < k <= |log| && log[k - 1] == last
    ensures to == k + Min(PAGE, |log| - k)
    ensures var newer := Newer(log, Below(log, last + 1), PAGE);
      newer == log[k..to] && IsWindow(newer, log) && (newer != [] ==> last < newer[0])
  {
    hide IsWindow;
    Cursor(log, k);
    to := k + Min(PAGE, |log| - k);
    BlockIsWindow(log, k, to);
  }

  lemma MergedWindows(log: seq<int>, existing: seq<int>, page: seq<int>, union: seq<int>)
    requires IsWindow(existing, log) && IsWindow(page, log) && IsWindow(union, log)
    requires forall x :: x in union <==> x in existing || x in page
    ensures PrependMessages(existing, page) == union && AppendMessages(existing, page) == union
  {
    hide PrependMessages, AppendMessages;
    MergesAre(existing, page, union);
  }

  lemma AppendedBlock(log: seq<int>, w: seq<int>, k: nat, to: nat)
    requires Ascending(log) && w != [] && 0 < k <= to <= |log| && log[k - 1] == Newest(w)
    ensures IsBlock(w + log[k..to], log) <==> IsBlock(w, log)
  {
    if IsBlock(w, log) {
      var a, b :| 0 <= a <= b <= |log| && w == log[a..b];
      SamePlace(log, b - 1, k - 1);
      SlicesJoin(log, a, k, to);
      ThenBlock(w + log[k..to], log, a, to);
    }
    if IsBlock(w + log[k..to], log) {
      var a, b :| 0 <= a <= b <= |log| && w + log[k..to] == log[a..b];
      assert w == (w + log[k..to])[0..|w|];
      SliceOfSlice(log, a, b, 0, |w|);
      ThenBlock(w, log, a, a + |w|);
    }
  }

  /** One page further up, likewise. */
  lemma OlderPrepends(log: seq<int>, w: seq<int>, k: nat)
    requires Ascending(log) && IsWindow(w, log) && w != [] && k < |log| && log[k] == w[0]
    ensures var older := Older(log, Below(log, w[0]), PAGE);
      && older == log[k - Min(PAGE, k)..k] && PrependMessages(w, older) == older + w
      && IsWindow(older + w, log) && (IsBlock(older + w, log) <==> IsBlock(w, log))
  {
    hide PrependMessages, AppendMessages, IsBlock, IsWindow, Below, Older, Ascending;
    var page := log[k - Min(PAGE, k)..k];
    OlderFrom(log, k);
    WindowsOn(log, page, w);
    MergedWindows(log, w, page, page + w);
    PrependedBlock(log, w, k - Min(PAGE, k), k);
  }

  lemma OlderFrom(log: seq<int>, k: nat)
    requires Ascending(log) && k < |log|
    ensures var older := Older(log, Below(log, log[k]), PAGE);
      && older == log[k - Min(PAGE, k)..k] && IsWindow(older, log)
      && (older != [] ==> older[|older| - 1] < log[k])
  {
    hide IsWindow;
    Cursor(log, k);
    BlockIsWindow(log, k - Min(PAGE, k), k);
  }

  lemma PrependedBlock(log: seq<int>, w: seq<int>, from: nat, k: nat)
    requires Ascending(log) && w != [] && from <= k < |log| && log[k] == w[0]
    ensures IsBlock(log[from..k] + w, log) <==> IsBlock(w, log)
  {
    if IsBlock(w, log) {
      var a, b :| 0 <= a <= b <= |log| && w == log[a..b];
      SamePlace(log, a, k);
      SlicesJoin(log, from, k, b);
      ThenBlock(log[from..k] + w, log, from, b);
    }
    if IsBlock(log[from..k] + w, log) {
      var all := log[from..k] + w;
      var a, b :| 0 <= a <= b <= |log| && all == log[a..b];
      assert w == all[k - from..|all|];
      SliceOfSlice(log, a, b, k - from, |all|);
      ThenBlock(w, log, a + (k - from), b);
    }
  }

  /** The page below any window, and what it is for a block. */
  lemma NewerPage(log: seq<int>, w: seq<int>)
    requires Ascending(log) && IsWindow(w, log) && w != []
    ensures var newer := Newer(log, Below(log, w[|w| - 1] + 1), PAGE);
      && AppendMessages(w, newer) == w + newer
      && IsWindow(w + newer, log) && (IsBlock(w + newer, log) <==> IsBlock(w, log))
  {
    hide Newer, Below, AppendMessages, IsBlock;
    assert w[|w| - 1] in w;
    var k := PlaceOf(log, w[|w| - 1]);
    NewerAppends(log, w, k + 1);
  }

  lemma NewerOfBlock(log: seq<int>, lo: nat, hi: nat)
    requires Ascending(log) && lo < hi <= |log|
    ensures var newer, to := Newer(log, Below(log, log[hi - 1] + 1), PAGE), hi + Min(PAGE, |log| - hi);
      |newer| == to - hi && log[lo..hi] + newer == log[lo..to]
  {
    Cursor(log, hi);
    SlicesJoin(log, lo, hi, hi + Min(PAGE, |log| - hi));
  }

  /** The page above. */
  lemma OlderPage(log: seq<int>, w: seq<int>)
    requires Ascending(log) && IsWindow(w, log) && w != []
    ensures var older := Older(log, Below(log, w[0]), PAGE);
      && PrependMessages(w, older) == older + w
      && IsWindow(older + w, log) && (IsBlock(older + w, log) <==> IsBlock(w, log))
  {
    hide Older, Below, PrependMessages, IsBlock;
    assert w[0] in w;
    var k := PlaceOf(log, w[0]);
    OlderPrepends(log, w, k);
  }

  lemma OlderOfBlock(log: seq<int>, lo: nat, hi: nat)
    requires Ascending(log) && lo < hi <= |log|
    ensures var older, from := Older(log, Below(log, log[lo]), PAGE), lo - Min(PAGE, lo);
      |older| == lo - from && older + log[lo..hi] == log[from..hi]
  {
    Cursor(log, lo);
    SlicesJoin(log, lo - Min(PAGE, lo), lo, hi);
  }

  /** A new message goes behind any window, and leaves a hole unless the window was a block
      that reached the newest message, or was empty. */
  lemma WindowGrows(log: seq<int>, w: seq<int>, id: int)
    requires Ascending(log) && IsWindow(w, log) && forall x <- log :: x < id
    ensures AddMessage(w, id) == w + [id] && IsWindow(w + [id], log + [id])
    ensures IsBlock(w + [id], log + [id]) <==> w == [] || (IsBlock(w, log) && Newest(w) == Newest(log))
  {
    hide AddMessage, IsBlock;
    AddIs(w, id);
    assert forall i :: 0 <= i < |w| ==> w[i] in w;
    if w == [] {
      assert w + [id] == (log + [id])[|log|..|log| + 1];
      ThenBlock(w + [id], log + [id], |log|, |log| + 1);
    } else {
      GrownBlock(log, w, id);
    }
  }

  lemma GrownBlock(log: seq<int>, w: seq<int>, id: int)
    requires Ascending(log) && IsWindow(w, log) && w != [] && id !in log
    ensures IsBlock(w + [id], log + [id]) <==> IsBlock(w, log) && Newest(w) == Newest(log)
  {
    hide IsWindow, IsBlock;
    if IsBlock(w + [id], log + [id]) {
      var a, b := BlockEnds(w + [id], log + [id]);
      GrewAtEnd(log, w, id, a, b);
    }
    if IsBlock(w, log) && Newest(w) == Newest(log) {
      var a, b := BlockEnds(w, log);
      SamePlace(log, b - 1, |log| - 1);
      GrowsAtEnd(log, w, id, a);
    }
  }

  lemma BlockEnds(w: seq<int>, log: seq<int>) returns (a: nat, b: nat)
    requires IsBlock(w, log)
    ensures a <= b <= |log| && w == log[a..b]
  {
    a, b :| 0 <= a <= b <= |log| && w == log[a..b];
  }

  lemma GrowsAtEnd(log: seq<int>, w: seq<int>, id: int, a: nat)
    requires a <= |log| && w == log[a..]
    ensures IsBlock(w + [id], log + [id])
  {
    assert w + [id] == (log + [id])[a..|log| + 1];
    ThenBlock(w + [id], log + [id], a, |log| + 1);
  }

  lemma GrewAtEnd(log: seq<int>, w: seq<int>, id: int, a: nat, b: nat)
    requires w != [] && id !in log && a <= b <= |log| + 1 && w + [id] == (log + [id])[a..b]
    ensures IsBlock(w, log) && Newest(w) == Newest(log)
  {
    var longer := log + [id];
    assert longer[b - 1] == (w + [id])[|w|] == id;
    OnlyAtEnd(log, id, b - 1);
    assert w == (w + [id])[0..|w|];
    SliceOfSlice(longer, a, b, 0, |w|);
    FrontSlice(log, id, a);
    ThenBlock(w, log, a, |log|);
  }

  lemma FrontSlice(log: seq<int>, id: int, a: nat)
    requires a <= |log|
    ensures (log + [id])[a..|log|] == log[a..|log|]
  {}

  lemma OnlyAtEnd(log: seq<int>, id: int, i: nat)
    requires id !in log && i <= |log| && (log + [id])[i] == id
    ensures i == |log|
  {}

  lemma NewestIn(log: seq<int>, lo: nat, w: seq<int>, id: int)
    requires lo < |log| && log[|log| - 1] == id && w == log[lo..|log|]
    ensures id in w
  {
    assert w[|w| - 1] == id;
  }

  /** One more message behind any window, and behind one that is a block up to hi. */
  lemma NewMessageFits(log: seq<int>, w: seq<int>, lo: nat, hi: nat, id: int)
    requires Ascending(log) && Ascending(log + [id]) && IsWindow(w, log) && forall x <- log :: x < id
    ensures AddMessage(w, id) == w + [id]
    ensures IsBlock(w + [id], log + [id]) <==> w == [] || (IsBlock(w, log) && Newest(w) == Newest(log))
    ensures lo <= hi <= |log| && w == log[lo..hi] && (lo == hi ==> log == []) ==>
      && (IsBlock(w + [id], log + [id]) <==> hi == |log|)
      && (hi == |log| ==> w + [id] == (log + [id])[lo..hi + 1])
  {
    hide AddMessage, IsBlock, Newest, IsWindow, Ascending;
    WindowGrows(log, w, id);
    if lo <= hi <= |log| && w == log[lo..hi] && (lo == hi ==> log == []) {
      ExtendedBlock(log, lo, hi, id);
    }
  }

  lemma LongerHistory(log: seq<int>, w: seq<int>, id: int)
    requires IsWindow(w, log)
    ensures IsWindow(w, log + [id])
  {}

  lemma LastPlace(log: seq<int>, id: int)
    requires forall x <- log :: x < id
    ensures Below(log + [id], id) == |log| && (log + [id])[|log|] == id && id in log + [id]
  {
    assert forall k :: 0 <= k < |log| ==> log[k] in log;
    BelowIs(log + [id], id, |log|);
  }

  lemma AddKeepsWindow(log: seq<int>, w: seq<int>, id: int)
    requires IsWindow(w, log) && id in log
    ensures IsWindow(AddMessage(w, id), log)
  {
    hide Sort;
    if id !in w {
      Joined(w, [id]);
      SortAscends(w + [id]);
    }
  }

  lemma FirstIn(log: seq<int>, w: seq<int>)
    requires IsWindow(w, log) && w != []
    ensures w[0] in log
  {
    assert w[0] in w;
  }

  lemma LastIn(log: seq<int>, w: seq<int>)
    requires IsWindow(w, log) && w != []
    ensures w[|w| - 1] in log
  {
    assert w[|w| - 1] in w;
  }

  lemma PlaceOf(log: seq<int>, x: int) returns (k: nat)
    requires x in log
    ensures k < |log| && log[k] == x
  {
    k :| 0 <= k < |log| && log[k] == x;
  }

  lemma NotFoundMeans(log: seq<int>, id: int)
    ensures Around(log, id, 25).NotFound? <==> id !in log
  {}

  lemma AroundIsBlock(log: seq<int>, id: int)
    requires Ascending(log) && id in log
    ensures var k := Below(log, id);
      && k < |log| && log[k] == id
      && Around(log, id, 25) == Found(log[k - Min(25, k)..k + Min(26, |log| - k)])
  {
    hide Below;
    Position(log, id);
  }

  lemma ThenBlock(w: seq<int>, log: seq<int>, lo: nat, hi: nat)
    ensures lo <= hi <= |log| && w == log[lo..hi] ==> IsBlock(w, log)
  {}

  lemma OneIsDistinct(x: int)
    ensures Distinct([x])
  {}

  lemma PostedIsLast(rows: seq<Row>, channel: int, id: int)
    requires Keyed(rows) && 0 < id < NO_CURSOR && forall r <- rows :: r.id < id
    ensures Keyed(rows + [Row(id, channel)])
    ensures forall x <- History(rows, channel) :: x < id
    ensures History(rows + [Row(id, channel)], channel) == History(rows, channel) + [id]
  {
    hide Sort;
    var rows' := rows + [Row(id, channel)];
    assert forall k :: 0 <= k < |rows| ==> rows[k] in rows;
    HistoryAscends(rows, channel);
    HistoryAscends(rows', channel);
    var log, log' := History(rows, channel), History(rows', channel);
    assert forall k :: 0 <= k < |log| ==> log[k] in log;
    forall x ensures x in log' <==> x in log + [id] {
      assert rows'[|rows|] in rows';
      assert forall r :: r in rows' <==> r in rows || r == Row(id, channel);
    }
    SameAscending(log', log + [id]);
  }

  lemma AddedLast(log: seq<int>, lo: nat, hi: nat, id: int)
    requires Ascending(log + [id]) && lo <= hi <= |log|
    ensures AddMessage(log[lo..hi], id) == log[lo..hi] + [id]
  {
    hide AddMessage;
    assert forall k :: 0 <= k < |log| ==> log[k] == (log + [id])[k] < (log + [id])[|log|];
    AddIs(log[lo..hi], id);
  }

  /** A new message behind a window that stops short of the newest leaves a hole. */
  lemma ExtendedBlock(log: seq<int>, lo: nat, hi: nat, id: int)
    requires Ascending(log + [id]) && lo <= hi <= |log| && (lo == hi ==> log == [])
    ensures IsBlock(log[lo..hi] + [id], log + [id]) <==> hi == |log|
  {
    var log' := log + [id];
    assert log'[lo..hi] == log[lo..hi];
    if lo < hi {
      AddedLast(log, lo, hi, id);
      EditedBlock(log', lo, hi, |log|);
    } else {
      assert log[lo..hi] + [id] == log'[0..1];
    }
  }

  lemma IndexIn(log: seq<int>, a: nat, b: nat, k: nat)
    requires Ascending(log) && a <= b <= |log| && k < |log|
    ensures log[k] in log[a..b] <==> a <= k < b
  {
    if a <= k < b { assert log[a..b][k - a] == log[k]; }
  }

  lemma SortsTo(w: seq<int>, x: int, block: seq<int>)
    requires Distinct(w + [x]) && Ascending(block)
    requires forall y :: y in block <==> y == x || y in w
    ensures Sort(w + [x]) == block
  {
    hide Sort;
    SortAscends(w + [x]);
    SameAscending(Sort(w + [x]), block);
  }

  /** An edit event adds its message to the window even when it is not loaded. The window stays
      a block exactly when the message is loaded or is the next one at either end. */
  lemma EditedBlock(log: seq<int>, lo: nat, hi: nat, j: nat)
    requires Ascending(log) && lo < hi <= |log| && j < |log|
    ensures var after := AddMessage(log[lo..hi], log[j]);
      && (IsBlock(after, log) <==> lo <= j + 1 && j <= hi)
      && (lo <= j < hi ==> after == log[lo..hi])
      && (j == hi ==> after == log[lo..hi + 1])
      && (j + 1 == lo ==> after == log[j..hi])
  {
    hide Sort, Distinct;
    var w, after := log[lo..hi], AddMessage(log[lo..hi], log[j]);
    IndexIn(log, lo, hi, j);
    if !(lo <= j < hi) {
      Joined(w, [log[j]]) by { OneIsDistinct(log[j]); }
      if j == hi {
        assert log[lo..hi + 1] == w + [log[j]];
        SortsTo(w, log[j], log[lo..hi + 1]);
      } else if j + 1 == lo {
        assert log[j..hi] == [log[j]] + w;
        SortsTo(w, log[j], log[j..hi]);
      } else {
        NoBlock(log, lo, hi, j, after);
      }
    }
  }

  lemma NoBlock(log: seq<int>, lo: nat, hi: nat, j: nat, after: seq<int>)
    requires Ascending(log) && lo < hi <= |log| && j < |log| && (j + 1 < lo || hi < j)
    requires forall y :: y in after <==> y == log[j] || y in log[lo..hi]
    ensures !IsBlock(after, log)
  {
    var missing := if j < lo then lo - 1 else hi;
    IndexIn(log, lo, hi, missing);
    IndexIn(log, lo, hi, lo);
    IndexIn(log, lo, hi, hi - 1);
    assert log[missing] !in after && log[lo] in after && log[hi - 1] in after && log[j] in after;
    forall a, b | 0 <= a <= b <= |log| ensures after != log[a..b] {
      IndexIn(log, a, b, missing);
      IndexIn(log, a, b, lo);
      IndexIn(log, a, b, hi - 1);
      IndexIn(log, a, b, j);
    }
  }

  /** And the hole is not noticed: the page after the newest message is empty, so the next
      forward fetch takes the window for caught up. */
  lemma HoleIsForgotten(rows: seq<Row>, channel: int, id: int)
    requires Keyed(rows) && id in History(rows, channel) && forall x <- History(rows, channel) :: x <= id
    ensures SelectAfter(rows, channel, id, PAGE) == []
  {
    hide Sort;
    HistoryAscends(rows, channel);
    Position(History(rows, channel), id);
    AfterIsNewer(rows, channel, id, PAGE);
    var log := History(rows, channel);
    var k := Below(log, id);
    assert forall j :: 0 <= j < |log| ==> log[j] in log;
  }

  // ----- The channel in view -----

  class ChannelView {
    const channel: int
    var rows: seq<Row>             // the server's table
    var messages: seq<int>         // the loaded window
    var historyComplete: bool
    var viewingHistory: bool
    ghost var lo: nat              // the window is History[lo..hi]
    ghost var hi: nat

    ghost function Log(): seq<int>
      reads this
    {
      History(rows, channel)
    }

    /** The loaded window is a block of the channel's history: nothing missing, nothing twice,
        oldest first. The flags tell the truth about both ends. */
    ghost predicate Valid()
      reads this
    {
      && Keyed(rows)
      && lo <= hi <= |Log()| && messages == Log()[lo..hi]
      && (historyComplete ==> lo == 0)
      && (!viewingHistory ==> hi == |Log()|)
      && (lo == hi ==> Log() == [])
    }

    /** `loadChannel`: the newest page. */
    constructor (channel: int, rows: seq<Row>)
      requires Keyed(rows)
      ensures Valid() && this.channel == channel && this.rows == rows
      ensures hi == |Log()| && lo == hi - Min(50, hi)
      ensures !viewingHistory && (historyComplete <==> |Log()| < 50)
    {
      this.channel, this.rows, messages, lo, hi := channel, rows, [], 0, 0;
      historyComplete, viewingHistory := false, true;
      new;
      LoadChannel();
    }

    method LoadChannel()
      requires Keyed(rows)
      modifies this
      ensures Valid() && rows == old(rows)
      ensures hi == |Log()| && lo == hi - Min(50, hi)
      ensures !viewingHistory && (historyComplete <==> |Log()| < 50)
    {
      hide History, Below, SetMessages, Ascending, Keyed;
      viewingHistory := false;
      var page := ListMessages(rows, channel, 0, PAGE);
      HistoryAscends(rows, channel);
      SliceAscends(Log(), |Log()| - Min(PAGE, |Log()|), |Log()|);
      SetIs(page);
      messages := SetMessages(page);
      historyComplete := |page| < PAGE;
      hi := |Log()|;
      lo := hi - Min(PAGE, hi);
    }

    /** What is loaded belongs to the channel and is in order; there may be holes. */
    ghost predicate Loaded()
      reads this
    {
      Keyed(rows) && IsWindow(messages, Log())
    }

    lemma ValidIsLoaded()
      requires Valid()
      ensures Loaded() && IsBlock(messages, Log())
    {
      hide History, IsWindow, IsBlock;
      HistoryAscends(rows, channel);
      BlockIsWindow(Log(), lo, hi);
      ThenBlock(messages, Log(), lo, hi);
    }

    /** `loadOlderMessages`: the page before the oldest loaded message is spliced in. */
    method LoadOlder()
      requires Loaded()
      modifies this`messages, this`historyComplete, this`lo
      ensures Loaded() && (IsBlock(messages, Log()) <==> IsBlock(old(messages), Log()))
      ensures old(historyComplete) || old(messages) == [] ==>
        messages == old(messages) && historyComplete == old(historyComplete)
      ensures !old(historyComplete) && old(messages) != [] ==>
        var older := Older(Log(), Below(Log(), old(messages)[0]), 50);
        messages == older + old(messages) && (historyComplete <==> |older| < 50)
      ensures old(Valid()) ==>
        && Valid() && lo == (if old(historyComplete) then old(lo) else old(lo) - Min(50, old(lo)))
        && (historyComplete <==> old(historyComplete) || (old(lo) < 50 && messages != []))
    {
      hide History, IsWindow, IsBlock, Below, Older, PrependMessages, Ascending, Keyed;
      if historyComplete || messages == [] { return; }
      ghost var log, w, valid := Log(), messages, Valid();
      HistoryAscends(rows, channel);
      OlderPage(log, w);
      if valid { OlderOfBlock(log, lo, hi); }
      assert w[0] in log by { FirstIn(log, w); }
      var older := ListMessages(rows, channel, messages[0], PAGE);
      if |older| < PAGE { historyComplete := true; }
      if older != [] { messages := PrependMessages(messages, older); }
      if valid { lo := lo - Min(PAGE, lo); }
      assert messages == older + w;
    }

    /** `loadNewerMessages`: only in a history window; a short page ends the window. */
    method LoadNewer()
      requires Loaded()
      modifies this`messages, this`viewingHistory, this`hi
      ensures Loaded() && (IsBlock(messages, Log()) <==> IsBlock(old(messages), Log()))
      ensures !old(viewingHistory) || old(messages) == [] ==>
        messages == old(messages) && viewingHistory == old(viewingHistory)
      ensures old(viewingHistory) && old(messages) != [] ==>
        var newer := Newer(Log(), Below(Log(), old(messages)[|old(messages)| - 1] + 1), 50);
        messages == old(messages) + newer && (viewingHistory <==> |newer| >= 50)
      ensures old(Valid()) ==>
        && Valid() && hi == (if old(viewingHistory) then old(hi) + Min(50, |Log()| - old(hi)) else old(hi))
        && (viewingHistory <==> old(viewingHistory) && (|Log()| - old(hi) >= 50 || messages == []))
    {
      hide History, IsWindow, IsBlock, Below, Newer, AppendMessages, Ascending, Keyed;
      if !viewingHistory || messages == [] { return; }
      ghost var log, w, valid := Log(), messages, Valid();
      HistoryAscends(rows, channel);
      NewerPage(log, w);
      if valid { NewerOfBlock(log, lo, hi); }
      assert w[|w| - 1] in log by { LastIn(log, w); }
      var newer := ListMessagesAfter(rows, channel, messages[|messages| - 1], PAGE);
      if |newer| < PAGE { viewingHistory := false; }
      if newer != [] { messages := AppendMessages(messages, newer); }
      if valid { hi := hi + Min(PAGE, |log| - hi); }
      assert messages == w + newer;
    }

    /** `jumpToMessage`: the around-window replaces the loaded one, and one forward probe
        follows. A message the channel does not have leaves everything as it was. */
    method JumpTo(id: int) returns (ok: bool)
      requires Keyed(rows) && id > 0
      modifies this
      ensures rows == old(rows) && (ok || old(Valid()) ==> Valid())
      ensures ok <==> id in Log()
      ensures ok ==> id in messages && !historyComplete
      ensures ok ==> (viewingHistory <==> |Log()| - (Below(Log(), id) + 1) >= 75)
      ensures !ok ==>
        messages == old(messages) && historyComplete == old(historyComplete) && viewingHistory == old(viewingHistory)
    {
      hide History, Below, Around, SetMessages;
      ghost var log := Log();
      HistoryAscends(rows, channel);
      var found := GetMessagesAround(rows, channel, id, 25);
      NotFoundMeans(log, id);
      if found.NotFound? { return false; }
      AroundIsBlock(log, id);
      ghost var k := Below(log, id);
      lo, hi := k - Min(25, k), k + Min(26, |log| - k);
      assert found.page == log[lo..hi];
      assert found.page[k - lo] == id;
      SetIs(found.page);
      messages := SetMessages(found.page);
      historyComplete := false;
      viewingHistory := true;
      ValidIsLoaded();
      LoadNewer();
      assert messages[k - lo] == id;
      return true;
    }

    /** Someone posts: the server has one more message, and the client does not know it yet. */
    method Posted(id: int)
      requires Loaded() && 0 < id < NO_CURSOR && forall r <- rows :: r.id < id
      modifies this`rows
      ensures Loaded() && rows == old(rows) + [Row(id, channel)] && Log() == old(Log()) + [id]
    {
      hide History, Keyed, Ascending;
      PostedIsLast(rows, channel, id);
      LongerHistory(Log(), messages, id);
      rows := rows + [Row(id, channel)];
    }

    /** The response to my own POST is folded in as the broadcast will be, in a history window
        too, and nothing is reloaded (web/static/app.js:2754-2759). */
    method SendResponse(id: int)
      requires Loaded() && id in Log()
      modifies this`messages, this`lo, this`hi
      ensures Loaded() && messages == AddMessage(old(messages), id)
    {
      MessageUpdate(id);
    }

    /** The broadcast of a message reaches this client (web/static/app.js:816-849). My own in a
        history window reloads the channel, any other is added to whatever is loaded. */
    method Broadcast(id: int, mine: bool)
      requires Loaded() && id in Log()
      modifies this
      ensures Loaded() && rows == old(rows)
      ensures mine && old(viewingHistory) ==>
        && Valid() && !viewingHistory && hi == |Log()| && lo == hi - Min(50, hi)
      ensures !(mine && old(viewingHistory)) ==>
        && messages == AddMessage(old(messages), id)
        && historyComplete == old(historyComplete) && viewingHistory == old(viewingHistory)
        && var j := Below(Log(), id);
           && lo == (if j + 1 == old(lo) then j else old(lo)) && hi == (if j == old(hi) then old(hi) + 1 else old(hi))
    {
      hide History, AddMessage, Below, Keyed;
      if mine && viewingHistory {
        LoadChannel();
        ValidIsLoaded();
      } else {
        MessageUpdate(id);
      }
    }

    /** Someone posts, and the event reaches this client (web/static/app.js:816-849). My own
        message in a history window reloads the channel. Anyone else's is added to whatever is
        loaded: the window stays a block exactly when it reached the newest message. */
    method MessageNew(id: int, mine: bool)
      requires Loaded() && id < NO_CURSOR && id > 0 && forall r <- rows :: r.id < id
      modifies this
      ensures Loaded() && Log() == old(Log()) + [id]
      ensures mine && old(viewingHistory) ==> Valid() && !viewingHistory && id in messages
      ensures !(mine && old(viewingHistory)) ==>
        && messages == old(messages) + [id]
        && historyComplete == old(historyComplete) && viewingHistory == old(viewingHistory)
        && (IsBlock(messages, Log()) <==>
              old(messages) == []
              || (IsBlock(old(messages), old(Log())) && Newest(old(messages)) == Newest(old(Log()))))
        && (old(Valid()) ==> (IsBlock(messages, Log()) <==> old(hi) == |old(Log())|))
        && (old(Valid()) && old(hi) == |old(Log())| ==> Valid())
    {
      hide History, AddMessage, IsBlock, IsWindow, Newest, Ascending, Keyed, Below;
      ghost var log, w := Log(), messages;
      HistoryAscends(rows, channel);
      PostedIsLast(rows, channel, id);
      LastPlace(log, id);
      Posted(id);
      HistoryAscends(rows, channel);
      if mine && viewingHistory {
        Broadcast(id, mine);
        hide Min;
        NewestIn(Log(), lo, messages, id);
      } else {
        NewMessageFits(log, w, lo, hi, id);
        Broadcast(id, mine);
      }
    }

    /** An edit or pin of a message of this channel, loaded or not (web/static/state.js:447). */
    method MessageUpdate(id: int)
      requires Loaded() && id in Log()
      modifies this`messages, this`lo, this`hi
      ensures Loaded() && messages == AddMessage(old(messages), id)
      ensures var j := Below(Log(), id);
        && lo == (if j + 1 == old(lo) then j else old(lo)) && hi == (if j == old(hi) then old(hi) + 1 else old(hi))
      ensures old(Valid()) ==>
        var j := Below(Log(), id);
        && (IsBlock(messages, Log()) <==> old(lo) <= j + 1 && j <= old(hi))
        && (Valid() <==> old(lo) <= j + 1 && j <= old(hi))
    {
      hide History, AddMessage, IsBlock, Below, IsWindow;
      HistoryAscends(rows, channel);
      Position(Log(), id);
      ghost var j := Below(Log(), id);
      if Valid() { EditedBlock(Log(), lo, hi, j); }
      AddKeepsWindow(Log(), messages, id);
      messages := AddMessage(messages, id);
      lo, hi := if j + 1 == lo then j else lo, if j == hi then hi + 1 else hi;
      ThenBlock(messages, Log(), lo, hi);
    }
  }

  /** Scrolling up to the top and down to the bottom ends, with the whole history loaded and
      both flags saying so. */
  method ScrollThrough(view: ChannelView)
    requires view.Valid()
    modifies view
    ensures view.Valid() && view.rows == old(view.rows) && view.messages == view.Log()
    ensures view.Log() != [] ==> view.historyComplete && !view.viewingHistory
  {
    while !view.historyComplete && view.messages != []
      invariant view.Valid() && view.rows == old(view.rows)
      decreases view.lo + if view.historyComplete then 0 else 1
    {
      view.ValidIsLoaded();
      view.LoadOlder();
    }
    while view.viewingHistory && view.messages != []
      invariant view.Valid() && view.rows == old(view.rows)
      invariant view.historyComplete || view.messages == []
      decreases |view.Log()| - view.hi + if view.viewingHistory then 1 else 0
    {
      view.ValidIsLoaded();
      view.LoadNewer();
    }
  }

  /** A window that stops short of the newest message, someone else's new message, and one page
      forward: the window is taken for caught up, and the messages in between are missing. */
  method HoleIsKept(view: ChannelView, id: int)
    requires view.Valid() && view.hi < |view.Log()|
    requires 0 < id < NO_CURSOR && forall r <- view.rows :: r.id < id
    modifies view
    ensures view.Loaded() && !view.viewingHistory
    ensures view.messages == old(view.messages) + [id] && !IsBlock(view.messages, view.Log())
  {
    view.ValidIsLoaded();
    view.MessageNew(id, false);
    ghost var log := view.Log();
    HistoryAscends(view.rows, view.channel);
    NothingBehind(log, id);
    view.LoadNewer();
  }

  /** I send from a window that stops short of the newest message, and get the response before
      the broadcast. If one page forward comes in between, the history flag is gone when the
      broadcast arrives, nothing is reloaded, and the hole stays; if not, the reload mends it. */
  method SendFromHistory(view: ChannelView, id: int, pageFirst: bool)
    requires view.Valid() && view.hi < |view.Log()|
    requires 0 < id < NO_CURSOR && forall r <- view.rows :: r.id < id
    modifies view
    ensures view.Loaded() && !view.viewingHistory && view.Log() == old(view.Log()) + [id]
    ensures pageFirst ==> view.messages == old(view.messages) + [id] && !IsBlock(view.messages, view.Log())
    ensures !pageFirst ==> view.Valid() && IsBlock(view.messages, view.Log()) && id in view.messages
  {
    hide History, AddMessage, IsBlock, Below, Ascending, Keyed;
    ghost var log, w := view.Log(), view.messages;
    view.ValidIsLoaded();
    HistoryAscends(view.rows, view.channel);
    PostedIsLast(view.rows, view.channel, id);
    WindowGrows(log, w, id);
    view.Posted(id);
    HistoryAscends(view.rows, view.channel);
    ShortOfNewest(log, view.lo, view.hi);
    assert view.Log()[|log|] == id;
    view.SendResponse(id);
    assert view.messages == w + [id];
    if pageFirst {
      NothingBehind(log + [id], id);
      view.LoadNewer();
      assert view.messages == w + [id] + [] == w + [id];
      assert !view.viewingHistory;
      AlreadyThere(w + [id], id);
    }
    view.Broadcast(id, true);
    if !pageFirst {
      view.ValidIsLoaded();
      assert view.messages[|view.messages| - 1] == id;
    }
  }

  lemma ShortOfNewest(log: seq<int>, lo: nat, hi: nat)
    requires Ascending(log) && lo < hi < |log|
    ensures log[lo..hi] != [] && Newest(log[lo..hi]) != Newest(log)
  {}

  lemma NothingBehind(log: seq<int>, id: int)
    requires Ascending(log) && log != [] && log[|log| - 1] == id
    ensures Newer(log, Below(log, id + 1), PAGE) == []
  {
    Cursor(log, |log|);
  }

  lemma AlreadyThere(w: seq<int>, id: int)
    requires id in w
    ensures AddMessage(w, id) == w
  {}
}
