/** The three message listings of internal/store/store_messages.go:64-160. A query is a filter,
    a sort and a take over the rows of the table, which stand in no particular order. */
module Listing {
  datatype Row = Row(id: int, channel: int)

  datatype Found = Found(page: seq<int>) | NotFound

  /** The primary key; identities are positive and below the "no cursor" bound. */
  ghost predicate Keyed(rows: seq<Row>) {
    && (forall i, j :: 0 <= i < j < |rows| ==> rows[i].id != rows[j].id)
    && (forall r <- rows :: 0 < r.id < 0x3fff_ffff_ffff_ffff)
  }

  const NO_CURSOR := 0x4000_0000_0000_0000 - 1

  // ----- Ordering -----

  ghost predicate Ascending(s: seq<int>) {
    forall i, j :: 0 <= i < j < |s| ==> s[i] < s[j]
  }

  ghost predicate Distinct(s: seq<int>) {
    forall i, j :: 0 <= i < j < |s| ==> s[i] != s[j]
  }

  function Insert(s: seq<int>, x: int): (r: seq<int>)
    ensures forall y :: y in r <==> y == x || y in s
  {
    if s == [] || x <= s[0] then [x] + s else [s[0]] + Insert(s[1..], x)
  }

  /** ORDER BY id, and `sort((a, b) => a.id - b.id)`. */
  function Sort(s: seq<int>): (r: seq<int>)
    ensures forall y :: y in r <==> y in s
  {
    if s == [] then [] else Insert(Sort(s[1..]), s[0])
  }

  function Reversed(s: seq<int>): (r: seq<int>)
    ensures |r| == |s| && forall k :: 0 <= k < |s| ==> r[k] == s[|s| - 1 - k]
  {
    seq(|s|, k requires 0 <= k < |s| => s[|s| - 1 - k])
  }

  function Take(s: seq<int>, n: nat): seq<int> {
    if n < |s| then s[..n] else s
  }

  lemma {:induction false} InsertAscends(s: seq<int>, x: int)
    requires Ascending(s) && x !in s
    ensures Ascending(Insert(s, x))
  {
    if s != [] && x > s[0] {
      InsertAscends(s[1..], x);
      var rest := Insert(s[1..], x);
      forall j | 0 <= j < |rest| ensures s[0] < rest[j] {
        assert rest[j] in rest;
      }
    }
  }

  lemma {:induction false} SortAscends(s: seq<int>)
    requires Distinct(s)
    ensures Ascending(Sort(s))
  {
    if s != [] {
      SortAscends(s[1..]);
      InsertAscends(Sort(s[1..]), s[0]);
    }
  }

  lemma NotEmpty(a: seq<int>, b: seq<int>)
    requires a != [] && forall x :: x in a ==> x in b
    ensures b != []
  {
    var x := a[0];
    assert x in a;
  }

  /** Ascending sequences are determined by their elements. */
  lemma {:induction false} SameAscending(a: seq<int>, b: seq<int>)
    requires Ascending(a) && Ascending(b)
    requires forall x :: x in a <==> x in b
    ensures a == b
  {
    if b != [] { NotEmpty(b, a); }
    if a != [] {
      NotEmpty(a, b);
      assert a[0] in b && b[0] in a;
      assert a[0] == b[0];
      forall x ensures x in a[1..] <==> x in b[1..] {
        assert x in a[1..] <==> x in a && x != a[0];
        assert x in b[1..] <==> x in b && x != b[0];
      }
      SameAscending(a[1..], b[1..]);
      assert a == [a[0]] + a[1..] && b == [b[0]] + b[1..];
    }
  }

  /** How many of an ascending sequence are below b. */
  function Below(s: seq<int>, b: int): (k: nat)
    ensures k <= |s|
    ensures forall i :: 0 <= i < k ==> s[i] < b
    ensures k < |s| ==> s[k] >= b
  {
    if s == [] || s[0] >= b then 0 else 1 + Below(s[1..], b)
  }

  // ----- Queries -----

  /** The ids of a channel's rows that pass the WHERE clause, in table order. */
  function Where(rows: seq<Row>, channel: int, lo: int, hi: int): (ids: seq<int>)
    ensures forall x :: x in ids <==> exists r <- rows :: r.channel == channel && r.id == x && lo < x < hi
  {
    if rows == [] then []
    else
      var r := rows[0];
      assert rows == [r] + rows[1..];
      (if r.channel == channel && lo < r.id < hi then [r.id] else []) + Where(rows[1..], channel, lo, hi)
  }

  lemma {:induction false} WhereIsDistinct(rows: seq<Row>, channel: int, lo: int, hi: int)
    requires forall i, j :: 0 <= i < j < |rows| ==> rows[i].id != rows[j].id
    ensures Distinct(Where(rows, channel, lo, hi))
  {
    if rows != [] {
      WhereIsDistinct(rows[1..], channel, lo, hi);
      var rest := Where(rows[1..], channel, lo, hi);
      forall k | 0 <= k < |rest| ensures rest[k] != rows[0].id {
        assert rest[k] in rest;
        var r :| r in rows[1..] && r.id == rest[k];
        var j :| 0 <= j < |rows[1..]| && rows[1..][j] == r;
        assert rows[j + 1] == r;
      }
    }
  }

  /** A channel's whole history, oldest first. */
  function History(rows: seq<Row>, channel: int): seq<int> {
    Sort(Where(rows, channel, 0, NO_CURSOR))
  }

  lemma HistoryAscends(rows: seq<Row>, channel: int)
    requires Keyed(rows)
    ensures Ascending(History(rows, channel))
    ensures forall x <- History(rows, channel) :: 0 < x < NO_CURSOR
  {
    WhereIsDistinct(rows, channel, 0, NO_CURSOR);
    SortAscends(Where(rows, channel, 0, NO_CURSOR));
  }

  lemma WhereMembers(rows: seq<Row>, channel: int, lo: int, hi: int, x: int)
    requires Keyed(rows)
    ensures x in Where(rows, channel, lo, hi) <==> x in History(rows, channel) && lo < x < hi
  {
    if x in Where(rows, channel, lo, hi) {
      var r :| r in rows && r.channel == channel && r.id == x;
      assert x in Where(rows, channel, 0, NO_CURSOR);
    }
    if x in History(rows, channel) && lo < x < hi {
      assert x in Where(rows, channel, 0, NO_CURSOR);
    }
  }

  /** A range query returns a block of the history. */
  lemma RangeIsBlock(rows: seq<Row>, channel: int, lo: int, hi: int)
    requires Keyed(rows) && lo < hi
    ensures var log := History(rows, channel);
      && Below(log, lo + 1) <= Below(log, hi)
      && Sort(Where(rows, channel, lo, hi)) == log[Below(log, lo + 1)..Below(log, hi)]
  {
    hide Below, Where, History, Sort;
    var log := History(rows, channel);
    HistoryAscends(rows, channel);
    WhereIsDistinct(rows, channel, lo, hi);
    SortAscends(Where(rows, channel, lo, hi));
    var a, b := Below(log, lo + 1), Below(log, hi);
    forall x ensures x in Sort(Where(rows, channel, lo, hi)) <==> x in log[a..b] {
      WhereMembers(rows, channel, lo, hi, x);
    }
    SameAscending(Sort(Where(rows, channel, lo, hi)), log[a..b]);
  }

  function Min(a: int, b: int): int {
    if a < b then a else b
  }

  /** The n newest of log that are before position k, oldest first. */
  function Older(log: seq<int>, k: nat, n: nat): seq<int>
    requires k <= |log|
  {
    log[k - Min(n, k)..k]
  }

  /** The n oldest of log from position k on. */
  function Newer(log: seq<int>, k: nat, n: nat): seq<int>
    requires k <= |log|
  {
    log[k..k + Min(n, |log| - k)]
  }

  const BOTTOM := -0x8000_0000_0000_0000

  /** The older-page query: the closest n rows below b, newest first. */
  function SelectBefore(rows: seq<Row>, channel: int, b: int, n: nat): seq<int> {
    Take(Reversed(Sort(Where(rows, channel, BOTTOM, b))), n)
  }

  /** The newer-page query: the closest n rows above a, oldest first. */
  function SelectAfter(rows: seq<Row>, channel: int, a: int, n: nat): seq<int> {
    Take(Sort(Where(rows, channel, a, NO_CURSOR)), n)
  }

  method ReverseInPlace(out: array<int>)
    modifies out
    ensures out[..] == Reversed(old(out[..]))
  {
    var i, j := 0, out.Length - 1;
    while i < j
      invariant 0 <= i <= j + 1 && i + j == out.Length - 1
      invariant forall k :: 0 <= k < i || j < k < out.Length ==> out[k] == old(out[out.Length - 1 - k])
      invariant forall k :: i <= k <= j ==> out[k] == old(out[k])
    {
      out[i], out[j] := out[j], out[i];
      i, j := i + 1, j - 1;
    }
  }

  /** The page before a cursor, or the newest page for a cursor that is not positive: a block
      of the history that ends right before the cursor, oldest first. */
  method ListMessages(rows: seq<Row>, channel: int, before: int, limit: int) returns (page: seq<int>)
    requires Keyed(rows)
    ensures var log := History(rows, channel);
      page == Older(log, if before <= 0 then |log| else Below(log, before), if 1 <= limit <= 200 then limit else 50)
  {
    hide Sort, Below;
    var n := PageSize(limit, 200, 50);
    var b := if before <= 0 then NO_CURSOR else before;
    var desc := SelectBefore(rows, channel, b, n);
    var out := new int[|desc|](k requires 0 <= k < |desc| => desc[k]);
    assert out[..] == desc;
    ReverseInPlace(out);
    page := out[..];
    BeforeIsOlder(rows, channel, b, n);
    if before <= 0 { AllBelow(rows, channel); }
  }

  function PageSize(limit: int, most: nat, standard: nat): nat {
    if limit <= 0 || limit > most then standard else limit
  }

  lemma AllBelow(rows: seq<Row>, channel: int)
    requires Keyed(rows)
    ensures var log := History(rows, channel);
      Below(log, NO_CURSOR) == |log| && Below(log, BOTTOM + 1) == 0 && Below(log, 1) == 0
  {
    var log := History(rows, channel);
    HistoryAscends(rows, channel);
    assert forall k :: 0 <= k < |log| ==> log[k] in log;
  }

  lemma ReversedTake(s: seq<int>, n: nat)
    ensures Reversed(Take(Reversed(s), n)) == s[|s| - Min(n, |s|)..]
  {}

  lemma BeforeIsOlder(rows: seq<Row>, channel: int, b: int, n: nat)
    requires Keyed(rows) && b > 0
    ensures var log := History(rows, channel);
      Reversed(SelectBefore(rows, channel, b, n)) == Older(log, Below(log, b), n)
  {
    hide Sort, Below, Where, History;
    RangeIsBlock(rows, channel, BOTTOM, b);
    AllBelow(rows, channel);
    ReversedTake(Sort(Where(rows, channel, BOTTOM, b)), n);
  }

  lemma AfterIsNewer(rows: seq<Row>, channel: int, a: int, n: nat)
    requires Keyed(rows) && a < NO_CURSOR
    ensures var log := History(rows, channel);
      SelectAfter(rows, channel, a, n) == Newer(log, Below(log, a + 1), n)
  {
    hide Sort, Below, Where, History;
    RangeIsBlock(rows, channel, a, NO_CURSOR);
    AllBelow(rows, channel);
  }

  /** The page after a cursor: a block of the history that starts right after it. */
  method ListMessagesAfter(rows: seq<Row>, channel: int, after: int, limit: int) returns (page: seq<int>)
    requires Keyed(rows) && after < NO_CURSOR
    ensures var log := History(rows, channel);
      page == Newer(log, Below(log, after + 1), if 1 <= limit <= 200 then limit else 50)
  {
    var n := PageSize(limit, 200, 50);
    AfterIsNewer(rows, channel, after, n);
    page := SelectAfter(rows, channel, after, n);
  }

  /** A message with its n nearest on either side. */
  function Around(log: seq<int>, id: int, n: nat): Found {
    if id !in log then NotFound
    else var k := Below(log, id); Found(Older(log, k, n) + Newer(log, k, n + 1))
  }

  /** The window around a message: a block of the history with the message inside and up to
      half on either side; NotFound exactly when the channel has no such message. */
  method GetMessagesAround(rows: seq<Row>, channel: int, id: int, halfLimit: int) returns (r: Found)
    requires Keyed(rows)
    ensures r == Around(History(rows, channel), id, if 1 <= halfLimit <= 100 then halfLimit else 25)
  {
    hide Sort, Below, Where, History, SelectBefore, SelectAfter;
    var n := PageSize(halfLimit, 100, 25);
    ghost var log := History(rows, channel);
    var older := SelectBefore(rows, channel, id, n);
    var target := Where(rows, channel, id - 1, id + 1);
    HistoryAscends(rows, channel);
    WhereMembers(rows, channel, id - 1, id + 1, id);
    if target == [] { return NotFound; }
    WhereMembers(rows, channel, id - 1, id + 1, target[0]);
    assert target[0] in target;
    var newer := SelectAfter(rows, channel, id, n);
    var out := AppendReversed(older);
    out := out + [target[0]] + newer;
    AroundParts(rows, channel, id, n);
    r := Found(out);
  }

  lemma AroundParts(rows: seq<Row>, channel: int, id: int, n: nat)
    requires Keyed(rows) && id in History(rows, channel)
    ensures Around(History(rows, channel), id, n)
      == Found(Reversed(SelectBefore(rows, channel, id, n)) + [id] + SelectAfter(rows, channel, id, n))
  {
    hide Sort, Below, Where, History;
    var log := History(rows, channel);
    HistoryAscends(rows, channel);
    Position(log, id);
    BeforeIsOlder(rows, channel, id, n);
    AfterIsNewer(rows, channel, id, n);
    var k := Below(log, id);
    assert Newer(log, k, n + 1) == [id] + Newer(log, k + 1, n);
    assert Older(log, k, n) + ([id] + Newer(log, k + 1, n)) == Older(log, k, n) + [id] + Newer(log, k + 1, n);
  }

  method AppendReversed(older: seq<int>) returns (out: seq<int>)
    ensures out == Reversed(older)
  {
    out := [];
    var i := |older| - 1;
    while i >= 0
      invariant -1 <= i < |older|
      invariant out == Reversed(older)[..|older| - 1 - i]
    {
      out := out + [older[i]];
      i := i - 1;
    }
  }

  lemma Position(log: seq<int>, id: int)
    requires Ascending(log) && id in log
    ensures Below(log, id) < |log| && log[Below(log, id)] == id && Below(log, id + 1) == Below(log, id) + 1
  {
    var k :| 0 <= k < |log| && log[k] == id;
    BelowIs(log, id, k);
    BelowIs(log, id + 1, k + 1);
  }

  lemma BelowIs(log: seq<int>, b: int, k: nat)
    requires k <= |log| && (forall i :: 0 <= i < k ==> log[i] < b) && (k < |log| ==> log[k] >= b)
    ensures Below(log, b) == k
  {}

  // ----- The pages, by what they hold -----

  lemma {:induction false} DistinctSize(s: seq<int>)
    requires Ascending(s)
    ensures |set y | y in s| == |s|
  {
    if s != [] {
      DistinctSize(s[1..]);
      assert s[0] !in s[1..];
      assert (set y | y in s) == {s[0]} + set y | y in s[1..];
    }
  }

  /** Which of a channel's messages a history holds. */
  lemma HistoryHolds(rows: seq<Row>, channel: int, x: int)
    requires Keyed(rows)
    ensures x in History(rows, channel) <==> Row(x, channel) in rows
  {
    if Row(x, channel) in rows { assert 0 < x < NO_CURSOR; }
  }

  /** The messages from place lo up to, not including, place hi. */
  function Between(log: seq<int>, lo: int, hi: int): set<int> {
    set y | y in log && lo <= y < hi
  }

  lemma BetweenPlaces(log: seq<int>, i: nat, k: nat, lo: int, hi: int)
    requires Ascending(log) && i <= k <= |log|
    requires (forall j :: 0 <= j < i ==> log[j] < lo) && (forall j :: i <= j < k ==> lo <= log[j] < hi)
    requires forall j :: k <= j < |log| ==> log[j] >= hi
    ensures |Between(log, lo, hi)| == k - i
  {
    var part := log[i..k];
    DistinctSize(part);
    assert Between(log, lo, hi) == set y | y in part by {
      forall y ensures y in Between(log, lo, hi) <==> y in part {
        if y in log && lo <= y < hi {
          var j :| 0 <= j < |log| && log[j] == y;
          assert i <= j < k && part[j - i] == y;
        }
      }
    }
  }

  lemma PlaceInSlice(log: seq<int>, i: nat, a: nat, b: nat)
    requires Ascending(log) && i < |log| && a <= b <= |log|
    ensures log[i] in log[a..b] <==> a <= i < b
  {
    if log[i] in log[a..b] {
      var j :| 0 <= j < |log[a..b]| && log[a..b][j] == log[i];
      assert log[a + j] == log[i];
    }
    if a <= i < b { assert log[a..b][i - a] == log[i]; }
  }

  lemma SliceHolds(log: seq<int>, a: nat, b: nat)
    requires Ascending(log) && a <= b <= |log|
    ensures Ascending(log[a..b]) && forall x :: x in log[a..b] ==> x in log
  {}

  lemma OlderAt(log: seq<int>, i: nat, k: nat, b: int, n: nat)
    requires Ascending(log) && i < |log| && k <= |log|
    requires (forall j :: 0 <= j < k ==> log[j] < b) && (k < |log| ==> log[k] >= b)
    ensures log[i] in Older(log, k, n) <==> log[i] < b && |Between(log, log[i], b)| <= n
  {
    PlaceInSlice(log, i, k - Min(n, k), k);
    hide Between;
    if i < k {
      FromPlace(log, i, k, b);
      hide Ascending;
      BetweenPlaces(log, i, k, log[i], b);
    }
  }

  /** The older page holds a message of the channel if and only if it is below the cursor and,
      counting down from there, among the first n. */
  lemma OlderHolds(log: seq<int>, b: int, n: nat, x: int)
    requires Ascending(log)
    ensures x in Older(log, Below(log, b), n) <==> x in log && x < b && |Between(log, x, b)| <= n
    ensures Ascending(Older(log, Below(log, b), n))
  {
    var k := Below(log, b);
    SliceHolds(log, k - Min(n, k), k);
    hide Below, Between, Ascending;
    if x in log {
      var i :| 0 <= i < |log| && log[i] == x;
      OlderAt(log, i, k, b, n);
    }
  }

  lemma FromPlace(log: seq<int>, i: nat, k: nat, b: int)
    requires Ascending(log) && i < k <= |log|
    requires (forall j :: 0 <= j < k ==> log[j] < b) && (k < |log| ==> log[k] >= b)
    ensures (forall j :: 0 <= j < i ==> log[j] < log[i]) && (forall j :: i <= j < k ==> log[i] <= log[j] < b)
    ensures forall j :: k <= j < |log| ==> log[j] >= b
  {}

  lemma NewerAt(log: seq<int>, i: nat, k: nat, lo: int, n: nat)
    requires Ascending(log) && i < |log| && k <= |log|
    requires (forall j :: 0 <= j < k ==> log[j] < lo) && (k < |log| ==> log[k] >= lo)
    ensures log[i] in Newer(log, k, n) <==> lo <= log[i] && |Between(log, lo, log[i] + 1)| <= n
  {
    PlaceInSlice(log, i, k, k + Min(n, |log| - k));
    hide Between;
    if i >= k {
      assert log[i] >= log[k];
      UpToPlace(log, k, i, lo);
      hide Ascending;
      BetweenPlaces(log, k, i + 1, lo, log[i] + 1);
    }
  }

  /** The newer page likewise, counting up. */
  lemma NewerHolds(log: seq<int>, a: int, n: nat, x: int)
    requires Ascending(log)
    ensures x in Newer(log, Below(log, a + 1), n) <==> x in log && a < x && |Between(log, a + 1, x + 1)| <= n
    ensures Ascending(Newer(log, Below(log, a + 1), n))
  {
    var k := Below(log, a + 1);
    SliceHolds(log, k, k + Min(n, |log| - k));
    hide Below, Between, Ascending;
    if x in log {
      var i :| 0 <= i < |log| && log[i] == x;
      NewerAt(log, i, k, a + 1, n);
    }
  }

  lemma UpToPlace(log: seq<int>, k: nat, i: nat, lo: int)
    requires Ascending(log) && k <= i < |log|
    requires (forall j :: 0 <= j < k ==> log[j] < lo) && log[k] >= lo
    ensures (forall j :: k <= j <= i ==> lo <= log[j] < log[i] + 1)
    ensures forall j :: i + 1 <= j < |log| ==> log[j] >= log[i] + 1
  {}
}
