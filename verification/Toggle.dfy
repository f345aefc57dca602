/** The wrap shortcut and the deletion that takes a bare pair of markers along, of
    web/static/composer-richtext.js. */
module Toggle {
  import opened Basics

  /** The text of a field and the selection in it. */
  datatype Field = Field(value: string, start: nat, end: nat) {
    predicate Valid() {
      start <= end <= |value|
    }

    function Selected(): string
      requires Valid()
    {
      value[start..end]
    }
  }

  /** `slice`, which stops at the end of the text. */
  function Slice(s: string, i: nat, j: nat): string
    requires i <= j && i <= |s|
  {
    if j <= |s| then s[i..j] else s[i..]
  }

  predicate Exits(f: Field, m: string)
    requires f.Valid()
  {
    f.start == f.end && Slice(f.value, f.start, f.start + |m|) == m
  }

  /** The selection stands between two markers. */
  predicate IsFlanked(f: Field, m: string)
    requires f.Valid()
  {
    && f.start >= |m| && Slice(f.value, f.start - |m|, f.start) == m
    && Slice(f.value, f.end, f.end + |m|) == m
  }

  /** The selection begins and ends with one. */
  predicate HoldsPair(f: Field, m: string)
    requires f.Valid()
  {
    && f.end - f.start >= 2 * |m|
    && Slice(f.value, f.start, f.start + |m|) == m && Slice(f.value, f.end - |m|, f.end) == m
  }

  /** `toggleMarker`. */
  function ToggleMarker(f: Field, m: string): (r: Field)
    requires f.Valid()
    ensures r.Valid()
  {
    var n := |m|;
    if Exits(f, m) then Field(f.value, f.start + n, f.end + n)
    else if IsFlanked(f, m) then
      Field(f.value[..f.start - n] + f.value[f.start..f.end] + f.value[f.end + n..], f.start - n, f.end - n)
    else if HoldsPair(f, m) then
      Field(f.value[..f.start] + f.value[f.start + n..f.end - n] + f.value[f.end..], f.start, f.end - 2 * n)
    else Field(f.value[..f.start] + m + f.value[f.start..f.end] + m + f.value[f.end..], f.start + n, f.end + n)
  }

  const WRAP_MARKERS := ["**", "~~", "||", "*", "_", "`"]

  function DeleteAmong(f: Field, markers: seq<string>): Option<Field>
    requires f.Valid()
  {
    if markers == [] then None
    else if IsFlanked(f, markers[0]) then
      var caret := f.start - |markers[0]|;
      Some(Field(f.value[..caret] + f.value[f.end + |markers[0]|..], caret, caret))
    else DeleteAmong(f, markers[1..])
  }

  /** `flankedDelete`. */
  method FlankedDelete(f: Field) returns (r: Option<Field>)
    requires f.Valid()
    ensures r == DeleteAmong(f, WRAP_MARKERS)
  {
    assert WRAP_MARKERS[0..] == WRAP_MARKERS;
    for k := 0 to |WRAP_MARKERS|
      invariant DeleteAmong(f, WRAP_MARKERS) == DeleteAmong(f, WRAP_MARKERS[k..])
    {
      assert WRAP_MARKERS[k..][1..] == WRAP_MARKERS[k + 1..];
      var m := WRAP_MARKERS[k];
      if IsFlanked(f, m) {
        var caret := f.start - |m|;
        return Some(Field(f.value[..caret] + f.value[f.end + |m|..], caret, caret));
      }
    }
    return None;
  }

  // ----- The text around a selection -----

  /** A field written out: what is in front of the selection, the selection, what is behind it. */
  function Around(a: string, sel: string, b: string): Field {
    Field(a + sel + b, |a|, |a| + |sel|)
  }

  predicate Ends(a: string, m: string) {
    |a| >= |m| && a[|a| - |m|..] == m
  }

  lemma IsAround(f: Field)
    requires f.Valid()
    ensures f == Around(f.value[..f.start], f.Selected(), f.value[f.end..])
  {}

  lemma Behind(p: string, b: string, m: string)
    ensures Slice(p + b, |p|, |p| + |m|) == m <==> m <= b
  {
    if |m| <= |b| {
      assert (p + b)[|p|..|p| + |m|] == b[..|m|];
    }
  }

  lemma Before(a: string, p: string, m: string)
    requires |m| <= |a|
    ensures Slice(a + p, |a| - |m|, |a|) == m <==> Ends(a, m)
  {
    assert (a + p)[|a| - |m|..|a|] == a[|a| - |m|..];
  }

  lemma Selects(a: string, sel: string, b: string)
    ensures Around(a, sel, b).Valid() && Around(a, sel, b).Selected() == sel
    ensures var v := a + sel + b; v[..|a|] == a && v[|a| + |sel|..] == b && a + (sel + b) == v
  {}

  lemma StartsInside(sel: string, b: string, m: string)
    requires |m| <= |sel|
    ensures m <= sel + b <==> m <= sel
  {
    assert (sel + b)[..|m|] == sel[..|m|];
  }

  lemma EndsInside(a: string, sel: string, m: string)
    requires |m| <= |sel|
    ensures Ends(a + sel, m) <==> Ends(sel, m)
  {
    assert (a + sel)[|a + sel| - |m|..] == sel[|sel| - |m|..];
  }

  lemma ExitsAround(a: string, sel: string, b: string, m: string)
    ensures Around(a, sel, b).Valid() && (Exits(Around(a, sel, b), m) <==> sel == "" && m <= b)
  {
    hide Slice;
    Behind(a + sel, b, m);
  }

  lemma FlankedAround(a: string, sel: string, b: string, m: string)
    ensures Around(a, sel, b).Valid() && (IsFlanked(Around(a, sel, b), m) <==> Ends(a, m) && m <= b)
  {
    hide Slice;
    Selects(a, sel, b);
    Behind(a + sel, b, m);
    if |m| <= |a| { Before(a, sel + b, m); }
  }

  lemma PairAround(a: string, sel: string, b: string, m: string)
    ensures Around(a, sel, b).Valid()
    ensures HoldsPair(Around(a, sel, b), m) <==> |sel| >= 2 * |m| && m <= sel && Ends(sel, m)
  {
    hide Slice, Ends;
    Selects(a, sel, b);
    if |m| <= |sel| {
      Behind(a, sel + b, m);
      Before(a + sel, b, m);
      StartsInside(sel, b, m);
      EndsInside(a, sel, m);
    }
  }

  lemma GuardsAround(a: string, sel: string, b: string, m: string)
    ensures var f := Around(a, sel, b);
      && f.Valid() && f.Selected() == sel
      && (Exits(f, m) <==> sel == "" && m <= b)
      && (IsFlanked(f, m) <==> Ends(a, m) && m <= b)
      && (HoldsPair(f, m) <==> |sel| >= 2 * |m| && m <= sel && Ends(sel, m))
  {
    hide Exits, IsFlanked, HoldsPair, Ends;
    Selects(a, sel, b);
    ExitsAround(a, sel, b, m);
    FlankedAround(a, sel, b, m);
    PairAround(a, sel, b, m);
  }

  lemma PressExits(a: string, b: string, m: string)
    requires m <= b
    ensures ToggleMarker(Around(a, "", b), m) == Around(a + m, "", b[|m|..])
  {
    GuardsAround(a, "", b, m);
    hide Exits;
    assert b == m + b[|m|..];
    Associative(a, m, b[|m|..]);
    assert a + "" == a && a + m + "" == a + m;
  }

  lemma PressUnwraps(a: string, sel: string, b: string, m: string)
    requires m != "" && Ends(a, m) && m <= b && sel != ""
    ensures ToggleMarker(Around(a, sel, b), m) == Around(a[..|a| - |m|], sel, b[|m|..])
  {
    GuardsAround(a, sel, b, m);
    Selects(a, sel, b);
    assert |a| >= |m|;
    hide Exits, IsFlanked, HoldsPair, Ends;
    var v := a + sel + b;
    assert v[..|a| - |m|] == a[..|a| - |m|];
    assert v[|a| + |sel| + |m|..] == b[|m|..];
  }

  lemma PressStrips(a: string, sel: string, b: string, m: string)
    requires m != "" && !(Ends(a, m) && m <= b) && |sel| >= 2 * |m| && m <= sel && Ends(sel, m)
    ensures ToggleMarker(Around(a, sel, b), m) == Around(a, sel[|m|..|sel| - |m|], b)
  {
    GuardsAround(a, sel, b, m);
    Selects(a, sel, b);
    hide Exits, IsFlanked, HoldsPair, Ends;
    var v := a + sel + b;
    assert v[|a| + |m|..|a| + |sel| - |m|] == sel[|m|..|sel| - |m|];
  }

  lemma PressWraps(a: string, sel: string, b: string, m: string)
    requires !(sel == "" && m <= b) && !(Ends(a, m) && m <= b)
    requires !(|sel| >= 2 * |m| && m <= sel && Ends(sel, m))
    ensures ToggleMarker(Around(a, sel, b), m) == Around(a + m, sel, m + b)
  {
    GuardsAround(a, sel, b, m);
    Selects(a, sel, b);
    hide Exits, IsFlanked, HoldsPair, Ends;
    Associative(a + m + sel, m, b);
  }

  /** One press, told by what stands around the selection: a caret in front of a marker steps
      over it; markers around the selection go, else the ones it begins and ends with; otherwise
      a pair is put around it. */
  lemma PressSays(a: string, sel: string, b: string, m: string)
    requires m != ""
    ensures ToggleMarker(Around(a, sel, b), m) ==
      if sel == "" && m <= b then Around(a + m, "", b[|m|..])
      else if Ends(a, m) && m <= b then Around(a[..|a| - |m|], sel, b[|m|..])
      else if |sel| >= 2 * |m| && m <= sel && Ends(sel, m) then Around(a, sel[|m|..|sel| - |m|], b)
      else Around(a + m, sel, m + b)
  {
    hide ToggleMarker, Around;
    if sel == "" && m <= b {
      PressExits(a, b, m);
    } else if Ends(a, m) && m <= b {
      PressUnwraps(a, sel, b, m);
    } else if |sel| >= 2 * |m| && m <= sel && Ends(sel, m) {
      PressStrips(a, sel, b, m);
    } else {
      PressWraps(a, sel, b, m);
    }
  }

  predicate Wraps(f: Field, m: string)
    requires f.Valid()
  {
    !Exits(f, m) && !IsFlanked(f, m) && !HoldsPair(f, m)
  }

  lemma SameAround(a: string, sel: string, b: string, a': string, sel': string, b': string)
    ensures Around(a, sel, b) == Around(a', sel', b') <==> a == a' && sel == sel' && b == b'
  {
    Selects(a, sel, b);
    Selects(a', sel', b');
  }

  lemma TwiceAfterExit(a: string, b: string, m: string)
    requires m != "" && m <= b
    ensures ToggleMarker(Around(a + m, "", b[|m|..]), m) != Around(a, "", b)
  {
    var b' := b[|m|..];
    PressSays(a + m, "", b', m);
    SameAround(a, "", b, a + m + m, "", if m <= b' then b'[|m|..] else m + b');
    EndsOwn(a, m);
    hide ToggleMarker, Around, Ends;
  }

  lemma EndsOwn(a: string, m: string)
    ensures Ends(a + m, m) && (a + m)[..|a + m| - |m|] == a
    ensures forall b :: m <= m + b && (m + b)[|m|..] == b
  {}

  lemma EndsParts(a: string, b: string, m: string)
    requires Ends(a, m) && m <= b
    ensures a[..|a| - |m|] + m == a && m + b[|m|..] == b
  {}

  lemma TwiceAfterUnwrap(a: string, sel: string, b: string, m: string)
    requires m != "" && sel != "" && Ends(a, m) && m <= b
    ensures var r := Around(a[..|a| - |m|], sel, b[|m|..]);
      r.Valid() && (ToggleMarker(r, m) == Around(a, sel, b) <==> Wraps(r, m))
  {
    var a', b', n := a[..|a| - |m|], b[|m|..], |m|;
    GuardsAround(a', sel, b', m);
    PressSays(a', sel, b', m);
    EndsParts(a, b, m);
    if Ends(a', m) && m <= b' { SameAround(a, sel, b, a'[..|a'| - n], sel, b'[n..]); }
    if |sel| >= 2 * n { SameAround(a, sel, b, a', sel[n..|sel| - n], b'); }
    hide ToggleMarker, Around, Ends, Exits, IsFlanked, HoldsPair;
  }

  lemma TwiceAfterStrip(a: string, sel: string, b: string, m: string)
    requires m != "" && |sel| >= 2 * |m|
    ensures ToggleMarker(Around(a, sel[|m|..|sel| - |m|], b), m) != Around(a, sel, b)
  {
    var inner, n := sel[|m|..|sel| - |m|], |m|;
    PressSays(a, inner, b, m);
    if m <= b { SameAround(a, sel, b, a + m, "", b[n..]); }
    if Ends(a, m) && m <= b { SameAround(a, sel, b, a[..|a| - n], inner, b[n..]); }
    if |inner| >= 2 * n { SameAround(a, sel, b, a, inner[n..|inner| - n], b); }
    SameAround(a, sel, b, a + m, inner, m + b);
    hide ToggleMarker, Around, Ends;
  }

  lemma TwiceAfterWrap(a: string, sel: string, b: string, m: string)
    requires m != ""
    ensures ToggleMarker(Around(a + m, sel, m + b), m) == Around(a, sel, b) <==> sel != ""
  {
    PressSays(a + m, sel, m + b, m);
    EndsOwn(a, m);
    SameAround(a, sel, b, a + m + m, "", b);
    hide ToggleMarker, Around, Ends;
  }

  /** Pressing the shortcut twice leaves text and selection as they were if and only if the first
      press puts a pair around a selection that is not empty, or takes one away where nothing
      hinders the second from putting it back. */
  lemma PressedTwice(a: string, sel: string, b: string, m: string)
    requires m != ""
    ensures var f := Around(a, sel, b);
      ToggleMarker(ToggleMarker(f, m), m) == f <==>
        (Wraps(f, m) && sel != "")
        || (!Exits(f, m) && IsFlanked(f, m) && Wraps(ToggleMarker(f, m), m))
  {
    var n := |m|;
    GuardsAround(a, sel, b, m);
    PressSays(a, sel, b, m);
    hide Exits, IsFlanked, HoldsPair, ToggleMarker, Around;
    if sel == "" && m <= b {
      TwiceAfterExit(a, b, m);
    } else if Ends(a, m) && m <= b {
      TwiceAfterUnwrap(a, sel, b, m);
    } else if |sel| >= 2 * n && m <= sel && Ends(sel, m) {
      TwiceAfterStrip(a, sel, b, m);
    } else {
      TwiceAfterWrap(a, sel, b, m);
    }
  }

  // ----- Deleting what stands between markers -----

  lemma TwoStars(a: string, b: string)
    requires Ends(a + "*", "**") && "**" <= "*" + b
    ensures Ends(a, "*") && "*" <= b
  {
    var s := a + "*";
    assert s[|s| - 2..][0] == s[|s| - 2] == a[|a| - 1];
    assert a[|a| - 1..] == [a[|a| - 1]];
    assert ("*" + b)[1] == b[0];
  }

  lemma LastChars(a: string, m: string, k: string)
    requires m != "" && k != "" && Ends(a + m, k)
    ensures k[|k| - 1] == m[|m| - 1]
  {
    var s := a + m;
    assert s[|s| - |k|..][|k| - 1] == s[|s| - 1];
  }

  /** Of the markers looked for earlier only two stars could be taken for the one just put, and
      they are not there when one star was put. */
  lemma NotTaken(a: string, sel: string, b: string, i: nat, j: nat)
    requires j < i < |WRAP_MARKERS| && !(Ends(a, WRAP_MARKERS[i]) && WRAP_MARKERS[i] <= b)
    ensures !IsFlanked(Around(a + WRAP_MARKERS[i], sel, WRAP_MARKERS[i] + b), WRAP_MARKERS[j])
  {
    var m, k := WRAP_MARKERS[i], WRAP_MARKERS[j];
    FlankedAround(a + m, sel, m + b, k);
    hide IsFlanked, Ends;
    if Ends(a + m, k) && k <= m + b {
      LastChars(a, m, k);
      assert j == 0 && i == 3;
      TwoStars(a, b);
    }
  }

  lemma {:induction false} FirstMatch(f: Field, markers: seq<string>, i: nat)
    requires f.Valid() && i < |markers| && IsFlanked(f, markers[i])
    requires forall j :: 0 <= j < i ==> !IsFlanked(f, markers[j])
    ensures var n := |markers[i]|;
      DeleteAmong(f, markers) == Some(Field(f.value[..f.start - n] + f.value[f.end + n..], f.start - n, f.start - n))
  {
    if i > 0 {
      assert forall j :: 0 <= j < i - 1 ==> markers[1..][j] == markers[j + 1];
      FirstMatch(f, markers[1..], i - 1);
    }
  }

  lemma WithoutPair(a: string, sel: string, b: string, m: string)
    ensures var r := Around(a + m, sel, m + b);
      && r.Valid() && r.start - |m| == |a| && r.end + |m| <= |r.value|
      && r.value[..|a|] == a && r.value[r.end + |m|..] == b
  {
    Selects(a + m, sel, m + b);
    var v := a + m + sel + (m + b);
    assert v[..|a|] == a;
    assert v[|a + m + sel| + |m|..] == b;
  }

  lemma DeletesPair(a: string, sel: string, b: string, markers: seq<string>, i: nat)
    requires i < |markers|
    requires var m := markers[i];
      var r := Around(a + m, sel, m + b);
      r.Valid() && IsFlanked(r, m) && forall j :: 0 <= j < i ==> !IsFlanked(r, markers[j])
    ensures var m := markers[i];
      DeleteAmong(Around(a + m, sel, m + b), markers) == Some(Around(a, "", b))
  {
    hide IsFlanked, DeleteAmong, Around;
    FirstMatch(Around(a + markers[i], sel, markers[i] + b), markers, i);
    WithoutPair(a, sel, b, markers[i]);
    Emptied(a, b);
  }

  lemma PutThenDeleted(a: string, sel: string, b: string, i: nat)
    requires i < |WRAP_MARKERS| && Wraps(Around(a, sel, b), WRAP_MARKERS[i])
    ensures DeleteAmong(ToggleMarker(Around(a, sel, b), WRAP_MARKERS[i]), WRAP_MARKERS) == Some(Around(a, "", b))
  {
    var m, r := WRAP_MARKERS[i], Around(a + WRAP_MARKERS[i], sel, WRAP_MARKERS[i] + b);
    GuardsAround(a, sel, b, m);
    assert !(Ends(a, m) && m <= b);
    hide Exits, IsFlanked, HoldsPair, ToggleMarker, Ends, DeleteAmong, WRAP_MARKERS, Around;
    PressWraps(a, sel, b, m);
    FlankedAround(a + m, sel, m + b, m);
    EndsOwn(a, m);
    forall j | 0 <= j < i ensures !IsFlanked(r, WRAP_MARKERS[j]) {
      NotTaken(a, sel, b, i, j);
    }
    DeletesPair(a, sel, b, WRAP_MARKERS, i);
  }

  lemma Emptied(a: string, b: string)
    ensures Field(a + b, |a|, |a|) == Around(a, "", b)
  {
    assert a + "" == a;
  }

  /** A selection that was just put between markers, deleted: the markers go with it, and none of
      the others that stand around is taken for them. */
  lemma WrapThenDelete(a: string, sel: string, b: string, m: string)
    requires m in {"**", "~~", "||", "*", "_", "`"} && Wraps(Around(a, sel, b), m)
    ensures DeleteAmong(ToggleMarker(Around(a, sel, b), m), WRAP_MARKERS) == Some(Around(a, "", b))
  {
    hide DeleteAmong, ToggleMarker, Wraps, Around;
    var i := if m == "**" then 0 else if m == "~~" then 1 else if m == "||" then 2
             else if m == "*" then 3 else if m == "_" then 4 else 5;
    assert WRAP_MARKERS[i] == m;
    PutThenDeleted(a, sel, b, i);
  }
}
