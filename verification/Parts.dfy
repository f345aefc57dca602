/** Lists of byte blocks, and `concat` of web/static/exif.js. */
module Parts {
  import opened Basics
  import opened Bytes

  function Flatten(parts: seq<seq<byte>>): seq<byte> {
    if parts == [] then [] else parts[0] + Flatten(parts[1..])
  }

  lemma {:induction false} FlattenAppend(a: seq<seq<byte>>, b: seq<seq<byte>>)
    ensures Flatten(a + b) == Flatten(a) + Flatten(b)
  {
    if a == [] {
      assert a + b == b;
    } else {
      assert (a + b)[0] == a[0] && (a + b)[1..] == a[1..] + b;
      FlattenAppend(a[1..], b);
      Associative(a[0], Flatten(a[1..]), Flatten(b));
    }
  }

  lemma FlattenPush(a: seq<seq<byte>>, x: seq<byte>)
    ensures Flatten(a + [x]) == Flatten(a) + x
  {
    FlattenAppend(a, [x]);
    assert Flatten([x]) == x + Flatten([]) == x;
  }

  /** `subarray(i)`: an offset past the end gives an empty block. */
  function From(s: seq<byte>, i: nat): seq<byte> {
    if i <= |s| then s[i..] else []
  }

  /** `subarray(0, i)`. */
  function UpTo(s: seq<byte>, i: nat): seq<byte> {
    if i <= |s| then s[..i] else s
  }

  lemma FlattenOne(x: seq<byte>)
    ensures Flatten([x]) == x
  {
    assert [x][1..] == [] && x + [] == x;
  }

  /** The blocks satisfying p, in order. */
  function Filter(p: seq<byte> -> bool, parts: seq<seq<byte>>): (r: seq<seq<byte>>)
    ensures forall x <- r :: p(x) && x in parts
  {
    if parts == [] then [] else (if p(parts[0]) then [parts[0]] else []) + Filter(p, parts[1..])
  }

  lemma {:induction false} FilterAppend(p: seq<byte> -> bool, a: seq<seq<byte>>, b: seq<seq<byte>>)
    ensures Filter(p, a + b) == Filter(p, a) + Filter(p, b)
  {
    if a == [] {
      assert a + b == b;
    } else {
      assert (a + b)[0] == a[0] && (a + b)[1..] == a[1..] + b;
      FilterAppend(p, a[1..], b);
      Associative(if p(a[0]) then [a[0]] else [], Filter(p, a[1..]), Filter(p, b));
    }
  }

  lemma FilterPush(p: seq<byte> -> bool, a: seq<seq<byte>>, x: seq<byte>)
    ensures Filter(p, a + [x]) == Filter(p, a) + (if p(x) then [x] else [])
  {
    FilterAppend(p, a, [x]);
  }

  lemma {:induction false} FilterAll(p: seq<byte> -> bool, a: seq<seq<byte>>)
    requires forall x <- a :: p(x)
    ensures Filter(p, a) == a
  {
    if a != [] {
      FilterAll(p, a[1..]);
    }
  }

  /** Filtering either drops something, and is then shorter, or changes nothing. */
  lemma {:induction false} FilterAllOrFewer(p: seq<byte> -> bool, a: seq<seq<byte>>)
    ensures Filter(p, a) == a || |Filter(p, a)| < |a|
  {
    if a != [] {
      FilterAllOrFewer(p, a[1..]);
      assert a == [a[0]] + a[1..];
    }
  }

  /** `out.set(part, off)`. */
  method CopyInto(out: array<byte>, off: nat, part: seq<byte>)
    requires off + |part| <= out.Length
    modifies out
    ensures out[..off + |part|] == old(out[..off]) + part
  {
    forall j | 0 <= j < |part| {
      out[off + j] := part[j];
    }
    assert forall j :: 0 <= j < |part| ==> out[..off + |part|][off + j] == out[off + j] == part[j];
    assert out[..off] == old(out[..off]);
  }

  /** `concat`: size the buffer first, then copy each block to its offset. */
  method Concat(parts: seq<seq<byte>>) returns (out: array<byte>)
    ensures fresh(out) && out[..] == Flatten(parts)
  {
    var total := 0;
    for k := 0 to |parts|
      invariant total == |Flatten(parts[..k])|
    {
      assert parts[..k + 1] == parts[..k] + [parts[k]];
      FlattenPush(parts[..k], parts[k]);
      total := total + |parts[k]|;
    }
    assert parts[..|parts|] == parts;
    out := new byte[total];
    var off := 0;
    for k := 0 to |parts|
      invariant off == |Flatten(parts[..k])| <= total
      invariant out[..off] == Flatten(parts[..k])
    {
      assert parts[..k + 1] == parts[..k] + [parts[k]];
      FlattenPush(parts[..k], parts[k]);
      FlattenAppend(parts[..k + 1], parts[k + 1..]);
      assert parts[..k + 1] + parts[k + 1..] == parts;
      CopyInto(out, off, parts[k]);
      off := off + |parts[k]|;
    }
  }
}
