/** `stripPng` of web/static/exif.js: section 5.3 of the W3C PNG specification. */
module Png {
  import opened Basics
  import opened Bytes
  import opened Parts

  /** Chunks that carry text, timestamps or Exif. */
  const DROPPED_TYPES := {"tEXt", "zTXt", "iTXt", "eXIf", "tIME"}

  /** Length of the chunk at the front of s: 4 length + 4 type + data + 4 CRC octets.
      0 when there is none: too short, a length with the sign bit set, or truncated. */
  function ChunkLength(s: seq<byte>): (n: nat)
    ensures n == 0 || 12 <= n <= |s|
  {
    if |s| < 8 then 0
    else
      var len := ((s[0] as int * 256 + s[1] as int) * 256 + s[2] as int) * 256 + s[3] as int;
      if len >= 0x8000_0000 || 12 + len > |s| then 0 else 12 + len
  }

  function TypeOf(x: seq<byte>): string {
    if |x| < 8 then "" else [x[4] as char, x[5] as char, x[6] as char, x[7] as char]
  }

  predicate IsChunk(x: seq<byte>) {
    |x| > 0 && ChunkLength(x) == |x|
  }

  predicate Keep(x: seq<byte>) {
    TypeOf(x) !in DROPPED_TYPES
  }

  datatype Parsed = Parsed(chunks: seq<seq<byte>>, rest: seq<byte>)

  /** The chunks up to IEND or the first malformed one, and the bytes after them. */
  function Parse(s: seq<byte>): Parsed
    decreases |s|
  {
    var n := ChunkLength(s);
    if n == 0 then Parsed([], s)
    else if TypeOf(s) == "IEND" then Parsed([s[..n]], s[n..])
    else var p := Parse(s[n..]); Parsed([s[..n]] + p.chunks, p.rest)
  }

  function ChunksOf(b: seq<byte>): seq<seq<byte>> {
    Parse(From(b, 8)).chunks
  }

  predicate Changes(b: seq<byte>) {
    Filter(Keep, ChunksOf(b)) != ChunksOf(b)
  }

  /** What `stripPng` returns. */
  function Strip(b: seq<byte>): seq<byte> {
    if !Changes(b) then b else UpTo(b, 8) + Flatten(Filter(Keep, ChunksOf(b)))
  }

  /** IEND, if present, ends the list. */
  ghost predicate EndsAtIend(chunks: seq<seq<byte>>) {
    forall k :: 0 <= k < |chunks| - 1 ==> TypeOf(chunks[k]) != "IEND"
  }

  lemma {:induction false} ParsedIsWellFormed(s: seq<byte>)
    ensures forall x <- Parse(s).chunks :: IsChunk(x)
    ensures EndsAtIend(Parse(s).chunks)
    ensures s == Flatten(Parse(s).chunks) + Parse(s).rest
    decreases |s|
  {
    var n := ChunkLength(s);
    if n > 0 {
      assert s == s[..n] + s[n..];
      ChunkPrefix(s);
      if TypeOf(s) == "IEND" {
        FlattenPush([], s[..n]);
        assert [] + [s[..n]] == [s[..n]] && Flatten([]) + s[..n] == s[..n];
      } else {
        ParsedIsWellFormed(s[n..]);
        Associative(s[..n], Flatten(Parse(s[n..]).chunks), Parse(s[n..]).rest);
      }
    }
  }

  lemma ChunkPrefix(s: seq<byte>)
    requires ChunkLength(s) > 0
    ensures var x := s[..ChunkLength(s)]; IsChunk(x) && TypeOf(x) == TypeOf(s)
  {}

  lemma ChunkExtends(x: seq<byte>, rest: seq<byte>)
    requires IsChunk(x)
    ensures ChunkLength(x + rest) == |x| && TypeOf(x + rest) == TypeOf(x)
    ensures (x + rest)[..|x|] == x && (x + rest)[|x|..] == rest
  {
    var s := x + rest;
    assert forall k :: 0 <= k < 8 ==> s[k] == x[k];
  }

  /** The parser undoes the printer on any list of chunks in which only the last is IEND. */
  lemma {:induction false} ParsePrinted(chunks: seq<seq<byte>>)
    requires forall x <- chunks :: IsChunk(x)
    requires EndsAtIend(chunks)
    ensures Parse(Flatten(chunks)) == Parsed(chunks, [])
  {
    if chunks != [] {
      hide ChunkLength, TypeOf, IsChunk;
      var x, more := chunks[0], chunks[1..];
      ChunkExtends(x, Flatten(more));
      ParsePrinted(more);
      assert chunks == [x] + more;
      assert TypeOf(x) == "IEND" ==> more == [] && Flatten(more) == [];
      ChunkNotEmpty(x);
    }
  }

  lemma ChunkNotEmpty(x: seq<byte>)
    requires IsChunk(x)
    ensures |x| > 0
  {}

  lemma {:induction false} FilterEndsAtIend(chunks: seq<seq<byte>>)
    requires EndsAtIend(chunks)
    ensures EndsAtIend(Filter(Keep, chunks))
  {
    if chunks != [] {
      FilterEndsAtIend(chunks[1..]);
      if TypeOf(chunks[0]) == "IEND" {
        assert |chunks| == 1;
        assert Filter(Keep, chunks[1..]) == [];
      }
    }
  }

  /** The loop stands at offset i with the chunks in `seen` behind it. */
  ghost predicate Reached(b: seq<byte>, i: nat, seen: seq<seq<byte>>) {
    ChunksOf(b) == seen + Parse(From(b, i)).chunks
  }

  lemma Passes(b: seq<byte>, i: nat, seen: seq<seq<byte>>)
    requires i <= |b| && Reached(b, i, seen)
    ensures var n := ChunkLength(From(b, i));
      if n == 0 then ChunksOf(b) == seen
      else
        var now := seen + [b[i..i + n]];
        if TypeOf(b[i..i + n]) == "IEND" then ChunksOf(b) == now else Reached(b, i + n, now)
  {
    hide ChunkLength, TypeOf;
    var s := From(b, i);
    var n := ChunkLength(s);
    if n == 0 {
      assert seen + [] == seen;
    } else {
      ChunkPrefix(s);
      assert s[..n] == b[i..i + n] && s[n..] == From(b, i + n);
      Associative(seen, [b[i..i + n]], Parse(s[n..]).chunks);
    }
  }

  /** The chunk at offset i, in terms of the bytes the loop looks at. */
  lemma ChunkAt(b: seq<byte>, i: nat)
    requires i + 8 <= |b|
    ensures var len := ((b[i] as int * 256 + b[i + 1] as int) * 256 + b[i + 2] as int) * 256 + b[i + 3] as int;
      ChunkLength(From(b, i)) == if len >= 0x8000_0000 || i + 12 + len > |b| then 0 else 12 + len
    ensures forall end :: i + 8 <= end <= |b| ==>
      TypeOf(b[i..end]) == [b[i + 4] as char, b[i + 5] as char, b[i + 6] as char, b[i + 7] as char]
  {}

  lemma KeepIsType(x: seq<byte>)
    ensures Keep(x) <==> TypeOf(x) !in DROPPED_TYPES
  {}

  lemma Starts(b: seq<byte>)
    ensures Reached(b, 8, []) && Filter(Keep, []) == []
  {
    assert [] + ChunksOf(b) == ChunksOf(b);
  }

  lemma Ends(b: seq<byte>, i: nat, seen: seq<seq<byte>>)
    requires Reached(b, i, seen) && i + 8 > |b|
    ensures ChunksOf(b) == seen
  {
    assert seen + [] == seen;
  }

  method StripPng(b: seq<byte>) returns (out: seq<byte>, same: bool)
    ensures out == Strip(b)
    ensures same <==> !Changes(b)
  {
    hide Filter, Keep, Parse, ChunkLength, TypeOf, Reached, ChunksOf, Flatten;
    var parts: seq<seq<byte>> := [UpTo(b, 8)];
    ghost var seen: seq<seq<byte>>, kept: seq<seq<byte>> := [], [];
    var dropped, ended := false, false;
    var i := 8;
    Starts(b);
    while i + 8 <= |b| && !ended
      invariant 8 <= i && (|b| >= 8 ==> i <= |b|)
      invariant if ended then ChunksOf(b) == seen else Reached(b, i, seen)
      invariant kept == Filter(Keep, seen) && parts == [UpTo(b, 8)] + kept
      invariant |kept| <= |seen| && (dropped <==> |kept| < |seen|)
      decreases |b| - i, !ended
    {
      Passes(b, i, seen);
      ChunkAt(b, i);
      var len := ((b[i] as int * 256 + b[i + 1] as int) * 256 + b[i + 2] as int) * 256 + b[i + 3] as int;
      var ty := [b[i + 4] as char, b[i + 5] as char, b[i + 6] as char, b[i + 7] as char];
      var end := i + 12 + len;
      if len >= 0x8000_0000 || end > |b| { ended := true; break; }
      var chunk := b[i..end];
      FilterPush(Keep, seen, chunk);
      KeepIsType(chunk);
      if ty in DROPPED_TYPES {
        dropped := true;
      } else {
        Associative([UpTo(b, 8)], kept, [chunk]);
        parts := parts + [chunk];
        kept := kept + [chunk];
      }
      seen := seen + [chunk];
      i := end;
      if ty == "IEND" { ended := true; }
    }
    if !ended { Ends(b, i, seen); }
    FilterAllOrFewer(Keep, seen);
    if !dropped { return b, true; }
    FlattenAppend([UpTo(b, 8)], kept);
    FlattenOne(UpTo(b, 8));
    var buffer := Concat(parts);
    out, same := buffer[..], false;
  }

  /** Reparse: the output's chunks are the input's kept chunks, byte for byte and in order,
      and nothing follows them; the signature is untouched. */
  lemma Reparse(b: seq<byte>)
    requires Changes(b)
    ensures ChunksOf(Strip(b)) == Filter(Keep, ChunksOf(b))
    ensures Parse(From(Strip(b), 8)).rest == []
    ensures UpTo(Strip(b), 8) == UpTo(b, 8)
  {
    hide Keep, ChunkLength, TypeOf;
    ParsedIsWellFormed(From(b, 8));
    FilterEndsAtIend(ChunksOf(b));
    ParsePrinted(Filter(Keep, ChunksOf(b)));
    assert |b| >= 8 by { if |b| < 8 { EmptyHasNoChunks(); } }
    assert From(Strip(b), 8) == Flatten(Filter(Keep, ChunksOf(b)));
  }

  lemma EmptyHasNoChunks()
    ensures Parse([]) == Parsed([], []) && Filter(Keep, []) == []
  {}

  /** For every input: the kept chunks survive exactly, no dropped type is left, and a
      second strip changes nothing. */
  lemma StripPreserves(b: seq<byte>)
    ensures ChunksOf(Strip(b)) == Filter(Keep, ChunksOf(b))
    ensures forall x <- ChunksOf(Strip(b)) :: TypeOf(x) !in DROPPED_TYPES
    ensures Strip(Strip(b)) == Strip(b)
    ensures !Changes(Strip(b))
  {
    hide Parse, ChunkLength, TypeOf, Flatten;
    if Changes(b) {
      Reparse(b);
    }
    FilterAll(Keep, Filter(Keep, ChunksOf(b)));
  }

  /** Bytes after IEND or after a malformed chunk survive exactly when nothing is dropped. */
  lemma TrailingBytes(b: seq<byte>)
    ensures Parse(From(Strip(b), 8)).rest == if Changes(b) then [] else Parse(From(b, 8)).rest
  {
    if Changes(b) { Reparse(b); }
  }

  // ----- The same in octets -----

  datatype Chunk = Chunk(kind: string, data: seq<byte>, crc: seq<byte>)

  predicate IsKind(s: string) {
    |s| == 4 && forall c <- s :: c as int < 0x100
  }

  predicate IsWhole(c: Chunk) {
    IsKind(c.kind) && |c.data| < 0x8000_0000 && |c.crc| == 4
  }

  /** Four octets of length, most significant first, the type, the data, and the checksum. */
  function ChunkOctets(c: Chunk): (s: seq<byte>)
    requires IsWhole(c)
    ensures |s| == 12 + |c.data|
  {
    var n := |c.data|;
    assert forall i :: 0 <= i < 4 ==> c.kind[i] in c.kind;
    [n / 0x100_0000, n / 0x1_0000 % 0x100, n / 0x100 % 0x100, n % 0x100]
    + [c.kind[0] as int, c.kind[1] as int, c.kind[2] as int, c.kind[3] as int]
    + c.data + c.crc
  }

  function AllOctets(chunks: seq<Chunk>): seq<seq<byte>>
    requires forall c <- chunks :: IsWhole(c)
  {
    if chunks == [] then [] else [ChunkOctets(chunks[0])] + AllOctets(chunks[1..])
  }

  /** No chunk starts here: too short for one, a length of 2^31 or more, or more than is left. */
  predicate IsStop(s: seq<byte>) {
    || |s| < 8 || s[0] >= 0x80
    || |s| < 12 + (0x100_0000 * s[0] as int + 0x1_0000 * s[1] as int + 0x100 * s[2] as int + s[3] as int)
  }

  /** Chunks up to IEND, or up to where no chunk starts. */
  predicate IsFile(chunks: seq<Chunk>, rest: seq<byte>) {
    && (forall c <- chunks :: IsWhole(c))
    && (forall k :: 0 <= k < |chunks| - 1 ==> chunks[k].kind != "IEND")
    && (chunks == [] || chunks[|chunks| - 1].kind != "IEND" ==> IsStop(rest))
  }

  /** The chunks that carry text, a timestamp or Exif go; all others stay. */
  function Kept(chunks: seq<Chunk>): (r: seq<Chunk>)
    ensures forall c <- r :: c in chunks
  {
    if chunks == [] then []
    else
      (if chunks[0].kind in {"tEXt", "zTXt", "iTXt", "eXIf", "tIME"} then [] else [chunks[0]]) + Kept(chunks[1..])
  }

  lemma ChunkOctetsRead(c: Chunk)
    requires IsWhole(c)
    ensures var x := ChunkOctets(c); IsChunk(x) && TypeOf(x) == c.kind
  {
    var x, n := ChunkOctets(c), |c.data|;
    assert forall i :: 0 <= i < 4 ==> c.kind[i] in c.kind;
    assert x[0] == n / 0x100_0000 && x[1] == n / 0x1_0000 % 0x100 && x[2] == n / 0x100 % 0x100 && x[3] == n % 0x100;
    assert x[4] == c.kind[0] as int && x[5] == c.kind[1] as int;
    assert x[6] == c.kind[2] as int && x[7] == c.kind[3] as int;
    FourDigits(n);
  }

  lemma FourDigits(n: nat)
    ensures ((n / 0x100_0000 * 256 + n / 0x1_0000 % 0x100) * 256 + n / 0x100 % 0x100) * 256 + n % 0x100 == n
  {
    var a := n / 0x100;
    var b := a / 0x100;
    assert b == n / 0x1_0000 && b / 0x100 == n / 0x100_0000;
  }

  lemma StopsThere(s: seq<byte>)
    ensures IsStop(s) <==> ChunkLength(s) == 0
  {}

  lemma {:induction false} ParsesFile(chunks: seq<Chunk>, rest: seq<byte>)
    requires IsFile(chunks, rest)
    ensures Parse(Flatten(AllOctets(chunks)) + rest) == Parsed(AllOctets(chunks), rest)
  {
    hide ChunkLength, TypeOf, IsChunk, ChunkOctets, IsStop;
    if chunks == [] {
      StopsThere(rest);
      assert Flatten([]) + rest == rest;
    } else {
      var x, more := ChunkOctets(chunks[0]), AllOctets(chunks[1..]);
      ChunkOctetsRead(chunks[0]);
      ChunkNotEmpty(x);
      var after := Flatten(more) + rest;
      Associative(x, Flatten(more), rest);
      ChunkExtends(x, after);
      if chunks[0].kind == "IEND" {
        assert chunks[1..] == [] && more == [];
        assert after == rest;
      } else {
        ParsesFile(chunks[1..], rest);
      }
    }
  }

  lemma KeepsOctets(c: Chunk)
    requires IsWhole(c)
    ensures Keep(ChunkOctets(c)) <==> c.kind !in {"tEXt", "zTXt", "iTXt", "eXIf", "tIME"}
  {
    hide TypeOf, ChunkOctets;
    ChunkOctetsRead(c);
  }

  lemma {:induction false} KeptOctets(chunks: seq<Chunk>)
    requires forall c <- chunks :: IsWhole(c)
    ensures Filter(Keep, AllOctets(chunks)) == AllOctets(Kept(chunks))
    ensures |Kept(chunks)| <= |chunks| == |AllOctets(chunks)| && |AllOctets(Kept(chunks))| == |Kept(chunks)|
  {
    hide ChunkOctets, Keep, IsWhole;
    if chunks != [] {
      KeepsOctets(chunks[0]);
      KeptOctets(chunks[1..]);
      var kept := Kept(chunks[1..]);
      if Kept(chunks) != kept { assert Kept(chunks)[1..] == kept; }
    }
  }

  /** A whole PNG, octet by octet. When no chunk is of the five types it is left alone; otherwise
      the signature and the other chunks come out as they were, and nothing behind them. */
  lemma StripsOctets(signature: seq<byte>, chunks: seq<Chunk>, rest: seq<byte>)
    requires |signature| == 8 && IsFile(chunks, rest)
    ensures var b := signature + (Flatten(AllOctets(chunks)) + rest);
      Strip(b) ==
        if forall c <- chunks :: c.kind !in {"tEXt", "zTXt", "iTXt", "eXIf", "tIME"} then b
        else signature + Flatten(AllOctets(Kept(chunks)))
  {
    hide Parse, Filter, Flatten, AllOctets, Keep;
    var b := signature + (Flatten(AllOctets(chunks)) + rest);
    assert From(b, 8) == Flatten(AllOctets(chunks)) + rest && UpTo(b, 8) == signature;
    ParsesFile(chunks, rest);
    KeptOctets(chunks);
    AllKept(chunks);
  }

  lemma {:induction false} AllKept(chunks: seq<Chunk>)
    requires forall c <- chunks :: IsWhole(c)
    ensures AllOctets(Kept(chunks)) == AllOctets(chunks)
       <==> forall c <- chunks :: c.kind !in {"tEXt", "zTXt", "iTXt", "eXIf", "tIME"}
  {
    hide ChunkOctets;
    if chunks != [] {
      AllKept(chunks[1..]);
      KeptOctets(chunks);
      KeptOctets(chunks[1..]);
      assert chunks == [chunks[0]] + chunks[1..];
      assert Kept(chunks) == (if chunks[0].kind in {"tEXt", "zTXt", "iTXt", "eXIf", "tIME"} then [] else [chunks[0]])
                             + Kept(chunks[1..]);
    }
  }

  /** None of the five is left by a strip, whatever the bytes. */
  lemma NoMetadataLeft(b: seq<byte>, x: seq<byte>)
    requires x in ChunksOf(Strip(b))
    ensures |x| >= 8 && x[4..8] !in {
      [0x74, 0x45, 0x58, 0x74], [0x7a, 0x54, 0x58, 0x74], [0x69, 0x54, 0x58, 0x74],
      [0x65, 0x58, 0x49, 0x66], [0x74, 0x49, 0x4d, 0x45]}
  {
    hide Parse, Filter;
    StripPreserves(b);
    ParsedIsWellFormed(From(Strip(b), 8));
    assert IsChunk(x);
    var t := x[4..8];
    assert t[0] == x[4] && t[1] == x[5] && t[2] == x[6] && t[3] == x[7];
  }
}
