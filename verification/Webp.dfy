/** `stripWebp` of web/static/exif.js: sections 2.3 to 2.7 of RFC 9649. */
module Webp {
  import opened Basics
  import opened Bytes
  import opened Parts

  /** Length of the chunk at the front of s: fourcc, little-endian size, data, pad to even.
      0 when there is none, or it is truncated. */
  function ChunkLength(s: seq<byte>): (n: nat)
    ensures n == 0 || 8 <= n <= |s|
  {
    if |s| < 8 then 0
    else
      var size := LittleEndian32(s, 4);
      if 8 + size + size % 2 > |s| then 0 else 8 + size + size % 2
  }

  function LittleEndian32(s: seq<byte>, o: nat): (v: nat)
    requires o + 4 <= |s|
    ensures v < 0x1_0000_0000
  {
    s[o] as int + 256 * (s[o + 1] as int + 256 * (s[o + 2] as int + 256 * s[o + 3] as int))
  }

  function FourCC(x: seq<byte>): string {
    if |x| < 8 then "" else [x[0] as char, x[1] as char, x[2] as char, x[3] as char]
  }

  predicate IsChunk(x: seq<byte>) {
    |x| > 0 && ChunkLength(x) == |x|
  }

  predicate Keep(x: seq<byte>) {
    FourCC(x) != "EXIF" && FourCC(x) != "XMP "
  }

  /** Clear the EXIF (0x08) and XMP (0x04) bits of a VP8X flags octet. */
  function ClearFlags(flags: byte): (r: byte)
    ensures r / 4 % 4 == 0
    ensures r % 4 == flags % 4 && r / 16 == flags / 16
  {
    flags - 4 * (flags / 4 % 4)
  }

  /** A kept chunk as it is written: only the flags octet of a VP8X chunk is touched. */
  function Written(x: seq<byte>): (r: seq<byte>)
    ensures |r| == |x|
  {
    if FourCC(x) == "VP8X" && |x| > 8 then x[8 := ClearFlags(x[8])] else x
  }

  function WrittenAll(chunks: seq<seq<byte>>): (r: seq<seq<byte>>)
    ensures |r| == |chunks| && forall k :: 0 <= k < |r| ==> r[k] == Written(chunks[k])
  {
    seq(|chunks|, k requires 0 <= k < |chunks| => Written(chunks[k]))
  }

  datatype Parsed = Parsed(chunks: seq<seq<byte>>, rest: seq<byte>)

  function Parse(s: seq<byte>): Parsed
    decreases |s|
  {
    var n := ChunkLength(s);
    if n == 0 then Parsed([], s)
    else var p := Parse(s[n..]); Parsed([s[..n]] + p.chunks, p.rest)
  }

  function ChunksOf(b: seq<byte>): seq<seq<byte>> {
    Parse(From(b, 12)).chunks
  }

  predicate Changes(b: seq<byte>) {
    Filter(Keep, ChunksOf(b)) != ChunksOf(b)
  }

  function LittleEndianOf(n: nat): (s: seq<byte>)
    ensures |s| == 4
  {
    [n % 256, n / 256 % 256, n / 0x1_0000 % 256, n / 0x100_0000 % 256]
  }

  function Body(b: seq<byte>): seq<byte> {
    Flatten(WrittenAll(Filter(Keep, ChunksOf(b))))
  }

  /** What `stripWebp` returns: header with the size corrected, then the kept chunks. */
  function Strip(b: seq<byte>): seq<byte> {
    if !Changes(b) then b
    else UpTo(b, 4) + LittleEndianOf(4 + |Body(b)|) + From(UpTo(b, 12), 8) + Body(b)
  }

  lemma {:induction false} ParsedIsWellFormed(s: seq<byte>)
    ensures forall x <- Parse(s).chunks :: IsChunk(x)
    ensures s == Flatten(Parse(s).chunks) + Parse(s).rest
    decreases |s|
  {
    var n := ChunkLength(s);
    if n > 0 {
      assert s == s[..n] + s[n..];
      ChunkPrefix(s);
      ParsedIsWellFormed(s[n..]);
      Associative(s[..n], Flatten(Parse(s[n..]).chunks), Parse(s[n..]).rest);
    }
  }

  lemma ChunkPrefix(s: seq<byte>)
    requires ChunkLength(s) > 0
    ensures var x := s[..ChunkLength(s)]; IsChunk(x) && FourCC(x) == FourCC(s)
  {}

  lemma ChunkExtends(x: seq<byte>, rest: seq<byte>)
    requires IsChunk(x)
    ensures ChunkLength(x + rest) == |x|
    ensures (x + rest)[..|x|] == x && (x + rest)[|x|..] == rest
  {
    var s := x + rest;
    assert forall k :: 0 <= k < 8 ==> s[k] == x[k];
  }

  lemma {:induction false} ParsePrinted(chunks: seq<seq<byte>>)
    requires forall x <- chunks :: IsChunk(x)
    ensures Parse(Flatten(chunks)) == Parsed(chunks, [])
  {
    if chunks != [] {
      var x, more := chunks[0], chunks[1..];
      assert x in chunks;
      ChunkExtends(x, Flatten(more));
      ParsePrinted(more);
      assert chunks == [x] + more;
    }
  }

  lemma WrittenIsChunk(x: seq<byte>)
    requires IsChunk(x)
    ensures IsChunk(Written(x)) && FourCC(Written(x)) == FourCC(x)
    ensures forall k :: 0 <= k < |x| && k != 8 ==> Written(x)[k] == x[k]
    ensures FourCC(x) != "VP8X" ==> Written(x) == x
    ensures Written(Written(x)) == Written(x)
  {
    if FourCC(x) == "VP8X" && |x| > 8 {
      var y := Written(x);
      assert forall k :: 0 <= k < |x| && k != 8 ==> y[k] == x[k];
      assert FourCC(y) == FourCC(x);
      assert y[8 := ClearFlags(y[8])] == y;
    }
  }

  ghost predicate Reached(b: seq<byte>, i: nat, seen: seq<seq<byte>>) {
    ChunksOf(b) == seen + Parse(From(b, i)).chunks
  }

  lemma Passes(b: seq<byte>, i: nat, seen: seq<seq<byte>>)
    requires i <= |b| && Reached(b, i, seen)
    ensures var n := ChunkLength(From(b, i));
      if n == 0 then ChunksOf(b) == seen else Reached(b, i + n, seen + [b[i..i + n]])
  {
    var s := From(b, i);
    var n := ChunkLength(s);
    if n == 0 {
      assert seen + [] == seen;
    } else {
      assert s[..n] == b[i..i + n] && s[n..] == From(b, i + n);
      Associative(seen, [b[i..i + n]], Parse(s[n..]).chunks);
    }
  }

  lemma ChunkAt(b: seq<byte>, i: nat)
    requires i + 8 <= |b|
    ensures var size := LittleEndian32(b, i + 4);
      ChunkLength(From(b, i)) == if i + 8 + size + size % 2 > |b| then 0 else 8 + size + size % 2
    ensures forall end :: i + 8 <= end <= |b| ==>
      FourCC(b[i..end]) == [b[i] as char, b[i + 1] as char, b[i + 2] as char, b[i + 3] as char]
  {}

  lemma KeepIsFourCC(x: seq<byte>)
    ensures Keep(x) <==> FourCC(x) != "EXIF" && FourCC(x) != "XMP "
  {}

  lemma Starts(b: seq<byte>)
    ensures Reached(b, 12, []) && Filter(Keep, []) == []
  {
    assert [] + ChunksOf(b) == ChunksOf(b);
  }

  lemma Ends(b: seq<byte>, i: nat, seen: seq<seq<byte>>)
    requires Reached(b, i, seen) && i + 8 > |b|
    ensures ChunksOf(b) == seen
  {
    assert seen + [] == seen;
  }

  /** The copy of a VP8X chunk with its flag bits cleared. */
  method CopyCleared(chunk: seq<byte>) returns (seg: seq<byte>)
    requires FourCC(chunk) == "VP8X"
    ensures seg == Written(chunk)
  {
    var copy := new byte[|chunk|](k requires 0 <= k < |chunk| => chunk[k]);
    assert copy[..] == chunk;
    if copy.Length > 8 { copy[8] := ClearFlags(copy[8]); }
    return copy[..];
  }

  method StripWebp(b: seq<byte>) returns (out: seq<byte>, same: bool)
    ensures out == Strip(b)
    ensures same <==> !Changes(b)
  {
    hide Filter, Keep, Parse, ChunkLength, FourCC, Reached, ChunksOf, Flatten, Written, WrittenAll;
    var parts: seq<seq<byte>> := [UpTo(b, 12)];
    ghost var seen: seq<seq<byte>>, kept: seq<seq<byte>> := [], [];
    var dropped, ended := false, false;
    var i := 12;
    Starts(b);
    while i + 8 <= |b| && !ended
      invariant 12 <= i && (|b| >= 12 ==> i <= |b|)
      invariant if ended then ChunksOf(b) == seen else Reached(b, i, seen)
      invariant kept == Filter(Keep, seen) && parts == [UpTo(b, 12)] + WrittenAll(kept)
      invariant |kept| <= |seen| && (dropped <==> |kept| < |seen|)
      invariant dropped ==> |b| >= 12
      decreases |b| - i, !ended
    {
      Passes(b, i, seen);
      ChunkAt(b, i);
      var fourcc := [b[i] as char, b[i + 1] as char, b[i + 2] as char, b[i + 3] as char];
      var size := LittleEndian32(b, i + 4);
      var end := i + 8 + size + size % 2;
      if end > |b| { ended := true; break; }
      var chunk := b[i..end];
      FilterPush(Keep, seen, chunk);
      KeepIsFourCC(chunk);
      WrittenPush(kept, chunk);
      Associative([UpTo(b, 12)], WrittenAll(kept), [Written(chunk)]);
      if fourcc == "EXIF" || fourcc == "XMP " {
        dropped := true;
      } else if fourcc == "VP8X" {
        var seg := CopyCleared(chunk);
        parts := parts + [seg];
        kept := kept + [chunk];
      } else {
        UntouchedUnlessVp8x(chunk);
        parts := parts + [chunk];
        kept := kept + [chunk];
      }
      seen := seen + [chunk];
      i := end;
    }
    if !ended { Ends(b, i, seen); }
    FilterAllOrFewer(Keep, seen);
    if !dropped { return b, true; }
    FlattenAppend([UpTo(b, 12)], WrittenAll(kept));
    FlattenOne(UpTo(b, 12));
    var buffer := Concat(parts);
    assert buffer[..] == b[..12] + Body(b);
    PutSize(buffer);
    assert buffer[..] == b[..4] + LittleEndianOf(buffer.Length - 8) + b[8..12] + Body(b);
    assert From(UpTo(b, 12), 8) == b[8..12];
    return buffer[..], false;
  }

  /** The RIFF size field, in place. */
  method PutSize(buffer: array<byte>)
    requires buffer.Length >= 12
    modifies buffer
    ensures buffer[..] == old(buffer[..4]) + LittleEndianOf(buffer.Length - 8) + old(buffer[8..])
  {
    var riffSize := buffer.Length - 8;
    buffer[4] := riffSize % 256;
    buffer[5] := riffSize / 256 % 256;
    buffer[6] := riffSize / 0x1_0000 % 256;
    buffer[7] := riffSize / 0x100_0000 % 256;
  }

  lemma WrittenPush(kept: seq<seq<byte>>, x: seq<byte>)
    ensures WrittenAll(kept + [x]) == WrittenAll(kept) + [Written(x)]
    ensures WrittenAll([]) == []
  {}

  lemma UntouchedUnlessVp8x(x: seq<byte>)
    requires FourCC(x) != "VP8X"
    ensures Written(x) == x
  {}

  lemma StripShape(b: seq<byte>)
    requires Changes(b) && |b| >= 12
    ensures var out := Strip(b);
      && |out| == 12 + |Body(b)|
      && out[..4] == b[..4] && out[8..12] == b[8..12]
      && out[4..8] == LittleEndianOf(4 + |Body(b)|)
      && From(out, 12) == Body(b)
  {
    hide Body, LittleEndianOf, Changes;
    assert From(UpTo(b, 12), 8) == b[8..12];
    var out := Strip(b);
    assert out == b[..4] + LittleEndianOf(4 + |Body(b)|) + b[8..12] + Body(b);
  }

  lemma WrittenChunks(kept: seq<seq<byte>>)
    requires forall x <- kept :: IsChunk(x)
    ensures forall y <- WrittenAll(kept) :: IsChunk(y)
  {
    hide Written, ChunkLength;
    forall y | y in WrittenAll(kept) ensures IsChunk(y) {
      var k :| 0 <= k < |kept| && WrittenAll(kept)[k] == y;
      assert kept[k] in kept;
      WrittenIsChunk(kept[k]);
    }
  }

  /** Reparse: the output's chunks are the input's kept chunks in order, each untouched but
      for the VP8X flags, and nothing follows; the RIFF size field is the length minus 8. */
  lemma Reparse(b: seq<byte>)
    requires Changes(b)
    ensures ChunksOf(Strip(b)) == WrittenAll(Filter(Keep, ChunksOf(b)))
    ensures Parse(From(Strip(b), 12)).rest == []
    ensures |Strip(b)| >= 12 && |b| >= 12
    ensures LittleEndian32(Strip(b), 4) == (|Strip(b)| - 8) % 0x1_0000_0000
    ensures Strip(b)[..4] == b[..4] && Strip(b)[8..12] == b[8..12]
  {
    hide Keep, ChunkLength, FourCC, Written, WrittenAll, LittleEndian32, LittleEndianOf, Strip, Flatten, Filter;
    ParsedIsWellFormed(From(b, 12));
    assert |b| >= 12 by { if |b| < 12 { EmptyHasNoChunks(); } }
    WrittenChunks(Filter(Keep, ChunksOf(b)));
    ParsePrinted(WrittenAll(Filter(Keep, ChunksOf(b))));
    StripShape(b);
    SizeField(Strip(b), 4 + |Body(b)|);
  }

  lemma SizeField(out: seq<byte>, n: nat)
    requires |out| >= 8 && out[4..8] == LittleEndianOf(n)
    ensures LittleEndian32(out, 4) == n % 0x1_0000_0000
  {
    var s := LittleEndianOf(n);
    assert forall k :: 0 <= k < 4 ==> out[4 + k] == out[4..8][k];
    var a := n / 256;
    var b := a / 256;
    assert n / 0x1_0000 == b && n / 0x100_0000 == b / 256;
  }

  lemma EmptyHasNoChunks()
    ensures Parse([]) == Parsed([], []) && Filter(Keep, []) == []
  {}

  /** The chunks after a strip, in either case: no EXIF or XMP chunk is left; once anything
      was dropped, no VP8X chunk still announces one; stripping again changes nothing. */
  lemma StripPreserves(b: seq<byte>)
    ensures forall x <- ChunksOf(Strip(b)) :: Keep(x)
    ensures Changes(b) ==> forall x <- ChunksOf(Strip(b)) :: FourCC(x) == "VP8X" && |x| > 8 ==> x[8] / 4 % 4 == 0
    ensures !Changes(Strip(b)) && Strip(Strip(b)) == Strip(b)
  {
    var kept := Filter(Keep, ChunksOf(b));
    if Changes(b) {
      Reparse(b);
      ParsedIsWellFormed(From(b, 12));
      var written := WrittenAll(kept);
      forall x | x in written
        ensures Keep(x) && (FourCC(x) == "VP8X" && |x| > 8 ==> x[8] / 4 % 4 == 0)
      {
        var k :| 0 <= k < |written| && written[k] == x;
        assert kept[k] in kept;
        WrittenIsChunk(kept[k]);
      }
      FilterAll(Keep, written);
    }
  }

  // ----- The same in octets -----

  datatype Chunk = Chunk(kind: string, data: seq<byte>, pad: byte)

  predicate IsKind(s: string) {
    |s| == 4 && forall c <- s :: c as int < 0x100
  }

  predicate IsWhole(c: Chunk) {
    IsKind(c.kind) && |c.data| < 0x1_0000_0000
  }

  /** A number of 32 bits, least significant octet first. */
  function Size(n: nat): (s: seq<byte>)
    ensures |s| == 4
  {
    [n % 0x100, n / 0x100 % 0x100, n / 0x1_0000 % 0x100, n / 0x100_0000 % 0x100]
  }

  /** The type, the size of the data, the data, and one octet more after an odd size. */
  function ChunkOctets(c: Chunk): (s: seq<byte>)
    requires IsWhole(c)
    ensures |s| == 8 + |c.data| + |c.data| % 2
  {
    assert forall i :: 0 <= i < 4 ==> c.kind[i] in c.kind;
    [c.kind[0] as int, c.kind[1] as int, c.kind[2] as int, c.kind[3] as int]
    + Size(|c.data|) + c.data + (if |c.data| % 2 == 1 then [c.pad] else [])
  }

  function AllOctets(chunks: seq<Chunk>): seq<seq<byte>>
    requires forall c <- chunks :: IsWhole(c)
  {
    if chunks == [] then [] else [ChunkOctets(chunks[0])] + AllOctets(chunks[1..])
  }

  /** No chunk starts here: too short for one, or for the size and its padding. */
  predicate IsStop(s: seq<byte>) {
    || |s| < 8
    || var n := s[4] as int + 0x100 * s[5] as int + 0x1_0000 * s[6] as int + 0x100_0000 * s[7] as int;
       |s| < 8 + n + n % 2
  }

  /** Exif and XMP chunks go; of the others only the flags of a VP8X chunk change. */
  function Kept(chunks: seq<Chunk>): (r: seq<Chunk>)
    requires forall c <- chunks :: IsWhole(c)
    ensures forall c <- r :: IsWhole(c)
  {
    if chunks == [] then []
    else
      assert IsWhole(chunks[0]) && IsWhole(Unflagged(chunks[0]));
      var more := Kept(chunks[1..]);
      if chunks[0].kind in {"EXIF", "XMP "} then more else [Unflagged(chunks[0])] + more
  }

  /** The first octet of a VP8X chunk loses bit 3, Exif, and bit 2, XMP. */
  function Unflagged(c: Chunk): (r: Chunk)
    ensures r.kind == c.kind && |r.data| == |c.data|
    ensures c.kind != "VP8X" ==> r == c
    ensures c.kind == "VP8X" && c.data != [] ==> r.data[1..] == c.data[1..]
    ensures c.kind == "VP8X" && c.data != [] ==>
      forall k :: 0 <= k < 8 ==> Bit(r.data[0], k) == if k == 2 || k == 3 then 0 else Bit(c.data[0], k)
  {
    if c.kind == "VP8X" && c.data != [] then
      BitsCleared(c.data[0]);
      Chunk(c.kind, c.data[0 := ClearFlags(c.data[0])], c.pad)
    else c
  }

  lemma BitsCleared(flags: byte)
    ensures forall k :: 0 <= k < 8 ==>
      Bit(ClearFlags(flags), k) == if k == 2 || k == 3 then 0 else Bit(flags, k)
  {
    hide Bit, ClearFlags;
    var r := ClearFlags(flags);
    LowPair(r);
    LowPair(flags);
    LowPair(r / 2 / 2);
    forall k | 0 <= k < 8 ensures Bit(r, k) == if k == 2 || k == 3 then 0 else Bit(flags, k) {
      if k >= 4 {
        FourUp(r, k - 4);
        FourUp(flags, k - 4);
        assert r / 2 / 2 / 2 / 2 == r / 16 && flags / 2 / 2 / 2 / 2 == flags / 16;
      } else if k >= 2 {
        Halve(r, k - 1);
        Halve(r / 2, k - 2);
        assert r / 2 / 2 == r / 4;
      }
    }
  }

  lemma EvenAnd(q: nat, r: nat)
    requires r < 2
    ensures (2 * q + r) % 2 == r && (2 * q + r) / 2 == q
  {}

  lemma LowPair(n: nat)
    ensures Bit(n, 0) == n % 4 % 2 && Bit(n, 1) == n % 4 / 2
  {
    LowPairOf(n / 4, n % 4);
  }

  lemma LowPairOf(q: nat, r: nat)
    requires r < 4
    ensures Bit(4 * q + r, 0) == r % 2 && Bit(4 * q + r, 1) == r / 2
  {
    hide Bit;
    var h, l := r / 2, r % 2;
    EvenAnd(2 * q + h, l);
    EvenAnd(q, h);
    assert 2 * (2 * q + h) + l == 4 * q + r;
    Halve(4 * q + r, 0);
    Halve(2 * q + h, 0);
  }

  lemma SizeRead(n: nat, s: seq<byte>, o: nat)
    requires o + 4 <= |s| && s[o..o + 4] == Size(n) && n < 0x1_0000_0000
    ensures LittleEndian32(s, o) == n
  {
    var f := s[o..o + 4];
    assert f[0] == s[o] && f[1] == s[o + 1] && f[2] == s[o + 2] && f[3] == s[o + 3];
    var a := n / 0x100;
    var b := a / 0x100;
    assert b == n / 0x1_0000 && b / 0x100 == n / 0x100_0000;
  }

  lemma ChunkOctetsRead(c: Chunk)
    requires IsWhole(c)
    ensures var x := ChunkOctets(c); IsChunk(x) && FourCC(x) == c.kind && |x| >= 8
    ensures c.data != [] ==> |ChunkOctets(c)| > 8 && ChunkOctets(c)[8] == c.data[0]
  {
    var x := ChunkOctets(c);
    assert forall i :: 0 <= i < 4 ==> c.kind[i] in c.kind;
    assert x[0] == c.kind[0] as int && x[1] == c.kind[1] as int;
    assert x[2] == c.kind[2] as int && x[3] == c.kind[3] as int;
    assert x[4..8] == Size(|c.data|);
    SizeRead(|c.data|, x, 4);
  }

  lemma StopsThere(s: seq<byte>)
    ensures IsStop(s) <==> ChunkLength(s) == 0
  {}

  lemma {:induction false} ParsesFile(chunks: seq<Chunk>, rest: seq<byte>)
    requires (forall c <- chunks :: IsWhole(c)) && IsStop(rest)
    ensures Parse(Flatten(AllOctets(chunks)) + rest) == Parsed(AllOctets(chunks), rest)
  {
    hide ChunkLength, FourCC, IsChunk, ChunkOctets, IsStop;
    if chunks == [] {
      StopsThere(rest);
      assert Flatten([]) + rest == rest;
    } else {
      var x, more := ChunkOctets(chunks[0]), AllOctets(chunks[1..]);
      ChunkOctetsRead(chunks[0]);
      Associative(x, Flatten(more), rest);
      ChunkExtends(x, Flatten(more) + rest);
      ParsesFile(chunks[1..], rest);
    }
  }

  lemma WrittenOctets(c: Chunk)
    requires IsWhole(c)
    ensures Keep(ChunkOctets(c)) <==> c.kind !in {"EXIF", "XMP "}
    ensures Written(ChunkOctets(c)) == ChunkOctets(Unflagged(c))
  {
    ChunkOctetsRead(c);
    hide FourCC;
    var x := ChunkOctets(c);
    if c.kind == "VP8X" && |x| > 8 {
      assert c.data != [];
      assert x[8 := ClearFlags(x[8])] == ChunkOctets(Unflagged(c));
    }
  }

  lemma {:induction false} KeptOctets(chunks: seq<Chunk>)
    requires forall c <- chunks :: IsWhole(c)
    ensures WrittenAll(Filter(Keep, AllOctets(chunks))) == AllOctets(Kept(chunks))
  {
    hide ChunkOctets, Keep, Written, IsWhole, Unflagged, WrittenAll;
    if chunks == [] {
      assert WrittenAll([]) == [];
    } else {
      var c, more := chunks[0], chunks[1..];
      WrittenOctets(c);
      KeptOctets(more);
      if Keep(ChunkOctets(c)) {
        WrittenFirst(ChunkOctets(c), Filter(Keep, AllOctets(more)));
        assert ([Unflagged(c)] + Kept(more))[1..] == Kept(more);
      } else {
        assert [] + Filter(Keep, AllOctets(more)) == Filter(Keep, AllOctets(more));
      }
    }
  }

  /** All the octets stay exactly when no chunk is of the two types. */
  lemma {:induction false} NothingDropped(chunks: seq<Chunk>)
    requires forall c <- chunks :: IsWhole(c)
    ensures Filter(Keep, AllOctets(chunks)) == AllOctets(chunks)
       <==> forall c <- chunks :: c.kind !in {"EXIF", "XMP "}
  {
    hide ChunkOctets, Keep, Written, IsWhole, Unflagged;
    if chunks != [] {
      var c, more := chunks[0], chunks[1..];
      WrittenOctets(c);
      NothingDropped(more);
      FilterAllOrFewer(Keep, AllOctets(more));
      assert chunks == [c] + more;
    }
  }

  lemma WrittenFirst(x: seq<byte>, more: seq<seq<byte>>)
    ensures WrittenAll([x] + more) == [Written(x)] + WrittenAll(more)
  {}

  /** A whole WebP file, octet by octet. Without Exif and XMP chunks it is left alone; otherwise
      the two tags of the header, between them the new size, and the other chunks come out, each
      as it was but for the two flags, and nothing behind them. */
  lemma StripsOctets(riff: seq<byte>, size: seq<byte>, webp: seq<byte>, chunks: seq<Chunk>, rest: seq<byte>)
    requires |riff| == |size| == |webp| == 4
    requires (forall c <- chunks :: IsWhole(c)) && IsStop(rest)
    ensures var b := riff + size + webp + (Flatten(AllOctets(chunks)) + rest);
      var body := Flatten(AllOctets(Kept(chunks)));
      Strip(b) ==
        if forall c <- chunks :: c.kind !in {"EXIF", "XMP "} then b
        else riff + Size(4 + |body|) + webp + body
  {
    hide Parse, Filter, Flatten, AllOctets, Keep, WrittenAll, Kept, IsStop;
    var b := riff + size + webp + (Flatten(AllOctets(chunks)) + rest);
    assert From(b, 12) == Flatten(AllOctets(chunks)) + rest && UpTo(b, 4) == riff;
    assert UpTo(b, 12) == riff + size + webp && From(UpTo(b, 12), 8) == webp;
    ParsesFile(chunks, rest);
    KeptOctets(chunks);
    NothingDropped(chunks);
  }
}
