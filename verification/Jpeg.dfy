/** `stripJpeg` of web/static/exif.js: drop metadata segments, keep everything else. */
module Jpeg {
  import opened Basics
  import opened Bytes
  import opened Parts
  import opened Orientation

  const EOI: byte := 0xd9
  const SOS: byte := 0xda
  const COM: byte := 0xfe
  const APP0: byte := 0xe0
  const APP1: byte := 0xe1
  const APP2: byte := 0xe2

  // ----- The container, read independently of what is kept -----

  /** What the walker meets at the front of the remaining bytes. */
  datatype Head = Stop | Skip(n: nat) | Segment(n: nat)

  predicate IsStandalone(marker: byte) {
    marker == 0x01 || 0xd0 <= marker <= 0xd7
  }

  function HeadOf(s: seq<byte>): (h: Head)
    ensures h.Skip? ==> 0 < h.n <= |s|
    ensures h.Segment? ==> 4 <= h.n <= |s|
  {
    if |s| < 2 || s[0] != 0xff then Stop
    else if s[1] == 0xff then Skip(1)
    else if s[1] == EOI || s[1] == SOS then Stop
    else if IsStandalone(s[1]) then Skip(2)
    else if |s| < 4 then Stop
    else
      var segLen := U16(s, 2, false);
      if segLen < 2 || 2 + segLen > |s| then Stop else Segment(2 + segLen)
  }

  datatype Walked = Walked(segments: seq<seq<byte>>, tail: seq<byte>)

  /** All the segments before the scan, and the bytes where walking stops. */
  function Walk(s: seq<byte>): Walked
    decreases |s|
  {
    match HeadOf(s)
    case Stop => Walked([], s)
    case Skip(n) => Walk(s[n..])
    case Segment(n) => var w := Walk(s[n..]); Walked([s[..n]] + w.segments, w.tail)
  }

  /** How many fill bytes and standalone markers the walker passes over. */
  function Skipped(s: seq<byte>): nat
    decreases |s|
  {
    match HeadOf(s)
    case Stop => 0
    case Skip(n) => n + Skipped(s[n..])
    case Segment(n) => Skipped(s[n..])
  }

  predicate IsSegment(x: seq<byte>) {
    HeadOf(x) == Segment(|x|)
  }

  lemma {:induction false} WalkedIsWellFormed(s: seq<byte>)
    ensures forall x <- Walk(s).segments :: IsSegment(x)
    ensures HeadOf(Walk(s).tail) == Stop
    ensures |s| == |Flatten(Walk(s).segments)| + |Walk(s).tail| + Skipped(s)
    ensures Skipped(s) == 0 ==> s == Flatten(Walk(s).segments) + Walk(s).tail
    decreases |s|
  {
    match HeadOf(s)
    case Stop =>
    case Skip(n) => WalkedIsWellFormed(s[n..]);
    case Segment(n) =>
      WalkedIsWellFormed(s[n..]);
      var w := Walk(s[n..]);
      assert s == s[..n] + s[n..];
      Associative(s[..n], Flatten(w.segments), w.tail);
  }

  lemma HeadExtends(x: seq<byte>, rest: seq<byte>)
    requires HeadOf(x).Segment?
    ensures HeadOf(x + rest) == HeadOf(x)
  {
    var s := x + rest;
    assert s[0] == x[0] && s[1] == x[1] && s[2] == x[2] && s[3] == x[3];
  }

  /** The parser undoes the printer: any segments followed by any stopping point. */
  lemma {:induction false} WalkPrinted(segments: seq<seq<byte>>, tail: seq<byte>)
    requires forall x <- segments :: IsSegment(x)
    requires HeadOf(tail) == Stop
    ensures Walk(Flatten(segments) + tail) == Walked(segments, tail)
    ensures Skipped(Flatten(segments) + tail) == 0
  {
    hide HeadOf;
    if segments == [] {
      assert Flatten(segments) + tail == tail;
    } else {
      var x, more := segments[0], segments[1..];
      WalkPrinted(more, tail);
      var rest := Flatten(more) + tail;
      Associative(x, Flatten(more), tail);
      assert (x + rest)[..|x|] == x && (x + rest)[|x|..] == rest;
      assert IsSegment(x) by { assert x in segments; }
      HeadExtends(x, rest);
    }
  }

  // ----- What is kept, and the orientation -----

  /** Everything but comments and application segments other than JFIF and ICC profiles. */
  predicate Keep(x: seq<byte>) {
    |x| >= 2 ==> !(x[1] == COM || (0xe0 <= x[1] <= 0xef && x[1] != APP0 && x[1] != APP2))
  }

  /** The last non-zero orientation among the Exif segments, or `sofar`. */
  function LastOrientation(segments: seq<seq<byte>>, sofar: nat): nat {
    if segments == [] then sofar
    else LastOrientation(segments[1..], OrientationAfter(segments[0], sofar))
  }

  function OrientationAfter(x: seq<byte>, sofar: nat): nat {
    if |x| >= 4 && x[1] == APP1 && ReadOrientation(x[4..]) != 0 then ReadOrientation(x[4..]) else sofar
  }

  lemma {:induction false} LastOrientationPush(a: seq<seq<byte>>, x: seq<byte>, sofar: nat)
    ensures LastOrientation(a + [x], sofar) == OrientationAfter(x, LastOrientation(a, sofar))
  {
    if a == [] {
      assert LastOrientation([x][1..], OrientationAfter(x, sofar)) == OrientationAfter(x, sofar);
    } else {
      assert (a + [x])[0] == a[0] && (a + [x])[1..] == a[1..] + [x];
      LastOrientationPush(a[1..], x, OrientationAfter(a[0], sofar));
    }
  }

  predicate WantsExif(orientation: nat) {
    orientation != 0 && orientation != 1
  }

  function ExifFor(orientation: nat): seq<seq<byte>> {
    if WantsExif(orientation) then [BuildSegment(orientation)] else []
  }

  /** The output segments: JFIF leads, then the synthetic Exif, then the rest. */
  function Assemble(kept: seq<seq<byte>>, orientation: nat): seq<seq<byte>> {
    if kept != [] && |kept[0]| >= 2 && kept[0][1] == APP0
    then [kept[0]] + ExifFor(orientation) + kept[1..]
    else ExifFor(orientation) + kept
  }

  function SegmentsOf(b: seq<byte>): seq<seq<byte>> {
    Walk(From(b, 2)).segments
  }

  function TailOf(b: seq<byte>): seq<byte> {
    Walk(From(b, 2)).tail
  }

  function OrientationOf(b: seq<byte>): nat {
    LastOrientation(SegmentsOf(b), 0)
  }

  predicate Changes(b: seq<byte>) {
    Filter(Keep, SegmentsOf(b)) != SegmentsOf(b)
  }

  /** What `stripJpeg` returns. */
  function Strip(b: seq<byte>): seq<byte> {
    if !Changes(b) then b
    else b[..2] + Flatten(Assemble(Filter(Keep, SegmentsOf(b)), OrientationOf(b))) + TailOf(b)
  }

  // ----- The stripper -----

  lemma NothingDroppedNoOrientation(segments: seq<seq<byte>>)
    requires Filter(Keep, segments) == segments
    ensures LastOrientation(segments, 0) == 0
  {
    KeptHasNoOrientation(segments, 0);
  }

  lemma {:induction false} KeptHasNoOrientation(segments: seq<seq<byte>>, sofar: nat)
    requires forall x <- segments :: Keep(x)
    ensures LastOrientation(segments, sofar) == sofar
  {
    if segments != [] {
      assert segments[0] in segments;
      KeptHasNoOrientation(segments[1..], sofar);
    }
  }

  /** Walking b from offset i, with the segments in `seen` already behind. */
  ghost predicate Reached(b: seq<byte>, i: nat, seen: seq<seq<byte>>) {
    var w := Walk(From(b, i));
    SegmentsOf(b) == seen + w.segments && TailOf(b) == w.tail
  }

  lemma Passes(b: seq<byte>, i: nat, seen: seq<seq<byte>>)
    requires i <= |b| && Reached(b, i, seen)
    ensures var h := HeadOf(From(b, i));
      match h
      case Stop => SegmentsOf(b) == seen && TailOf(b) == From(b, i)
      case Skip(n) => Reached(b, i + n, seen)
      case Segment(n) => Reached(b, i + n, seen + [b[i..i + n]])
  {
    hide HeadOf;
    var s := From(b, i);
    match HeadOf(s)
    case Stop => assert seen + [] == seen;
    case Skip(n) => assert s[n..] == From(b, i + n);
    case Segment(n) =>
      assert s[n..] == From(b, i + n) && s[..n] == b[i..i + n];
      Associative(seen, [b[i..i + n]], Walk(s[n..]).segments);
  }

  /** The first half of `stripJpeg`: one pass over the markers. */
  method WalkSegments(b: seq<byte>)
    returns (kept: seq<seq<byte>>, orientation: nat, dropped: bool, tail: seq<byte>)
    ensures kept == Filter(Keep, SegmentsOf(b)) && orientation == OrientationOf(b)
    ensures dropped <==> Changes(b)
    ensures tail == TailOf(b)
  {
    hide Walk, HeadOf, Keep, Filter, LastOrientation, ReadOrientation, Reached, SegmentsOf, TailOf, From;
    kept, orientation, dropped, tail := [], 0, false, [];
    ghost var seen: seq<seq<byte>> := [];
    var stopped := false;
    var i := 2;
    StartsReached(b);
    while i + 1 < |b|
      invariant 2 <= i && (|b| >= 2 ==> i <= |b|)
      invariant Reached(b, i, seen)
      invariant kept == Filter(Keep, seen) && orientation == LastOrientation(seen, 0)
      invariant |kept| <= |seen| && (dropped <==> |kept| < |seen|)
      decreases |b| - i
    {
      Passes(b, i, seen);
      HeadAt(b, i);
      if b[i] != 0xff { break; }
      var marker := b[i + 1];
      if marker == 0xff { i := i + 1; continue; }
      if marker == EOI { tail, stopped := From(b, i), true; break; }
      if marker == SOS { tail, stopped := From(b, i), true; break; }
      if marker == 0x01 || 0xd0 <= marker <= 0xd7 { i := i + 2; continue; }
      if i + 3 >= |b| { break; }
      var segLen := U16(b, i + 2, false);
      var segEnd := i + 2 + segLen;
      if segLen < 2 || segEnd > |b| { break; }
      var seg := b[i..segEnd];
      var isApp := 0xe0 <= marker <= 0xef;
      var keep := !(marker == COM || (isApp && marker != APP0 && marker != APP2));
      FilterPush(Keep, seen, seg);
      LastOrientationPush(seen, seg, 0);
      KeepAt(seg);
      if marker == APP1 {
        assert seg[4..] == b[i + 4..segEnd];
        var o := ReadExifOrientation(b[i + 4..segEnd]);
        if o != 0 { orientation := o; }
      }
      if keep { kept := kept + [seg]; } else { dropped := true; }
      seen := seen + [seg];
      i := segEnd;
    }
    if !stopped { tail := From(b, i); }
    StopsHere(b, i, seen);
    FilterAllOrFewer(Keep, seen);
  }

  lemma StartsReached(b: seq<byte>)
    ensures Reached(b, 2, []) && Filter(Keep, []) == [] && LastOrientation([], 0) == 0
  {
    assert [] + SegmentsOf(b) == SegmentsOf(b);
  }

  /** The head met at offset i, in terms of the bytes the loop looks at. */
  lemma HeadAt(b: seq<byte>, i: nat)
    requires i + 1 < |b|
    ensures HeadOf(From(b, i)) ==
      if b[i] != 0xff then Stop
      else if b[i + 1] == 0xff then Skip(1)
      else if b[i + 1] == EOI || b[i + 1] == SOS then Stop
      else if b[i + 1] == 0x01 || 0xd0 <= b[i + 1] <= 0xd7 then Skip(2)
      else if i + 3 >= |b| then Stop
      else
        var segLen := U16(b, i + 2, false);
        if segLen < 2 || i + 2 + segLen > |b| then Stop else Segment(2 + segLen)
  {}

  lemma KeepAt(x: seq<byte>)
    requires |x| >= 2
    ensures Keep(x) <==> !(x[1] == COM || (0xe0 <= x[1] <= 0xef && x[1] != APP0 && x[1] != APP2))
  {}

  lemma StopsHere(b: seq<byte>, i: nat, seen: seq<seq<byte>>)
    requires 2 <= i && Reached(b, i, seen)
    requires i + 1 >= |b| || HeadOf(From(b, i)) == Stop
    ensures SegmentsOf(b) == seen && TailOf(b) == From(b, i)
  {
    assert seen + [] == seen;
  }

  /** The second half of `stripJpeg`: JFIF first, then the synthetic Exif, then the rest. */
  method PrintSegments(soi: seq<byte>, kept: seq<seq<byte>>, orientation: nat, tail: seq<byte>)
    returns (out: array<byte>)
    requires forall x <- kept :: |x| >= 2
    ensures fresh(out) && out[..] == soi + Flatten(Assemble(kept, orientation)) + tail
  {
    hide Flatten, BuildSegment;
    var parts := [soi];
    var k := 0;
    if |kept| > 0 && kept[0][1] == APP0 {
      parts := parts + [kept[0]];
      k := 1;
    }
    if orientation != 0 && orientation != 1 { parts := parts + [BuildSegment(orientation)]; }
    ghost var lead, k0 := parts, k;
    while k < |kept|
      invariant k0 <= k <= |kept| && parts == lead + kept[k0..k]
    {
      Associative(lead, kept[k0..k], [kept[k]]);
      parts := parts + [kept[k]];
      k := k + 1;
    }
    assert kept[k0..k] == kept[k0..];
    assert [soi] + Assemble(kept, orientation) == lead + kept[k0..] by {
      if k0 == 1 {
        Associative([soi], [kept[0]] + ExifFor(orientation), kept[1..]);
        Associative([soi], [kept[0]], ExifFor(orientation));
      } else {
        Associative([soi], ExifFor(orientation), kept);
        assert kept[0..] == kept;
      }
    }
    assert parts == [soi] + Assemble(kept, orientation);
    FlattenPush(parts, tail);
    FlattenAppend([soi], Assemble(kept, orientation));
    FlattenPush([], soi);
    assert [] + [soi] == [soi];
    FlattenEmpty(soi);
    parts := parts + [tail];
    out := Concat(parts);
  }

  lemma FlattenEmpty(x: seq<byte>)
    ensures Flatten([]) + x == x
  {}

  /** `stripJpeg`. `same` stands for returning the very array that was passed in. */
  method StripJpeg(b: seq<byte>) returns (out: seq<byte>, same: bool)
    ensures out == Strip(b)
    ensures same <==> !Changes(b)
  {
    hide Filter, Keep, Walk, HeadOf, LastOrientation;
    var kept, orientation, dropped, tail := WalkSegments(b);
    var wantExif := orientation != 0 && orientation != 1;
    if !dropped {
      NothingDroppedNoOrientation(SegmentsOf(b));
    }
    if !dropped && !wantExif { return b, true; }
    SegmentsAreLong(b);
    var buffer := PrintSegments(b[..2], kept, orientation, tail);
    return buffer[..], false;
  }

  lemma SegmentsAreLong(b: seq<byte>)
    ensures forall x <- SegmentsOf(b) :: |x| >= 4
    ensures Changes(b) ==> |b| >= 2
  {
    WalkedIsWellFormed(From(b, 2));
    forall x | x in SegmentsOf(b) ensures |x| >= 4 {
      assert IsSegment(x);
    }
  }

  // ----- What the output is, read by the same walker -----

  /** The orientation a viewer uses: no tag and a zero tag both mean upright. */
  function Effective(orientation: nat): nat {
    if orientation == 0 then 1 else orientation
  }

  /** The synthetic segment is a well-formed Exif segment the stripper itself would drop. */
  lemma SyntheticSegment(o: nat)
    requires o < 0x1_0000
    ensures IsSegment(BuildSegment(o)) && !Keep(BuildSegment(o))
    ensures OrientationAfter(BuildSegment(o), 0) == o
  {
    var x := BuildSegment(o);
    assert x[0] == 0xff && x[1] == 0xe1 && x[2] == 0 && x[3] == 0x22;
    assert x[4..] == BuildPayload(o);
    BuildReadsBack(o);
  }

  lemma {:induction false} OrientationIsShort(segments: seq<seq<byte>>, sofar: nat)
    requires sofar < 0x1_0000
    ensures LastOrientation(segments, sofar) < 0x1_0000
  {
    if segments != [] {
      OrientationIsShort(segments[1..], OrientationAfter(segments[0], sofar));
    }
  }

  lemma {:induction false} LastOrientationAppend(a: seq<seq<byte>>, b: seq<seq<byte>>, sofar: nat)
    ensures LastOrientation(a + b, sofar) == LastOrientation(b, LastOrientation(a, sofar))
  {
    if a == [] {
      assert a + b == b;
    } else {
      assert (a + b)[0] == a[0] && (a + b)[1..] == a[1..] + b;
      LastOrientationAppend(a[1..], b, OrientationAfter(a[0], sofar));
    }
  }

  /** What stands before and behind the synthetic segment. */
  lemma AssembledParts(kept: seq<seq<byte>>, o: nat) returns (lead: seq<seq<byte>>, rest: seq<seq<byte>>)
    ensures kept == lead + rest && Assemble(kept, o) == lead + ExifFor(o) + rest
  {
    lead := if kept != [] && |kept[0]| >= 2 && kept[0][1] == APP0 then kept[..1] else [];
    rest := kept[|lead|..];
  }

  lemma ExifReads(o: nat)
    requires o < 0x1_0000
    ensures Filter(Keep, ExifFor(o)) == []
    ensures LastOrientation(ExifFor(o), 0) == if WantsExif(o) then o else 0
  {
    hide BuildSegment, Keep, OrientationAfter;
    if WantsExif(o) {
      SyntheticSegment(o);
      assert ExifFor(o)[1..] == [];
      assert LastOrientation([], OrientationAfter(BuildSegment(o), 0)) == o;
    }
  }

  /** Filtering and re-reading an assembled list: the kept segments and the orientation. */
  lemma AssembledReads(kept: seq<seq<byte>>, o: nat)
    requires o < 0x1_0000 && forall x <- kept :: Keep(x)
    ensures Filter(Keep, Assemble(kept, o)) == kept
    ensures LastOrientation(Assemble(kept, o), 0) == if WantsExif(o) then o else 0
    ensures Filter(Keep, Assemble(kept, o)) == Assemble(kept, o) <==> !WantsExif(o)
  {
    hide Keep, Assemble, LastOrientation, Filter;
    var lead, rest := AssembledParts(kept, o);
    var exif := ExifFor(o);
    ExifReads(o);
    FilterAppend(Keep, lead + exif, rest);
    FilterAppend(Keep, lead, exif);
    FilterAll(Keep, lead);
    FilterAll(Keep, rest);
    KeptHasNoOrientation(lead, 0);
    LastOrientationAppend(lead + exif, rest, 0);
    LastOrientationAppend(lead, exif, 0);
    KeptHasNoOrientation(rest, if WantsExif(o) then o else 0);
  }

  lemma AssembledIsWellFormed(kept: seq<seq<byte>>, o: nat)
    requires o < 0x1_0000 && forall x <- kept :: IsSegment(x)
    ensures forall x <- Assemble(kept, o) :: IsSegment(x)
  {
    SyntheticSegment(o);
  }

  lemma KeepsFirstBytes(b: seq<byte>)
    requires |b| >= 2
    ensures |Strip(b)| >= 2 && Strip(b)[0] == b[0] && Strip(b)[1] == b[1]
  {
    hide Walk, Filter, Flatten, Assemble;
  }

  /** Reparse: the walker run on the output meets the kept segments of the input, in order,
      with at most the one synthetic Exif segment among them, then the identical tail. */
  lemma Reparse(b: seq<byte>)
    requires Changes(b)
    ensures SegmentsOf(Strip(b)) == Assemble(Filter(Keep, SegmentsOf(b)), OrientationOf(b))
    ensures TailOf(Strip(b)) == TailOf(b)
    ensures Skipped(From(Strip(b), 2)) == 0
    ensures Strip(b)[..2] == b[..2]
  {
    hide Walk, Keep, BuildSegment;
    SegmentsAreLong(b);
    WalkedIsWellFormed(From(b, 2));
    var kept := Filter(Keep, SegmentsOf(b));
    OrientationIsShort(SegmentsOf(b), 0);
    AssembledIsWellFormed(kept, OrientationOf(b));
    var segments := Assemble(kept, OrientationOf(b));
    WalkPrinted(segments, TailOf(b));
    assert Strip(b) == b[..2] + (Flatten(segments) + TailOf(b)) by {
      Associative(b[..2], Flatten(segments), TailOf(b));
    }
    assert From(Strip(b), 2) == Flatten(segments) + TailOf(b);
  }

  /** For every input at all, malformed ones included: exactly the kept segments survive,
      the tail and the displayed orientation are the same, and a second strip does nothing. */
  lemma StripPreserves(b: seq<byte>)
    ensures Filter(Keep, SegmentsOf(Strip(b))) == Filter(Keep, SegmentsOf(b))
    ensures TailOf(Strip(b)) == TailOf(b)
    ensures Effective(OrientationOf(Strip(b))) == Effective(OrientationOf(b))
    ensures Strip(Strip(b)) == Strip(b)
  {
    hide Walk, Keep, BuildSegment, Assemble, Filter, Flatten;
    if Changes(b) {
      Reparse(b);
      OrientationIsShort(SegmentsOf(b), 0);
      AssembledReads(Filter(Keep, SegmentsOf(b)), OrientationOf(b));
    }
  }

  /** Nothing the stripper drops is left before the scan, except the synthetic segment. */
  lemma NoMetadataLeft(b: seq<byte>, x: seq<byte>)
    requires x in SegmentsOf(Strip(b))
    ensures Keep(x) || (WantsExif(OrientationOf(b)) && x == BuildSegment(OrientationOf(b)))
  {
    hide Walk, Keep, BuildSegment;
    if Changes(b) {
      Reparse(b);
    } else {
      assert x in Filter(Keep, SegmentsOf(b));
    }
  }

  /** When no segment is dropped the bytes come back untouched; when one is, the output is
      the input without the dropped segments and the skipped bytes, plus the new segment. */
  lemma StripAccounting(b: seq<byte>)
    ensures Changes(b) ==>
      |Strip(b)| == |b| - Skipped(From(b, 2)) - (|Flatten(SegmentsOf(b))| - |Flatten(Filter(Keep, SegmentsOf(b)))|)
                    + (if WantsExif(OrientationOf(b)) then 36 else 0)
  {
    if Changes(b) {
      hide Walk, Keep, BuildSegment, Filter;
      SegmentsAreLong(b);
      WalkedIsWellFormed(From(b, 2));
      AssembleLength(Filter(Keep, SegmentsOf(b)), OrientationOf(b));
    }
  }

  lemma AssembleLength(kept: seq<seq<byte>>, o: nat)
    ensures |Flatten(Assemble(kept, o))| == |Flatten(kept)| + (if WantsExif(o) then 36 else 0)
  {
    hide BuildSegment, ExifFor, Flatten, WantsExif;
    var lead := if kept != [] && |kept[0]| >= 2 && kept[0][1] == APP0 then kept[..1] else [];
    var rest := kept[|lead|..];
    assert kept == lead + rest;
    assert Assemble(kept, o) == lead + ExifFor(o) + rest;
    FlattenAppend(lead, rest);
    FlattenAppend(lead + ExifFor(o), rest);
    FlattenAppend(lead, ExifFor(o));
    ExifLength(o);
  }

  lemma ExifLength(o: nat)
    ensures |Flatten(ExifFor(o))| == if WantsExif(o) then 36 else 0
  {
    hide BuildSegment;
    FlattenOne(BuildSegment(o));
  }

  // ----- The same in octets -----

  /** Markers that stand alone: fill, temporary, restart, and the ends of the header part. */
  predicate IsBare(marker: byte) {
    marker == 0xff || marker == 0xd9 || marker == 0xda || marker == 0x01 || 0xd0 <= marker <= 0xd7
  }

  /** A marker with its length field and that much data, the field included. */
  predicate IsSegmentOctets(x: seq<byte>) {
    |x| >= 4 && x[0] == 0xff && !IsBare(x[1]) && |x| == 2 + (0x100 * x[2] as int + x[3] as int)
  }

  /** Where walking stops: at the end, at anything but a marker, at end of image or start of
      scan, or at a segment that is shorter than its length field or longer than what is left. */
  predicate IsStop(s: seq<byte>) {
    || |s| < 2 || s[0] != 0xff || s[1] == 0xd9 || s[1] == 0xda
    || (!IsBare(s[1]) && (|s| < 4 || 0x100 * s[2] as int + s[3] as int < 2
                          || |s| < 2 + (0x100 * s[2] as int + s[3] as int)))
  }

  /** One step of a header: a fill octet, a standalone marker, or a segment. */
  datatype Piece = Fill | Alone(marker: byte) | Whole(segment: seq<byte>)

  predicate IsPiece(x: Piece) {
    match x
    case Fill => true
    case Alone(m) => m == 0x01 || 0xd0 <= m <= 0xd7
    case Whole(segment) => IsSegmentOctets(segment)
  }

  function PieceOctets(x: Piece): seq<byte> {
    match x case Fill => [0xff] case Alone(m) => [0xff, m] case Whole(segment) => segment
  }

  function Octets(pieces: seq<Piece>, tail: seq<byte>): seq<byte> {
    if pieces == [] then tail else PieceOctets(pieces[0]) + Octets(pieces[1..], tail)
  }

  /** The segments among the pieces. */
  function Wholes(pieces: seq<Piece>): seq<seq<byte>> {
    if pieces == [] then []
    else (if pieces[0].Whole? then [pieces[0].segment] else []) + Wholes(pieces[1..])
  }

  /** The header is made of pieces, a fill octet always with another 0xff behind it, and what
      follows is a stop. */
  predicate IsHeader(pieces: seq<Piece>, tail: seq<byte>) {
    && IsStop(tail)
    && (forall x <- pieces :: IsPiece(x))
    && (pieces != [] && pieces[|pieces| - 1] == Fill ==> tail != [] && tail[0] == 0xff)
  }

  lemma StopsThere(s: seq<byte>)
    ensures IsStop(s) <==> HeadOf(s) == Stop
  {}

  lemma SegmentIs(x: seq<byte>)
    ensures IsSegmentOctets(x) <==> IsSegment(x)
  {}

  lemma PieceAhead(x: Piece, rest: seq<byte>)
    requires IsPiece(x) && (x.Fill? ==> rest != [] && rest[0] == 0xff)
    ensures HeadOf(PieceOctets(x) + rest) ==
      match x case Fill => Skip(1) case Alone(_) => Skip(2) case Whole(segment) => Segment(|segment|)
  {
    if x.Whole? {
      SegmentIs(x.segment);
      HeadExtends(x.segment, rest);
    }
  }

  /** The walker meets exactly the segments of a header, and stops where it ends. */
  lemma {:induction false} WalksHeader(pieces: seq<Piece>, tail: seq<byte>)
    requires IsHeader(pieces, tail)
    ensures Walk(Octets(pieces, tail)) == Walked(Wholes(pieces), tail)
    ensures pieces != [] ==> Octets(pieces, tail) != [] && Octets(pieces, tail)[0] == 0xff
  {
    hide HeadOf, IsStop;
    if pieces == [] {
      StopsThere(tail);
    } else {
      var x, rest := pieces[0], Octets(pieces[1..], tail);
      assert x in pieces;
      WalksHeader(pieces[1..], tail);
      PieceAhead(x, rest);
      var n := |PieceOctets(x)|;
      assert (PieceOctets(x) + rest)[..n] == PieceOctets(x) && (PieceOctets(x) + rest)[n..] == rest;
    }
  }

  /** What stays: no comment, and of the application segments only JFIF and ICC profiles. */
  predicate Stays(x: seq<byte>) {
    |x| >= 2 ==> x[1] != 0xfe && (0xe0 <= x[1] <= 0xef ==> x[1] == 0xe0 || x[1] == 0xe2)
  }

  /** What such a payload at the end of x reads as; the last one that is not 0 counts. */
  function Wanted(segments: seq<seq<byte>>): nat {
    if segments == [] then 0
    else
      var x := segments[|segments| - 1];
      if |x| >= 4 && x[1] == 0xe1 && ReadOrientation(x[4..]) != 0 then ReadOrientation(x[4..])
      else Wanted(segments[..|segments| - 1])
  }

  lemma {:induction false} WantedIsLast(segments: seq<seq<byte>>)
    ensures LastOrientation(segments, 0) == Wanted(segments)
  {
    if segments != [] {
      var init := segments[..|segments| - 1];
      WantedIsLast(init);
      LastOrientationPush(init, segments[|segments| - 1], 0);
      assert init + [segments[|segments| - 1]] == segments;
    }
  }

  lemma {:induction false} StaysIsKept(segments: seq<seq<byte>>)
    ensures Filter(Stays, segments) == Filter(Keep, segments)
  {
    if segments != [] { StaysIsKept(segments[1..]); }
  }

  /** JFIF leads, then the orientation, unless there is none or it is 1, then the rest. */
  function Placed(kept: seq<seq<byte>>, o: nat): seq<seq<byte>> {
    var lead := if kept != [] && |kept[0]| > 1 && kept[0][1] == 0xe0 then 1 else 0;
    kept[..lead] + (if o > 1 then [BuildSegment(o)] else []) + kept[lead..]
  }

  lemma PlacedIs(kept: seq<seq<byte>>, o: nat)
    ensures Placed(kept, o) == Assemble(kept, o)
  {
    hide BuildSegment;
  }

  /** A whole JPEG, octet by octet. When everything stays it is left alone; otherwise the header
      comes out without fill and standalone markers, as placed, and the tail untouched. */
  lemma StripsOctets(soi: seq<byte>, pieces: seq<Piece>, tail: seq<byte>)
    requires |soi| == 2 && IsHeader(pieces, tail)
    ensures var b, segments := soi + Octets(pieces, tail), Wholes(pieces);
      var kept := Filter(Stays, segments);
      Strip(b) == if kept == segments then b else soi + Flatten(Placed(kept, Wanted(segments))) + tail
  {
    hide Walk, Filter, Assemble, Placed, Flatten;
    var b, segments := soi + Octets(pieces, tail), Wholes(pieces);
    assert From(b, 2) == Octets(pieces, tail) && b[..2] == soi;
    WalksHeader(pieces, tail);
    WantedIsLast(segments);
    StaysIsKept(segments);
    PlacedIs(Filter(Keep, segments), Wanted(segments));
  }

  lemma {:induction false} WantedAt(segments: seq<seq<byte>>, i: nat)
    requires i < |segments| && |segments[i]| >= 4 && segments[i][1] == 0xe1 && ReadOrientation(segments[i][4..]) != 0
    requires forall k :: i < k < |segments| && |segments[k]| > 1 ==> segments[k][1] != 0xe1
    ensures Wanted(segments) == ReadOrientation(segments[i][4..])
  {
    hide ReadOrientation;
    if i < |segments| - 1 {
      WantedAt(segments[..|segments| - 1], i);
    }
  }

  /** A photo keeps its orientation: of the last Exif segment of a JPEG, in either byte order and
      wherever its directory and the entry stand, the stripped file has the minimal segment. */
  lemma OrientationSurvives(soi: seq<byte>, pieces: seq<Piece>, tail: seq<byte>, i: nat,
                            le: bool, d: nat, n: nat, e: nat, o: nat)
    requires |soi| == 2 && IsHeader(pieces, tail)
    requires i < |Wholes(pieces)| && |Wholes(pieces)[i]| >= 4 && Wholes(pieces)[i][1] == 0xe1
    requires forall k :: i < k < |Wholes(pieces)| && |Wholes(pieces)[k]| > 1 ==> Wholes(pieces)[k][1] != 0xe1
    requires var p := Wholes(pieces)[i][4..];
      && ExifHeader(p, le, d) && Field2(p, 6 + d, n, le)
      && e < n && TagAt(p, d, e, le) && Field2(p, EntryAt(d, e) + 8, o, le)
      && forall k: nat :: k < e ==> !TagAt(p, d, k, le)
    requires 1 < o < 0x1_0000
    ensures var out := Strip(soi + Octets(pieces, tail));
      exists y :: y in SegmentsOf(out) && |y| == 36 && y[1] == 0xe1 && Field2(y, 28, o, true)
                  && ReadOrientation(y[4..]) == o
  {
    hide Walk, Filter, ReadOrientation, BuildSegment, Flatten, ExifHeader, Field2, TagAt;
    var b, segments := soi + Octets(pieces, tail), Wholes(pieces);
    assert From(b, 2) == Octets(pieces, tail);
    WalksHeader(pieces, tail);
    ReadsFirst(segments[i][4..], le, d, n, e, o);
    WantedAt(segments, i);
    WantedIsLast(segments);
    SomethingGoes(segments, i);
    Reparse(b);
    var y := BuildSegment(o);
    assert y in SegmentsOf(Strip(b));
    BuildIsMinimal(o);
    BuildReadsBack(o);
    ValueStands(y, o);
  }

  lemma SomethingGoes(segments: seq<seq<byte>>, i: nat)
    requires i < |segments| && |segments[i]| >= 4 && segments[i][1] == 0xe1
    ensures Filter(Keep, segments) != segments
  {
    assert segments[i] in segments && !Keep(segments[i]);
  }

  lemma ValueStands(y: seq<byte>, o: nat)
    requires y == BuildSegment(o) && o < 0x1_0000
    ensures y[1] == 0xe1 && Field2(y, 28, o, true) && y[4..] == BuildPayload(o)
  {
    hide BuildPayload;
    PayloadBytes(o);
    assert y[28] == BuildPayload(o)[24] && y[29] == BuildPayload(o)[25];
    assert o / 256 % 256 == o / 256;
  }

  /** No comment is left once anything was dropped, and no application segment but JFIF, ICC
      profiles and the minimal one. */
  lemma DroppedForGood(b: seq<byte>, x: seq<byte>)
    requires x in SegmentsOf(Strip(b)) && |x| > 1
    ensures x[1] != 0xfe && (0xe0 <= x[1] <= 0xef ==> x[1] == 0xe0 || x[1] == 0xe2 || x[1] == 0xe1)
    ensures x[1] == 0xe1 ==> exists o :: 1 < o < 0x1_0000 && x == BuildSegment(o)
  {
    hide Walk, BuildSegment, Filter, Assemble;
    NoMetadataLeft(b, x);
    OrientationIsShort(SegmentsOf(b), 0);
    if !Keep(x) { SyntheticMarker(OrientationOf(b)); }
  }

  lemma SyntheticMarker(o: nat)
    ensures BuildSegment(o)[1] == 0xe1
  {}
}
