/** The Exif Orientation tag: `readExifOrientation` and `buildExifOrientation` of web/static/exif.js. */
module Orientation {
  import opened Bytes

  const ORIENTATION_TAG := 0x0112
  const EXIF_HEADER: seq<byte> := [0x45, 0x78, 0x69, 0x66, 0, 0]

  function U16(p: seq<byte>, o: nat, littleEndian: bool): (v: nat)
    requires o + 2 <= |p|
    ensures v < 0x1_0000
  {
    if littleEndian then p[o] as int + 256 * p[o + 1] as int else 256 * p[o] as int + p[o + 1] as int
  }

  function U32(p: seq<byte>, o: nat, littleEndian: bool): nat
    requires o + 4 <= |p|
  {
    if littleEndian then U16(p, o, true) + U16(p, o + 2, true) * 0x1_0000
    else U16(p, o, false) * 0x1_0000 + U16(p, o + 2, false)
  }

  /** The byte order a TIFF header declares, if the payload is Exif at all. */
  predicate IsExif(p: seq<byte>) {
    && |p| >= 14
    && p[..6] == EXIF_HEADER
    && (p[6..8] == [0x49, 0x49] || p[6..8] == [0x4d, 0x4d])
    && U16(p, 8, p[6] == 0x49) == 42
  }

  /** Entry e of the first directory holds the tag, and no earlier one does. */
  ghost predicate FirstTagAt(p: seq<byte>, ifd0: nat, le: bool, e: nat) {
    && ifd0 + 2 + e * 12 + 12 <= |p|
    && U16(p, ifd0 + 2 + e * 12, le) == ORIENTATION_TAG
    && forall k: nat :: k < e ==> U16(p, ifd0 + 2 + k * 12, le) != ORIENTATION_TAG
  }

  /** The value of the first Orientation entry among entries e..n that fit, or 0. */
  function FindTag(p: seq<byte>, ifd0: nat, le: bool, e: nat, n: nat): (v: nat)
    ensures v < 0x1_0000
    decreases n - e
  {
    if e >= n || ifd0 + 2 + e * 12 + 12 > |p| then 0
    else if U16(p, ifd0 + 2 + e * 12, le) == ORIENTATION_TAG then U16(p, ifd0 + 2 + e * 12 + 8, le)
    else FindTag(p, ifd0, le, e + 1, n)
  }

  /** `readExifOrientation`, as a function of the APP1 payload. */
  function ReadOrientation(p: seq<byte>): (v: nat)
    ensures v < 0x1_0000
  {
    if !IsExif(p) then 0
    else
      var le := p[6] == 0x49;
      var ifd0 := 6 + U32(p, 10, le);
      if ifd0 + 2 > |p| then 0 else FindTag(p, ifd0, le, 0, U16(p, ifd0, le))
  }

  method ReadExifOrientation(p: seq<byte>) returns (v: nat)
    ensures v == ReadOrientation(p)
  {
    if |p| < 14 { return 0; }
    if p[..6] != EXIF_HEADER { return 0; }
    var le;
    if p[6] == 0x49 && p[7] == 0x49 { le := true; }
    else if p[6] == 0x4d && p[7] == 0x4d { le := false; }
    else { assert p[6..8] != [0x49, 0x49] by { assert p[6..8][0] == p[6] && p[6..8][1] == p[7]; }
           assert p[6..8] != [0x4d, 0x4d] by { assert p[6..8][0] == p[6] && p[6..8][1] == p[7]; }
           return 0; }
    if U16(p, 8, le) != 42 { return 0; }
    var ifd0 := 6 + U32(p, 10, le);
    if ifd0 + 2 > |p| { return 0; }
    var n := U16(p, ifd0, le);
    var e := 0;
    while e < n
      invariant 0 <= e <= n
      invariant ReadOrientation(p) == FindTag(p, ifd0, le, e, n)
    {
      var entry := ifd0 + 2 + e * 12;
      if entry + 12 > |p| { break; }
      if U16(p, entry, le) == ORIENTATION_TAG { return U16(p, entry + 8, le); }
      e := e + 1;
    }
    return 0;
  }

  /** FindTag reads the first Orientation entry, wherever it sits in the directory. */
  lemma {:induction false} FindTagIsFirst(p: seq<byte>, ifd0: nat, le: bool, from: nat, e: nat, n: nat)
    requires from <= e < n && FirstTagAt(p, ifd0, le, e)
    ensures FindTag(p, ifd0, le, from, n) == U16(p, ifd0 + 2 + e * 12 + 8, le)
    decreases e - from
  {
    if from < e {
      FindTagIsFirst(p, ifd0, le, from + 1, e, n);
    }
  }

  /** `buildExifOrientation`: an APP1 segment holding only the Orientation tag. */
  function BuildSegment(o: nat): (s: seq<byte>)
    ensures |s| == 36
  {
    [0xff, 0xe1, 0x00, 0x22] + BuildPayload(o)
  }

  function BuildPayload(o: nat): (s: seq<byte>)
    ensures |s| == 32
  {
    [0x45, 0x78, 0x69, 0x66, 0x00, 0x00]
    + [0x49, 0x49, 0x2a, 0x00, 0x08, 0x00, 0x00, 0x00]
    + [0x01, 0x00]
    + [0x12, 0x01, 0x03, 0x00, 0x01, 0x00, 0x00, 0x00]
    + [o % 256, o / 256 % 256, 0x00, 0x00]
    + [0x00, 0x00, 0x00, 0x00]
  }

  lemma PayloadBytes(o: nat)
    ensures var p := BuildPayload(o);
      && p[..6] == EXIF_HEADER && p[6..8] == [0x49, 0x49]
      && p[8] == 0x2a && p[9] == 0
      && p[10] == 8 && p[11] == 0 && p[12] == 0 && p[13] == 0
      && p[14] == 1 && p[15] == 0
      && p[16] == 0x12 && p[17] == 0x01
      && p[24] == o % 256 && p[25] == o / 256 % 256
  {
    var p := BuildPayload(o);
    assert p[6..8] == [p[6], p[7]];
  }

  /** What is re-emitted reads back as the orientation that was read. */
  lemma BuildReadsBack(o: nat)
    requires o < 0x1_0000
    ensures ReadOrientation(BuildPayload(o)) == o
  {
    hide BuildPayload;
    var p := BuildPayload(o);
    PayloadBytes(o);
    assert p[6] == p[6..8][0];
    assert FirstTagAt(p, 14, true, 0);
    FindTagIsFirst(p, 14, true, 0, 0, 1);
  }

  // ----- The same in octets, in both byte orders -----

  /** A field of two octets, least or most significant first. */
  predicate Field2(p: seq<byte>, at: nat, v: nat, le: bool) {
    && at + 2 <= |p|
    && p[at] as int == (if le then v % 0x100 else v / 0x100)
    && p[at + 1] as int == (if le then v / 0x100 else v % 0x100)
  }

  predicate Field4(p: seq<byte>, at: nat, v: nat, le: bool) {
    Field2(p, at, if le then v % 0x1_0000 else v / 0x1_0000, le)
    && Field2(p, at + 2, if le then v / 0x1_0000 else v % 0x1_0000, le)
  }

  /** "Exif", two zeros, the byte order II or MM, 42, and the offset d of the first directory,
      counted from the byte order on. */
  predicate ExifHeader(p: seq<byte>, le: bool, d: nat) {
    && |p| >= 14
    && p[0] == 0x45 && p[1] == 0x78 && p[2] == 0x69 && p[3] == 0x66 && p[4] == 0 && p[5] == 0
    && p[6] == p[7] == (if le then 0x49 else 0x4d)
    && Field2(p, 8, 42, le)
    && Field4(p, 10, d, le)
  }

  /** Where entry e of that directory starts: behind the count, twelve octets each. */
  function EntryAt(d: nat, e: nat): nat {
    6 + d + 2 + 12 * e
  }

  /** Entry e lies within p and has the Orientation tag. */
  predicate TagAt(p: seq<byte>, d: nat, e: nat, le: bool) {
    EntryAt(d, e) + 12 <= |p| && Field2(p, EntryAt(d, e), 0x0112, le)
  }

  lemma FieldRead(p: seq<byte>, at: nat, v: nat, le: bool)
    requires at + 2 <= |p|
    ensures Field2(p, at, v, le) <==> U16(p, at, le) == v
  {}

  lemma HeaderRead(p: seq<byte>, le: bool, d: nat)
    requires ExifHeader(p, le, d)
    ensures IsExif(p) && (p[6] == 0x49) == le && U32(p, 10, le) == d
  {
    FieldRead(p, 8, 42, le);
    FieldRead(p, 10, if le then d % 0x1_0000 else d / 0x1_0000, le);
    FieldRead(p, 12, if le then d / 0x1_0000 else d % 0x1_0000, le);
    assert p[..6] == [p[0], p[1], p[2], p[3], p[4], p[5]] && p[6..8] == [p[6], p[7]];
  }

  /** Any Exif payload, in either byte order, whatever its directory's offset and whatever
      else it holds: the value of the first entry with the tag is read. */
  lemma ReadsFirst(p: seq<byte>, le: bool, d: nat, n: nat, e: nat, o: nat)
    requires ExifHeader(p, le, d) && Field2(p, 6 + d, n, le)
    requires e < n && TagAt(p, d, e, le) && Field2(p, EntryAt(d, e) + 8, o, le)
    requires forall k: nat :: k < e ==> !TagAt(p, d, k, le)
    ensures ReadOrientation(p) == o
  {
    hide IsExif, U16, U32, ExifHeader, Field2;
    HeaderRead(p, le, d);
    FieldRead(p, 6 + d, n, le);
    FieldRead(p, EntryAt(d, e), 0x0112, le);
    FieldRead(p, EntryAt(d, e) + 8, o, le);
    assert FirstTagAt(p, 6 + d, le, e) by {
      forall k: nat | k < e ensures U16(p, 6 + d + 2 + k * 12, le) != ORIENTATION_TAG {
        assert !TagAt(p, d, k, le);
        FieldRead(p, EntryAt(d, k), 0x0112, le);
      }
    }
    FindTagIsFirst(p, 6 + d, le, 0, e, n);
  }

  /** No entry with the tag among those that fit, or a directory beyond the end: 0 is read. */
  lemma ReadsNone(p: seq<byte>, le: bool, d: nat, n: nat)
    requires ExifHeader(p, le, d)
    requires 6 + d + 2 > |p| || (Field2(p, 6 + d, n, le) && forall e: nat :: e < n ==> !TagAt(p, d, e, le))
    ensures ReadOrientation(p) == 0
  {
    hide IsExif, U16, U32, ExifHeader, Field2;
    HeaderRead(p, le, d);
    if 6 + d + 2 <= |p| {
      FieldRead(p, 6 + d, n, le);
      NothingFound(p, d, le, 0, n);
    }
  }

  lemma {:induction false} NothingFound(p: seq<byte>, d: nat, le: bool, e: nat, n: nat)
    requires forall k: nat :: e <= k < n ==> !TagAt(p, d, k, le)
    ensures FindTag(p, 6 + d, le, e, n) == 0
    decreases n - e
  {
    if e < n && EntryAt(d, e) + 12 <= |p| {
      assert !TagAt(p, d, e, le);
      FieldRead(p, EntryAt(d, e), 0x0112, le);
      NothingFound(p, d, le, e + 1, n);
    }
  }

  /** Anything without such a header reads as 0. */
  lemma ReadsOther(p: seq<byte>)
    requires forall le, d: nat :: !ExifHeader(p, le, d)
    ensures ReadOrientation(p) == 0
  {
    if IsExif(p) {
      var le := p[6] == 0x49;
      assert p[..6][0] == p[0] && p[..6][1] == p[1] && p[..6][2] == p[2];
      assert p[..6][3] == p[3] && p[..6][4] == p[4] && p[..6][5] == p[5];
      assert p[6..8][0] == p[6] && p[6..8][1] == p[7];
      FieldRead(p, 8, 42, le);
      var d := U32(p, 10, le);
      FieldRead(p, 10, if le then d % 0x1_0000 else d / 0x1_0000, le);
      FieldRead(p, 12, if le then d / 0x1_0000 else d % 0x1_0000, le);
      assert ExifHeader(p, le, d);
    }
  }

  /** What is re-emitted is the smallest such payload: one directory right behind the header,
      with one SHORT of count one, the value padded with zeros, and no further directory. */
  lemma BuildIsMinimal(o: nat)
    requires o < 0x1_0000
    ensures var s := BuildSegment(o);
      var p := s[4..];
      && s[0] == 0xff && s[1] == 0xe1 && Field2(s, 2, |p| + 2, false)
      && |p| == 32 && ExifHeader(p, true, 8) && Field2(p, 14, 1, true)
      && TagAt(p, 8, 0, true) && Field2(p, 18, 3, true) && Field4(p, 20, 1, true)
      && Field4(p, 24, o, true) && Field4(p, 28, 0, true)
  {
    var s := BuildSegment(o);
    var p := s[4..];
    assert p == BuildPayload(o);
    assert o / 256 % 256 == o / 256;
  }
}
