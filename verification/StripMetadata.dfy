/** `stripMetadata` of web/static/exif.js: pick the stripper by the magic bytes. */
module StripMetadata {
  import opened Bytes
  import opened Parts
  import Jpeg
  import Png
  import Webp

  predicate IsJpeg(b: seq<byte>) {
    |b| >= 3 && b[0] == 0xff && b[1] == 0xd8 && b[2] == 0xff
  }

  predicate IsPng(b: seq<byte>) {
    && |b| >= 8
    && b[0] == 0x89 && b[1] == 0x50 && b[2] == 0x4e && b[3] == 0x47
    && b[4] == 0x0d && b[5] == 0x0a && b[6] == 0x1a && b[7] == 0x0a
  }

  predicate IsWebp(b: seq<byte>) {
    && |b| >= 12
    && b[0] == 0x52 && b[1] == 0x49 && b[2] == 0x46 && b[3] == 0x46
    && b[8] == 0x57 && b[9] == 0x45 && b[10] == 0x42 && b[11] == 0x50
  }

  function Strip(b: seq<byte>): seq<byte> {
    if IsJpeg(b) then Jpeg.Strip(b)
    else if IsPng(b) then Png.Strip(b)
    else if IsWebp(b) then Webp.Strip(b)
    else b
  }

  method StripMetadata(b: seq<byte>) returns (out: seq<byte>, same: bool)
    ensures out == Strip(b)
    ensures same ==> out == b
  {
    if IsJpeg(b) { out, same := Jpeg.StripJpeg(b); return; }
    if IsPng(b) { out, same := Png.StripPng(b); return; }
    if IsWebp(b) { out, same := Webp.StripWebp(b); return; }
    return b, true;
  }

  /** On any bytes whatever, stripping what was already stripped does nothing: the output of
      each stripper is never taken for another format, nor damaged by the same one. */
  lemma Idempotent(b: seq<byte>)
    ensures Strip(Strip(b)) == Strip(b)
  {
    hide Jpeg.Strip, Png.Strip, Webp.Strip;
    var out := Strip(b);
    if IsJpeg(b) {
      Jpeg.StripPreserves(b);
      JpegStaysJpegOrUnknown(b);
    } else if IsPng(b) {
      Png.StripPreserves(b);
      PngStaysPng(b);
    } else if IsWebp(b) {
      Webp.StripPreserves(b);
      WebpStaysWebp(b);
    }
  }

  /** A stripped JPEG may stop being recognised as one (when nothing but a damaged tail
      follows its start marker), but it never turns into a PNG or a WebP file. */
  lemma JpegStaysJpegOrUnknown(b: seq<byte>)
    requires IsJpeg(b)
    ensures var out := Jpeg.Strip(b); !IsPng(out) && !IsWebp(out)
  {
    Jpeg.KeepsFirstBytes(b);
  }

  lemma PngStaysPng(b: seq<byte>)
    requires IsPng(b)
    ensures IsPng(Png.Strip(b)) && !IsJpeg(Png.Strip(b))
  {
    hide Png.Parse, Flatten, Filter;
  }

  lemma WebpStaysWebp(b: seq<byte>)
    requires IsWebp(b)
    ensures IsWebp(Webp.Strip(b)) && !IsJpeg(Webp.Strip(b)) && !IsPng(Webp.Strip(b))
  {
    hide Webp.Body, Webp.Parse, Webp.LittleEndianOf, Filter;
    var out := Webp.Strip(b);
    if Webp.Changes(b) {
      Webp.StripShape(b);
      assert forall k :: 0 <= k < 4 ==> out[k] == out[..4][k];
      assert forall k :: 0 <= k < 4 ==> out[8 + k] == out[8..12][k];
    }
  }

  // ----- The three formats, octet by octet -----

  /** Which stripper is picked: by the first octets alone, and none for anything else. */
  lemma PicksByMagic(b: seq<byte>)
    ensures [0xff, 0xd8, 0xff] <= b ==> Strip(b) == Jpeg.Strip(b)
    ensures [0x89, 0x50, 0x4e, 0x47, 0x0d, 0x0a, 0x1a, 0x0a] <= b ==> Strip(b) == Png.Strip(b)
    ensures |b| >= 12 && [0x52, 0x49, 0x46, 0x46] <= b && b[8..12] == [0x57, 0x45, 0x42, 0x50]
            ==> Strip(b) == Webp.Strip(b)
    ensures !([0xff, 0xd8, 0xff] <= b) && !([0x89, 0x50, 0x4e, 0x47, 0x0d, 0x0a, 0x1a, 0x0a] <= b)
            && !(|b| >= 12 && [0x52, 0x49, 0x46, 0x46] <= b && b[8..12] == [0x57, 0x45, 0x42, 0x50])
            ==> Strip(b) == b
  {
    hide Jpeg.Strip, Png.Strip, Webp.Strip;
    if |b| >= 12 {
      var w := b[8..12];
      assert w[0] == b[8] && w[1] == b[9] && w[2] == b[10] && w[3] == b[11];
    }
  }

  /** A JPEG with its header as pieces and a tail: as `Jpeg.StripsOctets` says. */
  lemma StripsJpeg(pieces: seq<Jpeg.Piece>, tail: seq<byte>)
    requires Jpeg.IsHeader(pieces, tail) && pieces != []
    ensures var b, segments := [0xff, 0xd8] + Jpeg.Octets(pieces, tail), Jpeg.Wholes(pieces);
      var kept := Filter(Jpeg.Stays, segments);
      Strip(b) ==
        if kept == segments then b else [0xff, 0xd8] + Flatten(Jpeg.Placed(kept, Jpeg.Wanted(segments))) + tail
  {
    hide Jpeg.Strip, Jpeg.IsHeader, Jpeg.Octets, Jpeg.Wholes, Jpeg.Placed, Jpeg.Wanted, Filter, Flatten;
    Jpeg.WalksHeader(pieces, tail);
    Jpeg.StripsOctets([0xff, 0xd8], pieces, tail);
    PicksByMagic([0xff, 0xd8] + Jpeg.Octets(pieces, tail));
  }

  lemma StripsPng(chunks: seq<Png.Chunk>, rest: seq<byte>)
    requires Png.IsFile(chunks, rest)
    ensures var signature := [0x89, 0x50, 0x4e, 0x47, 0x0d, 0x0a, 0x1a, 0x0a];
      var b := signature + (Flatten(Png.AllOctets(chunks)) + rest);
      Strip(b) ==
        if forall c <- chunks :: c.kind !in {"tEXt", "zTXt", "iTXt", "eXIf", "tIME"} then b
        else signature + Flatten(Png.AllOctets(Png.Kept(chunks)))
  {
    hide Png.Strip, Png.AllOctets, Png.Kept, Flatten;
    var signature := [0x89, 0x50, 0x4e, 0x47, 0x0d, 0x0a, 0x1a, 0x0a];
    Png.StripsOctets(signature, chunks, rest);
    PicksByMagic(signature + (Flatten(Png.AllOctets(chunks)) + rest));
  }

  lemma StripsWebp(size: seq<byte>, chunks: seq<Webp.Chunk>, rest: seq<byte>)
    requires |size| == 4 && (forall c <- chunks :: Webp.IsWhole(c)) && Webp.IsStop(rest)
    ensures var riff, webp := [0x52, 0x49, 0x46, 0x46], [0x57, 0x45, 0x42, 0x50];
      var b := riff + size + webp + (Flatten(Webp.AllOctets(chunks)) + rest);
      var body := Flatten(Webp.AllOctets(Webp.Kept(chunks)));
      Strip(b) ==
        if forall c <- chunks :: c.kind !in {"EXIF", "XMP "} then b
        else riff + Webp.Size(4 + |body|) + webp + body
  {
    hide Webp.Strip, Webp.AllOctets, Webp.Kept, Webp.Size, Webp.IsStop, Flatten;
    var riff, webp := [0x52, 0x49, 0x46, 0x46], [0x57, 0x45, 0x42, 0x50];
    var b := riff + size + webp + (Flatten(Webp.AllOctets(chunks)) + rest);
    Webp.StripsOctets(riff, size, webp, chunks, rest);
    assert b[8..12] == webp && riff <= b;
    assert b[0] == riff[0] == 0x52;
    PicksByMagic(b);
  }
}
