/**
 * The byte-format classifier of the image extractor: the magic-byte table of
 * `getImageFormatFromBuffer` and the two pre-checks `isSVG` and `isAVIF`.
 *
 * A JavaScript `Buffer` is a sequence of bytes; reading `buffer[i]` past the
 * end gives `undefined`, which equals no byte. The source compares some
 * decoded slices with ASCII text (`'PNG'`, `'<svg'`, `'ftypavif'`); UTF-8
 * decoding maps every ASCII byte to that same character and never swallows
 * one into a multi-byte sequence, so each such comparison is a comparison of
 * bytes.
 */
module Classifier {
  import opened Text

  type Bytes = seq<bv8>

  /** The value of the `type` field of an image record. */
  datatype Format = Svg | Jpeg | Png | Gif | Webp | Bmp | Unknown

  /** `buffer[i] === b`: false when `i` is past the end. */
  predicate ByteIs(buf: Bytes, i: nat, b: bv8)
  {
    i < |buf| && buf[i] == b
  }

  /**
   * `getImageFormatFromBuffer`: the first matching signature, tried in the
   * order jpeg, png, gif, webp, bmp; `Unknown` when none matches.
   */
  function ImageFormatFromBuffer(buf: Bytes): Format
  {
    if ByteIs(buf, 0, 0xFF) && ByteIs(buf, 1, 0xD8) then Jpeg
    else if ByteIs(buf, 0, 0x89) && ByteIs(buf, 1, 0x50) && ByteIs(buf, 2, 0x4E) && ByteIs(buf, 3, 0x47) then Png
    else if ByteIs(buf, 0, 0x47) && ByteIs(buf, 1, 0x49) && ByteIs(buf, 2, 0x46) then Gif
    else if ByteIs(buf, 0, 0x52) && ByteIs(buf, 1, 0x49) && ByteIs(buf, 2, 0x46) && ByteIs(buf, 3, 0x46)
         && ByteIs(buf, 8, 0x57) && ByteIs(buf, 9, 0x45) && ByteIs(buf, 10, 0x42) && ByteIs(buf, 11, 0x50) then Webp
    else if ByteIs(buf, 0, 0x42) && ByteIs(buf, 1, 0x4D) then Bmp
    else Unknown
  }

  /** A signature: the bytes a format requires, each at its offset. */
  type Signature = seq<(nat, bv8)>

  /** The signature table, in the order the classifier tries it. */
  const Signatures: seq<(Format, Signature)> := [
    (Jpeg, [(0, 0xFF), (1, 0xD8)]),
    (Png, [(0, 0x89), (1, 0x50), (2, 0x4E), (3, 0x47)]),
    (Gif, [(0, 0x47), (1, 0x49), (2, 0x46)]),
    (Webp, [(0, 0x52), (1, 0x49), (2, 0x46), (3, 0x46), (8, 0x57), (9, 0x45), (10, 0x42), (11, 0x50)]),
    (Bmp, [(0, 0x42), (1, 0x4D)])
  ]

  /** Every byte of the signature is present in the buffer. */
  predicate Matches(buf: Bytes, sig: Signature)
  {
    forall k :: 0 <= k < |sig| ==> ByteIs(buf, sig[k].0, sig[k].1)
  }

  /**
   * A table-driven reference classifier: the format of the first entry whose
   * signature matches, `Unknown` when none does.
   */
  function FirstMatch(table: seq<(Format, Signature)>, buf: Bytes): (r: Format)
    ensures (forall k :: 0 <= k < |table| ==> !Matches(buf, table[k].1)) ==> r == Unknown
    ensures r != Unknown ==>
      exists k :: 0 <= k < |table| && table[k].0 == r && Matches(buf, table[k].1) &&
        forall j :: 0 <= j < k ==> !Matches(buf, table[j].1)
    ensures forall k :: (0 <= k < |table| && Matches(buf, table[k].1) &&
      (forall j :: 0 <= j < k ==> !Matches(buf, table[j].1))) ==> r == table[k].0
    decreases |table|
  {
    if |table| == 0 then Unknown
    else if Matches(buf, table[0].1) then table[0].0
    else
      var r := FirstMatch(table[1..], buf);
      assert forall k :: 1 <= k < |table| ==> table[1..][k - 1] == table[k];
      r
  }

  /** The hand-written chain is exactly the first match over the signature table. */
  lemma ChainIsFirstMatch(buf: Bytes)
    ensures ImageFormatFromBuffer(buf) == FirstMatch(Signatures, buf)
  {
    var t := Signatures;
    assert Matches(buf, t[0].1) <==> ByteIs(buf, 0, 0xFF) && ByteIs(buf, 1, 0xD8) by {
      assert t[0].1[0] == (0, 0xFF) && t[0].1[1] == (1, 0xD8);
    }
    assert Matches(buf, t[1].1) <==> ByteIs(buf, 0, 0x89) && ByteIs(buf, 1, 0x50) && ByteIs(buf, 2, 0x4E) && ByteIs(buf, 3, 0x47) by {
      assert t[1].1[0] == (0, 0x89) && t[1].1[1] == (1, 0x50) && t[1].1[2] == (2, 0x4E) && t[1].1[3] == (3, 0x47);
    }
    assert Matches(buf, t[2].1) <==> ByteIs(buf, 0, 0x47) && ByteIs(buf, 1, 0x49) && ByteIs(buf, 2, 0x46) by {
      assert t[2].1[0] == (0, 0x47) && t[2].1[1] == (1, 0x49) && t[2].1[2] == (2, 0x46);
    }
    assert Matches(buf, t[3].1) <==> (ByteIs(buf, 0, 0x52) && ByteIs(buf, 1, 0x49) && ByteIs(buf, 2, 0x46) && ByteIs(buf, 3, 0x46)
         && ByteIs(buf, 8, 0x57) && ByteIs(buf, 9, 0x45) && ByteIs(buf, 10, 0x42) && ByteIs(buf, 11, 0x50)) by {
      var s := t[3].1;
      assert s[0] == (0, 0x52) && s[1] == (1, 0x49) && s[2] == (2, 0x46) && s[3] == (3, 0x46);
      assert s[4] == (8, 0x57) && s[5] == (9, 0x45) && s[6] == (10, 0x42) && s[7] == (11, 0x50);
    }
    assert Matches(buf, t[4].1) <==> ByteIs(buf, 0, 0x42) && ByteIs(buf, 1, 0x4D) by {
      assert t[4].1[0] == (0, 0x42) && t[4].1[1] == (1, 0x4D);
    }
  }

  /** A buffer that starts `FF D8` is jpeg, whatever follows. */
  lemma JpegWhateverFollows(rest: Bytes)
    ensures ImageFormatFromBuffer([0xFF, 0xD8] + rest) == Jpeg
  {
  }

  /** What each answer guarantees about the bytes. */
  lemma FormatMeansSignature(buf: Bytes)
    ensures ImageFormatFromBuffer(buf) == Png ==>
      |buf| >= 4 && buf[0] == 0x89 && buf[1..4] == [0x50, 0x4E, 0x47]
    ensures ImageFormatFromBuffer(buf) == Webp ==>
      |buf| >= 12 && buf[0..4] == [0x52, 0x49, 0x46, 0x46] && buf[8..12] == [0x57, 0x45, 0x42, 0x50]
    ensures ImageFormatFromBuffer(buf) == Bmp ==>
      |buf| >= 2 && buf[..2] == [0x42, 0x4D]
    ensures ImageFormatFromBuffer(buf) != Svg
  {
  }

  /** The classifier reads at most the first twelve bytes. */
  lemma ReadsTwelveBytes(buf: Bytes, tail: Bytes)
    requires |buf| >= 12
    ensures ImageFormatFromBuffer(buf + tail) == ImageFormatFromBuffer(buf)
    ensures ImageFormatFromBuffer(buf) == ImageFormatFromBuffer(buf[..12])
  {
  }

  /** A buffer too short for any signature is `Unknown`. */
  lemma ShortIsUnknown(buf: Bytes)
    requires |buf| <= 1
    ensures ImageFormatFromBuffer(buf) == Unknown
  {
  }

  /** The bytes of `<svg`. */
  const SvgTag: Bytes := [0x3C, 0x73, 0x76, 0x67]

  /** The bytes of `ftypavif`. */
  const AvifBrand: Bytes := [0x66, 0x74, 0x79, 0x70, 0x61, 0x76, 0x69, 0x66]

  /** The bytes of `<svg` stand at offset `i`. */
  predicate SvgTagAt(buf: Bytes, i: nat)
  {
    i + 4 <= |buf| && buf[i..i + 4] == SvgTag
  }

  /** `isSVG`: `<svg` occurs within the first 100 bytes. */
  predicate IsSvg(buf: Bytes)
  {
    exists i: nat :: i + 4 <= 100 && SvgTagAt(buf, i)
  }

  /** `isAVIF`: bytes 4 to 11 spell `ftypavif`. */
  predicate IsAvif(buf: Bytes)
  {
    |buf| >= 12 && buf[4..12] == AvifBrand
  }

  /** `<svg` starting at any of the first 97 offsets makes the buffer an SVG, whatever surrounds it. */
  lemma SvgTagMakesSvg(head: Bytes, rest: Bytes)
    requires |head| + 4 <= 100
    ensures IsSvg(head + SvgTag + rest)
  {
    var buf := head + SvgTag + rest;
    assert buf[|head|..|head| + 4] == SvgTag;
    assert SvgTagAt(buf, |head|);
  }

  /** Bytes from the 101st on never make a buffer an SVG. */
  lemma IsSvgReadsHundredBytes(buf: Bytes, tail: Bytes)
    requires |buf| >= 100
    ensures IsSvg(buf + tail) <==> IsSvg(buf)
  {
    forall i: nat | i + 4 <= 100
      ensures SvgTagAt(buf + tail, i) <==> SvgTagAt(buf, i)
    {
      assert buf[i..i + 4] == (buf + tail)[i..i + 4];
    }
  }

  /** A buffer with no `<` byte among its first 100 bytes is not an SVG. */
  lemma NoAngleNoSvg(buf: Bytes)
    requires forall i :: 0 <= i < |buf| && i < 100 ==> buf[i] != 0x3C
    ensures !IsSvg(buf)
  {
    forall i: nat | i + 4 <= 100
      ensures !SvgTagAt(buf, i)
    {
      if i + 4 <= |buf| {
        assert buf[i..i + 4][0] == buf[i];
      }
    }
  }

  /** `isAVIF` with the brand at offset 4, whatever surrounds it. */
  lemma AvifBrandMakesAvif(head: Bytes, rest: Bytes)
    requires |head| == 4
    ensures IsAvif(head + AvifBrand + rest)
  {
    assert (head + AvifBrand + rest)[4..12] == AvifBrand;
  }
}
