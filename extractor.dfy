/**
 * The per-image step of `extractImages` (`handleImage`) and the batched loop
 * around it: each candidate URL is fetched, kept only when the response is an
 * image, classified, and recorded twice, once as metadata in `images` and
 * once with its bytes in `imageBuffers`, under the same id.
 *
 * The browser fetch, `svg-parser`, `sharp` and `image-size` are parameters:
 * a `Fetch` carries what the browser returned for one URL, and `Codecs`
 * carries the three libraries as partial functions (`None` where they throw).
 */
module Extractor {
  import opened Wrappers
  import opened Text
  import opened Classifier
  import opened SvgSize
  import opened Names
  import Links
  import Scheduler

  /** A response of the browser: its `content-type` header and its body. */
  datatype Response = Response(contentType: Option<string>, body: Bytes)

  /**
   * What one candidate brings: the response (`None` when `page.goto` threw
   * or gave no response, or when `response.buffer()` threw), the id `generateId()` drew for it and the
   * archive name built from the page's domain and the clock.
   */
  datatype Fetch = Fetch(response: Option<Response>, id: string, zipName: string)

  /**
   * The libraries the step calls: `svgParser` and the root element's
   * attributes, `sharp(...).jpeg().toBuffer()`, and `imgSize`'s width and
   * height; each is `None` where the library throws.
   */
  datatype Codecs = Codecs(
    parseSvg: Bytes -> Option<SvgRoot>,
    toJpeg: Bytes -> Option<Bytes>,
    probe: Bytes -> Option<(int, int)>)

  /** What classification decides: the type, the dimensions, their product and the bytes kept. */
  datatype Classification = Classification(format: Format, size: Size, imageSize: Option<int>, stored: Bytes)

  /** A body whose dimensions could not be read: type `Unknown`, no dimensions, the bytes as they came. */
  function Unrecognised(body: Bytes): Classification
  {
    Classification(Unknown, Size(None, None), None, body)
  }

  /** Dimensions read by `imgSize` from `stored`, and the type its magic bytes give. */
  function Probed(width: int, height: int, stored: Bytes): Classification
  {
    Classification(ImageFormatFromBuffer(stored), Size(Some(width), Some(height)), Some(width * height), stored)
  }

  /**
   * The three branches of `handleImage` after the body is read: an SVG is
   * parsed for its dimensions (a parse that throws drops the image), an AVIF
   * image is converted to JPEG and described and kept as that JPEG, anything
   * else is described as it came; a conversion or measurement that throws
   * leaves type `Unknown` and the original bytes.
   */
  function Classify(body: Bytes, codecs: Codecs): (r: Option<Classification>)
    ensures r.None? <==> IsSvg(body) && codecs.parseSvg(body).None?
    ensures r.Some? ==> (r.value.format == Svg <==> IsSvg(body))
    ensures r.Some? ==> r.value.imageSize == Area(r.value.size)
    ensures r.Some? && r.value.format != Svg && r.value.format != Unknown ==>
      r.value.format == ImageFormatFromBuffer(r.value.stored)
    ensures r.Some? && r.value.stored != body ==>
      !IsSvg(body) && IsAvif(body) && codecs.toJpeg(body) == Some(r.value.stored)
  {
    if IsSvg(body) then
      match codecs.parseSvg(body)
      case None => None
      case Some(root) =>
        var size := SvgDimensions(root);
        Some(Classification(Svg, size, Area(size), body))
    else if IsAvif(body) then
      match codecs.toJpeg(body)
      case None => Some(Unrecognised(body))
      case Some(jpeg) =>
        match codecs.probe(jpeg)
        case None => Some(Unrecognised(body))
        case Some((width, height)) =>
          FormatMeansSignature(jpeg);
          Some(Probed(width, height, jpeg))
    else
      match codecs.probe(body)
      case None => Some(Unrecognised(body))
      case Some((width, height)) =>
        FormatMeansSignature(body);
        Some(Probed(width, height, body))
  }

  /**
   * An SVG that parses is recorded as `svg`, with its own bytes, the size the
   * root element's `viewBox` or `width`/`height` give, and their product.
   */
  lemma SvgMeasured(body: Bytes, codecs: Codecs, root: SvgRoot)
    requires IsSvg(body) && codecs.parseSvg(body) == Some(root)
    ensures Classify(body, codecs) == Some(Classification(Svg, SvgDimensions(root), Area(SvgDimensions(root)), body))
  {
  }

  /**
   * A body that is neither SVG nor AVIF and that `imgSize` measures is
   * recorded with the type its magic bytes give, the measured size and its
   * own bytes.
   */
  lemma RasterMeasured(body: Bytes, codecs: Codecs, width: int, height: int)
    requires !IsSvg(body) && !IsAvif(body)
    requires codecs.probe(body) == Some((width, height))
    ensures Classify(body, codecs) == Some(Classification(
      ImageFormatFromBuffer(body), Size(Some(width), Some(height)), Some(width * height), body))
  {
  }

  /** A `viewBox` written `x y W H` reaches the record: the SVG is recorded as `W` by `H`. */
  lemma SvgViewBoxRecorded(body: Bytes, codecs: Codecs, x: string, y: string, w: nat, h: nat,
                           width: Option<string>, height: Option<string>)
    requires ' ' !in x && ' ' !in y
    requires IsSvg(body)
    requires codecs.parseSvg(body) == Some(SvgRoot(Some(x + " " + y + " " + Decimal(w) + " " + Decimal(h)), width, height))
    ensures Classify(body, codecs).value.size == Size(Some(w), Some(h))
    ensures Classify(body, codecs).value.imageSize == Some(w * h)
  {
    ViewBoxGivesSize(x, y, w, h, width, height);
    SvgMeasured(body, codecs, codecs.parseSvg(body).value);
  }

  /** The `<svg` test comes first: a body with JPEG magic bytes and `<svg` near its start is recorded as SVG. */
  lemma SvgTakesPrecedence(rest: Bytes, codecs: Codecs, root: SvgRoot)
    requires codecs.parseSvg([0xFF, 0xD8] + SvgTag + rest) == Some(root)
    ensures ImageFormatFromBuffer([0xFF, 0xD8] + SvgTag + rest) == Jpeg
    ensures Classify([0xFF, 0xD8] + SvgTag + rest, codecs).value.format == Svg
  {
    SvgTagMakesSvg([0xFF, 0xD8], rest);
    assert [0xFF, 0xD8] + SvgTag + rest == [0xFF, 0xD8] + (SvgTag + rest);
    JpegWhateverFollows(SvgTag + rest);
  }

  /** An AVIF body that converts and measures is kept as the JPEG, with the JPEG's type and size. */
  lemma AvifKeptAsJpeg(body: Bytes, codecs: Codecs, jpeg: Bytes, width: int, height: int)
    requires !IsSvg(body) && IsAvif(body)
    requires codecs.toJpeg(body) == Some(jpeg) && codecs.probe(jpeg) == Some((width, height))
    ensures Classify(body, codecs) == Some(Classification(
      ImageFormatFromBuffer(jpeg), Size(Some(width), Some(height)), Some(width * height), jpeg))
  {
  }

  /** An AVIF body whose conversion or measurement throws is still recorded, as `Unknown` with its own bytes. */
  lemma AvifFailureKeepsOriginal(body: Bytes, codecs: Codecs)
    requires !IsSvg(body) && IsAvif(body)
    requires codecs.toJpeg(body).None? || codecs.probe(codecs.toJpeg(body).value).None?
    ensures Classify(body, codecs) == Some(Classification(Unknown, Size(None, None), None, body))
  {
  }

  /**
   * A body that is neither SVG nor AVIF and that `imgSize` cannot measure is
   * still recorded, with type `Unknown`, no dimensions and its own bytes.
   */
  lemma ProbeFailureIsUnknown(body: Bytes, codecs: Codecs)
    requires !IsSvg(body) && !IsAvif(body)
    requires codecs.probe(body).None?
    ensures Classify(body, codecs) == Some(Classification(Unknown, Size(None, None), None, body))
  {
  }

  /** When `imgSize` throws, the type is `Unknown` even if the magic bytes name a format. */
  lemma UnmeasuredIsUnknown(rest: Bytes, codecs: Codecs)
    requires !IsSvg([0xFF, 0xD8] + rest) && !IsAvif([0xFF, 0xD8] + rest)
    requires codecs.probe([0xFF, 0xD8] + rest).None?
    ensures ImageFormatFromBuffer([0xFF, 0xD8] + rest) == Jpeg
    ensures Classify([0xFF, 0xD8] + rest, codecs).value.format == Unknown
  {
    JpegWhateverFollows(rest);
    ProbeFailureIsUnknown([0xFF, 0xD8] + rest, codecs);
  }

  /** One entry of `this.images`. */
  datatype ImageRecord = ImageRecord(
    id: string, url: string, name: string, format: Format,
    width: Option<int>, height: Option<int>, imageSize: Option<int>, fileSize: nat)

  /** One entry of `this.imageBuffers`. */
  datatype BufferRecord = BufferRecord(id: string, zipName: string, name: string, format: Format, imageBuffer: Bytes)

  /** A metadata record and a buffer record describe the same image. */
  predicate Agrees(image: ImageRecord, buffer: BufferRecord)
  {
    image.id == buffer.id && image.name == buffer.name && image.format == buffer.format
  }

  /** `contentType && contentType.startsWith('image/')`. */
  predicate IsImageResponse(response: Response)
  {
    response.contentType.Some? && StartsWith(response.contentType.value, "image/")
  }

  /** The two records `handleImage` pushes for one candidate, or `None` when it pushes nothing. */
  function ItemOutcome(url: string, fetch: Fetch, codecs: Codecs): Option<(ImageRecord, BufferRecord)>
  {
    match fetch.response
    case None => None
    case Some(response) =>
      if !IsImageResponse(response) then None
      else
        match Classify(response.body, codecs)
        case None => None
        case Some(c) =>
          var name := ExtractImageNameAndFileName(url, fetch.id).imageName;
          Some((ImageRecord(fetch.id, url, name, c.format, c.size.width, c.size.height, c.imageSize, |response.body|),
                BufferRecord(fetch.id, fetch.zipName, name, c.format, c.stored)))
  }

  /**
   * A candidate yields records exactly when the fetch succeeded, the response
   * is an image and, for an SVG, the parse succeeded; the two records share
   * id, name and type, and the type describes the bytes kept.
   */
  lemma ItemOutcomeMeaning(url: string, fetch: Fetch, codecs: Codecs)
    ensures ItemOutcome(url, fetch, codecs).Some? <==>
      fetch.response.Some? && IsImageResponse(fetch.response.value) &&
      !(IsSvg(fetch.response.value.body) && codecs.parseSvg(fetch.response.value.body).None?)
    ensures var r := ItemOutcome(url, fetch, codecs);
      r.Some? ==>
        Agrees(r.value.0, r.value.1) && r.value.0.id == fetch.id && r.value.0.url == url &&
        r.value.1.zipName == fetch.zipName && r.value.0.fileSize == |fetch.response.value.body|
    ensures var r := ItemOutcome(url, fetch, codecs);
      r.Some? && r.value.0.format == Svg ==> IsSvg(r.value.1.imageBuffer)
    ensures var r := ItemOutcome(url, fetch, codecs);
      r.Some? && r.value.0.format != Svg && r.value.0.format != Unknown ==>
        r.value.0.format == ImageFormatFromBuffer(r.value.1.imageBuffer)
  {
  }

  /** The two lists line up: entry `k` of each describes the same image. */
  predicate Paired(images: seq<ImageRecord>, buffers: seq<BufferRecord>)
  {
    |images| == |buffers| && forall k :: 0 <= k < |images| ==> Agrees(images[k], buffers[k])
  }

  /** No two images share an id. */
  predicate UniqueIds(images: seq<ImageRecord>)
  {
    forall a, b :: 0 <= a < b < |images| ==> images[a].id != images[b].id
  }

  /** What one candidate leaves behind: its two records, or nothing. */
  type Outcome = Option<(ImageRecord, BufferRecord)>

  /** The metadata records of a run of outcomes, in order. */
  function ImagesIn(outs: seq<Outcome>): (r: seq<ImageRecord>)
    decreases |outs|
  {
    if outs == [] then []
    else ImagesIn(outs[..|outs| - 1]) + (match outs[|outs| - 1] case None => [] case Some(p) => [p.0])
  }

  /** The buffer records of a run of outcomes, in order. */
  function BuffersIn(outs: seq<Outcome>): (r: seq<BufferRecord>)
    decreases |outs|
  {
    if outs == [] then []
    else BuffersIn(outs[..|outs| - 1]) + (match outs[|outs| - 1] case None => [] case Some(p) => [p.1])
  }

  /** The outcome of every candidate, `fetches[k]` being what the browser returned for `urls[k]`. */
  function Outcomes(urls: seq<string>, fetches: seq<Fetch>, codecs: Codecs): (outs: seq<Outcome>)
    requires |urls| <= |fetches|
    ensures |outs| == |urls|
    decreases |urls|
  {
    if urls == [] then []
    else Outcomes(urls[..|urls| - 1], fetches, codecs) + [ItemOutcome(urls[|urls| - 1], fetches[|urls| - 1], codecs)]
  }

  /** Entry `k` of the outcomes is what `handleImage` makes of candidate `k`. */
  lemma {:induction false} OutcomeAt(urls: seq<string>, fetches: seq<Fetch>, codecs: Codecs, k: nat)
    requires |urls| <= |fetches| && k < |urls|
    ensures Outcomes(urls, fetches, codecs)[k] == ItemOutcome(urls[k], fetches[k], codecs)
    decreases |urls|
  {
    var init := urls[..|urls| - 1];
    if k < |init| {
      OutcomeAt(init, fetches, codecs, k);
      assert init[k] == urls[k];
    }
  }

  /**
   * `outs` holds the outcome of every candidate. Stated entry by entry, so
   * that an entry is only looked at where `handleImage` runs on it.
   */
  predicate Describes(outs: seq<Outcome>, urls: seq<string>, fetches: seq<Fetch>, codecs: Codecs)
  {
    |outs| == |urls| <= |fetches| &&
    forall k {:trigger ItemOutcome(urls[k], fetches[k], codecs)} :: 0 <= k < |urls| ==> outs[k] == ItemOutcome(urls[k], fetches[k], codecs)
  }

  /** The outcomes are the one sequence that describes the candidates. */
  lemma DescribesOutcomes(outs: seq<Outcome>, urls: seq<string>, fetches: seq<Fetch>, codecs: Codecs)
    requires |urls| <= |fetches|
    ensures Describes(outs, urls, fetches, codecs) <==> outs == Outcomes(urls, fetches, codecs)
  {
    var all := Outcomes(urls, fetches, codecs);
    forall k | 0 <= k < |urls|
      ensures all[k] == ItemOutcome(urls[k], fetches[k], codecs)
    {
      OutcomeAt(urls, fetches, codecs, k);
    }
  }

  /** Each candidate adds at most one record to each list. */
  lemma {:induction false} ImagesInLength(outs: seq<Outcome>)
    ensures |ImagesIn(outs)| == |BuffersIn(outs)| <= |outs|
    ensures |ImagesIn(outs)| == |set k | 0 <= k < |outs| && outs[k].Some?|
    decreases |outs|
  {
    if outs != [] {
      var init := outs[..|outs| - 1];
      ImagesInLength(init);
      var before := set k | 0 <= k < |init| && init[k].Some?;
      var after := set k | 0 <= k < |outs| && outs[k].Some?;
      assert before == set k | 0 <= k < |outs| - 1 && outs[k].Some?;
      if outs[|outs| - 1].Some? {
        assert after == before + {|outs| - 1};
      } else {
        assert after == before;
      }
    }
  }

  /** Appending one outcome appends its records and nothing else. */
  lemma ImagesInStep(outs: seq<Outcome>, j: nat)
    requires j < |outs|
    ensures ImagesIn(outs[..j + 1]) == ImagesIn(outs[..j]) + ImagesIn([outs[j]])
    ensures BuffersIn(outs[..j + 1]) == BuffersIn(outs[..j]) + BuffersIn([outs[j]])
  {
    assert outs[..j + 1][..j] == outs[..j];
    assert [outs[j]][..0] == [];
  }

  /** Every kept entry comes from one outcome, which gave both the image and the buffer at that position. */
  lemma {:induction false} ImagesInFrom(outs: seq<Outcome>, m: nat)
    requires m < |ImagesIn(outs)|
    ensures |ImagesIn(outs)| == |BuffersIn(outs)|
    ensures exists k :: (0 <= k < |outs| && outs[k].Some? && outs[k].value.0 == ImagesIn(outs)[m]
      && BuffersIn(outs)[m] == outs[k].value.1)
    decreases |outs|
  {
    var init := outs[..|outs| - 1];
    ImagesInLength(init);
    ImagesInLength(outs);
    if m < |ImagesIn(init)| {
      ImagesInFrom(init, m);
      var k :| 0 <= k < |init| && init[k].Some? && init[k].value.0 == ImagesIn(init)[m]
        && BuffersIn(init)[m] == init[k].value.1;
      assert outs[k] == init[k];
    } else {
      assert outs[|outs| - 1].Some?;
    }
  }

  /** Outcomes whose two records agree give lists that agree entry by entry. */
  lemma {:induction false} OutcomesPaired(outs: seq<Outcome>)
    requires forall k :: 0 <= k < |outs| && outs[k].Some? ==> Agrees(outs[k].value.0, outs[k].value.1)
    ensures Paired(ImagesIn(outs), BuffersIn(outs))
    decreases |outs|
  {
    if outs != [] {
      var init := outs[..|outs| - 1];
      OutcomesPaired(init);
    }
  }

  /** The records of candidates with distinct ids carry distinct ids. */
  lemma {:induction false} OutcomesUnique(outs: seq<Outcome>, ids: seq<string>)
    requires |ids| == |outs|
    requires forall k :: 0 <= k < |outs| && outs[k].Some? ==> outs[k].value.0.id == ids[k]
    requires forall a, b :: 0 <= a < b < |ids| ==> ids[a] != ids[b]
    ensures UniqueIds(ImagesIn(outs))
    ensures forall m :: 0 <= m < |ImagesIn(outs)| ==> ImagesIn(outs)[m].id in ids
    decreases |outs|
  {
    if outs != [] {
      var init := outs[..|outs| - 1];
      var last := |outs| - 1;
      OutcomesUnique(init, ids[..last]);
      var prev := ImagesIn(init);
      var r := ImagesIn(outs);
      forall m | 0 <= m < |prev| ensures prev[m].id != ids[last] {
        assert prev[m].id in ids[..last];
      }
      forall a, b | 0 <= a < b < |r|
        ensures r[a].id != r[b].id
      {
        if b >= |prev| {
          assert r[a] == prev[a];
        } else {
          assert r[a] == prev[a] && r[b] == prev[b];
        }
      }
    }
  }

  /** The candidates' outcomes all have agreeing records, each under the id drawn for its candidate. */
  lemma OutcomesOfCandidates(urls: seq<string>, fetches: seq<Fetch>, codecs: Codecs)
    requires |urls| <= |fetches|
    ensures var outs := Outcomes(urls, fetches, codecs);
      forall k :: 0 <= k < |outs| && outs[k].Some? ==>
        Agrees(outs[k].value.0, outs[k].value.1) && outs[k].value.0.id == fetches[k].id
  {
    var outs := Outcomes(urls, fetches, codecs);
    forall k | 0 <= k < |outs| && outs[k].Some?
      ensures Agrees(outs[k].value.0, outs[k].value.1) && outs[k].value.0.id == fetches[k].id
    {
      OutcomeAt(urls, fetches, codecs, k);
      ItemOutcomeMeaning(urls[k], fetches[k], codecs);
    }
  }

  /**
   * Looking a buffer up by an image's id, as the archive step does, finds
   * the buffer at the image's own position, with the image's name and type.
   */
  lemma BufferLookupFindsPair(images: seq<ImageRecord>, buffers: seq<BufferRecord>, k: nat)
    requires Paired(images, buffers) && UniqueIds(images)
    requires k < |images|
    ensures Agrees(images[k], buffers[k])
    ensures forall j :: 0 <= j < |buffers| && buffers[j].id == images[k].id ==> j == k
  {
    forall j | 0 <= j < |buffers| && buffers[j].id == images[k].id
      ensures j == k
    {
      assert images[j].id == buffers[j].id;
    }
  }

  /** 200 bytes starting `FF D8`, the rest zero. */
  const JpegFixture: Bytes := [0xFF, 0xD8] + seq(198, _ => 0x00)

  /** An `image/jpeg` response with JPEG magic bytes is recorded as jpeg, with its byte length and one shared id. */
  lemma JpegResponseRecorded(url: string, id: string, zipName: string, codecs: Codecs, width: int, height: int)
    requires codecs.probe(JpegFixture) == Some((width, height))
    ensures var r := ItemOutcome(url, Fetch(Some(Response(Some("image/jpeg"), JpegFixture)), id, zipName), codecs);
      r.Some? && r.value.0.format == Jpeg && r.value.0.fileSize == 200 &&
      r.value.0.id == id && r.value.1.id == id && r.value.1.imageBuffer == JpegFixture &&
      r.value.0.imageSize == Some(width * height)
  {
    NoAngleNoSvg(JpegFixture);
    assert JpegFixture[4..12] != AvifBrand by {
      assert JpegFixture[4] == 0x00;
    }
    JpegWhateverFollows(seq(198, _ => 0x00));
    assert StartsWith("image/jpeg", "image/");
  }

  /** A response that is not an image (`text/html`, or no content type, or no response) adds nothing. */
  lemma NonImageIgnored(url: string, body: Bytes, id: string, zipName: string, codecs: Codecs)
    ensures ItemOutcome(url, Fetch(Some(Response(Some("text/html"), body)), id, zipName), codecs).None?
    ensures ItemOutcome(url, Fetch(Some(Response(None, body)), id, zipName), codecs).None?
    ensures ItemOutcome(url, Fetch(None, id, zipName), codecs).None?
  {
    assert !StartsWith("text/html", "image/") by {
      assert "text/html"[0] != "image/"[0];
    }
  }

  /** The crawler's two result lists, `this.images` and `this.imageBuffers`. */
  class ImageExtractor {
    var images: seq<ImageRecord>
    var imageBuffers: seq<BufferRecord>

    /** The lists pair up entry by entry: each image has its buffer at the same position. */
    ghost predicate Valid()
      reads this
    {
      Paired(images, imageBuffers)
    }

    constructor()
      ensures Valid()
      ensures images == [] && imageBuffers == []
    {
      images := [];
      imageBuffers := [];
    }

    /**
     * `handleImage`: push the records for one candidate, or nothing when
     * the fetch failed, the response is not an image or the SVG parse threw.
     */
    method HandleImage(url: string, fetch: Fetch, codecs: Codecs)
      requires Valid()
      modifies this
      ensures Valid()
      ensures images == old(images) + ImagesIn([ItemOutcome(url, fetch, codecs)])
      ensures imageBuffers == old(imageBuffers) + BuffersIn([ItemOutcome(url, fetch, codecs)])
    {
      if fetch.response.None? {
        return;
      }
      var response := fetch.response.value;
      var contentType := response.contentType;
      if !(contentType.Some? && StartsWith(contentType.value, "image/")) {
        return;
      }
      var fileSize := |response.body|;
      var name := ExtractImageNameAndFileName(url, fetch.id).imageName;
      var classified := Classify(response.body, codecs);
      if classified.None? {
        return;
      }
      var c := classified.value;
      images := images + [ImageRecord(fetch.id, url, name, c.format, c.size.width, c.size.height, c.imageSize, fileSize)];
      imageBuffers := imageBuffers + [BufferRecord(fetch.id, fetch.zipName, name, c.format, c.stored)];
    }

    /** Candidates `from` to `to` of one batch, each handed to `HandleImage` in turn. */
    method HandleBatch(urls: seq<string>, fetches: seq<Fetch>, codecs: Codecs, from: nat, to: nat,
                       ghost outs: seq<Outcome>, ghost base: seq<ImageRecord>, ghost bufferBase: seq<BufferRecord>)
      requires from <= to <= |urls| <= |fetches|
      requires Describes(outs, urls, fetches, codecs)
      requires Valid()
      requires images == base + ImagesIn(outs[..from])
      requires imageBuffers == bufferBase + BuffersIn(outs[..from])
      modifies this
      ensures Valid()
      ensures images == base + ImagesIn(outs[..to])
      ensures imageBuffers == bufferBase + BuffersIn(outs[..to])
    {
      var j := from;
      while j < to
        invariant from <= j <= to
        invariant Valid()
        invariant images == base + ImagesIn(outs[..j])
        invariant imageBuffers == bufferBase + BuffersIn(outs[..j])
      {
        HandleImage(urls[j], fetches[j], codecs);
        ImagesInStep(outs, j);
        j := j + 1;
      }
    }

    /**
     * The loop of `extractImages`: fetch the candidates 100 at a time,
     * waiting before each batch but the first for what is left of the
     * interval drawn after the previous one. `fetches[k]` is what the
     * browser returns for `urls[k]`, `durations[b]` how long batch `b` took
     * and `draws[b]` the `Math.random()` drawn after it; `waits[b]` is the
     * pause before batch `b`. `outs` names the outcome of each candidate.
     */
    method FetchInBatches(urls: seq<string>, fetches: seq<Fetch>, codecs: Codecs, durations: seq<nat>, draws: seq<real>,
                          ghost outs: seq<Outcome>)
      returns (batches: seq<seq<string>>, waits: seq<nat>)
      requires Valid()
      requires Describes(outs, urls, fetches, codecs)
      requires |durations| >= Scheduler.NumBatches(|urls|) && |draws| >= Scheduler.NumBatches(|urls|)
      requires forall b :: 0 <= b < |draws| ==> 0.0 <= draws[b] < 1.0
      modifies this
      ensures Valid()
      ensures batches == Scheduler.Batches(urls)
      ensures |batches| == Scheduler.NumBatches(|urls|)
      ensures images == old(images) + ImagesIn(outs)
      ensures imageBuffers == old(imageBuffers) + BuffersIn(outs)
      ensures waits == Scheduler.Waits(durations, draws, |batches|)
    {
      var n := |urls|;
      ghost var base := images;
      ghost var bufferBase := imageBuffers;
      Scheduler.BatchesCount(urls);
      batches := [];
      waits := [];
      var randomInterval := 0;
      var elapsed := 0;
      var i := 0;
      assert urls[0..] == urls;
      assert outs[..0] == [];
      while i < n
        invariant 0 <= i
        invariant batches + Scheduler.Batches(urls[Scheduler.Min(i, n)..]) == Scheduler.Batches(urls)
        invariant Valid()
        invariant images == base + ImagesIn(outs[..Scheduler.Min(i, n)])
        invariant imageBuffers == bufferBase + BuffersIn(outs[..Scheduler.Min(i, n)])
        invariant |batches| <= |durations| && |batches| <= |draws|
        invariant waits == Scheduler.Waits(durations, draws, |batches|)
        invariant randomInterval == if |batches| == 0 then 0 else Scheduler.DrawInterval(draws[|batches| - 1])
        invariant elapsed == if |batches| == 0 then 0 else durations[|batches| - 1]
      {
        var end := Scheduler.Min(i + Scheduler.BatchSize, n);
        var batch := urls[i..end];
        Scheduler.BatchesStep(urls, i);
        assert |batches| < |Scheduler.Batches(urls)|;
        ghost var interval := randomInterval;
        var timeRemaining := randomInterval - elapsed;
        var wait := 0;
        if timeRemaining > 0 {
          randomInterval := timeRemaining;
          wait := randomInterval;
        }
        assert wait == Scheduler.Delay(interval, elapsed);
        Scheduler.WaitsStep(durations, draws, |batches|);
        waits := waits + [wait];
        HandleBatch(urls, fetches, codecs, i, end, outs, base, bufferBase);
        assert (batches + [batch]) + Scheduler.Batches(urls[end..]) == batches + ([batch] + Scheduler.Batches(urls[end..]));
        batches := batches + [batch];
        elapsed := durations[|batches| - 1];
        randomInterval := Scheduler.DrawInterval(draws[|batches| - 1]);
        i := i + Scheduler.BatchSize;
      }
      assert urls[n..] == [];
      assert outs[..n] == outs;
    }

    /**
     * `extractImages` from the harvested candidates on: drop repeated
     * candidates, keeping the first of each, then run the batch loop over
     * what is left.
     */
    method ExtractImages(candidates: seq<string>, fetches: seq<Fetch>, codecs: Codecs, durations: seq<nat>, draws: seq<real>)
      returns (batches: seq<seq<string>>, waits: seq<nat>)
      requires Valid()
      requires |fetches| == |Links.Dedup(candidates)|
      requires |durations| >= Scheduler.NumBatches(|fetches|) && |draws| >= Scheduler.NumBatches(|fetches|)
      requires forall b :: 0 <= b < |draws| ==> 0.0 <= draws[b] < 1.0
      modifies this
      ensures Valid()
      ensures batches == Scheduler.Batches(Links.Dedup(candidates))
      ensures |batches| == Scheduler.NumBatches(|fetches|)
      ensures images == old(images) + ImagesIn(Outcomes(Links.Dedup(candidates), fetches, codecs))
      ensures imageBuffers == old(imageBuffers) + BuffersIn(Outcomes(Links.Dedup(candidates), fetches, codecs))
      ensures waits == Scheduler.Waits(durations, draws, |batches|)
    {
      var urls := Links.Dedup(candidates);
      ghost var outs := Outcomes(urls, fetches, codecs);
      DescribesOutcomes(outs, urls, fetches, codecs);
      Scheduler.BatchesCount(urls);
      batches, waits := FetchInBatches(urls, fetches, codecs, durations, draws, outs);
    }
  }
}
