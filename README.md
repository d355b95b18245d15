# Image extractor core, modelled in Dafny

This project models the deterministic logic inside `ImageExtractor.extractImages` of the
image crawler in `src/crawler-class.js`. The crawler opens a page in a headless browser,
collects candidate image URLs from the DOM and the computed styles, fetches each candidate,
classifies the bytes and records every image twice. One record holds metadata (`images`).
The other holds the bytes (`imageBuffers`). Both records carry the same id.

The model covers:

- the byte-format classifier: the magic-byte table `getImageFormatFromBuffer` and the two
  pre-checks `isSVG` and `isAVIF` (`classifier.dfy`);
- the SVG dimension rule: the `viewBox` split on a single space, its pieces read with
  JavaScript's `parseInt` over unbounded integers, and the `width`/`height` fallback
  (`svg_size.dfy`);
- the candidate-URL helpers `handleImageLink`, `isImageLink`,
  `extractImageLinkFromCssPropertyValue`, the loop of `extractImagesFromCssStyles`, and the
  `Set` deduplication (`links.dfy`);
- display names and file names: `extractImageNameAndFileName` with its helpers, and
  `addExtension` (`names.dfy`);
- the batch schedule: slices of 100, the interval drawn after each batch, and the wait
  before the next batch (`scheduler.dfy`);
- `handleImage` and the batch loop, as the class `Extractor.ImageExtractor` with the two
  sequence fields `images` and `imageBuffers` (`extractor.dfy`);
- string helpers with JavaScript semantics (`text.dfy`) and an `Option` type (`wrappers.dfy`).

Bytes are `seq<bv8>`. Reading `buffer[i]` past the end yields `undefined`, which equals no
byte, so every signature test is false on a buffer that is too short. The source compares
some decoded slices with ASCII text (`'PNG'`, `'<svg'`, `'ftypavif'`). UTF-8 decoding maps
each ASCII byte to itself and never absorbs one into a multi-byte sequence, so the model
compares bytes directly.

The browser, the network, `svg-parser`, `sharp` and `image-size` are parameters. A `Fetch`
carries what the browser returned for one candidate: the response or `None` when
`page.goto` threw or gave no response or `response.buffer()` threw, the id that `generateId` drew, and the archive name. `Codecs` carries
the three libraries as partial functions; `None` stands for a thrown exception. Clock
readings (batch durations) and `Math.random()` draws are method inputs.

Behaviours of the code that a reader might not expect, all modelled as the code has them:

- The interval drawn after each batch is `Math.floor(Math.random() * 501 + 500)`, an integer
  from 500 to 1000 inclusive.
- `getImageFormatFromBuffer` knows jpeg, png, gif, webp and bmp only; there is no branch for
  icon files.
- An AVIF image whose transcoding or measuring throws is still recorded, with type
  `Unknown` and its original bytes. It is not skipped.
- Only a content type that starts with `image/` is accepted; `application/octet-stream`
  responses are dropped.
- The `viewBox` is split on a single space character, not on any white space: a
  comma-separated `viewBox` yields `NaN` for both dimensions.
- `isImageLink` tests the pattern `/(https?:\/\/).*\.(jpg|…|tiff)$/i`, which has no `^`
  anchor. A scheme anywhere in the string is enough.
- A measured raster image takes the type its magic bytes give. If `image-size` throws, the
  type stays `Unknown`, even when the magic bytes name a format.

## Model

| member | source | states |
|---|---|---|
| Classifier.ChainIsFirstMatch | src/crawler-class.js:512-534 | the if-chain equals a first-match search over the signature table in the order jpeg, png, gif, webp, bmp |
| Classifier.ImageFormatFromBuffer | src/crawler-class.js:512-534 | the if-chain of `getImageFormatFromBuffer`, with out-of-range reads equal to no byte; its meaning is stated by `ChainIsFirstMatch` and `FormatMeansSignature` |
| Classifier.FirstMatch | src/crawler-class.js:512-534 | the first-match reference search returns the format of the first entry whose signature matches, and `Unknown` when none matches |
| Classifier.FormatMeansSignature | src/crawler-class.js:515-531 | png means byte 0 is `0x89` and bytes 1..3 spell `PNG`; webp means `RIFF` at 0..3 and `WEBP` at 8..11; bmp means `BM`; the table never yields svg |
| Classifier.JpegWhateverFollows | src/crawler-class.js:513-514 | a buffer starting `FF D8` is jpeg whatever follows |
| Classifier.ReadsTwelveBytes | src/crawler-class.js:512-534 | the classifier reads at most the first 12 bytes: appending bytes or cutting to 12 bytes changes nothing |
| Classifier.ShortIsUnknown | src/crawler-class.js:512-534 | a buffer of at most one byte is `Unknown`, so the function is total on short buffers |
| Classifier.SvgTagMakesSvg | src/crawler-class.js:476-479 | `<svg` at any offset whose four bytes end within the first 100 bytes makes `isSVG` true |
| Classifier.IsSvgReadsHundredBytes | src/crawler-class.js:476-479 | bytes from the 101st on never change `isSVG` |
| Classifier.NoAngleNoSvg | src/crawler-class.js:476-479 | without a `<` byte among the first 100 bytes, `isSVG` is false |
| Classifier.AvifBrandMakesAvif | src/crawler-class.js:481-485 | `ftypavif` at bytes 4..11 makes `isAVIF` true whatever surrounds it |
| Classifier.IsSvg | src/crawler-class.js:476-479 | `<svg` occurs within the first 100 bytes; stated by `SvgTagMakesSvg`, `IsSvgReadsHundredBytes`, `NoAngleNoSvg` |
| Classifier.IsAvif | src/crawler-class.js:481-485 | bytes 4..11 spell `ftypavif`; stated by `AvifBrandMakesAvif` |
| SvgSize.ParseDecimal | src/crawler-class.js:363-368 | `parseInt` reads back a decimal numeral as its number, also when a non-digit follows |
| SvgSize.ParseNegativeDecimal | src/crawler-class.js:363-368 | `parseInt` of `-` followed by a numeral is the negated number |
| SvgSize.SkipsLeadingWhiteSpace | src/crawler-class.js:363-368 | leading white space does not change what `parseInt` reads |
| SvgSize.TrimStartSkipsWhiteSpace | src/crawler-class.js:363-368 | the white-space skip of `parseInt` removes a run of white space from the front and stops at the first other character |
| SvgSize.ParseInt | src/crawler-class.js:363-368 | `parseInt` with radix detection, `NaN` as `None`; stated by `ParseDecimal`, `ParseNegativeDecimal`, `SkipsLeadingWhiteSpace` |
| SvgSize.SvgDimensions | src/crawler-class.js:357-369 | pieces 2 and 3 of the `viewBox` split on one space, else the `width`/`height` attributes; stated by `ViewBoxGivesSize`, `AttributesWithoutViewBox`, `CommaViewBoxIsNaN` |
| SvgSize.ViewBoxGivesSize | src/crawler-class.js:357-363 | a `viewBox` `x y W H` written with single spaces gives width `W` and height `H`, whatever the `width`/`height` attributes say |
| SvgSize.AttributesWithoutViewBox | src/crawler-class.js:359-369 | with an absent or empty `viewBox`, the `width` and `height` attributes are read |
| SvgSize.CommaViewBoxIsNaN | src/crawler-class.js:359-363 | a comma-separated `viewBox` has no third piece, so both dimensions are `NaN` |
| SvgSize.Area | src/crawler-class.js:371 | the image size is defined exactly when both dimensions are, and a zero width gives zero |
| Links.StripWebp | src/crawler-class.js:301 | removes one trailing `_webp` when present and is the identity otherwise |
| Links.HandleImageLink | src/crawler-class.js:299-309 | `handleImageLink`; stated by `HandleImageLinkMeaning`, `ResultIsAbsolute`, `NormalisedIsFixedPoint`, `OneMarkerRemoved` |
| Links.HandleImageLinkMeaning | src/crawler-class.js:299-309 | `undefined` exactly for an absent or empty URL; otherwise the input is the stripped URL plus at most one `_webp`, and the result is the stripped URL when it starts with `http`, else `protocolAndDomain` followed by it |
| Links.ResultIsAbsolute | src/crawler-class.js:299-309 | with a page origin that starts with `http`, every result starts with `http` |
| Links.NormalisedIsFixedPoint | src/crawler-class.js:299-309 | an absolute URL without a trailing `_webp` is returned unchanged |
| Links.OneMarkerRemoved | src/crawler-class.js:301 | only one marker is removed: `…_webp_webp` keeps one `_webp` |
| Links.ImageLinkShape | src/crawler-class.js:541-546 | a URL that passes `isImageLink` contains `http://` or `https://` and ends in a dot and one of the eight extensions, ignoring case |
| Links.SchemePathExtensionPasses | src/crawler-class.js:541-546 | any prefix, a scheme, a single-line path, a dot and an extension in any letter case passes |
| Links.RelativeLinkFails | src/crawler-class.js:541-546 | a URL without `http://` or `https://` never passes |
| Links.IsImageLink | src/crawler-class.js:541-546 | the unanchored, case-insensitive image-link pattern; stated by `ImageLinkShape`, `SchemePathExtensionPasses`, `RelativeLinkFails` |
| Links.ExtractImageLinkFromCssPropertyValue | src/crawler-class.js:273-286 | for `url("http…")` the link is the text that, wrapped in `url("` and `")`, gives back the value, and any value starting `url("http` (a layered `url("…"), none` too) yields `value.slice(5, -2)`; for `url("data:…")` it is `decodeURIComponent` of that text, or the decoding error; any other value gives nothing |
| Links.CssUrlRoundTrip | src/crawler-class.js:282-285 | reading a link back out of `url("…")` gives the link written in |
| Links.CssDataRoundTrip | src/crawler-class.js:274-280 | a `data:` payload in `url("…")` comes back percent-decoded, or fails as `decodeURIComponent` does |
| Links.CssCandidates | src/crawler-class.js:251-290 | harvesting fails exactly when some element's value cannot be decoded; otherwise the links are exactly those of the elements that have one, at most one per element |
| Links.StyleCandidate | src/crawler-class.js:263-270 | `--svg` when it starts `url("data:` or `url("http`, else `background-image` when it does; stated by `SvgBeforeBackground` and `SvgDataBeforeBackground` |
| Links.SvgBeforeBackground | src/crawler-class.js:263-270 | an element whose `--svg` is `url("http…")` contributes that link, never its background |
| Links.SvgDataBeforeBackground | src/crawler-class.js:263-270 | an element whose `--svg` is `url("data:…")` contributes the decoded payload whatever its background, or aborts when it does not decode |
| Links.ExtractImagesFromCssStyles | src/crawler-class.js:251-290 | the loop over the styled elements yields the links of the reference definition, in document order |
| Links.Dedup | src/crawler-class.js:325 | the result has no repeats, holds exactly the elements of the input, and is no longer |
| Links.DedupKeepsDistinct | src/crawler-class.js:325 | a list without repeats is kept as it is |
| Links.DedupIdempotent | src/crawler-class.js:325 | removing repeats twice is removing them once |
| Links.DedupKeepsOrder | src/crawler-class.js:325 | appending candidates never drops or reorders the ones already kept |
| Names.ImageNameAndFileName | src/crawler-class.js:571-600 | without a file name the image name is the id; with one, the file name starts the URL's last segment, has an extension and no `/` or `?`, and the image name is its text before the first dot |
| Names.FileNameFromDataUrl | src/crawler-class.js:602-644 | the image name is the id, and a file name is the id followed by `.svg`, `.png` or `.jpg` |
| Names.OrdinaryUrlNames | src/crawler-class.js:553-600 | `dir/stem.ext`, with or without a query, is named `stem` with file name `stem.ext` |
| Names.FirstDotNames | src/crawler-class.js:571-600 | a last segment `stem.rest` that ends in an extension, with or without a query, is named `stem`, the text before its first dot, with file name `stem.rest` |
| Names.TwoDotsNamedByFirst | src/crawler-class.js:582-584 | `h/a.b.png` is named `a` with file name `a.b.png` |
| Names.NoExtensionNamedById | src/crawler-class.js:571-600 | a last segment without an extension, with or without a query, is named by the id, with no file name |
| Names.QueryExtensionIgnored | src/crawler-class.js:571-600 | `h/x?y.png` is named by the id: the query is cut off before the extension test |
| Names.DataUrlNames | src/crawler-class.js:553-644 | `data:<mime>,…` or `data:<mime>;…` is named by the id, and its file name is the id with the extension of the MIME type, or `null` for any other MIME type |
| Names.IsDataUrl | src/crawler-class.js:560-569 | `isDataUrl`: the URL starts with `data:`; used by `ExtractImageNameAndFileName` and stated through `DataUrlNames` and `OrdinaryUrlNames` |
| Names.MimeExtension | src/crawler-class.js:615-628 | the switch on the MIME type: `.svg`, `.png`, `.jpg` for the three known types, `null` otherwise; stated through `DataUrlNames` |
| Names.ExtractImageNameAndFileName | src/crawler-class.js:553-558 | data URLs by MIME type, every other URL by its last segment; stated by `OrdinaryUrlNames`, `FirstDotNames`, `NoExtensionNamedById`, `DataUrlNames` |
| Names.AddExtension | src/crawler-class.js:654-665 | `addExtension`; stated by `AddExtensionResult`, `AddExtensionIdempotent` |
| Names.AddExtensionResult | src/crawler-class.js:654-665 | a name with an extension is returned unchanged; any other name gets exactly `.png` appended; the result always has an extension |
| Names.AddExtensionIdempotent | src/crawler-class.js:654-665 | adding the extension twice is adding it once |
| Scheduler.BatchesCover | src/crawler-class.js:442-443 | the batches, concatenated, are the whole candidate list in order |
| Scheduler.BatchesCount | src/crawler-class.js:442-443 | there are ⌈n/100⌉ batches |
| Scheduler.BatchIsSlice | src/crawler-class.js:442-443 | batch `k` is `images.slice(100k, 100k + 100)` |
| Scheduler.BatchSizes | src/crawler-class.js:442-443 | every batch holds 1 to 100 candidates, and all but the last exactly 100 |
| Scheduler.TwoHundredFifty | src/crawler-class.js:442-443 | 250 candidates make three batches of 100, 100 and 50 |
| Scheduler.Batches | src/crawler-class.js:442-443 | the slices of 100; stated by `BatchesCover`, `BatchesCount`, `BatchIsSlice`, `BatchSizes` |
| Scheduler.DrawInterval | src/crawler-class.js:468 | every drawn interval lies in 500..1000 |
| Scheduler.EveryIntervalCanBeDrawn | src/crawler-class.js:468 | every integer from 500 to 1000 can be drawn |
| Scheduler.Delay | src/crawler-class.js:444-449 | `timeRemaining` when positive, else no wait; stated by `DelayThrottles` |
| Scheduler.Waits | src/crawler-class.js:442-469 | the wait before each batch; stated by `WaitsBounds`, `WaitIsDelay` |
| Scheduler.DelayThrottles | src/crawler-class.js:444-449 | a wait happens only when the interval exceeds the elapsed time; the batch time plus the wait is at least the interval, and exactly the interval when there was a wait |
| Scheduler.WaitsBounds | src/crawler-class.js:442-469 | no wait before the first batch; at least 500 ms between batch starts; no wait over 1000 ms |
| Scheduler.WaitIsDelay | src/crawler-class.js:444-468 | the wait before batch `b` is what batch `b - 1` left of the interval drawn after it |
| Scheduler.AsWrittenAgreesWithoutWrap | src/crawler-class.js:451-466 | without a 10-second boundary inside a batch, the source's modulo clock gives the intended wait |
| Scheduler.DelayAsWritten | src/crawler-class.js:444-466 | the wait computed from `Date.now() % 10000` readings; stated by `AsWrittenAgreesWithoutWrap`, `WrapInflatesDelay` |
| Scheduler.WrapInflatesDelay | src/crawler-class.js:444-466 | a 20 ms batch that crosses a 10-second boundary turns a 500 ms interval into a 10480 ms wait |
| Extractor.Classify | src/crawler-class.js:349-404 | no record exactly when an SVG fails to parse; svg exactly when `isSVG`; the size is the product of the dimensions; a named raster type matches the stored bytes; bytes differ from the body only on the AVIF path, and then they are the transcoded bytes |
| Extractor.SvgTakesPrecedence | src/crawler-class.js:349-372 | `<svg` wins over JPEG magic bytes |
| Extractor.AvifKeptAsJpeg | src/crawler-class.js:372-387 | an AVIF body is recorded with the transcoded bytes, their type and their dimensions |
| Extractor.AvifFailureKeepsOriginal | src/crawler-class.js:372-390 | an AVIF body whose transcoding or measuring throws is recorded as `Unknown` with its own bytes |
| Extractor.ProbeFailureIsUnknown | src/crawler-class.js:391-404 | a body that is neither SVG nor AVIF and that `image-size` cannot measure is recorded as `Unknown`, without dimensions, with its own bytes |
| Extractor.UnmeasuredIsUnknown | src/crawler-class.js:391-404 | as a consequence of `ProbeFailureIsUnknown`: a body with JPEG magic bytes that `image-size` cannot measure is still `Unknown` |
| Extractor.SvgMeasured | src/crawler-class.js:349-371 | a parsed SVG is recorded as `svg` with its own bytes, the size `SvgDimensions` gives for the parsed root, and their product |
| Extractor.RasterMeasured | src/crawler-class.js:391-400 | a body that is neither SVG nor AVIF and that `image-size` measures gets its magic-byte type, the measured size and its own bytes |
| Extractor.SvgViewBoxRecorded | src/crawler-class.js:349-371 | an SVG whose root has `viewBox` `x y W H` is recorded as `W` by `H` with size `W * H` |
| Extractor.ItemOutcome | src/crawler-class.js:327-429 | the two records `handleImage` pushes for one candidate, or none; stated by `ItemOutcomeMeaning` |
| Extractor.IsImageResponse | src/crawler-class.js:334-342 | the content type is present and starts with `image/`; stated through `ItemOutcomeMeaning` and `NonImageIgnored` |
| Extractor.ItemOutcomeMeaning | src/crawler-class.js:327-429 | a candidate yields records exactly when the fetch succeeded, the content type starts with `image/` and any SVG parsed; both records share id, name and type; `fileSize` is the original body length |
| Extractor.JpegResponseRecorded | src/crawler-class.js:336-423 | a 200-byte `image/jpeg` response starting `FF D8` is recorded as jpeg with `fileSize` 200, under one id in both lists |
| Extractor.NonImageIgnored | src/crawler-class.js:336-342 | a `text/html` response, a missing content type or a failed fetch adds nothing |
| Extractor.ImagesInLength | src/crawler-class.js:406-423 | both lists grow by the number of candidates that yield records |
| Extractor.ImagesInStep | src/crawler-class.js:406-423 | handling one more candidate appends its records and nothing else |
| Extractor.ImagesInFrom | src/crawler-class.js:406-423 | every entry of the two lists at the same position comes from the same candidate |
| Extractor.OutcomesPaired | src/crawler-class.js:406-423 | the two lists have equal length and agree entry by entry on id, name and type |
| Extractor.OutcomesUnique | src/crawler-class.js:338-423 | distinct drawn ids give distinct ids in the result, all of them drawn ids |
| Extractor.OutcomesOfCandidates | src/crawler-class.js:338-423 | every candidate's records agree and carry the id drawn for it |
| Extractor.OutcomeAt | src/crawler-class.js:327-429 | entry `k` of the outcomes is what `handleImage` makes of candidate `k` |
| Extractor.BufferLookupFindsPair | src/main.js:37-40 | the lookup of a buffer by an image's id finds the buffer at the image's own position |
| Extractor.ImageExtractor.constructor | src/crawler-class.js:28-29 | both lists start empty |
| Extractor.ImageExtractor.HandleImage | src/crawler-class.js:327-429 | appends the candidate's records to both lists, or nothing, keeping the lists paired |
| Extractor.ImageExtractor.HandleBatch | src/crawler-class.js:452-464 | handles a batch's candidates in turn, extending both lists by their records |
| Extractor.ImageExtractor.FetchInBatches | src/crawler-class.js:434-469 | the loop forms exactly the 100-slices, waits the schedule's pauses, and leaves both lists extended by every candidate's records, paired |
| Extractor.ImageExtractor.ExtractImages | src/crawler-class.js:325-469 | removes repeated candidates, then runs the batch loop over the rest |

## Left out

- Browser launch, navigation, the viewport and page lifecycle, the auto-scroll and
  `scrollToEnd`: these are browser I/O and wall-clock timers.
- DOM querying and serialisation: the element rules of the harvesting script, the inline
  SVG serialisation and the favicon lookup have no DOM to run on. Only the pure string
  helpers they call are modelled.
- `svg-parser`, `sharp`, `image-size`: foreign libraries, modelled as the partial functions
  of `Codecs`. `SvgRoot` holds the root element's attributes as text.
- SvgSize.SvgDimensions: `svg-parser` turns attribute values that look numeric into
  JavaScript numbers before lines 357-369 see them; the model keeps every attribute as text.
  So `viewBox="0"` (falsy in the source, which then reads `width`/`height`) is split in
  the model and gives `NaN`; `viewBox="24"` (a number, on which `.split` throws and the item
  is skipped by the catch at line 425) is recorded with `NaN` dimensions in the model; and
  `width="1e3"` (1000 in the source) reads as 1 in the model. The parser's conversion is not
  part of this model.
- `generateId` (`Math.random`): ids arrive as inputs in each `Fetch`. Distinctness is a
  precondition of `OutcomesUnique`.
- The archive name `domain-epochMillis` is an input in each `Fetch`. `parseLinkReturnDomain`
  and the clock are not modelled.
- `Date.now() % 10000`: batch durations are inputs. The modulo arithmetic of the source is
  modelled separately, as `Scheduler.DelayAsWritten`, under Findings.
- `parseLink`, `generateOriginalImageUrl`, `validateAndModifyFileName` from `./utils/`:
  the files are not part of this model.
- The `multipleSites` loop of `start`, `src/main.js` routes and ZIP packaging, and
  `src/config.js`: orchestration and plumbing.
- `decodeURIComponent` is a parameter. It returns `None` for a malformed escape. In the
  source that error rejects the `page.evaluate` awaited at line 218 inside the
  `new Promise(async (resolve) => …)` executor of line 68, so `resolve` at line 471 is never
  reached: `extractImages` never settles and the rejection goes unhandled. The model only
  reports the failure (`CssCandidates` is `None`); the hang is not modelled.
- Extractor.ImageExtractor.HandleBatch: the source starts all fetches of a batch at once
  and pushes records in completion order. The model handles them one at a time, in
  candidate order. The pairing of the two lists holds in either order, because the two
  pushes of one candidate run with no `await` between them.
- Extractor.ImageExtractor.FetchInBatches: the wait is an output, not a pause. The model
  does not capture real time passing.
- Scheduler.DrawInterval: `Math.random()` is a real number in `[0, 1)`, not an IEEE double.
  Floating-point rounding of `u * 501 + 500` is not modelled.
- SvgSize.ParseInt: JavaScript's `parseInt` returns an IEEE double; the model returns an
  unbounded integer. Numerals above 2^53 are not rounded (`9007199254740993` stays as it is)
  and numerals too large for a double do not become `Infinity`.
- SvgSize.Area: `width * height` is a double product in the source; the model multiplies
  unbounded integers, so it neither rounds large products nor gives `NaN` for `0 * Infinity`.
- Extractor.Classify: `parseInt(imageSizeResult.width)` is modelled as taking integer
  dimensions from `image-size`. A missing dimension there is not modelled.
- The `name … || ''` fallback of `handleImage` changes nothing observable, because the image
  name is never `undefined`. It is not modelled separately.

## Findings

| source | as written | input that shows it | evidently intended | confidence | as-written member | corrected member |
|---|---|---|---|---|---|---|
| src/crawler-class.js:444-466 | the batch time is `endTime - startTime` with both readings taken as `Date.now() % 10000` | a 20 ms batch read at 9990 and 10010 ms gives -9980 ms, so a 500 ms interval becomes a 10480 ms wait | the wait is the interval minus the real batch time, so it never exceeds 1000 ms | not executed; high | Scheduler.WrapInflatesDelay | Scheduler.DelayThrottles |
