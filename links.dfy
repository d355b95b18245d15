/**
 * The candidate-URL helpers of the harvesting script: `handleImageLink`,
 * `isImageLink`, `extractImageLinkFromCssPropertyValue` with the loop of
 * `extractImagesFromCssStyles` that calls it, and the `Set` that removes
 * duplicate candidates.
 */
module Links {
  import opened Wrappers
  import opened Text

  /** The variant marker that `handleImageLink` removes from the end of a URL. */
  const WebpMarker: string := "_webp"

  /** `url.replace(/_webp$/, '')`: one trailing marker removed. */
  function StripWebp(url: string): (r: string)
    ensures EndsWith(url, WebpMarker) ==> url == r + WebpMarker
    ensures !EndsWith(url, WebpMarker) ==> r == url
  {
    if EndsWith(url, WebpMarker) then url[..|url| - |WebpMarker|] else url
  }

  /**
   * `handleImageLink(url, protocolAndDomain)`: `undefined` for an absent or
   * empty URL; otherwise the URL without its trailing marker, prefixed with
   * the page's protocol and domain unless it starts with `http`.
   */
  function HandleImageLink(url: Option<string>, protocolAndDomain: string): Option<string>
  {
    match url
    case None => None
    case Some(u) =>
      if u == "" then None
      else
        var stripped := StripWebp(u);
        if StartsWith(stripped, "http") then Some(stripped) else Some(protocolAndDomain + stripped)
  }

  /** What `handleImageLink` returns, in terms of its input. */
  lemma HandleImageLinkMeaning(url: Option<string>, protocolAndDomain: string)
    ensures HandleImageLink(url, protocolAndDomain).None? <==> url == None || url == Some("")
    ensures url.Some? && url.value != "" ==>
      var r := HandleImageLink(url, protocolAndDomain).value;
      (exists m :: (m == "" || m == WebpMarker) && url.value == StripWebp(url.value) + m)
      && EndsWith(r, StripWebp(url.value))
      && (StartsWith(StripWebp(url.value), "http") ==> r == StripWebp(url.value))
      && (!StartsWith(StripWebp(url.value), "http") ==> r == protocolAndDomain + StripWebp(url.value))
  {
    if url.Some? && url.value != "" {
      var u := url.value;
      var s := StripWebp(u);
      var r := HandleImageLink(url, protocolAndDomain).value;
      if EndsWith(u, WebpMarker) {
        assert u == s + WebpMarker;
      } else {
        assert u == s + "";
      }
      assert r[|r| - |s|..] == s;
    }
  }

  /** With an absolute page origin every result is absolute: it starts with `http`. */
  lemma ResultIsAbsolute(url: string, protocolAndDomain: string)
    requires url != ""
    requires StartsWith(protocolAndDomain, "http")
    ensures StartsWith(HandleImageLink(Some(url), protocolAndDomain).value, "http")
  {
    var s := StripWebp(url);
    if !StartsWith(s, "http") {
      assert (protocolAndDomain + s)[..4] == protocolAndDomain[..4];
    }
  }

  /** An absolute URL without the marker is left as it is: normalising a normalised URL changes nothing. */
  lemma NormalisedIsFixedPoint(url: string, protocolAndDomain: string)
    requires StartsWith(url, "http") && !EndsWith(url, WebpMarker)
    ensures HandleImageLink(Some(url), protocolAndDomain) == Some(url)
  {
  }

  /** Only one marker is removed: a doubly marked URL keeps one. */
  lemma OneMarkerRemoved()
    ensures HandleImageLink(Some("http://a/b_webp_webp"), "") == Some("http://a/b_webp")
  {
    assert EndsWith("http://a/b_webp_webp", WebpMarker);
    assert "http://a/b_webp_webp"[..15] == "http://a/b_webp";
  }

  /** The image extensions of the `isImageLink` pattern, in lower case. */
  const ImageExtensions: seq<string> := ["jpg", "jpeg", "png", "gif", "bmp", "webp", "svg", "tiff"]

  /** The characters that `.` in a regular expression does not match. */
  predicate IsLineTerminator(ch: char)
  {
    ch == '\n' || ch == '\r' || ch == '\U{2028}' || ch == '\U{2029}'
  }

  /** `s` ends in a dot and `ext`, the case of letters aside. */
  predicate EndsWithExtension(s: string, ext: string)
  {
    |s| >= |ext| + 1 && s[|s| - |ext| - 1] == '.' && EqualsIgnoringCase(s[|s| - |ext|..], ext)
  }

  /** `http://` or `https://`, the case of letters aside, starts at `i` and ends at or before `dot`. */
  predicate SchemeAt(s: string, i: nat, dot: nat)
  {
    (i + 7 <= dot && dot <= |s| && EqualsIgnoringCase(s[i..i + 7], "http://"))
    || (i + 8 <= dot && dot <= |s| && EqualsIgnoringCase(s[i..i + 8], "https://"))
  }

  /** The end of the scheme that starts at `i`: where `.*` begins. */
  function SchemeEnd(s: string, i: nat, dot: nat): nat
    requires SchemeAt(s, i, dot)
  {
    if i + 7 <= dot && dot <= |s| && EqualsIgnoringCase(s[i..i + 7], "http://") then i + 7 else i + 8
  }

  /** No line terminator in `s[from..to]`. */
  predicate OnOneLine(s: string, from: nat, to: nat)
    requires from <= to <= |s|
  {
    forall m :: from <= m < to ==> !IsLineTerminator(s[m])
  }

  /**
   * The pattern `/(https?:\/\/).*\.(ext)$/i` matches with the given
   * extension: a scheme somewhere (the pattern has no `^`), any characters
   * other than line terminators, a dot, and the extension at the very end.
   */
  predicate MatchesWith(s: string, ext: string)
  {
    EndsWithExtension(s, ext) &&
    var dot := |s| - |ext| - 1;
    exists i: nat :: i < dot && SchemeAt(s, i, dot) && OnOneLine(s, SchemeEnd(s, i, dot), dot)
  }

  /**
   * `isImageLink(url)`: the image-link pattern matches. An absent URL is
   * tested as the text `"undefined"`, which it does not match.
   */
  predicate IsImageLink(url: Option<string>)
  {
    url.Some? && exists k :: 0 <= k < |ImageExtensions| && MatchesWith(url.value, ImageExtensions[k])
  }

  /** A scheme that ends before `dot` also ends before any later position. */
  lemma SchemeWidens(s: string, i: nat, dot: nat, end: nat)
    requires SchemeAt(s, i, dot) && dot <= end <= |s|
    ensures SchemeAt(s, i, end)
  {
  }

  /** A URL that passes names a scheme and ends in one of the extensions. */
  lemma ImageLinkShape(url: string)
    requires IsImageLink(Some(url))
    ensures exists k :: 0 <= k < |ImageExtensions| && EndsWithExtension(url, ImageExtensions[k])
    ensures exists i: nat :: SchemeAt(url, i, |url|)
  {
    var k :| 0 <= k < |ImageExtensions| && MatchesWith(url, ImageExtensions[k]);
    var dot := |url| - |ImageExtensions[k]| - 1;
    var i: nat :| i < dot && SchemeAt(url, i, dot) && OnOneLine(url, SchemeEnd(url, i, dot), dot);
    SchemeWidens(url, i, dot, |url|);
  }

  /**
   * `scheme + rest + "." + ext` passes when `rest` is on one line, whatever
   * comes before the scheme (the pattern has no `^`) and whatever the case of
   * the extension.
   */
  lemma SchemePathExtensionPasses(prefix: string, secure: bool, rest: string, k: nat, ext: string)
    requires k < |ImageExtensions| && EqualsIgnoringCase(ext, ImageExtensions[k])
    requires forall m :: 0 <= m < |rest| ==> !IsLineTerminator(rest[m])
    ensures IsImageLink(Some(prefix + (if secure then "https://" else "http://") + rest + "." + ext))
  {
    var scheme := if secure then "https://" else "http://";
    var s := prefix + scheme + rest + "." + ext;
    var dot := |s| - |ext| - 1;
    assert s[dot] == '.';
    assert s[|s| - |ext|..] == ext;
    assert EqualsIgnoringCase(ext, ext);
    assert |ext| == |ImageExtensions[k]|;
    assert EndsWithExtension(s, ImageExtensions[k]) by {
      assert s[|s| - |ImageExtensions[k]|..] == ext;
    }
    var i := |prefix|;
    assert s[i..i + |scheme|] == scheme;
    assert EqualsIgnoringCase(scheme, scheme);
    assert SchemeAt(s, i, dot);
    forall m | i + |scheme| <= m < dot ensures !IsLineTerminator(s[m]) {
      assert s[m] == rest[m - i - |scheme|];
    }
    assert MatchesWith(s, ImageExtensions[k]);
  }

  /** A relative URL never passes: without `http://` or `https://` there is no match. */
  lemma RelativeLinkFails(url: string)
    requires forall i: nat :: !SchemeAt(url, i, |url|)
    ensures !IsImageLink(Some(url))
  {
    if IsImageLink(Some(url)) {
      ImageLinkShape(url);
    }
  }

  /** What a CSS property value yields. */
  datatype CssLink = NotALink | Link(url: string) | Undecodable

  /** The opening of a CSS `url("...")` value. */
  const UrlOpen: string := "url(\""

  /**
   * `extractImageLinkFromCssPropertyValue(value)`: for `url("data:…")` the
   * percent-decoded text of `value.slice(5, -2)`, for `url("http…")` that
   * slice itself, otherwise nothing. `decode` is `decodeURIComponent`;
   * `None` is the URIError it throws on a malformed escape.
   */
  function ExtractImageLinkFromCssPropertyValue(value: string, decode: string -> Option<string>): (r: CssLink)
    ensures StartsWith(value, UrlOpen + "http") && EndsWith(value, "\")") ==>
      r.Link? && value == UrlOpen + r.url + "\")" && StartsWith(r.url, "http")
    ensures StartsWith(value, UrlOpen + "data:") && EndsWith(value, "\")") ==>
      exists payload :: value == UrlOpen + payload + "\")" && StartsWith(payload, "data:") &&
        (decode(payload).None? ==> r == Undecodable) &&
        (decode(payload).Some? ==> r == Link(decode(payload).value))
    ensures StartsWith(value, UrlOpen + "http") ==> r == Link(value[5..|value| - 2])
    ensures r != NotALink <==> StartsWith(value, UrlOpen + "data:") || StartsWith(value, UrlOpen + "http")
  {
    if StartsWith(value, UrlOpen + "data:") then
      assert value[..10][5] == 'd';
      assert !StartsWith(value, UrlOpen + "http") by {
        assert value[5] == 'd';
        if |value| >= 9 {
          assert value[..9][5] == value[5];
        }
      }
      var payload := value[5..|value| - 2];
      assert EndsWith(value, "\")") ==> value == UrlOpen + payload + "\")" && StartsWith(payload, "data:") by {
        if EndsWith(value, "\")") {
          assert value[|value| - 2] == '"' && value[8] == 'a' && value[9] == ':';
          assert value == value[..5] + payload + value[|value| - 2..];
          assert payload[..5] == value[5..10];
        }
      }
      match decode(payload)
      case None => Undecodable
      case Some(text) => Link(text)
    else if StartsWith(value, UrlOpen + "http") then
      var link := value[5..|value| - 2];
      assert EndsWith(value, "\")") ==> value == UrlOpen + link + "\")" && StartsWith(link, "http") by {
        if EndsWith(value, "\")") {
          assert value[|value| - 2] == '"' && value[7] == 't' && value[8] == 'p';
          assert value == value[..5] + link + value[|value| - 2..];
          assert link[..4] == value[5..9];
        }
      }
      Link(link)
    else NotALink
  }

  /** Reading the link back out of `url("…")` gives the link that was written in. */
  lemma CssUrlRoundTrip(link: string, decode: string -> Option<string>)
    requires StartsWith(link, "http")
    ensures ExtractImageLinkFromCssPropertyValue(UrlOpen + link + "\")", decode) == Link(link)
  {
    var v := UrlOpen + link + "\")";
    assert v[..9] == UrlOpen + link[..4];
    assert v[5..|v| - 2] == link;
  }

  /** A data URL written into `url("…")` comes back percent-decoded. */
  lemma CssDataRoundTrip(payload: string, decode: string -> Option<string>)
    requires StartsWith(payload, "data:")
    ensures ExtractImageLinkFromCssPropertyValue(UrlOpen + payload + "\")", decode)
         == (match decode(payload) case None => Undecodable case Some(text) => Link(text))
  {
    var v := UrlOpen + payload + "\")";
    assert v[..10] == UrlOpen + payload[..5];
    assert v[5..|v| - 2] == payload;
  }

  /** The computed `--svg` and `background-image` values of one element, `""` when unset. */
  datatype ComputedStyle = ComputedStyle(svg: string, backgroundImage: string)

  /** A value the loop passes on to the extractor: it starts `url("data:` or `url("http`. */
  predicate IsCssImageValue(value: string)
  {
    value != "" && (StartsWith(value, UrlOpen + "data:") || StartsWith(value, UrlOpen + "http"))
  }

  /** The candidates of one element: `--svg` when it qualifies, else `background-image` when it does. */
  function StyleCandidate(style: ComputedStyle, decode: string -> Option<string>): CssLink
  {
    if IsCssImageValue(style.svg) then ExtractImageLinkFromCssPropertyValue(style.svg, decode)
    else if IsCssImageValue(style.backgroundImage) then ExtractImageLinkFromCssPropertyValue(style.backgroundImage, decode)
    else NotALink
  }

  /**
   * The links of the first `n` elements in document order; `None` when a
   * decoding error aborts the script.
   */
  function CssCandidates(styles: seq<ComputedStyle>, n: nat, decode: string -> Option<string>): (r: Option<seq<string>>)
    requires n <= |styles|
    ensures r.Some? ==> |r.value| <= n
    ensures r.None? <==> exists k :: 0 <= k < n && StyleCandidate(styles[k], decode).Undecodable?
    ensures r.Some? ==>
      forall x :: x in r.value <==> exists k :: 0 <= k < n && StyleCandidate(styles[k], decode) == Link(x)
    decreases n
  {
    if n == 0 then Some([])
    else
      match CssCandidates(styles, n - 1, decode)
      case None => None
      case Some(links) =>
        match StyleCandidate(styles[n - 1], decode)
        case NotALink => Some(links)
        case Link(url) => Some(links + [url])
        case Undecodable => None
  }

  /** An element whose `--svg` qualifies contributes its `--svg` link, never its background. */
  lemma SvgBeforeBackground(style: ComputedStyle, decode: string -> Option<string>)
    requires StartsWith(style.svg, UrlOpen + "http")
    ensures StyleCandidate(style, decode) == Link(style.svg[5..|style.svg| - 2])
  {
    assert style.svg[..9][5] == 'h';
    assert !StartsWith(style.svg, UrlOpen + "data:") by {
      if |style.svg| >= 10 {
        assert style.svg[..10][5] == 'h';
      }
    }
  }

  /**
   * An element whose `--svg` is `url("data:…")` contributes that payload,
   * percent-decoded, whatever its background says; a payload that does not
   * decode aborts the script.
   */
  lemma SvgDataBeforeBackground(payload: string, background: string, decode: string -> Option<string>)
    requires StartsWith(payload, "data:")
    ensures StyleCandidate(ComputedStyle(UrlOpen + payload + "\")", background), decode)
         == (match decode(payload) case None => Undecodable case Some(text) => Link(text))
  {
    var v := UrlOpen + payload + "\")";
    CssDataRoundTrip(payload, decode);
    assert v[..10] == UrlOpen + payload[..5];
  }

  /**
   * `extractImagesFromCssStyles`: walk the elements in order, pushing the
   * link of each one that has a qualifying value.
   */
  method ExtractImagesFromCssStyles(styles: seq<ComputedStyle>, decode: string -> Option<string>)
    returns (images: Option<seq<string>>)
    ensures images == CssCandidates(styles, |styles|, decode)
  {
    var found: seq<string> := [];
    for i := 0 to |styles|
      invariant CssCandidates(styles, i, decode) == Some(found)
    {
      var style := styles[i];
      var link := NotALink;
      if style.svg != "" && (StartsWith(style.svg, UrlOpen + "data:") || StartsWith(style.svg, UrlOpen + "http")) {
        link := ExtractImageLinkFromCssPropertyValue(style.svg, decode);
      } else if style.backgroundImage != ""
        && (StartsWith(style.backgroundImage, UrlOpen + "data:") || StartsWith(style.backgroundImage, UrlOpen + "http")) {
        link := ExtractImageLinkFromCssPropertyValue(style.backgroundImage, decode);
      }
      match link
      case NotALink =>
      case Link(url) => found := found + [url];
      case Undecodable => return None;
    }
    return Some(found);
  }

  /** No element occurs twice. */
  predicate Distinct<T(==)>(s: seq<T>)
  {
    forall i, j :: 0 <= i < j < |s| ==> s[i] != s[j]
  }

  /**
   * `[...new Set(s)]`: the first occurrence of each element, in the order
   * in which the elements first occur.
   */
  function Dedup(s: seq<string>): (r: seq<string>)
    ensures Distinct(r)
    ensures forall x :: x in r <==> x in s
    ensures |r| <= |s|
    decreases |s|
  {
    if s == [] then []
    else
      var r := Dedup(s[..|s| - 1]);
      var x := s[|s| - 1];
      assert forall y :: y in s <==> y in s[..|s| - 1] || y == x;
      if x in r then r else r + [x]
  }

  /** A list without duplicates is kept as it is. */
  lemma {:induction false} DedupKeepsDistinct(s: seq<string>)
    requires Distinct(s)
    ensures Dedup(s) == s
    decreases |s|
  {
    if s != [] {
      var init := s[..|s| - 1];
      assert Distinct(init);
      DedupKeepsDistinct(init);
      assert s[|s| - 1] !in init;
      assert init + [s[|s| - 1]] == s;
    }
  }

  /** Removing duplicates twice is removing them once. */
  lemma DedupIdempotent(s: seq<string>)
    ensures Dedup(Dedup(s)) == Dedup(s)
  {
    DedupKeepsDistinct(Dedup(s));
  }

  /** Adding candidates after the first ones never reorders or drops those already kept. */
  lemma {:induction false} DedupKeepsOrder(s: seq<string>, t: seq<string>)
    ensures |Dedup(s)| <= |Dedup(s + t)| && Dedup(s + t)[..|Dedup(s)|] == Dedup(s)
    decreases |t|
  {
    if t == [] {
      assert s + t == s;
    } else {
      var t' := t[..|t| - 1];
      DedupKeepsOrder(s, t');
      assert (s + t)[..|s + t| - 1] == s + t';
    }
  }
}
