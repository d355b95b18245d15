/**
 * Display names and file names of harvested images:
 * `extractImageNameAndFileName` with its helpers `isDataUrl`,
 * `getImageNameAndFileName` and `getFileNameFromDataUrl`, and the class
 * method `addExtension`.
 */
module Names {
  import opened Wrappers
  import opened Text

  /** The `{ imageName, fileName }` object; `fileName` may be `null`. */
  datatype ImageNames = ImageNames(imageName: string, fileName: Option<string>)

  /** `isDataUrl`: the URL starts with `data:`. */
  predicate IsDataUrl(url: string)
  {
    StartsWith(url, "data:")
  }

  /** A prefix of a string without `c` holds no `c` either. */
  lemma PrefixKeepsAbsence(s: string, p: string, c: char)
    requires StartsWith(s, p) && c !in s
    ensures c !in p
  {
  }

  /**
   * `getImageNameAndFileName(url, id)`: the segment after the last `/`, cut
   * at the first `?` when it has one. A segment ending in a dot and word
   * characters is the file name and its text before the first dot is the
   * image name; otherwise the image name is `id` and there is no file name.
   */
  function ImageNameAndFileName(url: string, id: string): (r: ImageNames)
    ensures r.fileName.None? ==> r.imageName == id
    ensures r.fileName.Some? ==>
      var f := r.fileName.value;
      HasExtension(f) && '/' !in f && '?' !in f && StartsWith(AfterLast(url, '/'), f) &&
      StartsWith(f, r.imageName + ".") && '.' !in r.imageName
  {
    var segment := AfterLast(url, '/');
    var fileName := if '?' in segment then BeforeFirst(segment, '?') else segment;
    AfterLastIsSuffix(url, '/');
    BeforeFirstIsPrefix(segment, '?');
    assert StartsWith(segment, fileName) && '?' !in fileName;
    PrefixKeepsAbsence(segment, fileName, '/');
    BeforeFirstIsPrefix(fileName, '.');
    if HasExtension(fileName) then ImageNames(BeforeFirst(fileName, '.'), Some(fileName))
    else ImageNames(id, None)
  }

  /** The extension of the three MIME types the source knows; `null` for every other. */
  function MimeExtension(mime: string): Option<string>
  {
    if mime == "image/svg+xml" then Some(".svg")
    else if mime == "image/png" then Some(".png")
    else if mime == "image/jpeg" then Some(".jpg")
    else None
  }

  /**
   * `getFileNameFromDataUrl(url, id)`: the MIME type is the text before the
   * first `,`, then before the first `;`, without its first five characters
   * (`data:`); the image name is `id` and the file name is `id` with the
   * extension of that MIME type, or `null`.
   */
  function FileNameFromDataUrl(url: string, id: string): (r: ImageNames)
    ensures r.imageName == id
    ensures r.fileName.Some? ==> r.fileName.value in {id + ".svg", id + ".png", id + ".jpg"}
  {
    var mime := SliceFrom(BeforeFirst(BeforeFirst(url, ','), ';'), 5);
    match MimeExtension(mime)
    case None => ImageNames(id, None)
    case Some(ext) => ImageNames(id, Some(id + ext))
  }

  /** `extractImageNameAndFileName(url, id)`: data URLs by MIME type, every other URL by its last segment. */
  function ExtractImageNameAndFileName(url: string, id: string): ImageNames
  {
    if IsDataUrl(url) then FileNameFromDataUrl(url, id) else ImageNameAndFileName(url, id)
  }

  /**
   * A URL whose last segment is `stem.rest`, optionally followed by a query,
   * and ends in an extension is named by the text before its FIRST dot:
   * `dir/a.b.png` is named `a`, with file name `a.b.png`.
   */
  lemma FirstDotNames(dir: string, stem: string, rest: string, query: string, id: string)
    requires '/' !in stem && '?' !in stem && '.' !in stem
    requires '/' !in rest && '?' !in rest
    requires HasExtension(stem + "." + rest)
    requires query == "" || (query[0] == '?' && '/' !in query)
    requires !IsDataUrl(dir + "/" + stem + "." + rest + query)
    ensures ExtractImageNameAndFileName(dir + "/" + stem + "." + rest + query, id)
         == ImageNames(stem, Some(stem + "." + rest))
  {
    var file := stem + "." + rest;
    var url := dir + "/" + file + query;
    assert dir + "/" + stem + "." + rest + query == url;
    assert '/' !in file && '?' !in file;
    assert url == dir + ['/'] + (file + query);
    AfterLastOf(dir, '/', file + query);
    if query == "" {
      assert file + query == file;
    } else {
      assert file + query == file + ['?'] + query[1..];
      BeforeFirstOf(file, '?', query[1..]);
    }
    var segment := AfterLast(url, '/');
    assert segment == file + query;
    var fileName := if '?' in segment then BeforeFirst(segment, '?') else segment;
    assert fileName == file;
    assert file == stem + ['.'] + rest;
    BeforeFirstOf(stem, '.', rest);
    assert ImageNameAndFileName(url, id) == ImageNames(stem, Some(file));
  }

  /**
   * A URL `dir/stem.ext`, optionally followed by a query, is named `stem`
   * with file name `stem.ext`.
   */
  lemma OrdinaryUrlNames(dir: string, stem: string, ext: string, query: string, id: string)
    requires '/' !in stem && '?' !in stem && '.' !in stem
    requires |ext| >= 1 && forall m :: 0 <= m < |ext| ==> IsWordChar(ext[m])
    requires query == "" || (query[0] == '?' && '/' !in query)
    requires !IsDataUrl(dir + "/" + stem + "." + ext + query)
    ensures ExtractImageNameAndFileName(dir + "/" + stem + "." + ext + query, id)
         == ImageNames(stem, Some(stem + "." + ext))
  {
    assert '/' !in ext && '?' !in ext;
    ExtensionOfSuffix(stem, ext);
    FirstDotNames(dir, stem, ext, query, id);
  }

  /** `h/a.b.png` is named `a`: the image name stops at the first dot, not the last. */
  lemma TwoDotsNamedByFirst(id: string)
    ensures ExtractImageNameAndFileName("h/a.b.png", id) == ImageNames("a", Some("a.b.png"))
  {
    ExtensionOfSuffix("a.b", "png");
    assert "a" + "." + "b.png" == "a.b" + "." + "png" == "a.b.png";
    assert "h" + "/" + "a" + "." + "b.png" + "" == "h/a.b.png";
    assert !IsDataUrl("h/a.b.png") by {
      assert "h/a.b.png"[0] != "data:"[0];
    }
    FirstDotNames("h", "a", "b.png", "", id);
  }

  /**
   * A segment without an extension, optionally followed by a query, is named
   * by the id, with no file name: `h/photo?w=300`, and also `h/x?y.png`,
   * whose query only looks like an extension.
   */
  lemma NoExtensionNamedById(dir: string, segment: string, query: string, id: string)
    requires '/' !in segment && '?' !in segment && !HasExtension(segment)
    requires query == "" || (query[0] == '?' && '/' !in query)
    requires !IsDataUrl(dir + "/" + segment + query)
    ensures ExtractImageNameAndFileName(dir + "/" + segment + query, id) == ImageNames(id, None)
  {
    var url := dir + "/" + segment + query;
    assert '/' !in segment + query;
    assert url == dir + ['/'] + (segment + query);
    AfterLastOf(dir, '/', segment + query);
    if query == "" {
      assert segment + query == segment;
    } else {
      assert segment + query == segment + ['?'] + query[1..];
      BeforeFirstOf(segment, '?', query[1..]);
    }
  }

  /** `h/x?y.png` is named by the id: the query is cut before the extension test. */
  lemma QueryExtensionIgnored(id: string)
    ensures ExtractImageNameAndFileName("h/x?y.png", id) == ImageNames(id, None)
  {
    assert !HasExtension("x");
    assert "h" + "/" + "x" + "?y.png" == "h/x?y.png";
    assert !IsDataUrl("h/x?y.png") by {
      assert "h/x?y.png"[0] != "data:"[0];
    }
    NoExtensionNamedById("h", "x", "?y.png", id);
  }

  /**
   * A data URL `data:<mime>,…` or `data:<mime>;…` is named by the id, and its
   * file name is the id with the extension of the MIME type.
   */
  lemma DataUrlNames(mime: string, separator: char, payload: string, id: string)
    requires ',' !in mime && ';' !in mime
    requires separator == ',' || separator == ';'
    ensures ExtractImageNameAndFileName("data:" + mime + [separator] + payload, id)
         == ImageNames(id, match MimeExtension(mime) case None => None case Some(ext) => Some(id + ext))
  {
    var head := "data:" + mime;
    var url := head + [separator] + payload;
    assert url[..5] == "data:";
    assert ',' !in head && ';' !in head;
    if separator == ',' {
      BeforeFirstOf(head, ',', payload);
      BeforeFirstOf(head, ';', "");
    } else {
      SplitPrefix(head + [';'], payload, ',');
      assert ',' !in head + [';'];
      var rest := BeforeFirst(payload, ',');
      assert BeforeFirst(url, ',') == head + [';'] + rest;
      BeforeFirstOf(head, ';', rest);
    }
    assert head[5..] == mime;
  }

  /** `addExtension(filename)`: the name as it is when it ends in a dot and word characters, else with `.png`. */
  function AddExtension(filename: string): string
  {
    if HasExtension(filename) then filename else filename + ".png"
  }

  /** The result always has an extension and starts with the given name. */
  lemma AddExtensionResult(filename: string)
    ensures HasExtension(AddExtension(filename))
    ensures StartsWith(AddExtension(filename), filename)
    ensures HasExtension(filename) ==> AddExtension(filename) == filename
    ensures !HasExtension(filename) ==> AddExtension(filename) == filename + ".png"
  {
    if !HasExtension(filename) {
      ExtensionOfSuffix(filename, "png");
      assert filename + "." + "png" == filename + ".png";
    }
  }

  /** Adding the extension twice is adding it once. */
  lemma AddExtensionIdempotent(filename: string)
    ensures AddExtension(AddExtension(filename)) == AddExtension(filename)
  {
    AddExtensionResult(filename);
  }
}
