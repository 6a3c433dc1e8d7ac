/** Image discovery and binary-link separation from
    `services/page_extractor.py` (`find_images`, `extract_binary_links`).

    The parsed document is reduced to what these operations read: the `src`
    attribute of every `<img>` in document order. `urlparse(src).path`,
    `check_if_binary` and the `image_extensions` table are not part of this
    model and are passed in. */
module PageExtractor {
  import opened Util

  /** A `page_data` row as `extract_binary_links` creates it: only the type
      code is set, to whatever `check_if_binary` reported. */
  datatype PageData = PageData(dataTypeCode: string)

  /** An `image` row as `find_images` creates it. `accessedTime` is the
      `datetime.now()` reading taken once per call, carried as an opaque value. */
  datatype Image = Image(filename: string, contentType: string, accessedTime: int)

  /** `os.path.basename`: everything after the last `/`. */
  function Basename(path: string): string {
    path[LastIndexOf(path, '/') + 1..]
  }

  /** The basename is the tail of the path after its last `/`. */
  lemma BasenameIsLastSegment(path: string)
    ensures '/' !in Basename(path)
    ensures |Basename(path)| <= |path| && Basename(path) == path[|path| - |Basename(path)|..]
    ensures |Basename(path)| < |path| ==> path[|path| - |Basename(path)| - 1] == '/'
  {
  }

  /** `os.path.splitext` (POSIX): the extension starts at the last `.` after
      the last `/`, unless every character between that `/` and the dot is
      itself a dot (so `.png` and `..png` have no extension). */
  function SplitExt(path: string): (string, string) {
    var sep := LastIndexOf(path, '/');
    var dot := LastIndexOf(path, '.');
    if dot > sep && exists i :: sep < i < dot && path[i] != '.' then
      (path[..dot], path[dot..])
    else
      (path, "")
  }

  /** Root and extension give back the name; a non-empty extension is the
      name's last dot and what follows it, after a root that is not all dots;
      the extension is empty exactly when no dot has a non-dot before it. */
  lemma SplitExtParts(name: string)
    requires '/' !in name
    ensures SplitExt(name).0 + SplitExt(name).1 == name
    ensures SplitExt(name).1 != "" ==> SplitExt(name).1[0] == '.' && '.' !in SplitExt(name).1[1..]
    ensures SplitExt(name).1 != "" ==> exists i :: 0 <= i < |SplitExt(name).0| && SplitExt(name).0[i] != '.'
    ensures SplitExt(name).1 == "" <==>
              forall i, j :: 0 <= j < i < |name| && name[i] == '.' ==> name[j] == '.'
  {
  }

  /** The (filename, extension) pair `find_images` derives from an image source. */
  function NameParts(pathOf: string -> string, src: string): (string, string) {
    SplitExt(Basename(pathOf(src)))
  }

  /** One iteration of the `find_images` loop. An `<img>` without `src` never
      yields an image: `urlparse(None)` has an empty path and so no extension
      in the table. */
  function ImageOf(pathOf: string -> string, imageExtensions: set<string>, accessedTime: int,
                   src: Option<string>): (r: Option<Image>)
    ensures r.Some? <==> src.Some? && Lower(NameParts(pathOf, src.value).1) in imageExtensions
    ensures r.Some? ==> src.Some? && r.value.filename + NameParts(pathOf, src.value).1 == Basename(pathOf(src.value))
    ensures r.Some? ==> src.Some? && ("." + Lower(r.value.contentType) == Lower(NameParts(pathOf, src.value).1)
                                      || (r.value.contentType == "" && NameParts(pathOf, src.value).1 == ""))
    // The content type is upper-cased: it holds no lower-case ASCII letter.
    ensures r.Some? ==> forall k :: 0 <= k < |r.value.contentType| ==> !('a' <= r.value.contentType[k] <= 'z')
    ensures r.Some? ==> r.value.accessedTime == accessedTime
  {
    match src
    case None => None
    case Some(s) =>
      var (filename, extension) := NameParts(pathOf, s);
      if Lower(extension) !in imageExtensions then None
      else
        var contentType := Upper(DropFirst(extension));
        assert extension != "" ==> "." + Lower(contentType) == Lower(extension) by {
          BasenameIsLastSegment(pathOf(s));
          SplitExtParts(Basename(pathOf(s)));
          ContentTypeOfExtension(extension);
        }
        assert filename + extension == Basename(pathOf(s)) by {
          BasenameIsLastSegment(pathOf(s));
          SplitExtParts(Basename(pathOf(s)));
        }
        Some(Image(filename, contentType, accessedTime))
  }

  /** The content type `extension[1:].upper()` is the extension without its
      dot, up to case. */
  lemma ContentTypeOfExtension(extension: string)
    requires extension != "" ==> extension[0] == '.'
    ensures extension != "" ==> "." + Lower(Upper(DropFirst(extension))) == Lower(extension)
    ensures extension == "" ==> Upper(DropFirst(extension)) == ""
  {
  }

  /** `find_images`: one image per `<img>` whose extension is an image
      extension. The source collects ORM objects into a set, where distinct
      objects never collapse; the model keeps them in document order. */
  function FindImages(pathOf: string -> string, imageExtensions: set<string>, accessedTime: int,
                      srcs: seq<Option<string>>): (r: seq<Image>)
    ensures |r| <= |srcs|
    // One image per qualifying `<img>`.
    ensures |r| == |Qualifying(pathOf, imageExtensions, accessedTime, srcs)|
    ensures forall im :: im in r ==>
              exists i :: 0 <= i < |srcs| && ImageOf(pathOf, imageExtensions, accessedTime, srcs[i]) == Some(im)
    ensures forall i :: 0 <= i < |srcs| && ImageOf(pathOf, imageExtensions, accessedTime, srcs[i]).Some? ==>
              ImageOf(pathOf, imageExtensions, accessedTime, srcs[i]).value in r
    decreases |srcs|
  {
    if |srcs| == 0 then []
    else
      var rest := FindImages(pathOf, imageExtensions, accessedTime, srcs[1..]);
      assert forall i :: 1 <= i < |srcs| ==> srcs[i] == srcs[1..][i - 1];
      PositionsSplit(srcs, src => ImageOf(pathOf, imageExtensions, accessedTime, src).Some?);
      match ImageOf(pathOf, imageExtensions, accessedTime, srcs[0])
      case None => rest
      case Some(im) => [im] + rest
  }

  /** The positions of the `<img>` elements that yield an image. */
  ghost function Qualifying(pathOf: string -> string, imageExtensions: set<string>, accessedTime: int,
                            srcs: seq<Option<string>>): set<int> {
    Positions(srcs, src => ImageOf(pathOf, imageExtensions, accessedTime, src).Some?)
  }

  /** The number of `<img>` elements that yield the image `im`. */
  ghost function Occurrences(pathOf: string -> string, imageExtensions: set<string>, accessedTime: int,
                             srcs: seq<Option<string>>, im: Image): nat {
    |Positions(srcs, src => ImageOf(pathOf, imageExtensions, accessedTime, src) == Some(im))|
  }

  /** Equal images never collapse: each image occurs in the result of
      `find_images` exactly as often as the `<img>` elements that yield it. */
  lemma {:induction false} FindImagesOccurrences(pathOf: string -> string, imageExtensions: set<string>,
                                                 accessedTime: int, srcs: seq<Option<string>>, im: Image)
    ensures multiset(FindImages(pathOf, imageExtensions, accessedTime, srcs))[im]
            == Occurrences(pathOf, imageExtensions, accessedTime, srcs, im)
    decreases |srcs|
  {
    if |srcs| == 0 {
      assert Positions(srcs, src => ImageOf(pathOf, imageExtensions, accessedTime, src) == Some(im)) == {};
    } else {
      FindImagesOccurrences(pathOf, imageExtensions, accessedTime, srcs[1..], im);
      OccurrencesSplit(pathOf, imageExtensions, accessedTime, srcs, im);
    }
  }

  /** Counting the `<img>` elements that yield `im`, first element first. */
  lemma OccurrencesSplit(pathOf: string -> string, imageExtensions: set<string>, accessedTime: int,
                         srcs: seq<Option<string>>, im: Image)
    requires |srcs| > 0
    ensures Occurrences(pathOf, imageExtensions, accessedTime, srcs, im)
            == (if ImageOf(pathOf, imageExtensions, accessedTime, srcs[0]) == Some(im) then 1 else 0)
               + Occurrences(pathOf, imageExtensions, accessedTime, srcs[1..], im)
  {
    PositionsSplit(srcs, src => ImageOf(pathOf, imageExtensions, accessedTime, src) == Some(im));
  }

  /** `extract_binary_links`: splits `urls` into those `check_if_binary` lets
      through and one `PageData` per binary URL. Each record is keyed by the
      URL that produced it; the source keeps them as distinct ORM objects in a
      set, so two binary URLs of the same type still give two records. */
  method ExtractBinaryLinks(urls: set<string>, checkIfBinary: string -> (bool, string))
    returns (remaining: set<string>, pageData: map<string, PageData>)
    ensures remaining == set u | u in urls && !checkIfBinary(u).0
    ensures pageData.Keys == set u | u in urls && checkIfBinary(u).0
    ensures forall u :: u in pageData ==> pageData[u] == PageData(checkIfBinary(u).1)
  {
    var toRemove: set<string> := {};
    pageData := map[];
    var todo := urls;
    while todo != {}
      invariant todo <= urls
      invariant toRemove == set u | u in urls - todo && checkIfBinary(u).0
      invariant pageData.Keys == toRemove
      invariant forall u :: u in pageData ==> pageData[u] == PageData(checkIfBinary(u).1)
      decreases todo
    {
      var url :| url in todo;
      var (binary, dataType) := checkIfBinary(url);
      if binary {
        toRemove := toRemove + {url};
        pageData := pageData[url := PageData(dataType)];
      }
      todo := todo - {url};
    }
    remaining := urls - toRemove;
  }

  /** The two outputs of `extract_binary_links` partition its input: every
      URL is either kept for crawling or recorded as binary data, never both. */
  lemma ExtractBinaryLinksPartitions(urls: set<string>, checkIfBinary: string -> (bool, string),
                                      remaining: set<string>, pageData: map<string, PageData>)
    requires remaining == set u | u in urls && !checkIfBinary(u).0
    requires pageData.Keys == set u | u in urls && checkIfBinary(u).0
    ensures remaining + pageData.Keys == urls
    ensures remaining !! pageData.Keys
    ensures |remaining| + |pageData| == |urls|
  {
  }
}
