/** The request handling of the web API: the upload-name filter, the Pinterest board URL
    parser, the data-URL prefix strip of uploaded images, and the validation and payload
    decisions of the `find-similar` and `fashion-finder` routes. Flask itself, logging,
    random file names, file writes, the network and storage are collaborators. */
module Api {
  import opened Wrappers
  import opened Text
  import opened Library
  import opened Similarity
  import opened Scraper

  const MaxImages: nat := 5
  const ScrapedFolder: string := "pictures"
  const UploadFolder: string := "uploaded_images"

  /** Extensions accepted for uploads, without the dot, compared after lower-casing. */
  const AllowedExtensions: set<string> := {"png", "jpg", "jpeg"}

  // ---------------------------------------------------------------------------
  // allowed_file

  /** A file name is accepted iff it has a dot and the lower-cased text after its last dot
      is an allowed extension (`rsplit(".", 1)[1]`). */
  predicate AllowedFile(filename: string) {
    var dot := LastIndex(filename, '.');
    dot >= 0 && Lower(filename[dot + 1..]) in AllowedExtensions
  }

  lemma AllowedFileIff(filename: string)
    ensures AllowedFile(filename) <==>
      exists i :: 0 <= i < |filename| && filename[i] == '.'
        && (forall j :: i < j < |filename| ==> filename[j] != '.')
        && Lower(filename[i + 1..]) in AllowedExtensions
  {
    var dot := LastIndex(filename, '.');
    if exists i :: 0 <= i < |filename| && filename[i] == '.'
        && (forall j :: i < j < |filename| ==> filename[j] != '.')
        && Lower(filename[i + 1..]) in AllowedExtensions
    {
      var i :| 0 <= i < |filename| && filename[i] == '.'
        && (forall j :: i < j < |filename| ==> filename[j] != '.')
        && Lower(filename[i + 1..]) in AllowedExtensions;
      assert dot == i;
    }
  }

  /** Upper-case extensions are accepted. */
  lemma AllowedFileUpperCase()
    ensures AllowedFile("photo.JPG")
  {
    var f := "photo.JPG";
    assert f[5] == '.' && f[6] != '.' && f[7] != '.' && f[8] != '.';
    LastIndexAt(f, '.', 5);
    assert f[6..] == "JPG";
    assert Lower("JPG") == "jpg";
  }

  /** Unlike the library filter, a bare dot-file name counts: the text after the dot is
      all that is looked at. */
  lemma AllowedFileDotFile()
    ensures AllowedFile(".png") && !IsLibraryImage(".png")
  {
    var f := ".png";
    assert f[0] == '.' && f[1] != '.' && f[2] != '.' && f[3] != '.';
    LastIndexAt(f, '.', 0);
    assert f[1..] == "png";
    assert Lower("png") == "png";
    LibraryImageDotFile();
  }

  /** A name without a dot, and a GIF, are refused. */
  lemma AllowedFileRefusals()
    ensures !AllowedFile("png") && !AllowedFile("a.gif")
  {
    var f, g := "png", "a.gif";
    assert f[0] != '.' && f[1] != '.' && f[2] != '.';
    assert LastIndex(f, '.') == -1;
    assert g[1] == '.' && g[2] != '.' && g[3] != '.' && g[4] != '.';
    LastIndexAt(g, '.', 1);
    assert g[2..] == "gif";
    assert Lower("gif") == "gif";
  }

  // ---------------------------------------------------------------------------
  // extract_pinterest_info: `re.search(r"pinterest\.com/([^/]+)/([^/]+)", url)`

  const Host: string := "pinterest.com/"

  /** A non-empty run of characters other than '/' (what `[^/]+` captures). */
  predicate Segment(x: string) {
    |x| > 0 && forall t :: 0 <= t < |x| ==> x[t] != '/'
  }

  /** The end of the run of non-'/' characters starting at `j`. */
  function SegmentEnd(s: string, j: nat): (e: nat)
    requires j <= |s|
    ensures j <= e <= |s|
    ensures forall t :: j <= t < e ==> s[t] != '/'
    ensures e == |s| || s[e] == '/'
    decreases |s| - j
  {
    if j < |s| && s[j] != '/' then SegmentEnd(s, j + 1) else j
  }

  /** The match of the pattern starting at position `i`, with its two groups. Both groups
      are greedy and exclude '/', so the first ends at the next '/' and the second runs
      up to the following '/' or the end. */
  function MatchAt(s: string, i: nat): Option<(string, string)> {
    if OccursAt(s, i, Host) then
      var j := i + |Host|;
      var e1 := SegmentEnd(s, j);
      if j < e1 < |s| then
        var e2 := SegmentEnd(s, e1 + 1);
        if e1 + 1 < e2 then Some((s[j..e1], s[e1 + 1..e2])) else None
      else None
    else None
  }

  /** Where a run of non-'/' characters is known to end, `SegmentEnd` finds that end. */
  lemma SegmentEndAt(s: string, j: nat, e: nat)
    requires j <= e <= |s|
    requires forall t :: j <= t < e ==> s[t] != '/'
    requires e == |s| || s[e] == '/'
    ensures SegmentEnd(s, j) == e
  {
  }

  /** The text at `i` is "pinterest.com/" + u + "/" + b, with `u` and `b` non-empty runs
      without '/' and `b` followed by '/' or the end. */
  ghost predicate BoardPathAt(s: string, i: nat, u: string, b: string) {
    && Segment(u) && Segment(b)
    && OccursAt(s, i, Host + u + "/" + b)
    && (i + |Host| + |u| + 1 + |b| == |s| || s[i + |Host| + |u| + 1 + |b|] == '/')
  }

  /** The pattern matches at `i` with groups `u` and `b` iff the text there is
      "pinterest.com/" + u + "/" + b, both are non-empty runs without '/', and `b` is
      followed by '/' or the end of the URL. */
  lemma MatchAtIff(s: string, i: nat, u: string, b: string)
    ensures MatchAt(s, i) == Some((u, b)) <==> BoardPathAt(s, i, u, b)
  {
    if MatchAt(s, i) == Some((u, b)) {
      MatchAtShape(s, i);
    }
    if BoardPathAt(s, i, u, b) {
      MatchAtFromShape(s, i, u, b);
    }
  }

  lemma MatchAtShape(s: string, i: nat)
    requires MatchAt(s, i).Some?
    ensures BoardPathAt(s, i, MatchAt(s, i).value.0, MatchAt(s, i).value.1)
  {
    var j := i + |Host|;
    var e1 := SegmentEnd(s, j);
    var e2 := SegmentEnd(s, e1 + 1);
    var u, b := s[j..e1], s[e1 + 1..e2];
    assert MatchAt(s, i).value == (u, b);
    assert s[i..j] == Host;
    assert s[i..e2] == s[i..j] + u + [s[e1]] + b;
    assert Host + u + "/" + b == s[i..e2];
  }

  lemma MatchAtFromShape(s: string, i: nat, u: string, b: string)
    requires BoardPathAt(s, i, u, b)
    ensures MatchAt(s, i) == Some((u, b))
  {
    var whole := Host + u + "/" + b;
    var j := i + |Host|;
    var e1, e2 := j + |u|, j + |u| + 1 + |b|;
    assert s[i..e2] == whole;
    forall t | 0 <= t < |whole|
      ensures s[i + t] == whole[t]
    {
      assert s[i + t] == s[i..e2][t];
    }
    assert s[i..j] == Host by {
      forall t | 0 <= t < |Host|
        ensures s[i..j][t] == Host[t]
      {
        assert whole[t] == Host[t];
      }
    }
    assert s[j..e1] == u by {
      forall t | 0 <= t < |u|
        ensures s[j..e1][t] == u[t]
      {
        assert whole[|Host| + t] == u[t];
      }
    }
    assert s[e1] == '/' by {
      assert whole[|Host| + |u|] == '/';
    }
    assert s[e1 + 1..e2] == b by {
      forall t | 0 <= t < |b|
        ensures s[e1 + 1..e2][t] == b[t]
      {
        assert whole[|Host| + |u| + 1 + t] == b[t];
      }
    }
    SegmentEndAt(s, j, e1);
    SegmentEndAt(s, e1 + 1, e2);
  }

  /** The first position at or after `i` where the pattern matches (`re.search` tries
      start positions left to right). */
  function FirstMatch(s: string, i: nat): (k: Option<nat>)
    requires i <= |s|
    ensures k.Some? ==> i <= k.value <= |s| && MatchAt(s, k.value).Some?
    ensures k.Some? ==> forall j: nat :: i <= j < k.value ==> MatchAt(s, j).None?
    ensures k.None? ==> forall j: nat :: i <= j ==> MatchAt(s, j).None?
    decreases |s| - i
  {
    if MatchAt(s, i).Some? then Some(i)
    else if i == |s| then None
    else FirstMatch(s, i + 1)
  }

  /** `extract_pinterest_info`: the username and board name of the leftmost match, or
      nothing when the pattern matches nowhere. */
  function ExtractPinterestInfo(url: string): (r: Option<(string, string)>)
    ensures r.None? <==> forall j: nat :: MatchAt(url, j).None?
  {
    match FirstMatch(url, 0)
    case None => None
    case Some(k) => MatchAt(url, k)
  }

  /** The result is the match at the leftmost position where the pattern matches. */
  lemma ExtractPinterestInfoLeftmost(url: string, k: nat)
    requires MatchAt(url, k).Some?
    requires forall j: nat :: j < k ==> MatchAt(url, j).None?
    ensures ExtractPinterestInfo(url) == MatchAt(url, k)
  {
    var f := FirstMatch(url, 0);
    assert f.Some? && f.value == k;
  }

  /** A URL whose first "pinterest.com/" is followed by a username, '/', and a board name
      ending at a '/' or at the end gives back exactly that username and board name. */
  lemma ExtractPinterestInfoRoundTrip(pre: string, u: string, b: string, rest: string)
    requires Segment(u) && Segment(b)
    requires rest == [] || rest[0] == '/'
    requires forall j: nat :: j < |pre| ==> !OccursAt(pre + Host, j, Host)
    ensures ExtractPinterestInfo(pre + Host + u + "/" + b + rest) == Some((u, b))
  {
    var w := Host + u + "/" + b;
    var url := pre + w + rest;
    assert url == pre + Host + u + "/" + b + rest;
    BoardPathAfter(pre, u, b, rest);
    MatchAtFromShape(url, |pre|, u, b);
    NoMatchBefore(pre, w + rest);
    assert pre + (w + rest) == url;
    ExtractPinterestInfoLeftmost(url, |pre|);
  }

  lemma BoardPathAfter(pre: string, u: string, b: string, rest: string)
    requires Segment(u) && Segment(b)
    requires rest == [] || rest[0] == '/'
    ensures BoardPathAt(pre + (Host + u + "/" + b) + rest, |pre|, u, b)
  {
    var w := Host + u + "/" + b;
    var url := pre + w + rest;
    assert url[|pre|..|pre| + |w|] == w;
    assert |pre| + |w| == |url| || url[|pre| + |w|] == '/';
  }

  /** No match starts inside `pre` when "pinterest.com/" does not occur there, even
      running into what follows, provided what follows starts with it. */
  lemma NoMatchBefore(pre: string, tail: string)
    requires |Host| <= |tail| && tail[..|Host|] == Host
    requires forall j: nat :: j < |pre| ==> !OccursAt(pre + Host, j, Host)
    ensures forall j: nat :: j < |pre| ==> MatchAt(pre + tail, j).None?
  {
    var url := pre + tail;
    var n := |pre| + |Host|;
    assert url[0..n] == pre + Host;
    forall j: nat | j < |pre|
      ensures MatchAt(url, j).None?
    {
      OccursInSlice(url, 0, n, j, Host);
    }
  }

  /** The scraper's own board URL parses back to its username and board name. */
  lemma BoardUrlRoundTrip(u: string, b: string)
    requires Segment(u) && Segment(b)
    ensures ExtractPinterestInfo(BoardUrl(u, b)) == Some((u, b))
  {
    var pre := "https://";
    var x := "https://pinterest.com/";
    assert pre + Host == x;
    forall j: nat | j < |pre|
      ensures !OccursAt(x, j, Host)
    {
      var window := x[j..j + |Host|];
      assert window[0] != Host[0] || window[1] != Host[1];
    }
    assert BoardUrl(u, b) == pre + Host + u + "/" + b + [];
    ExtractPinterestInfoRoundTrip(pre, u, b, []);
  }

  // ---------------------------------------------------------------------------
  // save_base64_image

  const Marker: string := "base64,"

  /** `s[i + |Marker|..e]` is the second piece of `s.split("base64,")`: the first marker
      starts at `i`, and `e` is where the next one starts, or the end of `s`. */
  ghost predicate SecondPiece(s: string, i: int, e: int) {
    && 0 <= i && i + |Marker| <= e <= |s|
    && OccursAt(s, i, Marker)
    && (forall k: nat :: k < i ==> !OccursAt(s, k, Marker))
    && (forall k: nat :: i + |Marker| <= k < e ==> !OccursAt(s, k, Marker))
    && (e == |s| || OccursAt(s, e, Marker))
  }

  /** At most one split point fits the description, so `SecondPiece` pins down the piece. */
  lemma SecondPieceUnique(s: string, i: int, e: int, i': int, e': int)
    requires SecondPiece(s, i, e) && SecondPiece(s, i', e')
    ensures i == i' && e == e'
  {
  }

  /** The data-URL prefix strip of `save_base64_image`: when "base64," occurs, the text
      between its first occurrence and the next one (or the end) is kept
      (`split("base64,")[1]`); otherwise the string is kept whole. */
  function StripDataUrlPrefix(s: string): (r: string)
    ensures !Contains(s, Marker) ==> r == s
    ensures Contains(s, Marker) ==> !Contains(r, Marker) && |r| < |s|
    ensures Contains(s, Marker) ==> exists i, e :: SecondPiece(s, i, e) && r == s[i + |Marker|..e]
  {
    match FindFrom(s, Marker, 0)
    case None => s
    case Some(i) =>
      var start := i + |Marker|;
      match FindFrom(s, Marker, start)
      case None =>
        NotContainsSlice(s, start, |s|, Marker);
        assert s[start..|s|] == s[start..];
        assert SecondPiece(s, i, |s|);
        s[start..]
      case Some(j) =>
        NotContainsSlice(s, start, j, Marker);
        assert SecondPiece(s, i, j);
        s[start..j]
  }

  /** A data URL "<prefix>base64,<data>" is stripped down to its data, provided the prefix
      does not itself contain the marker and the data does not either. */
  lemma StripDataUrlPrefixRoundTrip(prefix: string, data: string)
    requires forall k: nat :: k < |prefix| ==> !OccursAt(prefix + Marker, k, Marker)
    requires !Contains(data, Marker)
    ensures StripDataUrlPrefix(prefix + Marker + data) == data
  {
    var s := prefix + Marker + data;
    var start := |prefix| + |Marker|;
    assert s[0..start] == prefix + Marker;
    forall k: nat | k < |prefix|
      ensures !OccursAt(s, k, Marker)
    {
      OccursInSlice(s, 0, start, k, Marker);
    }
    assert OccursAt(s, |prefix|, Marker);
    assert FindFrom(s, Marker, 0) == Some(|prefix|);
    assert s[start..|s|] == data;
    forall k: nat | start <= k
      ensures !OccursAt(s, k, Marker)
    {
      OccursInSlice(s, start, |s|, k - start, Marker);
      assert !OccursAt(data, k - start, Marker);
    }
    assert FindFrom(s, Marker, start).None?;
  }

  /** `save_base64_image`: the file is named `<name>.jpg` inside `folder`, and saving
      succeeds iff decoding and writing the stripped payload succeeds. `name` stands for
      the random UUID and `decodeWrite` for `b64decode` plus the file write. */
  function SaveBase64Image(b64: string, folder: string, name: string,
                           decodeWrite: string -> bool): (r: Option<string>)
  {
    if decodeWrite(StripDataUrlPrefix(b64)) then Some(JoinPath(folder, name + ".jpg")) else None
  }

  /** An uploaded data URL is saved iff its data part decodes and writes, and it lands at
      `<folder>/<name>.jpg`. */
  lemma SaveBase64ImageDataUrl(prefix: string, data: string, folder: string, name: string,
                               decodeWrite: string -> bool)
    requires forall k: nat :: k < |prefix| ==> !OccursAt(prefix + Marker, k, Marker)
    requires !Contains(data, Marker)
    requires |folder| > 0 && folder[|folder| - 1] != '/' && |name| > 0 && name[0] != '/'
    ensures var r := SaveBase64Image(prefix + Marker + data, folder, name, decodeWrite);
      && (r.Some? <==> decodeWrite(data))
      && (r.Some? ==> r.value == folder + "/" + name + ".jpg")
  {
    StripDataUrlPrefixRoundTrip(prefix, data);
    assert (name + ".jpg")[0] == name[0];
  }

  // ---------------------------------------------------------------------------
  // Requests and replies

  /** The JSON object of a request, by the keys the routes read; `otherKeys` records
      whether it has any other key, so that the empty object `{}` can be told apart. */
  datatype Body = Body(
    images: Option<seq<string>>,
    pinterestUrl: Option<string>,
    useSupabase: Option<bool>,
    username: Option<string>,
    boardName: Option<string>,
    libraryDirectory: Option<string>,
    otherKeys: bool)

  /** `not data`: no JSON object at all, or an empty one. */
  predicate NoData(data: Option<Body>) {
    data.None? || data.value == Body(None, None, None, None, None, None, false)
  }

  /** The JSON reply of a route. */
  datatype Reply =
    | Failure(status: nat, message: string)          // {"error": message} with that status
    | ServerError                                     // 500, "Server error: ..."
    | SearchReply(search: Result<SearchOutput, SearchError>)  // 200, the search's own dict
    | ScrapedOnly(boardInfo: BoardInfo, scrapedImages: seq<string>)
    | Combined(boardInfo: BoardInfo, scrapedImagesCount: nat, uploadedImagesCount: nat,
               similarityResults: seq<QueryResult>, bestOverallMatches: seq<BestMatch>)

  function TooManyImages(): string {
    "Maximum of " + NatToString(MaxImages) + " images allowed"
  }

  const InvalidBoardUrl: string := "Invalid Pinterest board URL format"
  const SupabaseNamesRequired: string := "Username and board name required for Supabase storage"

  // ---------------------------------------------------------------------------
  // /api/find-similar

  /** The validation and payload decisions of `find_similar`: a 400 reply, or the payload
      handed to the search. */
  function FindSimilarPayload(data: Option<Body>): (r: Result<Payload, Reply>)
    ensures r.Err? ==> r.error.Failure? && r.error.status == 400
    ensures r.Ok? ==> 1 <= |r.value.images| <= MaxImages
  {
    if NoData(data) then Err(Failure(400, "No data provided"))
    else
      var d := data.value;
      var images := d.images.GetOr([]);
      if |images| == 0 then Err(Failure(400, "No images provided"))
      else if |images| > MaxImages then Err(Failure(400, TooManyImages()))
      else if Truthy(d.pinterestUrl) then
        match ExtractPinterestInfo(d.pinterestUrl.value)
        case None => Err(Failure(400, InvalidBoardUrl))
        case Some((u, b)) =>
          if u == "" || b == "" then Err(Failure(400, InvalidBoardUrl))
          else Ok(Payload(images, None, Some(u), Some(b), Some(true)))
      else
        var useSupabase := d.useSupabase.GetOr(false);
        if useSupabase && (!Truthy(d.username) || !Truthy(d.boardName)) then
          Err(Failure(400, SupabaseNamesRequired))
        else if useSupabase then
          Ok(Payload(images, None, d.username, d.boardName, Some(true)))
        else
          Ok(Payload(images, Some(d.libraryDirectory.GetOr(ScrapedFolder)), None, None, Some(false)))
  }

  /** `find_similar`: the search's dictionary is returned as it is, errors included, with
      status 200; an exception escaping the search becomes a 500. */
  function FindSimilarRoute(data: Option<Body>, env: Env): (reply: Reply)
  {
    match FindSimilarPayload(data)
    case Err(reply) => reply
    case Ok(p) =>
      match FindSimilarImages(p, env)
      case Ok(out) => SearchReply(Ok(out))
      case Err(e) => if e == LibraryNotListable then ServerError else SearchReply(Err(e))
  }

  /** The request is refused with 400 exactly when it has no data, no images, more than
      five images, a Pinterest URL that does not parse, or asks for Supabase storage
      without both a username and a board name. */
  lemma FindSimilarRefusedIff(data: Option<Body>, env: Env)
    ensures FindSimilarRoute(data, env).Failure? <==>
      || NoData(data)
      || |data.value.images.GetOr([])| == 0
      || |data.value.images.GetOr([])| > MaxImages
      || (Truthy(data.value.pinterestUrl)
            && ExtractPinterestInfo(data.value.pinterestUrl.value).None?)
      || (!Truthy(data.value.pinterestUrl) && data.value.useSupabase.GetOr(false)
            && (!Truthy(data.value.username) || !Truthy(data.value.boardName)))
    ensures FindSimilarRoute(data, env).Failure? ==> FindSimilarRoute(data, env).status == 400
    ensures var r := FindSimilarRoute(data, env);
      && (r == Failure(400, "No data provided") <==> NoData(data))
      && (r == Failure(400, "No images provided") <==>
            !NoData(data) && |data.value.images.GetOr([])| == 0)
      && (r == Failure(400, TooManyImages()) <==>
            !NoData(data) && |data.value.images.GetOr([])| > MaxImages)
      && (r == Failure(400, InvalidBoardUrl) <==>
            !NoData(data) && 1 <= |data.value.images.GetOr([])| <= MaxImages
            && Truthy(data.value.pinterestUrl)
            && ExtractPinterestInfo(data.value.pinterestUrl.value).None?)
      && (r == Failure(400, SupabaseNamesRequired) <==>
            !NoData(data) && 1 <= |data.value.images.GetOr([])| <= MaxImages
            && !Truthy(data.value.pinterestUrl) && data.value.useSupabase.GetOr(false)
            && (!Truthy(data.value.username) || !Truthy(data.value.boardName)))
  {
    assert |TooManyImages()| == 27;
    if !NoData(data) && Truthy(data.value.pinterestUrl) {
      var r := ExtractPinterestInfo(data.value.pinterestUrl.value);
      if r.Some? {
        var k :| MatchAt(data.value.pinterestUrl.value, k).Some?;
        ExtractPinterestInfoNonEmpty(data.value.pinterestUrl.value);
      }
    }
  }

  /** Both groups of a match are non-empty, so `not username or not board_name` never
      holds after a successful parse. */
  lemma ExtractPinterestInfoNonEmpty(url: string)
    ensures ExtractPinterestInfo(url).Some? ==>
      Segment(ExtractPinterestInfo(url).value.0) && Segment(ExtractPinterestInfo(url).value.1)
  {
    var f := FirstMatch(url, 0);
    if f.Some? {
      var m := MatchAt(url, f.value).value;
      MatchAtIff(url, f.value, m.0, m.1);
    }
  }

  /** With a Pinterest URL, or with Supabase storage asked for, the payload has no
      library directory, so the search answers "Missing required inputs" (with status 200)
      and never looks at a library. */
  lemma FindSimilarStorageBranchesUnsearchable(data: Option<Body>, env: Env)
    requires !FindSimilarRoute(data, env).Failure?
    requires Truthy(data.value.pinterestUrl) || data.value.useSupabase.GetOr(false)
    ensures FindSimilarRoute(data, env) == SearchReply(Err(MissingInputs))
  {
  }

  /** Otherwise the search runs on the request's library directory, "pictures" by default,
      and its outcome is the reply. */
  lemma FindSimilarLocalLibrary(data: Option<Body>, env: Env)
    requires !FindSimilarRoute(data, env).Failure?
    requires !Truthy(data.value.pinterestUrl) && !data.value.useSupabase.GetOr(false)
    ensures var p := FindSimilarPayload(data).value;
      && p.images == data.value.images.GetOr([])
      && p.libraryDirectory == Some(data.value.libraryDirectory.GetOr(ScrapedFolder))
      && FindSimilarRoute(data, env)
         == (if FindSimilarImages(p, env) == Err(LibraryNotListable) then ServerError
             else SearchReply(FindSimilarImages(p, env)))
  {
  }

  // ---------------------------------------------------------------------------
  // /api/fashion-finder

  /** The collaborators of one fashion-finder request: fetching a page by URL (`None` when
      the request fails), the storage service, the random name of the `k`-th saved upload,
      base64 decoding plus file writing, and the similarity search's own collaborators. */
  datatype Services = Services(
    fetch: string -> Option<Page>,
    storage: Storage,
    uploadName: nat -> string,
    decodeWrite: string -> bool,
    search: Env)

  /** The checks of `fashion_finder` before any scraping, in source order; on success the
      images, the username and the board name. Zero images pass. */
  function FashionFinderValidate(data: Option<Body>): (r: Result<(seq<string>, string, string), Reply>)
    ensures r.Err? ==> r.error.Failure? && r.error.status == 400
    ensures r.Ok? ==> |r.value.0| <= MaxImages && Segment(r.value.1) && Segment(r.value.2)
  {
    if NoData(data) then Err(Failure(400, "No data provided"))
    else
      var d := data.value;
      var images := d.images.GetOr([]);
      if !Truthy(d.pinterestUrl) then Err(Failure(400, "Pinterest board URL is required"))
      else if |images| > MaxImages then Err(Failure(400, TooManyImages()))
      else
        ExtractPinterestInfoNonEmpty(d.pinterestUrl.value);
        match ExtractPinterestInfo(d.pinterestUrl.value)
        case None => Err(Failure(400, InvalidBoardUrl))
        case Some((u, b)) =>
          if u == "" || b == "" then Err(Failure(400, InvalidBoardUrl))
          else Ok((images, u, b))
  }

  /** The paths of the uploaded images that were saved, in order (`upload_paths`). */
  function SavedUploads(images: seq<string>, k: nat, svc: Services): (paths: seq<string>)
    ensures |paths| <= |images|
    decreases |images|
  {
    if |images| == 0 then []
    else
      var rest := SavedUploads(images[1..], k + 1, svc);
      match SaveBase64Image(images[0], UploadFolder, svc.uploadName(k), svc.decodeWrite)
      case Some(path) => [path] + rest
      case None => rest
  }

  /** Upload `i` (counted from `k`) decodes and writes, and `path` is the file it was
      saved to. */
  ghost predicate SavedAs(images: seq<string>, k: nat, i: int, svc: Services, path: string) {
    && 0 <= i < |images|
    && svc.decodeWrite(StripDataUrlPrefix(images[i]))
    && path == JoinPath(UploadFolder, svc.uploadName(k + i) + ".jpg")
  }

  /** A path is among the saved uploads exactly when some upload decodes and writes and
      that path is the file named after its position. */
  lemma {:induction false} SavedUploadsMembership(images: seq<string>, k: nat, svc: Services,
                                                  path: string)
    ensures path in SavedUploads(images, k, svc) <==> exists i :: SavedAs(images, k, i, svc, path)
    decreases |images|
  {
    if |images| > 0 {
      var tail, k1 := images[1..], k + 1;
      SavedUploadsMembership(tail, k1, svc, path);
      SavedUploadsStep(images, k, svc);
      if exists i :: SavedAs(images, k, i, svc, path) {
        var i :| SavedAs(images, k, i, svc, path);
        if i > 0 {
          assert tail[i - 1] == images[i];
          assert SavedAs(tail, k1, i - 1, svc, path);
        }
      }
      if exists i :: SavedAs(tail, k1, i, svc, path) {
        var i :| SavedAs(tail, k1, i, svc, path);
        assert images[i + 1] == tail[i];
        assert SavedAs(images, k, i + 1, svc, path);
      }
      if path in SavedUploads(images, k, svc) && path !in SavedUploads(tail, k1, svc) {
        assert SavedAs(images, k, 0, svc, path);
      }
    }
  }

  /** The first upload contributes its file when it saves, then the rest follow. */
  lemma SavedUploadsStep(images: seq<string>, k: nat, svc: Services)
    requires |images| > 0
    ensures SavedUploads(images, k, svc)
         == (if svc.decodeWrite(StripDataUrlPrefix(images[0]))
             then [JoinPath(UploadFolder, svc.uploadName(k) + ".jpg")] else [])
          + SavedUploads(images[1..], k + 1, svc)
  {
  }

  /** The request for the similarity search: the uploaded images against the local
      directory `pictures/<username>/<board_name>`. */
  function FashionSearchPayload(images: seq<string>, u: string, b: string): Payload {
    Payload(images, Some(JoinPath(JoinPath(ScrapedFolder, u), b)), Some(u), Some(b), None)
  }

  /** `fashion_finder`. The board page is fetched once and used both for the board
      information and for the pins. */
  function FashionFinder(data: Option<Body>, svc: Services): (reply: Reply)
  {
    match FashionFinderValidate(data)
    case Err(reply) => reply
    case Ok((images, u, b)) =>
      var page := svc.fetch(BoardUrl(u, b));
      match GetBoardInfo(page)
      case Err(_) => ServerError
      case Ok(info) =>
        if info.title == "Error" then Failure(404, "Failed to access Pinterest board")
        else
          var pins := ScrapePins(page, "736x");
          if |pins| == 0 then Failure(404, "No pins found on the board")
          else
            var urls := DownloadImages(pins, Some(u), Some(b), svc.storage);
            var saved := SavedUploads(images, 0, svc);
            if |saved| == 0 then ScrapedOnly(info, urls)
            else
              match FindSimilarImages(FashionSearchPayload(images, u, b), svc.search)
              case Ok(out) => Combined(info, |urls|, |saved|, out.results, out.bestOverallMatches)
              case Err(e) =>
                if e == LibraryNotListable then ServerError
                else Combined(info, |urls|, |saved|, [], [])
  }

  /** Each 400 reply of the fashion finder names the first check that fails, in the order
      data, URL presence, image count, URL format; anything else passes. */
  lemma FashionFinderValidateIff(data: Option<Body>)
    ensures var r := FashionFinderValidate(data);
      && (r == Err(Failure(400, "No data provided")) <==> NoData(data))
      && (r == Err(Failure(400, "Pinterest board URL is required")) <==>
            !NoData(data) && !Truthy(data.value.pinterestUrl))
      && (r == Err(Failure(400, TooManyImages())) <==>
            !NoData(data) && Truthy(data.value.pinterestUrl)
            && |data.value.images.GetOr([])| > MaxImages)
      && (r == Err(Failure(400, InvalidBoardUrl)) <==>
            !NoData(data) && Truthy(data.value.pinterestUrl)
            && |data.value.images.GetOr([])| <= MaxImages
            && ExtractPinterestInfo(data.value.pinterestUrl.value).None?)
      && (r.Ok? <==>
            !NoData(data) && Truthy(data.value.pinterestUrl)
            && |data.value.images.GetOr([])| <= MaxImages
            && ExtractPinterestInfo(data.value.pinterestUrl.value).Some?)
      && (r.Ok? ==> r.value == (data.value.images.GetOr([]),
                                ExtractPinterestInfo(data.value.pinterestUrl.value).value.0,
                                ExtractPinterestInfo(data.value.pinterestUrl.value).value.1))
  {
    assert |TooManyImages()| == 27;
    if !NoData(data) && Truthy(data.value.pinterestUrl) {
      ExtractPinterestInfoNonEmpty(data.value.pinterestUrl.value);
    }
  }

  /** The search always looks in `pictures/<username>/<board_name>`. */
  lemma FashionSearchDirectory(images: seq<string>, u: string, b: string)
    requires Segment(u) && Segment(b)
    ensures FashionSearchPayload(images, u, b).libraryDirectory
         == Some("pictures/" + u + "/" + b)
    ensures FashionSearchPayload(images, u, b).images == images
  {
    var d1 := JoinPath(ScrapedFolder, u);
    assert u[0] != '/' && b[0] != '/';
    assert d1 == "pictures" + "/" + u;
    assert d1[|d1| - 1] == u[|u| - 1];
    assert JoinPath(d1, b) == d1 + "/" + b;
    assert "pictures" + "/" == "pictures/";
  }

  /** A board whose page loads is reported as inaccessible when its `<h1>` reads "Error",
      since that is the title a failed request also produces. */
  lemma FashionFinderBoardTitledError(data: Option<Body>, svc: Services)
    requires FashionFinderValidate(data).Ok?
    requires var v := FashionFinderValidate(data).value;
      var page := svc.fetch(BoardUrl(v.1, v.2));
      page.Some? && page.value.h1 == Some("Error") && PinCount(page.value.header).Ok?
    ensures FashionFinder(data, svc) == Failure(404, "Failed to access Pinterest board")
  {
  }

  /** With no uploaded image saved (in particular with none sent), the reply lists the
      public URLs of the uploaded pins and runs no search. */
  lemma FashionFinderScrapeOnly(data: Option<Body>, svc: Services)
    ensures FashionFinderValidate(data).Ok? ==>
      var v := FashionFinderValidate(data).value;
      var page := svc.fetch(BoardUrl(v.1, v.2));
      (&& GetBoardInfo(page).Ok? && GetBoardInfo(page).value.title != "Error"
       && |ScrapePins(page, "736x")| > 0
       && SavedUploads(v.0, 0, svc) == []) ==>
      FashionFinder(data, svc)
      == ScrapedOnly(GetBoardInfo(page).value,
                     DownloadImages(ScrapePins(page, "736x"), Some(v.1), Some(v.2), svc.storage))
  {
  }

  /** The URLs of a scrape-only reply are exactly the public URLs of
      `<username>/<board_name>/pin_<i>.jpg` for the scraped pins `i` that were fetched and
      uploaded. */
  lemma FashionFinderScrapedUrls(data: Option<Body>, svc: Services, url: string)
    ensures FashionFinder(data, svc).ScrapedOnly? ==>
      var v := FashionFinderValidate(data).value;
      var pins := ScrapePins(svc.fetch(BoardUrl(v.1, v.2)), "736x");
      (url in FashionFinder(data, svc).scrapedImages <==>
        exists i :: 0 <= i < |pins| && Uploaded(pins[i], i, Some(v.1), Some(v.2), svc.storage)
          && url == svc.storage.publicUrl(PinPath(Some(v.1), Some(v.2), i)))
  {
    var reply := FashionFinder(data, svc);
    if reply.ScrapedOnly? {
      var v := FashionFinderValidate(data).value;
      var pins := ScrapePins(svc.fetch(BoardUrl(v.1, v.2)), "736x");
      assert reply.scrapedImages == DownloadImages(pins, Some(v.1), Some(v.2), svc.storage);
      DownloadImagesMembership(pins, Some(v.1), Some(v.2), svc.storage, url);
    }
  }

  /** Once pins were scraped and some upload was saved, the reply carries the search's
      per-query results and overall matches; a search that answers with an error dict
      gives empty lists, and an unlistable library directory gives a 500. */
  lemma FashionFinderCombinedResults(data: Option<Body>, svc: Services)
    ensures FashionFinderValidate(data).Ok? ==>
      var v := FashionFinderValidate(data).value;
      var page := svc.fetch(BoardUrl(v.1, v.2));
      var pins := ScrapePins(page, "736x");
      var saved := SavedUploads(v.0, 0, svc);
      var search := FindSimilarImages(FashionSearchPayload(v.0, v.1, v.2), svc.search);
      (&& GetBoardInfo(page).Ok? && GetBoardInfo(page).value.title != "Error"
       && |pins| > 0 && |saved| > 0) ==>
      var info := GetBoardInfo(page).value;
      var n := |DownloadImages(pins, Some(v.1), Some(v.2), svc.storage)|;
      FashionFinder(data, svc)
      == match search
         case Ok(out) => Combined(info, n, |saved|, out.results, out.bestOverallMatches)
         case Err(LibraryNotListable) => ServerError
         case Err(_) => Combined(info, n, |saved|, [], [])
  {
  }

  /** A combined reply counts at most as many uploaded pins as were scraped and between one
      and five saved uploads. */
  lemma FashionFinderCombinedCounts(data: Option<Body>, svc: Services)
    ensures FashionFinder(data, svc).Combined? ==>
      var v := FashionFinderValidate(data).value;
      var page := svc.fetch(BoardUrl(v.1, v.2));
      var reply := FashionFinder(data, svc);
      && reply.scrapedImagesCount <= |ScrapePins(page, "736x")|
      && 1 <= reply.uploadedImagesCount <= |v.0| <= MaxImages
  {
    var reply := FashionFinder(data, svc);
    if reply.Combined? {
      var v := FashionFinderValidate(data).value;
      var page := svc.fetch(BoardUrl(v.1, v.2));
      var pins := ScrapePins(page, "736x");
      var saved := SavedUploads(v.0, 0, svc);
      assert reply.scrapedImagesCount == |DownloadImages(pins, Some(v.1), Some(v.2), svc.storage)|;
      assert reply.uploadedImagesCount == |saved| > 0;
    }
  }
}
