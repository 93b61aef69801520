/** The string and list logic of the Pinterest board scraper: the image-size rewrite of pin
    URLs, the pin-count parse of the board header, the filtering of scraped images, and the
    storage-path naming and result filtering of the upload step. Fetching pages, parsing
    HTML and talking to the storage service are collaborators given as values. */
module Scraper {
  import opened Wrappers
  import opened Text

  /** An `<img>` element of the board page: its `src` and `alt` attributes, if present. */
  datatype Img = Img(src: Option<string>, alt: Option<string>)

  /** The page `<header>`: the text of its board-count `<div>`, if it has one. */
  datatype Header = Header(countText: Option<string>)

  /** What the scraper reads from a fetched board page: the text of the first `<h1>`, the
      first `<header>`, and all `<img>` elements in document order. */
  datatype Page = Page(h1: Option<string>, header: Option<Header>, imgs: seq<Img>)

  /** A scraped pin (`{"src": ..., "alt": ...}`). */
  datatype Pin = Pin(src: string, alt: Option<string>)

  datatype BoardInfo = BoardInfo(title: string, totalPins: nat)

  /** An exception that escapes `get_board_info` (`int("")` raises `ValueError`). */
  datatype Raised = ValueError

  /** The collaborators of the upload step: whether fetching an image URL succeeds, whether
      uploading the fetched image (by source URL) to a storage path returns a non-empty
      `result.path`, and the public URL of a storage path. */
  datatype Storage = Storage(
    fetchOk: string -> bool,
    uploadOk: (string, string) -> bool,
    publicUrl: string -> string)

  /** The scraper's base URL; a board lives at `<base><username>/<board_name>`. */
  const BaseUrl: string := "https://pinterest.com/"

  function BoardUrl(username: string, boardName: string): string {
    BaseUrl + username + "/" + boardName
  }

  // ---------------------------------------------------------------------------
  // The `/\d+x/` size rewrite of image URLs

  /** The end of the maximal run of ASCII digits starting at `j`. */
  function DigitRunEnd(s: string, j: nat): (e: nat)
    requires j <= |s|
    ensures j <= e <= |s|
    ensures forall t :: j <= t < e ==> IsDigit(s[t])
    ensures e == |s| || !IsDigit(s[e])
    decreases |s| - j
  {
    if j < |s| && IsDigit(s[j]) then DigitRunEnd(s, j + 1) else j
  }

  /** A match of `/\d+x/` at position `i` with `k` digits. */
  ghost predicate SizeTokenAt(s: string, i: int, k: int) {
    && 0 <= i && 1 <= k && i + k + 3 <= |s|
    && s[i] == '/'
    && (forall t :: i < t <= i + k ==> IsDigit(s[t]))
    && s[i + k + 1] == 'x' && s[i + k + 2] == '/'
  }

  /** The length of the match of `/\d+x/` at position `i`, or 0 if there is none. The digit
      run is greedy, so there is at most one match at a position. */
  function SizeTokenLen(s: string, i: nat): (n: nat)
    requires i <= |s|
    ensures n > 0 ==> i + n <= |s| && SizeTokenAt(s, i, n - 3)
    ensures forall k :: SizeTokenAt(s, i, k) ==> n == k + 3
  {
    if i < |s| && s[i] == '/' then
      var e := DigitRunEnd(s, i + 1);
      if e > i + 1 && e + 2 <= |s| && s[e] == 'x' && s[e + 1] == '/' then e + 2 - i else 0
    else 0
  }

  /** The scan of `re.sub(r"/\d+x/", repl, s)` from position `p` on: at a match the
      replacement is emitted and the scan resumes right after the match, so matches never
      overlap; elsewhere one character is copied. */
  function ReplaceFrom(s: string, repl: string, p: nat): (r: string)
    requires p <= |s|
    ensures p < |s| && |repl| > 0 ==> |r| > 0
    decreases |s| - p
  {
    if p == |s| then []
    else
      var n := SizeTokenLen(s, p);
      if n > 0 then repl + ReplaceFrom(s, repl, p + n)
      else [s[p]] + ReplaceFrom(s, repl, p + 1)
  }

  /** `re.sub(r"/\d+x/", repl, s)` with a literal replacement. */
  function ReplaceSizeTokens(s: string, repl: string): (r: string)
    ensures |s| > 0 && |repl| > 0 ==> |r| > 0
  {
    ReplaceFrom(s, repl, 0)
  }

  /** Text without a match is copied unchanged. */
  lemma {:induction false} ReplaceFromWithoutTokens(s: string, repl: string, p: nat)
    requires p <= |s|
    requires forall i, k :: p <= i ==> !SizeTokenAt(s, i, k)
    ensures ReplaceFrom(s, repl, p) == s[p..]
    decreases |s| - p
  {
    if p < |s| {
      ReplaceFromSkip(s, repl, p);
      ReplaceFromWithoutTokens(s, repl, p + 1);
      assert s[p..] == [s[p]] + s[p + 1..];
    }
  }

  lemma ReplaceFromSkip(s: string, repl: string, p: nat)
    requires p < |s| && forall k :: !SizeTokenAt(s, p, k)
    ensures ReplaceFrom(s, repl, p) == [s[p]] + ReplaceFrom(s, repl, p + 1)
  {
  }

  lemma ReplaceFromAtToken(s: string, repl: string, p: nat, k: nat)
    requires SizeTokenAt(s, p, k)
    ensures ReplaceFrom(s, repl, p) == repl + ReplaceFrom(s, repl, p + k + 3)
  {
    assert SizeTokenLen(s, p) == k + 3;
  }

  /** The leftmost match is replaced, the text before it is kept, and the scan resumes
      right after the match. */
  lemma {:induction false} ReplaceFromLeftmost(s: string, repl: string, p: nat, i: nat, k: nat)
    requires p <= i
    requires SizeTokenAt(s, i, k)
    requires forall j, k' :: p <= j < i ==> !SizeTokenAt(s, j, k')
    ensures ReplaceFrom(s, repl, p) == s[p..i] + repl + ReplaceFrom(s, repl, i + k + 3)
    decreases i - p
  {
    if p == i {
      ReplaceFromAtToken(s, repl, p, k);
      assert s[p..i] == [];
    } else {
      ReplaceFromSkip(s, repl, p);
      ReplaceFromLeftmost(s, repl, p + 1, i, k);
      assert s[p..i] == [s[p]] + s[p + 1..i];
    }
  }

  /** A URL without any `/<digits>x/` segment is left as it is. */
  lemma ReplaceWithoutTokens(s: string, repl: string)
    requires forall i, k :: !SizeTokenAt(s, i, k)
    ensures ReplaceSizeTokens(s, repl) == s
  {
    ReplaceFromWithoutTokens(s, repl, 0);
  }

  /** Everything before the first `/<digits>x/` segment is kept and that segment becomes
      `repl`; what follows is rewritten by the same scan. */
  lemma ReplaceLeftmost(s: string, repl: string, i: nat, k: nat)
    requires SizeTokenAt(s, i, k)
    requires forall j, k' :: 0 <= j < i ==> !SizeTokenAt(s, j, k')
    ensures ReplaceSizeTokens(s, repl) == s[..i] + repl + ReplaceFrom(s, repl, i + k + 3)
  {
    ReplaceFromLeftmost(s, repl, 0, i, k);
  }

  /** The `src` rewrite of `scrape_pins`: each size segment becomes `/<quality>/`, or just
      `/` when the original size is asked for. */
  function RewriteSrc(src: string, quality: string): (r: string)
    ensures |src| > 0 ==> |r| > 0
  {
    if quality == "original" then ReplaceSizeTokens(src, "/")
    else ReplaceSizeTokens(src, "/" + quality + "/")
  }

  /** A resized URL gets the requested size. */
  lemma RewriteSrcResized()
    ensures RewriteSrc("/236x/a.jpg", "736x") == "/736x/a.jpg"
  {
    var a := "/236x/a.jpg";
    assert SizeTokenAt(a, 0, 3);
    assert forall i | 6 <= i < |a| :: a[i] != '/';
    ReplaceLeftmost(a, "/736x/", 0, 3);
    ReplaceFromWithoutTokens(a, "/736x/", 6);
  }

  /** Asking for the original size drops the size segment. */
  lemma RewriteSrcOriginal()
    ensures RewriteSrc("/236x/a.jpg", "original") == "/a.jpg"
  {
    var a := "/236x/a.jpg";
    assert SizeTokenAt(a, 0, 3);
    assert forall i | 6 <= i < |a| :: a[i] != '/';
    ReplaceLeftmost(a, "/", 0, 3);
    ReplaceFromWithoutTokens(a, "/", 6);
  }

  /** A match consumes its closing '/', so of two adjacent size segments only the first
      is rewritten. */
  lemma RewriteSrcAdjacent()
    ensures RewriteSrc("/236x/564x/", "736x") == "/736x/564x/"
  {
    var b := "/236x/564x/";
    assert SizeTokenAt(b, 0, 3);
    assert forall i | 6 <= i < 10 :: b[i] != '/';
    ReplaceLeftmost(b, "/736x/", 0, 3);
    ReplaceFromWithoutTokens(b, "/736x/", 6);
  }

  // ---------------------------------------------------------------------------
  // Scraping pins

  /** The pin an `<img>` contributes: none when its `src` is missing or empty. */
  function PinOf(img: Img, quality: string): seq<Pin> {
    if Truthy(img.src) then [Pin(RewriteSrc(img.src.value, quality), img.alt)] else []
  }

  /** The pins of a page's images, in document order. */
  function PinsOf(imgs: seq<Img>, quality: string): (pins: seq<Pin>)
    ensures |pins| <= |imgs|
    ensures forall k :: 0 <= k < |pins| ==> |pins[k].src| > 0
    decreases |imgs|
  {
    if |imgs| == 0 then [] else PinOf(imgs[0], quality) + PinsOf(imgs[1..], quality)
  }

  /** `scrape_pins`: no pins when the page request fails. */
  function ScrapePins(page: Option<Page>, quality: string): (pins: seq<Pin>)
    ensures page.None? ==> pins == []
    ensures page.Some? ==> |pins| <= |page.value.imgs|
  {
    match page
    case None => []
    case Some(pg) => PinsOf(pg.imgs, quality)
  }

  /** Pins keep the document order of their images: scraping `a + b` scrapes `a`, then `b`. */
  lemma {:induction false} PinsOfAppend(a: seq<Img>, b: seq<Img>, quality: string)
    ensures PinsOf(a + b, quality) == PinsOf(a, quality) + PinsOf(b, quality)
    decreases |a|
  {
    if |a| == 0 {
      assert a + b == b;
    } else {
      assert (a + b)[1..] == a[1..] + b;
      PinsOfAppend(a[1..], b, quality);
    }
  }

  /** Each `<img>` with a non-empty `src` gives exactly one pin carrying the rewritten `src`
      and the unchanged `alt`; the others give none. */
  lemma PinsOfSingle(img: Img, quality: string)
    ensures PinsOf([img], quality)
         == if Truthy(img.src) then [Pin(RewriteSrc(img.src.value, quality), img.alt)] else []
  {
    assert [img][1..] == [];
  }

  // ---------------------------------------------------------------------------
  // The board header's pin count

  /** `re.sub(r"\D", "", s)`: the digits of `s`, in order. */
  function KeepDigits(s: string): (d: string)
    ensures AllDigits(d) && |d| <= |s|
    decreases |s|
  {
    if |s| == 0 then []
    else (if IsDigit(s[0]) then [s[0]] else []) + KeepDigits(s[1..])
  }

  lemma {:induction false} KeepDigitsAppend(a: string, b: string)
    ensures KeepDigits(a + b) == KeepDigits(a) + KeepDigits(b)
    decreases |a|
  {
    if |a| == 0 {
      assert a + b == b;
    } else {
      assert (a + b)[1..] == a[1..] + b;
      KeepDigitsAppend(a[1..], b);
    }
  }

  lemma {:induction false} KeepDigitsOfDigits(s: string)
    requires AllDigits(s)
    ensures KeepDigits(s) == s
    decreases |s|
  {
    if |s| > 0 {
      KeepDigitsOfDigits(s[1..]);
    }
  }

  lemma {:induction false} KeepDigitsOfText(s: string)
    requires forall i :: 0 <= i < |s| ==> !IsDigit(s[i])
    ensures KeepDigits(s) == []
    decreases |s|
  {
    if |s| > 0 {
      KeepDigitsOfText(s[1..]);
    }
  }

  /** The pin count of the board header: 0 without a header or without a count `<div>`;
      otherwise the decimal value of the digits of the count text, and `ValueError` when
      that text has no digit at all (`int("")`). */
  function PinCount(header: Option<Header>): (r: Result<nat, Raised>)
    ensures header.None? || header.value.countText.None? ==> r == Ok(0)
  {
    match header
    case None => Ok(0)
    case Some(Header(None)) => Ok(0)
    case Some(Header(Some(text))) =>
      var digits := KeepDigits(text);
      if digits == [] then Err(ValueError) else Ok(DecimalValue(digits))
  }

  /** A count text made of a number between digit-free text reads as that number, so
      "1,234 Pins"-style separators are skipped. */
  lemma PinCountReadsNumber(before: string, n: nat, after: string)
    requires forall i :: 0 <= i < |before| ==> !IsDigit(before[i])
    requires forall i :: 0 <= i < |after| ==> !IsDigit(after[i])
    ensures PinCount(Some(Header(Some(before + NatToString(n) + after)))) == Ok(n)
  {
    var d := NatToString(n);
    KeepDigitsAppend(before + d, after);
    KeepDigitsAppend(before, d);
    KeepDigitsOfText(before);
    KeepDigitsOfText(after);
    KeepDigitsOfDigits(d);
    assert KeepDigits(before + d + after) == d;
    DecimalRoundTrip(n);
  }

  /** The count text raises exactly when it contains no digit. */
  lemma PinCountRaisesIff(text: string)
    ensures PinCount(Some(Header(Some(text)))).Err? <==>
      forall i :: 0 <= i < |text| ==> !IsDigit(text[i])
  {
    if forall i :: 0 <= i < |text| ==> !IsDigit(text[i]) {
      KeepDigitsOfText(text);
    } else {
      var i :| 0 <= i < |text| && IsDigit(text[i]);
      assert text == text[..i] + [text[i]] + text[i + 1..];
      KeepDigitsAppend(text[..i] + [text[i]], text[i + 1..]);
      KeepDigitsAppend(text[..i], [text[i]]);
      assert KeepDigits([text[i]]) == [text[i]] by {
        assert [text[i]][1..] == [];
      }
    }
  }

  lemma PinCountExample()
    ensures PinCount(Some(Header(Some("1,234 Pins")))) == Ok(1234)
  {
    CountTextDigits();
    DecimalValue1234();
  }

  lemma CountTextDigits()
    ensures KeepDigits("1,234 Pins") == "1234"
  {
    var number, tail := "1,234", " Pins";
    assert "1,234 Pins" == number + tail;
    NumberDigits();
    KeepDigitsAppend(number, tail);
    KeepDigitsOfText(tail);
  }

  lemma NumberDigits()
    ensures KeepDigits("1,234") == "1234"
  {
    var d1, sep, d2 := "1", ",", "234";
    assert "1,234" == d1 + sep + d2;
    KeepDigitsAppend(d1 + sep, d2);
    KeepDigitsAppend(d1, sep);
    KeepDigitsOfDigits(d1);
    KeepDigitsOfDigits(d2);
    KeepDigitsOfText(sep);
    assert d1 + d2 == "1234";
  }

  lemma DecimalValue1234()
    ensures DecimalValue("1234") == 1234
  {
    assert DecimalValue("1") == 1;
    assert "12"[..1] == "1";
    assert "123"[..2] == "12";
    assert "1234"[..3] == "123";
  }

  /** `get_board_info`: a failed request gives the title "Error" and count 0; otherwise the
      `<h1>` text (or "Unknown Board") and the header's pin count, whose `ValueError` is not
      caught. */
  function GetBoardInfo(page: Option<Page>): (r: Result<BoardInfo, Raised>)
    ensures page.None? ==> r == Ok(BoardInfo("Error", 0))
    ensures page.Some? ==> (r.Err? <==> PinCount(page.value.header).Err?)
    ensures page.Some? && r.Ok? ==>
      r.value.totalPins == PinCount(page.value.header).value
      && r.value.title == page.value.h1.GetOr("Unknown Board")
  {
    match page
    case None => Ok(BoardInfo("Error", 0))
    case Some(pg) =>
      match PinCount(pg.header)
      case Err(e) => Err(e)
      case Ok(count) => Ok(BoardInfo(pg.h1.GetOr("Unknown Board"), count))
  }

  // ---------------------------------------------------------------------------
  // Uploading pins

  function PinFileName(i: nat): string {
    "pin_" + NatToString(i) + ".jpg"
  }

  /** The storage path of the `i`-th pin: under `<username>/<board_name>/` when both are
      non-empty, at the top level otherwise. */
  function PinPath(username: Option<string>, boardName: Option<string>, i: nat): string {
    if Truthy(username) && Truthy(boardName)
    then username.value + "/" + boardName.value + "/" + PinFileName(i)
    else PinFileName(i)
  }

  /** Distinct positions get distinct storage paths, so one batch never overwrites itself. */
  lemma PinPathInjective(username: Option<string>, boardName: Option<string>, i: nat, j: nat)
    ensures PinPath(username, boardName, i) == PinPath(username, boardName, j) ==> i == j
  {
    var p, q := PinPath(username, boardName, i), PinPath(username, boardName, j);
    if p == q {
      var pre := if Truthy(username) && Truthy(boardName)
                 then username.value + "/" + boardName.value + "/" else "";
      assert p == pre + "pin_" + NatToString(i) + ".jpg";
      assert q == pre + "pin_" + NatToString(j) + ".jpg";
      assert NatToString(i) == p[|pre| + 4..|p| - 4];
      assert NatToString(j) == q[|pre| + 4..|q| - 4];
      NatToStringInjective(i, j);
    }
  }

  /** Pin `i` is uploaded: it has a source, the fetch succeeds, and the upload to its
      storage path reports a path. */
  predicate Uploaded(pin: Pin, i: nat, username: Option<string>, boardName: Option<string>,
                     st: Storage)
  {
    pin.src != "" && st.fetchOk(pin.src) && st.uploadOk(pin.src, PinPath(username, boardName, i))
  }

  /** The public URL pin `i` contributes: none when it is skipped. */
  function UrlOf(pin: Pin, i: nat, username: Option<string>, boardName: Option<string>,
                 st: Storage): seq<string>
  {
    if Uploaded(pin, i, username, boardName, st)
    then [st.publicUrl(PinPath(username, boardName, i))] else []
  }

  /** The URLs of the pins from position `start` on. */
  function UploadFrom(pins: seq<Pin>, start: nat, username: Option<string>,
                      boardName: Option<string>, st: Storage): (urls: seq<string>)
    ensures |urls| <= |pins|
    decreases |pins|
  {
    if |pins| == 0 then []
    else
      var rest := UploadFrom(pins[1..], start + 1, username, boardName, st);
      UrlOf(pins[0], start, username, boardName, st) + rest
  }

  /** `download_images`: one public URL per successfully uploaded pin, in input order. */
  function DownloadImages(pins: seq<Pin>, username: Option<string>, boardName: Option<string>,
                          st: Storage): (urls: seq<string>)
    ensures |urls| <= |pins|
  {
    UploadFrom(pins, 0, username, boardName, st)
  }

  /** Uploading `a + b` uploads `a`, then `b` with positions continuing after `a`: a
      skipped pin still uses up its position. */
  lemma {:induction false} UploadFromAppend(a: seq<Pin>, b: seq<Pin>, start: nat,
                                            username: Option<string>, boardName: Option<string>,
                                            st: Storage)
    ensures UploadFrom(a + b, start, username, boardName, st)
         == UploadFrom(a, start, username, boardName, st)
          + UploadFrom(b, start + |a|, username, boardName, st)
    decreases |a|
  {
    if |a| == 0 {
      assert a + b == b;
    } else {
      var ab := a + b;
      assert ab[0] == a[0] && ab[1..] == a[1..] + b;
      UploadFromAppend(a[1..], b, start + 1, username, boardName, st);
      assert UploadFrom(ab, start, username, boardName, st)
          == UrlOf(a[0], start, username, boardName, st)
           + UploadFrom(a[1..] + b, start + 1, username, boardName, st);
    }
  }

  /** `url` is the public URL of the `i`-th of `pins`, counted from `start`, which was
      uploaded. */
  ghost predicate UploadedAs(pins: seq<Pin>, start: nat, i: int, username: Option<string>,
                             boardName: Option<string>, st: Storage, url: string)
  {
    0 <= i < |pins| && Uploaded(pins[i], start + i, username, boardName, st)
    && url == st.publicUrl(PinPath(username, boardName, start + i))
  }

  lemma {:induction false} UploadFromMembership(pins: seq<Pin>, start: nat,
                                                username: Option<string>,
                                                boardName: Option<string>,
                                                st: Storage, url: string)
    ensures url in UploadFrom(pins, start, username, boardName, st) <==>
      exists i :: UploadedAs(pins, start, i, username, boardName, st, url)
    decreases |pins|
  {
    if |pins| > 0 {
      var tail := pins[1..];
      UploadFromMembership(tail, start + 1, username, boardName, st, url);
      if exists i :: UploadedAs(pins, start, i, username, boardName, st, url) {
        var i :| UploadedAs(pins, start, i, username, boardName, st, url);
        if i > 0 {
          assert tail[i - 1] == pins[i];
          assert UploadedAs(tail, start + 1, i - 1, username, boardName, st, url);
        }
      }
      if url in UploadFrom(tail, start + 1, username, boardName, st) {
        var i :| UploadedAs(tail, start + 1, i, username, boardName, st, url);
        assert pins[i + 1] == tail[i];
        assert UploadedAs(pins, start, i + 1, username, boardName, st, url);
      }
      if url in UrlOf(pins[0], start, username, boardName, st) {
        assert UploadedAs(pins, start, 0, username, boardName, st, url);
      }
    }
  }

  /** A URL is returned iff it is the public URL of the storage path of some pin that was
      uploaded, that path being named after the pin's position in the input. */
  lemma DownloadImagesMembership(pins: seq<Pin>, username: Option<string>,
                                 boardName: Option<string>, st: Storage, url: string)
    ensures url in DownloadImages(pins, username, boardName, st) <==>
      exists i :: 0 <= i < |pins| && Uploaded(pins[i], i, username, boardName, st)
        && url == st.publicUrl(PinPath(username, boardName, i))
  {
    UploadFromMembership(pins, 0, username, boardName, st, url);
    if url in DownloadImages(pins, username, boardName, st) {
      var i :| UploadedAs(pins, 0, i, username, boardName, st, url);
      assert 0 <= i < |pins| && Uploaded(pins[i], i, username, boardName, st);
    } else if exists i :: 0 <= i < |pins| && Uploaded(pins[i], i, username, boardName, st)
                 && url == st.publicUrl(PinPath(username, boardName, i)) {
      var i :| 0 <= i < |pins| && Uploaded(pins[i], i, username, boardName, st)
                 && url == st.publicUrl(PinPath(username, boardName, i));
      assert UploadedAs(pins, 0, i, username, boardName, st, url);
    }
  }
}
