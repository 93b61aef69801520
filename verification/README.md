# Fashion finder core, modelled in Dafny

This project models the request-handling core of a "fashion finder" web service. A user
names a Pinterest board and uploads up to five photos of clothing. The service then:

- scrapes the board's pins and uploads them to a storage bucket;
- ranks the images of a local library by cosine similarity to each photo;
- ranks them by average similarity across all photos.

The modules follow the repository's three core files:

- `Similarity` (with `Ranking` and `Library`) is the search `find_similar_images`:
  - it decodes the query images;
  - it indexes the library directory, keeping only files with an image extension whose
    image loads;
  - it builds the query × library score table;
  - it lists the top five matches per query and the top three by average score, each
    with its per-query score breakdown.

  The feature extractor, the cosine and the directory listing are collaborators, passed
  as functions. Scores are reals.
- `Scraper` is the board scraper:
  - the board URL;
  - the `/<digits>x/` size-token rewrite of image URLs;
  - the pin list of a page;
  - the pin count read from the board header, including the `ValueError` of `int("")`;
  - the board info, where a failed request yields the title "Error";
  - the upload of pins to storage under `<user>/<board>/pin_<i>.jpg`.

  The page is an already parsed document. HTTP and storage are functions.
- `Api` is the web API:
  - the upload-name filter;
  - the Pinterest URL parser, as a leftmost match of `pinterest\.com/([^/]+)/([^/]+)`;
  - the data-URL prefix strip of uploaded images;
  - the validation and payload decisions of the `find-similar` and `fashion-finder`
    routes.

  A reply is a datatype. Uncaught exceptions become the 500 `ServerError`.
- `Text` and `Wrappers` hold the shared helpers: ASCII lower-casing, decimal digits,
  substring search, `Option` and `Result`.

The model follows the code, not the API's stated intent. In particular, the find-similar
route sends a payload without `library_directory` whenever a Pinterest URL or Supabase
storage is given. The search therefore answers "Missing required inputs" with status 200
on those branches. `FindSimilarStorageBranchesUnsearchable` proves this.

## Model

| member | source | states |
|---|---|---|
| Similarity.FindSimilarImages | image_sim_search.py:32-117 | The search fails with "Missing required inputs" exactly when there are no images or no library directory. It fails on a query image exactly when the inputs are present and some query image does not decode, and it names the first such image. The listing fails exactly when every query decodes and the directory cannot be listed. On success there is one result per query image and between one and three overall matches. |
| Similarity.ExtractQueries | image_sim_search.py:40-50 | Either every query image decodes and the features are kept in order, or the error names the first image that does not decode. |
| Similarity.FindSimilarImagesEmptyLibrary | image_sim_search.py:52-71 | "No valid images found in library" is returned exactly when the inputs are present, every query decodes, the directory lists, and no listed name both has an allowed extension and loads. |
| Similarity.FindSimilarImagesMatchesSound | image_sim_search.py:79-94 | Result i belongs to query i. Every match is a loadable library file whose score is the cosine of its features with query i's. |
| Similarity.FindSimilarImagesBestSound | image_sim_search.py:96-117 | Every overall match is a loadable library file. Under `query_i` its breakdown holds the cosine with query i, and its average is the mean of that breakdown. |
| Similarity.FindSimilarImagesPathsListed | image_sim_search.py:57-65 | Every reported path, per query or overall, is a listed name with an allowed extension, joined to the library directory. |
| Similarity.RankPerQuery | image_sim_search.py:79-94 | Each query lists min(5, n) entries with their scores, in non-increasing order. No omitted entry scores above a listed one. With distinct paths, no entry repeats. |
| Similarity.RankBestOverall | image_sim_search.py:96-101 | The overall list has min(3, n) entry reports, in non-increasing average. No omitted entry has a higher average than a listed one, and with distinct paths no entry repeats. |
| Similarity.BestMatchForExact | image_sim_search.py:101-115 | An entry's report carries its path and exactly the keys `query_0` … `query_{q-1}`, each holding that query's score. Its average equals both the column mean and the mean of the breakdown. |
| Similarity.IndividualScoresExact | image_sim_search.py:108-113 | The score map has exactly one key per query, and each key maps to that query's score. |
| Similarity.QueryKeyInjective | image_sim_search.py:113 | Different query indices give different `query_i` keys, so no score overwrites another. |
| Ranking.TopKIsTopK | image_sim_search.py:85 | The top-k prefix of the descending index order has length min(k, n), holds distinct in-range indices in non-increasing score order, and dominates every omitted index. |
| Ranking.SortedIndices | image_sim_search.py:85 | The descending index order is a permutation of 0..n-1 whose scores never increase. |
| Ranking.AccumulateIsColumnSum | image_sim_search.py:77-82 | After adding every row, each entry of the running sum is its start value plus the sum of its column. |
| Ranking.AveragesAreColumnMeans | image_sim_search.py:97 | Each average is its column's sum divided by the number of queries. |
| Library.LibraryImageIff | image_sim_search.py:55-59 | A file name is kept exactly when it has a last dot with a non-dot before it, and the lower-cased text from that dot is .png, .jpg, .jpeg or .gif. |
| Library.LibraryImageUpperCase | image_sim_search.py:58-59 | "look.PNG" is kept, since the extension is lower-cased. |
| Library.LibraryImageDoubleDot | image_sim_search.py:58-59 | "a..jpeg" is kept. |
| Library.LibraryImageDotFile | image_sim_search.py:58-59 | ".png" is refused, because splitext treats a leading dot as part of the name. |
| Library.LibraryImageLastExtension | image_sim_search.py:58-59 | "coat.png.txt" is refused, because only the last extension counts. |
| Library.LibraryImageNoDot | image_sim_search.py:58-59 | "png" is refused. |
| Library.Extension | image_sim_search.py:58 | The extension is empty, or it is a suffix of the path that starts with a dot. |
| Library.JoinPath | image_sim_search.py:60 | Joining onto an absolute part gives that part. Otherwise the result starts with the directory and ends with the name. Exactly one character is inserted, and it is '/', exactly when the directory is non-empty and does not already end in '/'. |
| Library.JoinPathInjective | image_sim_search.py:60 | Under one directory, different relative names give different paths. |
| Library.IndexLibraryMembership | image_sim_search.py:57-68 | A path is indexed exactly when it is some listed name with an allowed extension, joined to the directory, whose image loads. |
| Library.IndexLibraryAppend | image_sim_search.py:57-68 | Indexing a concatenated listing gives the two indexes concatenated, in listing order. |
| Library.IndexLibraryDistinct | image_sim_search.py:57-68 | A listing of distinct relative names gives distinct indexed paths. |
| Library.IndexLibrary | image_sim_search.py:57-68 | Features and paths stay parallel, every path's image loads to its recorded features, and no more entries are kept than names were listed. |
| Scraper.ReplaceLeftmost | board_scraper.py:139-145 | The URL up to its first `/<digits>x/` token is kept, that token becomes the replacement, and the scan resumes after the token. |
| Scraper.ReplaceWithoutTokens | board_scraper.py:139-145 | A URL without any size token is left unchanged. |
| Scraper.SizeTokenLen | board_scraper.py:143 | The token length at a position is that of the unique `/<digits>x/` match there, or 0 when none matches. |
| Scraper.RewriteSrcResized | board_scraper.py:144-145 | "/236x/a.jpg" asked at 736x becomes "/736x/a.jpg". |
| Scraper.RewriteSrcOriginal | board_scraper.py:141-143 | "/236x/a.jpg" asked at original size becomes "/a.jpg". |
| Scraper.RewriteSrcAdjacent | board_scraper.py:144-145 | In "/236x/564x/" only the first token is rewritten, because matches cannot share their '/'. |
| Scraper.PinsOfAppend | board_scraper.py:135-147 | The pins of concatenated image lists are the concatenated pins, in document order. |
| Scraper.PinsOfSingle | board_scraper.py:136-147 | An image with a non-empty src gives one pin, with its rewritten src and unchanged alt. Any other image gives no pin. |
| Scraper.ScrapePins | board_scraper.py:114-156 | A failed request gives no pins. Otherwise there are at most as many pins as images. |
| Scraper.PinCountReadsNumber | board_scraper.py:100-102 | A count text made of a number between non-digit text reads back as that number. |
| Scraper.PinCountRaisesIff | board_scraper.py:101 | Reading the count raises `ValueError` exactly when the count text holds no digit. |
| Scraper.PinCountExample | board_scraper.py:101 | "1,234 Pins" reads as 1234. |
| Scraper.GetBoardInfo | board_scraper.py:77-112 | A failed request gives ("Error", 0). Otherwise the call raises exactly when the pin count raises, and the title is the `<h1>` text or "Unknown Board". |
| Scraper.PinPathInjective | board_scraper.py:52-57 | Distinct pin positions get distinct storage paths, with or without the user and board prefix. |
| Scraper.UploadFromAppend | board_scraper.py:46-75 | Uploading a concatenation gives the two URL lists concatenated. The second list is numbered from where the first left off. |
| Scraper.DownloadImagesMembership | board_scraper.py:24-75 | A URL is returned exactly when some pin with a non-empty src was fetched and uploaded, and the URL is the public URL of the path named after that pin's position. |
| Text.DecimalRoundTrip | board_scraper.py:101 | Reading the decimal digits of a number gives the number back. |
| Text.NatToStringInjective | board_scraper.py:52 | Different numbers print differently. |
| Api.AllowedFileIff | api.py:31-32 | A name is accepted exactly when it has a dot and the lower-cased text after its last dot is png, jpg or jpeg. |
| Api.AllowedFileUpperCase | api.py:31-32 | "photo.JPG" is accepted. |
| Api.AllowedFileDotFile | api.py:31-32 | ".png" is accepted, though the library filter refuses it. |
| Api.AllowedFileRefusals | api.py:31-32 | "png" and "a.gif" are refused. |
| Api.MatchAtIff | api.py:37-38 | The pattern matches at a position with groups u and b exactly when "pinterest.com/" + u + "/" + b stands there, both are non-empty runs without '/', and b ends at a '/' or at the end. |
| Api.ExtractPinterestInfo | api.py:35-42 | No result is given exactly when the pattern matches nowhere. |
| Api.ExtractPinterestInfoLeftmost | api.py:38-41 | The result is the match at the leftmost matching position. |
| Api.ExtractPinterestInfoRoundTrip | api.py:35-42 | A URL whose first "pinterest.com/" is followed by a board path gives back exactly that username and board name. |
| Api.BoardUrlRoundTrip | api.py:35-42 | The scraper's own board URL parses back to its username and board name. |
| Api.ExtractPinterestInfoNonEmpty | api.py:89-90 | Both parsed parts are non-empty and free of '/', so the emptiness check never fires after a successful parse. |
| Api.StripDataUrlPrefix | api.py:52-54 | Text without "base64," is kept whole. Otherwise the result is the text after the first "base64,", up to the next one or to the end, so it is shorter and holds no marker. |
| Api.StripDataUrlPrefixRoundTrip | api.py:52-54 | "<prefix>base64,<data>" strips to exactly `data` when neither part contains the marker. |
| Api.SaveBase64ImageDataUrl | api.py:45-63 | An uploaded data URL is saved exactly when its data part decodes and writes, and it is saved at `<folder>/<name>.jpg`. |
| Api.FindSimilarPayload | api.py:200-253 | Every refusal is a 400. Every accepted payload carries one to five images. |
| Api.FindSimilarRefusedIff | api.py:204-236 | The route refuses with 400 exactly when a check fails. Each message holds exactly when its check is the first to fail, in this order: no data, no images, more than five images, a Pinterest URL that does not parse, Supabase without both a username and a board name. |
| Api.FindSimilarStorageBranchesUnsearchable | api.py:218-244 | With a Pinterest URL or Supabase storage, the reply is the search's "Missing required inputs" error. |
| Api.FindSimilarLocalLibrary | api.py:245-259 | Otherwise the search runs on the request's images and library directory ("pictures" by default). Its outcome is the reply, and an unlistable directory gives a 500. |
| Api.FashionFinderValidate | api.py:69-90 | Every refusal is a 400. An accepted request has at most five images and a non-empty username and board name. |
| Api.FashionFinderValidateIff | api.py:70-90 | Each 400 message corresponds exactly to the first failing check, in the order data, URL present, image count, URL format. Anything else passes, with the parsed username and board name. |
| Api.FashionSearchDirectory | api.py:127-137 | The search always looks in `pictures/<username>/<board_name>`, with the uploaded images as queries. |
| Api.FashionFinderBoardTitledError | api.py:96-98 | A board page that loads but whose `<h1>` reads "Error" is reported as inaccessible (404). |
| Api.FashionFinderScrapeOnly | api.py:105-125 | With no uploaded image saved, the reply is the board info and the public URLs of the uploaded pins, and no search runs. |
| Api.SavedUploadsMembership | api.py:110-115 | A path is among the saved uploads exactly when some uploaded image's data decodes and writes, and the path is `uploaded_images/<name>.jpg`, with the random name drawn for that image's position. |
| Api.FashionFinderScrapedUrls | api.py:105-125 | A scrape-only reply lists exactly the public URLs of `<username>/<board_name>/pin_<i>.jpg` for the scraped pins that were fetched and uploaded. |
| Api.FashionFinderCombinedResults | api.py:127-150 | Once pins were found and some upload was saved, a successful search's per-query results and overall matches are passed through. An error reply from the search gives empty lists, and an unlistable directory gives a 500. |
| Api.FashionFinderCombinedCounts | api.py:127-150 | A combined reply counts no more uploaded pins than were scraped, and between one and five saved uploads. |

## Left out

- Feature extraction (ResNet50, image decoding, preprocessing) and `cosine_similarity` are collaborator functions of `Similarity.Env`. The model keeps their results as given.
- Scores are exact reals. Floating-point rounding in the sum and the division is not modelled.
- `os.listdir` is a function from a directory to its listing, or to nothing for an unlistable directory. Its order is taken as given.
- Tie order: `np.argsort` may order equal scores in any way, so the model does not claim one. The top-k contracts hold for any tie order.
- `lower()` and `\d` are modelled on ASCII only. This does not change any decision about the fixed extension sets.
- Backslash escapes in the quality string under `re.sub` are not modelled. The only quality used is "736x", which has none.
- JSON `null` values and values of the wrong type (e.g. a string where a list of images is expected) are not modelled. A body field is present with the right type, or absent.
- The route's two page fetches are one deterministic page function, so both reads see the same page.
- Only the exceptions that decide a reply are modelled: an unlistable library directory, the `ValueError` of the pin count, and a failed upload or fetch of a pin. Others (e.g. a failing storage client) are not.
- `uuid.uuid4()` is the parameter `uploadName`. Decoding plus writing is the parameter `decodeWrite`.
- The `uploaded_matches` field of the combined reply is always the empty list, because the search never produces that key. It is omitted from `Combined`.
- The text of 500 replies (the exception message) is not modelled: `ServerError` carries none.
- Flask, CORS, logging and directory creation are not modelled.
- The `scrape-board` route, `main.py` and `supabase_config.py` are not part of this model.
