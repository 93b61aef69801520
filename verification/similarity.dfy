/** `find_similar_images`: input guards, query feature extraction, library indexing, the
    per-query top-5 matches, and the top-3 entries by average score with their per-query
    breakdown. The neural feature extractor, file access and cosine similarity are
    collaborators passed in as functions (`Env`); everything else is computed here. */
module Similarity {
  import opened Wrappers
  import opened Text
  import opened Ranking
  import opened Library

  /** The request dictionary. A missing "images" key reads as the empty list, so it is not
      distinguished from an empty one; the other keys are `None` when absent. */
  datatype Payload = Payload(
    images: seq<string>,
    libraryDirectory: Option<string>,
    username: Option<string>,
    boardName: Option<string>,
    useSupabase: Option<bool>)

  /** The collaborators of one search:
      - `decodeQuery`: base64-decodes a query image, opens it and extracts its features;
        `None` when any of that raises;
      - `listDir`: `os.listdir`; `None` when it raises (missing or unreadable directory);
      - `loadImage`: opens a library file and extracts its features; `None` when that raises;
      - `cosine`: the cosine similarity of two feature vectors. */
  datatype Env = Env(
    decodeQuery: string -> Option<Feature>,
    listDir: string -> Option<seq<string>>,
    loadImage: string -> Option<Feature>,
    cosine: (Feature, Feature) -> real)

  datatype Match = Match(path: string, similarityScore: real)

  datatype QueryResult = QueryResult(queryImageIndex: nat, matches: seq<Match>)

  datatype BestMatch = BestMatch(
    path: string,
    averageSimilarityScore: real,
    individualScores: map<string, real>)

  datatype SearchOutput = SearchOutput(results: seq<QueryResult>, bestOverallMatches: seq<BestMatch>)

  datatype SearchError =
    | MissingInputs          // returned: "Missing required inputs"
    | QueryImageFailed(index: nat)  // returned: "Failed to process input image: ..." for this image
    | NoValidLibraryImages   // returned: "No valid images found in library"
    | LibraryNotListable     // raised by os.listdir, not returned

  /** How many matches each query reports, and how many entries the overall ranking keeps. */
  const MatchesPerQuery: nat := 5
  const BestOverallCount: nat := 3

  /** Extracts the features of every query image in order, stopping at the first image that
      cannot be processed and reporting its position. */
  function ExtractQueries(images: seq<string>, decode: string -> Option<Feature>)
    : (r: Result<seq<Feature>, nat>)
    ensures r.Ok? ==> |r.value| == |images|
    ensures r.Ok? ==> forall i :: 0 <= i < |images| ==> decode(images[i]) == Some(r.value[i])
    ensures r.Err? ==> r.error < |images| && decode(images[r.error]).None?
    ensures r.Err? ==> forall i :: 0 <= i < r.error ==> decode(images[i]).Some?
    decreases |images|
  {
    if |images| == 0 then Ok([])
    else match decode(images[0])
      case None => Err(0)
      case Some(f) =>
        match ExtractQueries(images[1..], decode)
        case Ok(fs) => Ok([f] + fs)
        case Err(i) => Err(i + 1)
  }

  /** One row per query, one column per library entry: `cosine_similarity(queries, library)`. */
  function ScoreMatrix(queries: seq<Feature>, library: seq<Feature>,
                       cosine: (Feature, Feature) -> real): (S: seq<seq<real>>)
    ensures |S| == |queries| && IsMatrix(S, |library|)
  {
    seq(|queries|, i requires 0 <= i < |queries| =>
      seq(|library|, e requires 0 <= e < |library| => cosine(queries[i], library[e])))
  }

  /** The key under which query `i`'s score is reported (`f"query_{i}"`). */
  function QueryKey(i: nat): string {
    "query_" + NatToString(i)
  }

  lemma QueryKeyInjective(i: nat, j: nat)
    ensures QueryKey(i) == QueryKey(j) ==> i == j
  {
    if QueryKey(i) == QueryKey(j) {
      assert NatToString(i) == QueryKey(i)[6..];
      assert NatToString(j) == QueryKey(j)[6..];
      NatToStringInjective(i, j);
    }
  }

  /** The per-query breakdown of entry `e`, filled in query order as the source loop does. */
  function IndividualScores(S: seq<seq<real>>, e: nat, q: nat): map<string, real>
    requires q <= |S| && forall r :: 0 <= r < |S| ==> e < |S[r]|
  {
    if q == 0 then map[] else IndividualScores(S, e, q - 1)[QueryKey(q - 1) := S[q - 1][e]]
  }

  /** The breakdown has exactly the keys `query_0 .. query_{q-1}`, and the key of query `i`
      holds that query's score for the entry. */
  lemma {:induction false} IndividualScoresExact(S: seq<seq<real>>, e: nat, q: nat)
    requires q <= |S| && forall r :: 0 <= r < |S| ==> e < |S[r]|
    ensures forall k :: k in IndividualScores(S, e, q) <==> exists i :: 0 <= i < q && k == QueryKey(i)
    ensures forall i :: 0 <= i < q ==> IndividualScores(S, e, q)[QueryKey(i)] == S[i][e]
  {
    if q > 0 {
      IndividualScoresExact(S, e, q - 1);
      forall i | 0 <= i < q - 1
        ensures QueryKey(i) != QueryKey(q - 1)
      {
        QueryKeyInjective(i, q - 1);
      }
    }
  }

  /** The top-5 matches of one query, best first. */
  function MatchesFor(row: seq<real>, paths: seq<string>): (ms: seq<Match>)
    requires |row| == |paths|
    ensures |ms| == Min(MatchesPerQuery, |paths|)
  {
    var top := TopK(row, MatchesPerQuery);
    seq(|top|, m requires 0 <= m < |top| => Match(paths[top[m]], row[top[m]]))
  }

  /** The report of entry `e` in the overall ranking. */
  function BestMatchFor(S: seq<seq<real>>, paths: seq<string>, e: nat): BestMatch
    requires |S| >= 1 && IsMatrix(S, |paths|) && e < |paths|
  {
    BestMatch(paths[e], Averages(S, |paths|)[e], IndividualScores(S, e, |S|))
  }

  /** The ranking stage of `find_similar_images`, for a score matrix `S` whose columns are the
      library `paths`. */
  function Rank(S: seq<seq<real>>, paths: seq<string>): (out: SearchOutput)
    requires |S| >= 1 && IsMatrix(S, |paths|)
    ensures |out.results| == |S|
    ensures |out.bestOverallMatches| == Min(BestOverallCount, |paths|)
  {
    var best := TopK(Averages(S, |paths|), BestOverallCount);
    SearchOutput(
      seq(|S|, i requires 0 <= i < |S| => QueryResult(i, MatchesFor(S[i], paths))),
      seq(|best|, m requires 0 <= m < |best| => BestMatchFor(S, paths, best[m])))
  }

  /** The whole of `find_similar_images`. */
  function FindSimilarImages(p: Payload, env: Env): (r: Result<SearchOutput, SearchError>)
    ensures r == Err(MissingInputs) <==> |p.images| == 0 || p.libraryDirectory.GetOr("") == ""
    ensures r.Err? && r.error.QueryImageFailed? ==>
      r.error.index < |p.images| && env.decodeQuery(p.images[r.error.index]).None?
      && forall i :: 0 <= i < r.error.index ==> env.decodeQuery(p.images[i]).Some?
    ensures r.Err? && r.error.QueryImageFailed? <==>
      && |p.images| >= 1 && p.libraryDirectory.GetOr("") != ""
      && exists i :: 0 <= i < |p.images| && env.decodeQuery(p.images[i]).None?
    ensures r == Err(LibraryNotListable) <==>
      && |p.images| >= 1 && p.libraryDirectory.GetOr("") != ""
      && (forall i :: 0 <= i < |p.images| ==> env.decodeQuery(p.images[i]).Some?)
      && env.listDir(p.libraryDirectory.value).None?
    ensures r.Ok? ==> 1 <= |r.value.results| == |p.images|
    ensures r.Ok? ==> 1 <= |r.value.bestOverallMatches| <= BestOverallCount
  {
    var dir := p.libraryDirectory.GetOr("");
    if |p.images| == 0 || dir == "" then Err(MissingInputs)
    else match ExtractQueries(p.images, env.decodeQuery)
      case Err(i) => Err(QueryImageFailed(i))
      case Ok(queries) =>
        match env.listDir(dir)
        case None => Err(LibraryNotListable)
        case Some(names) =>
          var library := IndexLibrary(dir, names, env.loadImage);
          if |library.paths| == 0 then Err(NoValidLibraryImages)
          else Ok(Rank(ScoreMatrix(queries, library.features, env.cosine), library.paths))
  }

  /** The scores of a breakdown listed in query order `query_0 .. query_{q-1}`. */
  function InQueryOrder(scores: map<string, real>, q: nat): seq<real>
    requires forall i :: 0 <= i < q ==> QueryKey(i) in scores
  {
    seq(q, i requires 0 <= i < q => scores[QueryKey(i)])
  }

  /** The report of entry `e`: its path, a breakdown with exactly one key per query holding
      that query's score, and an average that is the mean of the breakdown. */
  lemma BestMatchForExact(S: seq<seq<real>>, paths: seq<string>, e: nat)
    requires |S| >= 1 && IsMatrix(S, |paths|) && e < |paths|
    ensures var b := BestMatchFor(S, paths, e);
      && b.path == paths[e]
      && (forall k :: k in b.individualScores <==> exists i :: 0 <= i < |S| && k == QueryKey(i))
      && (forall i :: 0 <= i < |S| ==> b.individualScores[QueryKey(i)] == S[i][e])
      && b.averageSimilarityScore == Sum(Column(S, e)) / (|S| as real)
      && b.averageSimilarityScore
         == Sum(InQueryOrder(b.individualScores, |S|)) / (|S| as real)
  {
    IndividualScoresExact(S, e, |S|);
    AveragesAreColumnMeans(S, |paths|);
    var b := BestMatchFor(S, paths, e);
    assert InQueryOrder(b.individualScores, |S|) == Column(S, e);
  }

  /** Result `i` belongs to query `i` and lists min(5, n) library entries with their scores
      for that query, best first; no entry left out scores higher than one listed, and with
      distinct library paths no entry is listed twice. */
  lemma RankPerQuery(S: seq<seq<real>>, paths: seq<string>, i: nat)
    requires |S| >= 1 && IsMatrix(S, |paths|) && i < |S|
    ensures var res := Rank(S, paths).results[i];
      var ms := res.matches;
      && res.queryImageIndex == i
      && |ms| == Min(MatchesPerQuery, |paths|)
      && (forall m :: 0 <= m < |ms| ==>
            exists e :: 0 <= e < |paths| && ms[m] == Match(paths[e], S[i][e]))
      && (forall a, b :: 0 <= a < b < |ms| ==> ms[a].similarityScore >= ms[b].similarityScore)
      && (forall m, e :: 0 <= m < |ms| && 0 <= e < |paths|
            && (forall m' :: 0 <= m' < |ms| ==> ms[m'].path != paths[e])
            ==> ms[m].similarityScore >= S[i][e])
      && ((forall a, b :: 0 <= a < b < |paths| ==> paths[a] != paths[b]) ==>
            forall a, b :: 0 <= a < b < |ms| ==> ms[a].path != ms[b].path)
  {
    assert Rank(S, paths).results[i] == QueryResult(i, MatchesFor(S[i], paths));
    MatchesForSpec(S[i], paths);
  }

  /** The top-5 matches of one score row, stated over the row alone. */
  lemma MatchesForSpec(row: seq<real>, paths: seq<string>)
    requires |row| == |paths|
    ensures var ms := MatchesFor(row, paths);
      && (forall m :: 0 <= m < |ms| ==>
            exists e :: 0 <= e < |paths| && ms[m] == Match(paths[e], row[e]))
      && (forall a, b :: 0 <= a < b < |ms| ==> ms[a].similarityScore >= ms[b].similarityScore)
      && (forall m, e :: 0 <= m < |ms| && 0 <= e < |paths|
            && (forall m' :: 0 <= m' < |ms| ==> ms[m'].path != paths[e])
            ==> ms[m].similarityScore >= row[e])
      && ((forall a, b :: 0 <= a < b < |paths| ==> paths[a] != paths[b]) ==>
            forall a, b :: 0 <= a < b < |ms| ==> ms[a].path != ms[b].path)
  {
    var top := TopK(row, MatchesPerQuery);
    TopKIsTopK(row, MatchesPerQuery);
    var ms := MatchesFor(row, paths);
    assert forall m :: 0 <= m < |ms| ==> ms[m] == Match(paths[top[m]], row[top[m]]);
    forall m | 0 <= m < |ms|
      ensures exists e :: 0 <= e < |paths| && ms[m] == Match(paths[e], row[e])
    {
      assert ms[m] == Match(paths[top[m]], row[top[m]]);
    }
    forall m, e | 0 <= m < |ms| && 0 <= e < |paths|
        && (forall m' :: 0 <= m' < |ms| ==> ms[m'].path != paths[e])
      ensures ms[m].similarityScore >= row[e]
    {
      assert e !in top by {
        forall p | 0 <= p < |top|
          ensures top[p] != e
        {
          assert ms[p].path == paths[top[p]];
        }
      }
    }
    if forall a, b :: 0 <= a < b < |paths| ==> paths[a] != paths[b] {
      forall a, b | 0 <= a < b < |ms|
        ensures ms[a].path != ms[b].path
      {
          assert top[a] != top[b];
      }
    }
  }

  /** `b` is the report of one of the library entries. */
  ghost predicate IsReportOf(S: seq<seq<real>>, paths: seq<string>, b: BestMatch)
    requires |S| >= 1 && IsMatrix(S, |paths|)
  {
    exists e: nat :: e < |paths| && b == BestMatchFor(S, paths, e)
  }

  /** The overall ranking lists min(3, n) entry reports in non-increasing order of average
      score; no entry left out has a higher average than one listed, and with distinct
      library paths no entry is listed twice. */
  lemma RankBestOverall(S: seq<seq<real>>, paths: seq<string>)
    requires |S| >= 1 && IsMatrix(S, |paths|)
    ensures var bs := Rank(S, paths).bestOverallMatches;
      && |bs| == Min(BestOverallCount, |paths|)
      && (forall m :: 0 <= m < |bs| ==>
            IsReportOf(S, paths, bs[m]))
      && (forall a, b :: 0 <= a < b < |bs| ==>
            bs[a].averageSimilarityScore >= bs[b].averageSimilarityScore)
      && (forall m, e :: 0 <= m < |bs| && 0 <= e < |paths|
            && (forall m' :: 0 <= m' < |bs| ==> bs[m'].path != paths[e])
            ==> bs[m].averageSimilarityScore >= Sum(Column(S, e)) / (|S| as real))
      && ((forall a, b :: 0 <= a < b < |paths| ==> paths[a] != paths[b]) ==>
            forall a, b :: 0 <= a < b < |bs| ==> bs[a].path != bs[b].path)
  {
    var avg := Averages(S, |paths|);
    var best := TopK(avg, BestOverallCount);
    TopKIsTopK(avg, BestOverallCount);
    AveragesAreColumnMeans(S, |paths|);
    var bs := Rank(S, paths).bestOverallMatches;
    forall m | 0 <= m < |bs|
      ensures best[m] < |paths| && bs[m] == BestMatchFor(S, paths, best[m])
      ensures bs[m].path == paths[best[m]] && bs[m].averageSimilarityScore == avg[best[m]]
    {
    }
    forall m | 0 <= m < |bs|
      ensures IsReportOf(S, paths, bs[m])
    {
      var e := best[m];
      assert 0 <= e < |paths| && bs[m] == BestMatchFor(S, paths, e);
    }
    forall m, e | 0 <= m < |bs| && 0 <= e < |paths|
        && (forall m' :: 0 <= m' < |bs| ==> bs[m'].path != paths[e])
      ensures bs[m].averageSimilarityScore >= Sum(Column(S, e)) / (|S| as real)
    {
      assert e !in best;
    }
  }

  /** The features of query `i`, for a payload whose queries all decode. */
  function QueryFeature(p: Payload, env: Env, i: nat): Feature
    requires i < |p.images| && env.decodeQuery(p.images[i]).Some?
  {
    env.decodeQuery(p.images[i]).value
  }

  /** `find_similar_images` fails with "No valid images found in library" exactly when the
      inputs are present, every query image is processed, the directory can be listed, and
      no listed name both has an allowed extension and loads. */
  lemma FindSimilarImagesEmptyLibrary(p: Payload, env: Env)
    ensures FindSimilarImages(p, env) == Err(NoValidLibraryImages) <==>
      && |p.images| >= 1 && p.libraryDirectory.GetOr("") != ""
      && (forall i :: 0 <= i < |p.images| ==> env.decodeQuery(p.images[i]).Some?)
      && env.listDir(p.libraryDirectory.value).Some?
      && var dir := p.libraryDirectory.value;
         var names := env.listDir(dir).value;
         forall j :: 0 <= j < |names| ==>
           !(IsLibraryImage(names[j]) && env.loadImage(JoinPath(dir, names[j])).Some?)
  {
    var dir := p.libraryDirectory.GetOr("");
    if |p.images| >= 1 && dir != "" {
      var q := ExtractQueries(p.images, env.decodeQuery);
      if q.Ok? && env.listDir(dir).Some? {
        var names := env.listDir(dir).value;
        var paths := IndexLibrary(dir, names, env.loadImage).paths;
        if |paths| > 0 {
          IndexLibraryMembership(dir, names, env.loadImage, paths[0]);
        } else {
          forall j | 0 <= j < |names|
            ensures !(IsLibraryImage(names[j]) && env.loadImage(JoinPath(dir, names[j])).Some?)
          {
            IndexLibraryMembership(dir, names, env.loadImage, JoinPath(dir, names[j]));
          }
        }
      }
    }
  }

  /** `path` is an allowed entry of the listing `names`, joined to `dir`. */
  ghost predicate FromListing(dir: string, names: seq<string>, path: string) {
    exists j :: 0 <= j < |names| && IsLibraryImage(names[j]) && path == JoinPath(dir, names[j])
  }

  /** A successful search is the ranking stage applied to the cosine scores of the query
      features against the library index built from the listed directory. */
  lemma FindSimilarImagesIsRank(p: Payload, env: Env)
    requires FindSimilarImages(p, env).Ok?
    ensures p.libraryDirectory.Some? && env.listDir(p.libraryDirectory.value).Some?
    ensures ExtractQueries(p.images, env.decodeQuery).Ok?
    ensures var dir := p.libraryDirectory.value;
      var lib := IndexLibrary(dir, env.listDir(dir).value, env.loadImage);
      var queries := ExtractQueries(p.images, env.decodeQuery).value;
      && |lib.paths| >= 1 && |queries| == |p.images| >= 1
      && FindSimilarImages(p, env).value
         == Rank(ScoreMatrix(queries, lib.features, env.cosine), lib.paths)
  {
  }

  /** Result `i` belongs to query `i`, and each of its matches is a file whose image
      loaded, scored by the cosine of its features with the query's. */
  lemma FindSimilarImagesMatchesSound(p: Payload, env: Env)
    requires FindSimilarImages(p, env).Ok?
    ensures p.libraryDirectory.Some? && env.listDir(p.libraryDirectory.value).Some?
    ensures forall i :: 0 <= i < |p.images| ==> env.decodeQuery(p.images[i]).Some?
    ensures var out := FindSimilarImages(p, env).value;
      var dir := p.libraryDirectory.value;
      forall i, m :: 0 <= i < |out.results| && 0 <= m < |out.results[i].matches| ==>
        var mt := out.results[i].matches[m];
        && out.results[i].queryImageIndex == i
        && env.loadImage(mt.path).Some?
        && mt.similarityScore
           == env.cosine(QueryFeature(p, env, i), env.loadImage(mt.path).value)
  {
    FindSimilarImagesIsRank(p, env);
    var dir := p.libraryDirectory.value;
    var queries := ExtractQueries(p.images, env.decodeQuery).value;
    var lib := IndexLibrary(dir, env.listDir(dir).value, env.loadImage);
    var S := ScoreMatrix(queries, lib.features, env.cosine);
    var out := FindSimilarImages(p, env).value;
    forall i, m | 0 <= i < |out.results| && 0 <= m < |out.results[i].matches|
      ensures var mt := out.results[i].matches[m];
        && out.results[i].queryImageIndex == i
        && env.loadImage(mt.path).Some?
        && mt.similarityScore
           == env.cosine(QueryFeature(p, env, i), env.loadImage(mt.path).value)
    {
      RankPerQuery(S, lib.paths, i);
      var e :| 0 <= e < |lib.paths| && out.results[i].matches[m] == Match(lib.paths[e], S[i][e]);
    }
  }

  /** `b` reports library entry `e`: its path, under `query_i` the score of query `i` for
      `e`, and as average the mean of that breakdown. */
  ghost predicate ReportsEntry(S: seq<seq<real>>, paths: seq<string>, b: BestMatch, e: int) {
    && |S| >= 1 && 0 <= e < |paths| && b.path == paths[e]
    && (forall i :: 0 <= i < |S| ==>
          e < |S[i]| && QueryKey(i) in b.individualScores && b.individualScores[QueryKey(i)] == S[i][e])
    && b.averageSimilarityScore == Sum(InQueryOrder(b.individualScores, |S|)) / (|S| as real)
  }

  /** Each overall entry reports one of the library entries. */
  lemma RankBestReports(S: seq<seq<real>>, paths: seq<string>, m: nat)
    requires |S| >= 1 && IsMatrix(S, |paths|)
    requires m < |Rank(S, paths).bestOverallMatches|
    ensures exists e :: ReportsEntry(S, paths, Rank(S, paths).bestOverallMatches[m], e)
  {
    RankBestOverall(S, paths);
    var b := Rank(S, paths).bestOverallMatches[m];
    assert IsReportOf(S, paths, b);
    var e: nat :| e < |paths| && b == BestMatchFor(S, paths, e);
    BestMatchForExact(S, paths, e);
    assert ReportsEntry(S, paths, b, e);
  }

  /** Every path the ranking reports, per query or overall, is one of the library paths. */
  lemma RankPathsFrom(S: seq<seq<real>>, paths: seq<string>)
    requires |S| >= 1 && IsMatrix(S, |paths|)
    ensures var out := Rank(S, paths);
      && (forall i, m :: 0 <= i < |out.results| && 0 <= m < |out.results[i].matches| ==>
            out.results[i].matches[m].path in paths)
      && (forall m :: 0 <= m < |out.bestOverallMatches| ==> out.bestOverallMatches[m].path in paths)
  {
    var out := Rank(S, paths);
    forall i, m | 0 <= i < |out.results| && 0 <= m < |out.results[i].matches|
      ensures out.results[i].matches[m].path in paths
    {
      RankPerQuery(S, paths, i);
      var e :| 0 <= e < |paths| && out.results[i].matches[m] == Match(paths[e], S[i][e]);
    }
    forall m | 0 <= m < |out.bestOverallMatches|
      ensures out.bestOverallMatches[m].path in paths
    {
      RankBestReports(S, paths, m);
    }
  }

  /** Each overall entry is a file whose image loaded; its breakdown holds, under `query_i`,
      the cosine of its features with query `i`'s, and its average is the mean of that
      breakdown. */
  lemma FindSimilarImagesBestSound(p: Payload, env: Env)
    requires FindSimilarImages(p, env).Ok?
    ensures p.libraryDirectory.Some? && env.listDir(p.libraryDirectory.value).Some?
    ensures forall i :: 0 <= i < |p.images| ==> env.decodeQuery(p.images[i]).Some?
    ensures var out := FindSimilarImages(p, env).value;
      var dir := p.libraryDirectory.value;
      forall m :: 0 <= m < |out.bestOverallMatches| ==>
        var b := out.bestOverallMatches[m];
        && env.loadImage(b.path).Some?
        && (forall i :: 0 <= i < |p.images| ==>
              QueryKey(i) in b.individualScores
              && b.individualScores[QueryKey(i)]
                 == env.cosine(QueryFeature(p, env, i), env.loadImage(b.path).value))
        && b.averageSimilarityScore
           == Sum(InQueryOrder(b.individualScores, |p.images|)) / (|p.images| as real)
  {
    FindSimilarImagesIsRank(p, env);
    var dir := p.libraryDirectory.value;
    var queries := ExtractQueries(p.images, env.decodeQuery).value;
    var lib := IndexLibrary(dir, env.listDir(dir).value, env.loadImage);
    var S := ScoreMatrix(queries, lib.features, env.cosine);
    var out := FindSimilarImages(p, env).value;
    forall m | 0 <= m < |out.bestOverallMatches|
      ensures var b := out.bestOverallMatches[m];
        && env.loadImage(b.path).Some?
        && (forall i :: 0 <= i < |p.images| ==>
              QueryKey(i) in b.individualScores
              && b.individualScores[QueryKey(i)]
                 == env.cosine(QueryFeature(p, env, i), env.loadImage(b.path).value))
        && b.averageSimilarityScore
           == Sum(InQueryOrder(b.individualScores, |p.images|)) / (|p.images| as real)
    {
      RankBestReports(S, lib.paths, m);
      var b := out.bestOverallMatches[m];
      var e :| ReportsEntry(S, lib.paths, b, e);
      assert env.loadImage(b.path) == Some(lib.features[e]);
      forall i | 0 <= i < |p.images|
        ensures S[i][e] == env.cosine(QueryFeature(p, env, i), env.loadImage(b.path).value)
      {
        assert queries[i] == QueryFeature(p, env, i);
      }
    }
  }

  /** Every path a successful search reports, in a per-query match or in the overall
      ranking, is an allowed entry of the listed directory joined to that directory. */
  lemma FindSimilarImagesPathsListed(p: Payload, env: Env)
    requires FindSimilarImages(p, env).Ok?
    ensures p.libraryDirectory.Some? && env.listDir(p.libraryDirectory.value).Some?
    ensures var out := FindSimilarImages(p, env).value;
      var dir := p.libraryDirectory.value;
      var names := env.listDir(dir).value;
      && (forall i, m :: 0 <= i < |out.results| && 0 <= m < |out.results[i].matches| ==>
            FromListing(dir, names, out.results[i].matches[m].path))
      && (forall m :: 0 <= m < |out.bestOverallMatches| ==>
            FromListing(dir, names, out.bestOverallMatches[m].path))
  {
    FindSimilarImagesIsRank(p, env);
    var dir := p.libraryDirectory.value;
    var queries := ExtractQueries(p.images, env.decodeQuery).value;
    var lib := IndexLibrary(dir, env.listDir(dir).value, env.loadImage);
    var S := ScoreMatrix(queries, lib.features, env.cosine);
    var out := FindSimilarImages(p, env).value;
    RankPathsFrom(S, lib.paths);
    forall path | path in lib.paths
      ensures FromListing(dir, env.listDir(dir).value, path)
    {
      IndexLibraryMembership(dir, env.listDir(dir).value, env.loadImage, path);
    }
  }
}
