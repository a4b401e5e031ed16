/**
 * `CreateResponseData` of index.go: turning the search engine's raw result
 * into the response the templates render. Each hit's stored fields are
 * type-checked and copied; the space-joined topic, keyword and author
 * fields are split back into lists. Scores and durations are carried
 * through untouched.
 */
module Response {
  import opened Wrappers
  import opened Text
  import opened Metadata
  import Index

  /** A stored field value as the engine hands it back: a string, or
      anything else. A missing field is modelled by its absence from the
      map, and reads like a non-string. */
  datatype FieldValue = Str(s: string) | NotString

  datatype Hit = Hit(score: real, fields: map<string, FieldValue>)

  /** The engine's result. `total` is an unsigned 64-bit count. */
  datatype RawResult = RawResult(total: nat, maxScore: real, took: int, hits: seq<Hit>)

  datatype ResultEntry = ResultEntry(
    title: string,
    uriPath: string,
    score: real,
    topics: seq<string>,
    keywords: seq<string>,
    authors: seq<string>,
    body: string)

  datatype SearchResponse = SearchResponse(
    totalHits: int,
    maxScore: real,
    pageOffset: int,
    searchTime: int,
    results: seq<ResultEntry>)

  const TwoTo63: int := 0x8000_0000_0000_0000
  const TwoTo64: int := 0x1_0000_0000_0000_0000

  /** `int(total)` on a 64-bit platform: counts of 2^63 and more wrap to
      negative numbers. */
  function ToInt64(u: nat): (r: int)
    requires u < TwoTo64
    ensures -TwoTo63 <= r < TwoTo63
    ensures r % TwoTo64 == u
    ensures u < TwoTo63 ==> r == u
  {
    if u < TwoTo63 then u else u - TwoTo64
  }

  /** The string under `key`, when there is one. */
  function StringField(h: Hit, key: string): (r: Option<string>)
    ensures r.Some? <==> key in h.fields && h.fields[key].Str?
    ensures r.Some? ==> h.fields[key] == Str(r.value)
  {
    if key in h.fields && h.fields[key].Str? then Some(h.fields[key].s) else None
  }

  /** One hit of the loop: the fields are checked in the order title, path,
      body, topic, keyword, and the first that is not a string names the
      error; a missing or non-string author just leaves the authors empty. */
  function ConvertHit(h: Hit): (r: Result<ResultEntry, string>)
    ensures r.Ok? <==> forall k :: k in RequiredFields ==> StringField(h, k).Some?
    ensures r.Ok? ==> r.value.score == h.score
                      && r.value.title == StringField(h, "title").value
                      && r.value.uriPath == StringField(h, "path").value
                      && r.value.body == StringField(h, "body").value
    ensures r.Ok? ==> r.value.topics == Split(StringField(h, "topic").value, ' ')
                      && r.value.keywords == Split(StringField(h, "keyword").value, ' ')
    ensures r.Ok? ==> r.value.authors == (if StringField(h, "author").Some?
                                           then Split(StringField(h, "author").value, ' ') else [])
  {
    var title := StringField(h, "title");
    var path := StringField(h, "path");
    var body := StringField(h, "body");
    var topics := StringField(h, "topic");
    var keywords := StringField(h, "keyword");
    var authors := StringField(h, "author");
    if title.None? then Err("returned title was not a string")
    else if path.None? then Err("returned path was not a string")
    else if body.None? then Err("returned body was not a string")
    else if topics.None? then Err("returned topics were not a string")
    else if keywords.None? then Err("returned keywords were not a string")
    else
      Ok(ResultEntry(title.value, path.value, h.score, Split(topics.value, ' '), Split(keywords.value, ' '),
                     if authors.Some? then Split(authors.value, ' ') else [], body.value))
  }

  /** The fields a hit must carry as strings, in the order they are checked. */
  const RequiredFields: seq<string> := ["title", "path", "body", "topic", "keyword"]

  /** The error message for the first required field that is not a string. */
  lemma ConvertHitNamesFirstBadField(h: Hit)
    ensures StringField(h, "title").None? ==> ConvertHit(h) == Err("returned title was not a string")
    ensures StringField(h, "title").Some? && StringField(h, "path").None? ==>
              ConvertHit(h) == Err("returned path was not a string")
    ensures StringField(h, "title").Some? && StringField(h, "path").Some? && StringField(h, "body").None? ==>
              ConvertHit(h) == Err("returned body was not a string")
    ensures (StringField(h, "title").Some? && StringField(h, "path").Some? && StringField(h, "body").Some?
             && StringField(h, "topic").None?) ==>
              ConvertHit(h) == Err("returned topics were not a string")
    ensures (StringField(h, "title").Some? && StringField(h, "path").Some? && StringField(h, "body").Some?
             && StringField(h, "topic").Some? && StringField(h, "keyword").None?) ==>
              ConvertHit(h) == Err("returned keywords were not a string")
  {
  }

  /** The engine's result turned into a response. On failure the response
      holds the entries converted before the failing hit. */
  method CreateResponseData(raw: RawResult, pageOffset: int) returns (resp: SearchResponse, err: Option<string>)
    requires raw.total < TwoTo64
    ensures resp.totalHits == ToInt64(raw.total) && resp.maxScore == raw.maxScore
    ensures resp.pageOffset == pageOffset && resp.searchTime == raw.took
    ensures err.None? ==> |resp.results| == |raw.hits|
                          && forall i :: 0 <= i < |raw.hits| ==> ConvertHit(raw.hits[i]) == Ok(resp.results[i])
    ensures err.Some? ==>
              var n := |resp.results|;
              && n < |raw.hits|
              && (forall i :: 0 <= i < n ==> ConvertHit(raw.hits[i]) == Ok(resp.results[i]))
              && ConvertHit(raw.hits[n]) == Err(err.value)
  {
    var results: seq<ResultEntry> := [];
    resp := SearchResponse(ToInt64(raw.total), raw.maxScore, pageOffset, raw.took, results);
    var i := 0;
    while i < |raw.hits|
      invariant 0 <= i <= |raw.hits|
      invariant |results| == i
      invariant forall j :: 0 <= j < i ==> ConvertHit(raw.hits[j]) == Ok(results[j])
      invariant resp == SearchResponse(ToInt64(raw.total), raw.maxScore, pageOffset, raw.took, results)
    {
      var converted := ConvertHit(raw.hits[i]);
      if converted.Err? {
        return resp, Some(converted.error);
      }
      results := results + [converted.value];
      resp := resp.(results := results);
      i := i + 1;
    }
    err := None;
  }

  /** What the index stores for a record, keyed by the field names of its
      JSON tags. The author field's tag is malformed (`json: "author"`), so
      it is stored under its Go name `Authors` rather than `author`. */
  function StoredFields(d: Index.IndexedPage): (r: map<string, FieldValue>)
    ensures forall k :: k in RequiredFields ==> k in r && r[k].Str?
    ensures "author" !in r
  {
    map["title" := Str(d.title), "path" := Str(d.uriPath), "body" := Str(d.body),
        "topic" := Str(d.topics), "keyword" := Str(d.keywords), "Authors" := Str(d.authors)]
  }

  /** A page indexed by `generateWikiFromFile` and found again comes back with
      the title, path and body it was stored with, and with its topics and
      keywords as the sorted lists of the loaded page whenever it had some;
      the authors come back empty. */
  lemma IndexedPageRoundTrip(file: string, uriPath: string, restricted: seq<string>,
                             cleanup: string -> string, modified: int, score: real)
    requires MetadataSafe(file)
    ensures var g := Index.GenerateWiki(file, uriPath, restricted, cleanup, modified);
            g.Ok? ==>
              var r := ConvertHit(Hit(score, StoredFields(g.value)));
              var p := LoadPage(EmptyPage, file).value;
              && r.Ok?
              && r.value.title == g.value.title && r.value.uriPath == uriPath && r.value.body == g.value.body
              && (p.topics != {} ==> r.value.topics == ListMeta(p).0)
              && (p.keywords != {} ==> r.value.keywords == ListMeta(p).1)
              && r.value.authors == []
  {
    var g := Index.GenerateWiki(file, uriPath, restricted, cleanup, modified);
    if g.Ok? {
      Index.GenerateWikiSplits(file, uriPath, restricted, cleanup, modified);
      StoredHitConverts(g.value, score);
    }
  }

  /** Any stored record converts: its string fields come back as they were,
      the topic and keyword fields split at the spaces, and no authors. */
  lemma StoredHitConverts(d: Index.IndexedPage, score: real)
    ensures ConvertHit(Hit(score, StoredFields(d)))
            == Ok(ResultEntry(d.title, d.uriPath, score, Split(d.topics, ' '), Split(d.keywords, ' '), [], d.body))
  {
    var h := Hit(score, StoredFields(d));
    assert StringField(h, "title") == Some(d.title);
    assert StringField(h, "path") == Some(d.uriPath);
    assert StringField(h, "body") == Some(d.body);
    assert StringField(h, "topic") == Some(d.topics);
    assert StringField(h, "keyword") == Some(d.keywords);
    assert StringField(h, "author") == None;
  }
}
