/** `TMDBAPI` of `movie_trailer/api.py`: the API-key check, the popular-movie
    titles, and the rule that picks a trailer among a movie's videos. The
    HTTP responses are inputs, already decoded. */
module TmdbApi {
  import opened Wrappers

  const BaseUrl: string := "https://api.themoviedb.org/3"
  const WatchPrefix: string := "https://www.youtube.com/watch?v="
  const PopularLimit: nat := 25

  /** An entry of a `movie/{id}/videos` response. */
  datatype Video = Video(site: string, name: string, key: string)

  /** An entry of a `search/movie` response. */
  datatype SearchHit = SearchHit(id: int)

  /** An entry of a `movie/popular` response. */
  datatype Movie = Movie(title: string)

  /** A constructed client: the key it sends with every request. */
  datatype Client = Client(apiKey: string)

  /** A request to `BASE_URL/endpoint` with its query parameters. */
  datatype Request = Request(url: string, params: map<string, string>)

  /** What `get_trailer_link` gives: a watch link chosen from the TMDB data,
      or the YouTube-search fallback, which is not part of this model. */
  datatype TrailerChoice = Link(url: string) | SearchFallback

  /** `TMDB_API_KEY`: the environment variable, or `""` when it is unset. */
  function ApiKey(environment: Option<string>): string
  {
    match environment
    case Some(v) => v
    case None => ""
  }

  /** `TMDBAPI()`: raises `ValueError` when the key is empty. */
  function NewTmdbApi(environment: Option<string>): (r: Outcome<Client>)
    ensures r.Raised? <==> environment.None? || environment.value == ""
    ensures r.Raised? ==> r.error == ValueError
    ensures r.Returned? ==> environment.Some? && r.value.apiKey == environment.value
  {
    var key := ApiKey(environment);
    if key == "" then Raised(ValueError) else Returned(Client(key))
  }

  /** `_get_tmdb_data`: the key is always sent, overriding any `api_key` the
      caller passed, and every other parameter is sent unchanged. */
  function TmdbRequest(client: Client, endpoint: string, params: map<string, string>): (r: Request)
    ensures r.url == BaseUrl + "/" + endpoint
    ensures "api_key" in r.params && r.params["api_key"] == client.apiKey
    ensures r.params.Keys == params.Keys + {"api_key"}
    ensures forall k :: k in params && k != "api_key" ==> r.params[k] == params[k]
  {
    Request(BaseUrl + "/" + endpoint, params["api_key" := client.apiKey])
  }

  /** `get_popular_movies`: the titles of the first 25 results, in order. */
  function PopularTitles(results: seq<Movie>): (titles: seq<string>)
    ensures |titles| == if |results| < PopularLimit then |results| else PopularLimit
    ensures forall i :: 0 <= i < |titles| ==> titles[i] == results[i].title
  {
    var top := if |results| < PopularLimit then results else results[..PopularLimit];
    seq(|top|, i requires 0 <= i < |top| => top[i].title)
  }

  /** Python's `sub in s` on strings. */
  predicate Contains(s: string, sub: string)
    decreases |s|
  {
    (|s| >= |sub| && s[..|sub|] == sub) || (|s| > 0 && Contains(s[1..], sub))
  }

  /** `sub` occurs in `s` at position `k`. */
  predicate OccursAt(s: string, sub: string, k: int)
  {
    0 <= k && k + |sub| <= |s| && s[k..k + |sub|] == sub
  }

  /** `sub in s` holds exactly when `sub` occurs at some position of `s`. */
  lemma {:induction false} ContainsIffOccurs(s: string, sub: string)
    ensures Contains(s, sub) <==> exists k :: OccursAt(s, sub, k)
    decreases |s|
  {
    if |s| >= |sub| && s[..|sub|] == sub {
      assert OccursAt(s, sub, 0);
    } else if |s| > 0 {
      ContainsIffOccurs(s[1..], sub);
      if Contains(s[1..], sub) {
        var k :| OccursAt(s[1..], sub, k);
        assert s[1..][k..k + |sub|] == s[k + 1..k + 1 + |sub|];
        assert OccursAt(s, sub, k + 1);
      }
      if exists k :: OccursAt(s, sub, k) {
        var k :| OccursAt(s, sub, k);
        assert k != 0;
        assert s[1..][k - 1..k - 1 + |sub|] == s[k..k + |sub|];
        assert OccursAt(s[1..], sub, k - 1);
      }
    }
  }

  predicate IsYouTube(v: Video)
  {
    v.site == "YouTube"
  }

  /** The condition of the `main_trailers` comprehension. */
  predicate IsMainTrailer(v: Video)
  {
    IsYouTube(v) && (Contains(v.name, "Official Trailer") || Contains(v.name, "Main Trailer"))
  }

  /** A main trailer is a YouTube video whose name has "Official Trailer" or
      "Main Trailer" somewhere in it. */
  lemma IsMainTrailerIff(v: Video)
    ensures IsMainTrailer(v) <==>
      (v.site == "YouTube"
       && ((exists k :: OccursAt(v.name, "Official Trailer", k)) || (exists k :: OccursAt(v.name, "Main Trailer", k))))
  {
    ContainsIffOccurs(v.name, "Official Trailer");
    ContainsIffOccurs(v.name, "Main Trailer");
  }

  /** The `main_trailers` list: the main trailers, in response order. */
  function MainTrailers(videos: seq<Video>): (mains: seq<Video>)
    ensures forall v :: v in mains <==> v in videos && IsMainTrailer(v)
    ensures |mains| > 0 ==> exists i :: 0 <= i < |videos| && videos[i] == mains[0]
                                    && forall j :: 0 <= j < i ==> !IsMainTrailer(videos[j])
  {
    if |videos| == 0 then []
    else
      var rest := MainTrailers(videos[1..]);
      assert forall v :: v in videos[1..] <==> exists j :: 1 <= j < |videos| && videos[j] == v;
      if IsMainTrailer(videos[0]) then
        [videos[0]] + rest
      else
        assert |rest| > 0 ==> rest[0] in videos[1..];
        assert |rest| > 0 ==> exists i :: 1 <= i < |videos| && videos[i] == rest[0]
                                        && forall j :: 1 <= j < i ==> !IsMainTrailer(videos[j]) by {
          if |rest| > 0 {
            var i :| 0 <= i < |videos[1..]| && videos[1..][i] == rest[0]
              && forall j :: 0 <= j < i ==> !IsMainTrailer(videos[1..][j]);
            assert videos[i + 1] == rest[0];
            assert forall j :: 1 <= j < i + 1 ==> videos[j] == videos[1..][j - 1];
          }
        }
        rest
  }

  /** `next((v["key"] for v in videos if v["site"] == "YouTube"), None)`. */
  function FirstYouTubeKey(videos: seq<Video>): (k: Option<string>)
    ensures k.None? <==> forall i :: 0 <= i < |videos| ==> !IsYouTube(videos[i])
  {
    if |videos| == 0 then None
    else if IsYouTube(videos[0]) then Some(videos[0].key)
    else
      assert forall i :: 1 <= i < |videos| ==> videos[i] == videos[1..][i - 1];
      FirstYouTubeKey(videos[1..])
  }

  /** The key `get_trailer_link` builds its link from, if any. The main
      trailer's key is used as it is; the fallback key must be truthy, so an
      empty key there gives no link. */
  function ChooseKey(videos: seq<Video>): (k: Option<string>)
    ensures k.Some? ==> exists i :: 0 <= i < |videos| && IsYouTube(videos[i]) && videos[i].key == k.value
    ensures k.None? ==> |MainTrailers(videos)| == 0
  {
    var mains := MainTrailers(videos);
    if |mains| > 0 then
      assert mains[0] in mains;
      Some(mains[0].key)
    else
      match FirstYouTubeKey(videos)
      case Some(k) =>
        FirstYouTubeWitness(videos);
        if k != "" then Some(k) else None
      case None => None
  }

  /** `get_trailer_link`: `videosOf(id)` is the `movie/{id}/videos` response. */
  function TrailerLink(hits: seq<SearchHit>, videosOf: int -> seq<Video>): (r: TrailerChoice)
    ensures r.Link? ==> |hits| > 0 && exists k :: ChooseKey(videosOf(hits[0].id)) == Some(k) && r.url == WatchPrefix + k
    ensures r.SearchFallback? <==> |hits| == 0 || ChooseKey(videosOf(hits[0].id)).None?
  {
    if |hits| == 0 then SearchFallback
    else
      match ChooseKey(videosOf(hits[0].id))
      case Some(k) => Link(WatchPrefix + k)
      case None => SearchFallback
  }

  // ------------------------------------------------------------ selection

  /** The first main trailer supplies the key. */
  lemma {:induction false} MainTrailerWins(videos: seq<Video>, i: int)
    requires 0 <= i < |videos| && IsMainTrailer(videos[i])
    requires forall j :: 0 <= j < i ==> !IsMainTrailer(videos[j])
    ensures ChooseKey(videos) == Some(videos[i].key)
  {
    var mains := MainTrailers(videos);
    assert videos[i] in mains;
    var m :| 0 <= m < |videos| && videos[m] == mains[0]
      && forall j :: 0 <= j < m ==> !IsMainTrailer(videos[j]);
    assert mains[0] in mains;
  }

  /** Without a main trailer the first YouTube video supplies the key, unless
      that key is empty. */
  lemma {:induction false} YouTubeFallback(videos: seq<Video>, i: int)
    requires forall j :: 0 <= j < |videos| ==> !IsMainTrailer(videos[j])
    requires 0 <= i < |videos| && IsYouTube(videos[i])
    requires forall j :: 0 <= j < i ==> !IsYouTube(videos[j])
    ensures ChooseKey(videos) == if videos[i].key != "" then Some(videos[i].key) else None
  {
    FirstYouTubeIs(videos, i);
    assert forall v :: v in MainTrailers(videos) ==> v in videos && IsMainTrailer(v);
  }

  lemma {:induction false} FirstYouTubeIs(videos: seq<Video>, i: int)
    requires 0 <= i < |videos| && IsYouTube(videos[i])
    requires forall j :: 0 <= j < i ==> !IsYouTube(videos[j])
    ensures FirstYouTubeKey(videos) == Some(videos[i].key)
  {
    if i > 0 {
      FirstYouTubeIs(videos[1..], i - 1);
    }
  }

  lemma {:induction false} FirstYouTubeWitness(videos: seq<Video>)
    requires FirstYouTubeKey(videos).Some?
    ensures exists i :: 0 <= i < |videos| && IsYouTube(videos[i]) && videos[i].key == FirstYouTubeKey(videos).value
  {
    if !IsYouTube(videos[0]) {
      FirstYouTubeWitness(videos[1..]);
      var i :| 0 <= i < |videos[1..]| && IsYouTube(videos[1..][i])
        && videos[1..][i].key == FirstYouTubeKey(videos[1..]).value;
      assert videos[i + 1] == videos[1..][i];
    }
  }

  /** Videos from other sites never give a link. */
  lemma NoYouTubeNoLink(videos: seq<Video>)
    requires forall i :: 0 <= i < |videos| ==> !IsYouTube(videos[i])
    ensures ChooseKey(videos).None?
  {
  }

  // ---------------------------------------------------------------- links

  /** Only the first search hit's id matters. */
  lemma OnlyFirstHitMatters(hits1: seq<SearchHit>, hits2: seq<SearchHit>, videosOf: int -> seq<Video>)
    requires |hits1| > 0 && |hits2| > 0 && hits1[0].id == hits2[0].id
    ensures TrailerLink(hits1, videosOf) == TrailerLink(hits2, videosOf)
  {
  }

  /** A link is the watch prefix followed by the key of a YouTube video of the
      first hit. */
  lemma LinkIsYouTubeWatchUrl(hits: seq<SearchHit>, videosOf: int -> seq<Video>)
    requires TrailerLink(hits, videosOf).Link?
    ensures var videos := videosOf(hits[0].id);
      exists i :: 0 <= i < |videos| && IsYouTube(videos[i])
        && TrailerLink(hits, videosOf).url == WatchPrefix + videos[i].key
  {
  }
}
