/** The recipe crawler (`RecipesCrawler` in backend/recipes/services.py): builds
    the request path for the external random-recipes endpoint and hands the
    outcome of the one outbound GET to the caller. The network call itself is a
    parameter: `fetch` maps the request path to what the remote end answered. */
module Crawler {
  import opened Wrappers
  import opened Decimal
  import opened Seqs

  /** `random.randint(4, 8)`: the inclusive bounds of the batch size. */
  const MinRecipes: nat := 4
  const MaxRecipes: nat := 8

  const RandomPath := "recipes/random?number="
  const TagsParam := "tags="
  const KeyParam := "apiKey="

  datatype Request = Request(number: nat, tag: string, apiKey: string)

  /** A raw ingredient of the external JSON: `name` (and possibly `title`),
      and the `measures.us` block. */
  datatype RawIngredient = RawIngredient(title: string, name: string, usAmount: real, unitLong: string)

  /** A raw recipe of the external JSON; absent keys are not modelled. */
  datatype RawRecipe = RawRecipe(
    title: string,
    name: string,
    summary: string,
    image: string,
    readyInMinutes: int,
    extendedIngredients: seq<RawIngredient>)

  /** What `requests.get(...)` followed by `raise_for_status()` produced: the
      decoded payload, an error status (`HTTPError`), or no answer at all
      (`ConnectionError`, `Timeout` and the other exceptions `requests.get`
      raises itself). */
  datatype Fetch = Payload(recipes: seq<RawRecipe>) | HttpError | TransportError

  /** `_prepare_query_params`: the path relative to the configured API URL. */
  function QueryPath(r: Request): string
  {
    RandomPath + Show(r.number) + "&" + TagsParam + r.tag + "&" + KeyParam + r.apiKey
  }

  /** Reads `tags=<tag>&apiKey=<key>`. */
  function ParseTagAndKey(s: string): Option<(string, string)>
  {
    if !StartsWith(s, TagsParam) then None
    else match SplitAt(s[|TagsParam|..], '&')
      case None => None
      case Some(parts) =>
        if !StartsWith(parts.1, KeyParam) then None
        else Some((parts.0, parts.1[|KeyParam|..]))
  }

  /** Recovers the request a path was built from (the remote side's reading). */
  function ParseQueryPath(s: string): Option<Request>
  {
    if !StartsWith(s, RandomPath) then None
    else match SplitAt(s[|RandomPath|..], '&')
      case None => None
      case Some(parts) =>
        if |parts.0| == 0 || !AllDigits(parts.0) then None
        else match ParseTagAndKey(parts.1)
          case None => None
          case Some(tagAndKey) => Some(Request(Read(parts.0), tagAndKey.0, tagAndKey.1))
  }

  lemma TagAndKeyRoundTrip(tag: string, key: string)
    requires '&' !in tag
    ensures ParseTagAndKey(TagsParam + (tag + "&" + (KeyParam + key))) == Some((tag, key))
  {
    PrefixDrop(TagsParam, tag + "&" + (KeyParam + key));
    SplitAtFirst(tag, KeyParam + key, '&');
    PrefixDrop(KeyParam, key);
  }

  /** The path carries exactly the chosen count, the crawler's tag and the key. */
  lemma QueryPathRoundTrip(r: Request)
    requires '&' !in r.tag
    ensures ParseQueryPath(QueryPath(r)) == Some(r)
  {
    var num := Show(r.number);
    var tail := TagsParam + (r.tag + "&" + (KeyParam + r.apiKey));
    assert QueryPath(r) == RandomPath + (num + "&" + tail);
    PrefixDrop(RandomPath, num + "&" + tail);
    assert '&' !in num by {
      forall i | 0 <= i < |num| ensures num[i] != '&' { assert IsDigit(num[i]); }
    }
    SplitAtFirst(num, tail, '&');
    TagAndKeyRoundTrip(r.tag, r.apiKey);
    ReadShow(r.number);
  }

  /** `RecipesCrawler(tag).execute()`: one GET for a batch of `draw` recipes,
      `draw` being the value `random.randint(4, 8)` returned. */
  function Crawl(tag: string, apiKey: string, draw: nat, fetch: string -> Fetch): (r: (Request, Fetch))
    requires MinRecipes <= draw <= MaxRecipes
    ensures MinRecipes <= r.0.number <= MaxRecipes
    ensures r.0.tag == tag && r.0.apiKey == apiKey
    ensures r.1 == fetch(QueryPath(r.0))
  {
    var req := Request(draw, tag, apiKey);
    (req, fetch(QueryPath(req)))
  }
}
