/** The scheduled import job (`get_recipes` in backend/recipes/tasks.py): pick
    a tag, crawl, parse, save, and turn what happened into a Celery outcome.
    Randomness, the network, translation and the clock are fields of `Env`;
    Celery's `self.retry` is modelled by the retry counter it consults. */
module Job {
  import opened Wrappers
  import opened Decimal
  import opened Store
  import opened Records
  import opened Crawler
  import opened Parser
  import opened Saver

  const SuccessStatus := "successfully"
  const DetailPrefix := "Number of recipes created: "

  /** Everything one run of the task takes from outside the store. */
  datatype Env = Env(
    pick: Id,                    // the tag `random.choice` returns, by id
    draw: nat,                   // the value `random.randint(4, 8)` returns
    apiKey: string,
    fetch: string -> Fetch,      // the outbound GET to the recipes API
    text: Text,                  // strip_tags and the translator
    download: string -> bool,    // the image GETs
    now: int)                    // one clock value for the run's recipe dates; the source stamps each insert

  /** What the random choices can return for a store with these tags. */
  predicate EnvFits(tags: map<Id, Tag>, env: Env)
  {
    && MinRecipes <= env.draw <= MaxRecipes
    && (tags != map[] ==> env.pick in tags)
  }

  datatype Reason =
    | NoTags                     // `random.choice` of an empty list (IndexError)
    | FetchFailed                // requests.HTTPError from `crawler.execute()`
    | TransportFailed            // any other exception of `requests.get`; not caught
    | NothingCreated             // `ValueError` raised when the count is zero
    | ParseFailed(parseError: ParseError)
    | SaveFailed(saveError: SaveError)

  datatype Outcome =
    | Succeeded(status: string, detail: string)
    | Retrying(reason: Reason)   // `self.retry` scheduled another run
    | Failed(reason: Reason)     // the task ended with an exception

  /** One run of the task, with the values handed from stage to stage. */
  datatype Attempt = Attempt(
    db: Db,
    outcome: Outcome,
    request: Option<Request>,
    parsed: Option<seq<RecipeResult>>,
    saved: Option<SaveOutcome>)

  /** `raise self.retry(exc=e)`: another run while `retries < max_retries`,
      otherwise `e` is raised and the task fails. */
  function RetryOr(reason: Reason, retries: nat, maxRetries: nat): (o: Outcome)
    ensures !o.Succeeded? && o.reason == reason
    ensures o.Retrying? <==> retries < maxRetries
  {
    if retries < maxRetries then Retrying(reason) else Failed(reason)
  }

  function Detail(count: nat): string
  {
    DetailPrefix + Show(count)
  }

  /** The success detail carries the count in decimal, readable back. */
  lemma DetailCarriesCount(count: nat)
    ensures |Detail(count)| > |DetailPrefix|
    ensures Detail(count)[..|DetailPrefix|] == DetailPrefix
    ensures Read(Detail(count)[|DetailPrefix|..]) == count
  {
    assert Detail(count)[|DetailPrefix|..] == Show(count);
    ReadShow(count);
  }

  /** Everything after the crawl: parse the payload, save, judge the count. */
  function AfterFetch(db: Db, env: Env, req: Request, recipes: seq<RawRecipe>, retries: nat, maxRetries: nat): Attempt
  {
    match Parse(env.text, req.tag, recipes)
    case Failure(e) => Attempt(db, Failed(ParseFailed(e)), Some(req), None, None)
    case Success(recs) =>
      var out := Save(db, recs, env.download, env.now);
      var outcome :=
        if out.Aborted? then Failed(SaveFailed(out.error))
        else if out.count == 0 then RetryOr(NothingCreated, retries, maxRetries)
        else Succeeded(SuccessStatus, Detail(out.count));
      Attempt(out.db, outcome, Some(req), Some(recs), Some(out))
  }

  /** One run of `get_recipes` with `retries` earlier retries behind it. The
      crawl asks for the slug of a stored tag; an HTTP error from it retries
      without parsing or saving, and a fetch that got no answer fails the
      task, since only `HTTPError` is caught; the parser gets the payload and the crawled
      tag, the saver the parser's records; the count decides the outcome. */
  function Run(db: Db, env: Env, retries: nat, maxRetries: nat): (a: Attempt)
    requires EnvFits(db.tags, env)
    ensures db.tags == map[] <==> a.request.None?
    ensures db.tags == map[] ==> a == Attempt(db, Failed(NoTags), None, None, None)
    ensures a.request.Some? ==>
      && a.request.value.tag == db.tags[env.pick].slug
      && MinRecipes <= a.request.value.number <= MaxRecipes
      && a.request.value.apiKey == env.apiKey
    ensures a.request.Some? && env.fetch(QueryPath(a.request.value)) == HttpError ==>
      && a.db == db && a.parsed.None? && a.saved.None?
      && a.outcome == RetryOr(FetchFailed, retries, maxRetries)
    ensures a.request.Some? && env.fetch(QueryPath(a.request.value)) == TransportError ==>
      a == Attempt(db, Failed(TransportFailed), a.request, None, None)
    ensures a.parsed.Some? ==>
      && a.request.Some? && env.fetch(QueryPath(a.request.value)).Payload?
      && Parse(env.text, a.request.value.tag, env.fetch(QueryPath(a.request.value)).recipes) == Success(a.parsed.value)
      && a.saved == Some(Save(db, a.parsed.value, env.download, env.now))
      && a.db == a.saved.value.db
    ensures a.parsed.None? ==> a.db == db && a.saved.None?
    ensures a.saved.Some? ==>
      && (a.saved.value.Aborted? ==> a.outcome == Failed(SaveFailed(a.saved.value.error)))
      && (a.saved.value.Saved? && a.saved.value.count == 0 ==> a.outcome == RetryOr(NothingCreated, retries, maxRetries))
      && (a.saved.value.Saved? && a.saved.value.count > 0 ==>
            a.outcome == Succeeded(SuccessStatus, Detail(a.saved.value.count)))
    ensures a.outcome.Succeeded? <==> a.saved.Some? && a.saved.value.Saved? && a.saved.value.count > 0
    ensures a.outcome.Retrying? ==> retries < maxRetries && a.outcome.reason in {FetchFailed, NothingCreated}
  {
    if db.tags == map[] then Attempt(db, Failed(NoTags), None, None, None)
    else
      var crawled := Crawl(db.tags[env.pick].slug, env.apiKey, env.draw, env.fetch);
      match crawled.1
      case HttpError => Attempt(db, RetryOr(FetchFailed, retries, maxRetries), Some(crawled.0), None, None)
      case TransportError => Attempt(db, Failed(TransportFailed), Some(crawled.0), None, None)
      case Payload(recipes) => AfterFetch(db, env, crawled.0, recipes, retries, maxRetries)
  }

  /** A run keeps the store valid and only adds rows to it. */
  lemma RunValid(db: Db, env: Env, retries: nat, maxRetries: nat)
    requires Valid(db) && EnvFits(db.tags, env)
    ensures Valid(Run(db, env, retries, maxRetries).db)
    ensures Grows(db, Run(db, env, retries, maxRetries).db)
  {
    var a := Run(db, env, retries, maxRetries);
    if a.saved.Some? {
      SaveSpec(db, a.parsed.value, env.download, env.now);
    } else {
      assert db.amounts[..|db.amounts|] == db.amounts;
    }
  }

  // ---------------------------------------------------------------------------
  // Successive runs

  /** Every run the scheduler gets to make: the first one, then one per
      retry, each with its own environment, until an outcome other than a
      retry or until `envs` is exhausted. Returns the last run and how many
      runs were made. */
  function Runs(db: Db, envs: seq<Env>, retries: nat, maxRetries: nat): (r: (Attempt, nat))
    requires |envs| > 0
    requires forall i :: 0 <= i < |envs| ==> EnvFits(db.tags, envs[i])
    ensures 1 <= r.1 <= |envs|
    ensures retries <= maxRetries ==> r.1 <= maxRetries - retries + 1
    ensures r.0.outcome.Retrying? ==> r.1 == |envs|
    decreases |envs|
  {
    var a := Run(db, envs[0], retries, maxRetries);
    RunKeepsTags(db, envs[0], retries, maxRetries);
    if a.outcome.Retrying? && |envs| > 1 then
      var rest := Runs(a.db, envs[1..], retries + 1, maxRetries);
      (rest.0, rest.1 + 1)
    else (a, 1)
  }

  /** A run never changes the tag table, so every later run can still pick
      its tag from the same ids. */
  lemma RunKeepsTags(db: Db, env: Env, retries: nat, maxRetries: nat)
    requires EnvFits(db.tags, env)
    ensures Run(db, env, retries, maxRetries).db.tags == db.tags
  {
    var a := Run(db, env, retries, maxRetries);
    if a.saved.Some? {
      SaveKeepsTags(db, a.parsed.value, env.download, env.now);
    }
  }

  /** Every run keeps the store valid, so the last one leaves it valid. */
  lemma {:induction false} RunsValid(db: Db, envs: seq<Env>, retries: nat, maxRetries: nat)
    requires Valid(db) && |envs| > 0
    requires forall i :: 0 <= i < |envs| ==> EnvFits(db.tags, envs[i])
    ensures Valid(Runs(db, envs, retries, maxRetries).0.db)
    decreases |envs|
  {
    var a := Run(db, envs[0], retries, maxRetries);
    RunValid(db, envs[0], retries, maxRetries);
    RunKeepsTags(db, envs[0], retries, maxRetries);
    if a.outcome.Retrying? && |envs| > 1 {
      RunsValid(a.db, envs[1..], retries + 1, maxRetries);
    }
  }

  /** A crawl that is answered with an HTTP error every time is retried until
      the retries run out, and then the task fails with that error: exactly
      `maxRetries - retries + 1` runs, none of which touches the store. */
  lemma {:induction false} FetchAlwaysFails(db: Db, envs: seq<Env>, retries: nat, maxRetries: nat)
    requires db.tags != map[]
    requires retries <= maxRetries && |envs| > maxRetries - retries
    requires forall i :: 0 <= i < |envs| ==> EnvFits(db.tags, envs[i])
    requires forall i, path :: 0 <= i < |envs| ==> envs[i].fetch(path) == HttpError
    ensures Runs(db, envs, retries, maxRetries).0.outcome == Failed(FetchFailed)
    ensures Runs(db, envs, retries, maxRetries).1 == maxRetries - retries + 1
    ensures Runs(db, envs, retries, maxRetries).0.db == db
    decreases maxRetries - retries
  {
    if retries < maxRetries {
      RunsAfterFailure(db, envs, retries, maxRetries);
      FetchAlwaysFails(db, envs[1..], retries + 1, maxRetries);
    } else {
      RunsLastFailure(db, envs, retries, maxRetries);
    }
  }

  /** A failed crawl with retries left hands the same store to the next run. */
  lemma RunsAfterFailure(db: Db, envs: seq<Env>, retries: nat, maxRetries: nat)
    requires db.tags != map[] && |envs| > 1 && retries < maxRetries
    requires forall i :: 0 <= i < |envs| ==> EnvFits(db.tags, envs[i])
    requires forall path :: envs[0].fetch(path) == HttpError
    ensures var rest := Runs(db, envs[1..], retries + 1, maxRetries);
      Runs(db, envs, retries, maxRetries) == (rest.0, rest.1 + 1)
  {
    RunFetchFails(db, envs[0], retries, maxRetries);
    RunsStep(db, envs, retries, maxRetries);
  }

  /** A run that schedules a retry is followed by the next one on the store it left. */
  lemma RunsStep(db: Db, envs: seq<Env>, retries: nat, maxRetries: nat)
    requires |envs| > 1
    requires forall i :: 0 <= i < |envs| ==> EnvFits(db.tags, envs[i])
    requires Run(db, envs[0], retries, maxRetries).outcome.Retrying?
    requires Run(db, envs[0], retries, maxRetries).db == db
    ensures var rest := Runs(db, envs[1..], retries + 1, maxRetries);
      Runs(db, envs, retries, maxRetries) == (rest.0, rest.1 + 1)
  {
  }

  /** A failed crawl with no retry left is the last run, and it fails. */
  lemma RunsLastFailure(db: Db, envs: seq<Env>, retries: nat, maxRetries: nat)
    requires db.tags != map[] && |envs| > 0 && retries == maxRetries
    requires forall i :: 0 <= i < |envs| ==> EnvFits(db.tags, envs[i])
    requires forall path :: envs[0].fetch(path) == HttpError
    ensures Runs(db, envs, retries, maxRetries) == (Run(db, envs[0], retries, maxRetries), 1)
    ensures Run(db, envs[0], retries, maxRetries).db == db
    ensures Run(db, envs[0], retries, maxRetries).outcome == Failed(FetchFailed)
  {
    RunFetchFails(db, envs[0], retries, maxRetries);
  }

  /** One run whose crawl fails leaves the store alone and retries while
      retries are left. */
  lemma RunFetchFails(db: Db, env: Env, retries: nat, maxRetries: nat)
    requires db.tags != map[] && EnvFits(db.tags, env)
    requires forall path :: env.fetch(path) == HttpError
    ensures Run(db, env, retries, maxRetries).db == db
    ensures Run(db, env, retries, maxRetries).outcome == RetryOr(FetchFailed, retries, maxRetries)
  {
    var a := Run(db, env, retries, maxRetries);
    assert env.fetch(QueryPath(a.request.value)) == HttpError;
  }

  /** A crawl that gets no answer at all is not retried, whatever retries are
      left: that run is the last, and the task fails with the store untouched. */
  lemma TransportNotRetried(db: Db, envs: seq<Env>, retries: nat, maxRetries: nat)
    requires db.tags != map[] && |envs| > 0
    requires forall i :: 0 <= i < |envs| ==> EnvFits(db.tags, envs[i])
    requires forall path :: envs[0].fetch(path) == TransportError
    ensures Runs(db, envs, retries, maxRetries).1 == 1
    ensures var last := Runs(db, envs, retries, maxRetries).0;
      last.db == db && last.outcome == Failed(TransportFailed) && last.parsed.None? && last.saved.None?
  {
    var a := Run(db, envs[0], retries, maxRetries);
    assert envs[0].fetch(QueryPath(a.request.value)) == TransportError;
  }
}
