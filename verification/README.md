# foodgram core in Dafny

A model of the core of foodgram, a Django recipe site. The model has five parts:

- **The entity store.** Users, ingredients, tags, recipes, ingredient amounts, favorites, shopping carts and follows form one immutable `Store.Db` value.
  - `Store.Valid` holds the database constraints: uniqueness, the `>= 0` CHECK that SQLite puts on the `PositiveSmallIntegerField` columns (cooking time, amount), and foreign keys.
  - `Store.Checked` holds the rules that only validators and views enforce:
    - cooking time and amount are at least 1;
    - nobody follows themselves;
    - tag slugs are valid.
  - The `on_delete=CASCADE` deletions are modelled.
- **The scheduled import pipeline.** It runs in three stages:
  - the crawler builds the request path for the random-recipes endpoint;
  - the parser maps the external JSON to `RecipeResult` records;
  - the saver writes the records one after another, with no transaction.
- **The Celery job.** It chains the three stages and turns the result into a success, a retry or a failure.
- **The shopping list.** It groups a user's cart amounts by the ingredient's (name, unit) pair and sums them.
- **The user-facing API.** It covers:
  - recipe create and update;
  - the favorite and cart actions and their boolean filters;
  - the `is_favorited` / `is_in_shopping_cart` / `is_subscribed` flags;
  - follow and unfollow;
  - the follow serializer's `recipes_limit` truncation.

Every operation is a pure function from a store (and its inputs) to a new store plus a result or an error. Its contract states what the code does, including the error cases. Separate lemmas relate each operation to a partner: its inverse, an invariant it preserves, or an independent reference definition.

Modules, one per file:

- `Wrappers`: `Option`, `Result`.
- `Seqs`: an order-preserving filter, distinctness, prefixes, splitting, traversal.
- `Decimal`: decimal rendering and reading.
- `Store`: rows, constraints, lookups, cascades.
- `Crawler`, `Records`, `Parser`, `Saver`: the import pipeline.
- `Job`: the task.
- `ShoppingList`: the aggregation.
- `RecipeApi`: recipe create/update and representations.
- `Links`: favorites and cart.
- `Follows`: subscriptions.

Outside inputs are parameters:

- the outbound GETs (`fetch`, `download`);
- `strip_tags` and the translator (`Parser.Text`);
- `random.randint` and `random.choice` (`Job.Env`);
- the clock (`now`).

## Model

| member | source | states |
|---|---|---|
| Store.FindIngredientExact | backend/recipes/models/basic.py:20-28 | Under the (name, unit) constraint the pair lookup finds a row exactly when the pair is stored, and it returns that row. |
| Store.IngredientLabelInjective | backend/recipes/models/basic.py:31-32 | Two ingredients with hyphen-free names and the same "name - unit" label are the same ingredient. |
| Store.IngredientLabelSplits | backend/recipes/models/basic.py:31-32 | The label splits back into name and unit at its first hyphen. |
| Store.FindByEmailExact | backend/users/models.py:11-24 | Email is unique, so the login lookup by email returns the one user with that email, or nothing when no user has it. |
| Store.AddUserSound | backend/users/models.py:11-25 | A user is inserted exactly when the required fields are non-empty and both email and username are free. The result is valid and that user can log in by email. A refused insert changes nothing. |
| Store.FollowCleanRejectsSelf | backend/users/models.py:61-63 | `Follow.clean` compares usernames; since usernames are unique, it rejects exactly the follows of oneself. |
| Store.DeleteRecipe | backend/recipes/models/abstract_models.py:18-28 | Deleting a recipe removes it and exactly its amount rows, favorites and cart rows. Every other recipe, every other table and the id counter stay as they were. |
| Store.DeleteRecipePreserves | backend/recipes/models/m2m_models.py:33-35 | Deleting a recipe keeps every constraint and rule. |
| Store.DeleteIngredient | backend/recipes/models/m2m_models.py:36-40 | Deleting an ingredient removes it and exactly the amount rows that use it. Every other table and the id counter stay as they were. |
| Store.DeleteIngredientPreserves | backend/recipes/models/m2m_models.py:36-40 | Deleting an ingredient keeps every constraint and rule. |
| Store.DeleteTag | backend/recipes/models/basic.py:79-82 | Deleting a tag removes it from the tag table and from every recipe's tag set, and changes nothing else in the recipes. Every other table and the id counter stay as they were. |
| Store.DeleteTagPreserves | backend/recipes/models/basic.py:79-82 | Deleting a tag keeps every constraint and rule. |
| Store.DeleteUser | backend/recipes/models/basic.py:64-68 | Deleting a user removes their recipes and those recipes' dependent rows. It also removes the user's own favorites and cart rows, and every follow that involves the user. The remaining recipes are unchanged, and so are the ingredient and tag tables and the id counter. |
| Store.DeleteUserPreserves | backend/recipes/models/basic.py:64-68 | Deleting a user keeps every constraint and rule. |
| Crawler.Crawl | backend/recipes/services.py:54-56 | The crawl asks for between 4 and 8 recipes with the given tag and key. The answer is the fetch of exactly that path. |
| Crawler.QueryPathRoundTrip | backend/recipes/services.py:46-52 | The request path `recipes/random?number=N&tags=T&apiKey=K` parses back to exactly the N, T and K it was built from. |
| Parser.Ceil | backend/recipes/services.py:122-125 | The amount is the ceiling of the US amount: `a <= amount < a + 1`. |
| Parser.ParseIngredient | backend/recipes/services.py:122-135 | The name is the translation of the title, or of the name when the title is empty. The amount is the ceiling. An empty unit gives the default unit, and any other unit is translated after lower-casing. The entry parses iff its translations succeed. |
| Parser.ParseRecipe | backend/recipes/services.py:83-120 | Every field comes from its own handler: translated name and summary, the raw image and ready time, and the parser's tag. There is one ingredient record per `extendedIngredients` entry, in order. |
| Parser.Parse | backend/recipes/services.py:71-77 | One record per raw recipe, in input order, each built from its own raw recipe alone, with the parser's tag. The batch parses iff every recipe does. |
| Saver.ImportUserExact | backend/recipes/services.py:188-190 | The import user is found iff there is exactly one superuser, and it is that superuser. With none, the saver fails with a not-found error. |
| Saver.FileName | backend/recipes/services.py:196-202 | The file name is the longest slash-free suffix of the image URL. |
| Saver.CandidatesExact | backend/recipes/services.py:255-273 | The names-times-units superset query loses no exact pair: a record's pair is among the candidates iff it is stored. |
| Saver.NewPairsExact | backend/recipes/services.py:242-253 | The ingredients inserted are exactly the record's pairs that are not stored yet. After the insert, every pair of the record is stored. |
| Saver.AddIngredientsUnique | backend/recipes/models/basic.py:20-28 | Inserting distinct, unstored pairs keeps (name, unit) unique. |
| Saver.BulkCreateIngredientsSpec | backend/recipes/services.py:212-224 | With distinct pairs in a record, the ingredient bulk insert succeeds and leaves every pair of the record stored exactly once. |
| Saver.ResolveAllSpec | backend/recipes/services.py:275-284 | Once every pair is stored, the `[0]` lookup never meets an empty list. Each entry resolves to a stored ingredient with its name and unit, and the row carries the entry's amount. |
| Saver.BulkCreateAmountsSpec | backend/recipes/services.py:226-240 | One amount row is appended per entry, in order, each referencing the stored ingredient of the entry's pair. A negative amount always fails the column's `>= 0` CHECK. Distinct pairs with no negative amount never fail. Once every pair is stored, the only possible failures are that CHECK and the (ingredient, recipe) constraint. |
| Saver.BulkCreateOutcome | backend/recipes/services.py:204-210 | For a new recipe, `_bulk_create` with distinct pairs inserts iff no amount is negative; a negative amount fails it on the CHECK. It fails only on the unique constraints and that CHECK. |
| Saver.SaveRecordInsert | backend/recipes/services.py:178-186 | A record with a free name and a non-negative cooking time whose image downloads writes the recipe row, by the import user, with the file name and the tags of its slug. With distinct pairs and no negative amount it is inserted; with distinct pairs and a negative amount it aborts on the CHECK. The store stays valid and only grows. |
| Saver.SaveRecordNoInsert | backend/recipes/services.py:163-176 | A failed image download aborts the batch with the store as it was. A record is skipped iff its image downloads and its recipe insert raises `IntegrityError`: the name is taken or the cooking time is negative. |
| Saver.ReusesStoredIngredient | backend/recipes/services.py:229-240 | An entry whose pair was already stored is linked to that stored row. |
| Saver.StoredNameSkipped | backend/recipes/services.py:168-171 | Once a name is stored, any later record with that name is skipped, whatever else has been inserted since. |
| Saver.SaveFromValid | backend/recipes/services.py:163-176 | The save loop keeps the store valid and only adds rows. The count never exceeds the number of records. Well-formed records keep the rules. Records that all download, have distinct pairs and no negative amount never abort the loop. |
| Saver.SaveFromCount | backend/recipes/services.py:163-176 | A completed loop created one recipe per distinct name, not stored before, of a record with a non-negative cooking time, and stored exactly those names. |
| Saver.SaveSpec | backend/recipes/services.py:163-176 | Without exactly one superuser nothing is written. Otherwise the store stays valid and grows. A completed import counts the new distinct names of records with a non-negative cooking time, and a zero count leaves the store unchanged. |
| Saver.SaveKeepsTags | backend/recipes/services.py:163-176 | The import never touches the tag table, whatever the store holds. |
| Saver.ImportScenario | backend/recipes/services.py:163-176 | Three records whose second name is already stored create exactly two recipes. |
| Saver.NegativeTimeScenario | backend/recipes/services.py:163-176 | A record with a free name and a negative cooking time is skipped: the import completes with a count of zero and the store as it was. |
| Job.RetryOr | backend/recipes/tasks.py:14-27 | `self.retry` schedules another run iff retries remain, and otherwise the task fails with the same reason. |
| Job.DetailCarriesCount | backend/recipes/tasks.py:37-40 | The success detail is the fixed prefix followed by the count in decimal, which reads back as the count. |
| Job.Run | backend/recipes/tasks.py:21-40 | The crawl asks for the slug of a stored tag. An HTTP error retries without parsing or saving. A fetch that gets no answer (connection error, timeout) is not caught: the task fails, again without parsing or saving. The parser gets the payload and the crawled tag, and the saver gets the parser's records. A zero count retries, and a positive count succeeds with `successfully` and the count. |
| Job.RunValid | backend/recipes/tasks.py:29-34 | A run keeps the store valid and only adds rows. |
| Job.Runs | backend/recipes/tasks.py:14-20 | Successive runs stop at the first outcome that is not a retry. There are never more than `max_retries + 1` runs. |
| Job.RunKeepsTags | backend/recipes/tasks.py:21-40 | A run leaves the tag table as it was, so a retry picks its tag from the same ids. |
| Job.RunsValid | backend/recipes/tasks.py:14-40 | However many runs the retries make, the store stays valid. |
| Job.TransportNotRetried | backend/recipes/tasks.py:24-27 | A crawl that gets no answer at all ends the runs at once, whatever retries are left: one run, the task fails, the store is untouched. |
| Job.FetchAlwaysFails | backend/recipes/tasks.py:24-27 | A fetch that always answers with an HTTP error is retried until the retries run out, and then the task fails with the fetch error. There are exactly `max_retries - retries + 1` runs and the store is untouched. |
| ShoppingList.Aggregate | backend/api/services.py:14-18 | The list has one line per (name, unit) pair of an amount row of a recipe in the user's cart, and no other line. An empty cart gives an empty list. |
| ShoppingList.GroupKeys | backend/api/services.py:15-18 | The grouping's keys are exactly the pairs of the counted rows. |
| ShoppingList.GroupSums | backend/api/services.py:19 | Each line's amount equals an independent front-to-back sum over its group. A pair without a line has no counted row. |
| ShoppingList.AggregateSums | backend/api/services.py:14-19 | Every line is the total of its pair over the cart's rows, so the same name under two units gives two lines. |
| ShoppingList.CartScenario | backend/api/services.py:11-24 | Two recipes sharing potato and salt in grams list potato 300, salt 15 and pepper 3. |
| RecipeApi.ValidateCookingTime | backend/api/serializers/recipes.py:113-118 | A cooking time is accepted iff it is at least 1, and it passes unchanged. |
| RecipeApi.ValidateAmount | backend/api/serializers/ingredients.py:42-47 | An amount is accepted iff it is at least 1, and it passes unchanged. |
| RecipeApi.TrimLeftSpec | backend/recipes/migrations/0001_initial.py:109 | Trimming the front drops exactly the leading characters that Python's `str.isspace` accepts. What is left is a suffix that does not start with whitespace. |
| RecipeApi.TrimRightSpec | backend/recipes/migrations/0001_initial.py:109 | Trimming the end drops exactly the trailing whitespace. What is left is a prefix that does not end with whitespace. |
| RecipeApi.StripIdempotent | backend/recipes/migrations/0001_initial.py:109 | Stripping a stripped value changes nothing, so a stored name or text validates again to itself. |
| RecipeApi.NameErrors | backend/recipes/migrations/0001_initial.py:109 | The name passes iff it is not blank and its stripped form has at most 256 characters. A blank name gives the blank error alone. |
| RecipeApi.TextErrors | backend/recipes/migrations/0001_initial.py:117 | The text passes iff it is not blank. |
| RecipeApi.FirstUnknownTag | backend/api/serializers/recipes.py:65-67 | Tag keys are looked up in submission order. The result is none iff every tag is stored, and otherwise it is the first missing key, with every key before it stored. |
| RecipeApi.EntryErrors | backend/api/serializers/recipes.py:64 | The nested list reports every entry with an unknown ingredient and every entry with a non-positive amount. It reports nothing iff every entry is valid. |
| RecipeApi.TagErrors | backend/api/serializers/recipes.py:65-67 | At most one unknown tag is reported. No error is reported iff every tag is stored. |
| RecipeApi.FieldErrors | backend/api/serializers/recipes.py:62-81 | The serializer reports no field error iff six conditions hold: the name is not blank and is at most 256 characters once stripped, the text is not blank, the cooking time is positive, every entry names a stored ingredient with a positive amount, and every tag is stored. At most one tag error is reported. |
| RecipeApi.BlankNameScenario | backend/recipes/migrations/0001_initial.py:109 | A create whose name is only a space and a tab is refused with the blank-name error alone, and nothing is written. |
| RecipeApi.PaddedNameScenario | backend/api/serializers/recipes.py:94-99 | " Soup\n" is stripped before the insert, so it conflicts with a stored "Soup". |
| RecipeApi.FirstTagScenario | backend/api/serializers/recipes.py:65-67 | With tags 98 and 99 both unknown, only 98 is reported. |
| RecipeApi.CreateRecipe | backend/api/serializers/recipes.py:94-102 | Any failure leaves the store unchanged. Success happens iff the fields validate, the stripped name is free and the ingredients are distinct. A taken name is reported before duplicate ingredients, because the recipe row is inserted first. The new recipe has the requesting author, the stripped name and text, the submitted tag set and the date. |
| RecipeApi.CreateRecipeRows | backend/api/serializers/recipes.py:83-102 | The new recipe's amount rows are exactly the submitted entries, in order, each with its amount. No other recipe's rows change. |
| RecipeApi.AmountRowsDistinct | backend/recipes/models/m2m_models.py:53-61 | Entries with distinct ingredients give rows that meet the (ingredient, recipe) constraint. |
| RecipeApi.CreateRecipeValid | backend/api/serializers/recipes.py:94-102 | A create by an existing user keeps every constraint and rule. |
| RecipeApi.CreateThenDelete | backend/recipes/models/m2m_models.py:33-35 | Deleting a just-created recipe gives back the original store, with only the id counter advanced. |
| RecipeApi.UpdateRecipe | backend/api/serializers/recipes.py:104-111 | A missing recipe is not found, and any failure leaves the store unchanged. Duplicate ingredients are reported before a name conflict, because the amount rows are written before the recipe row. On success the recipe keeps its author and date and takes the submitted fields, with name and text stripped, and the tag set. The stripped name is checked against the other recipes. Nothing else changes. |
| RecipeApi.UpdateRecipeRows | backend/api/serializers/recipes.py:104-111 | After an update the recipe's amount rows are exactly the submitted entries, with no earlier row left. Other recipes' rows are unchanged. |
| RecipeApi.UpdateRecipeValid | backend/api/serializers/recipes.py:104-111 | An update keeps every constraint and rule. |
| RecipeApi.UpdateIdempotent | backend/api/serializers/recipes.py:104-111 | Submitting the same update twice gives the same store and answer as once. |
| RecipeApi.CreateThenShow | backend/api/serializers/ingredients.py:18-31 | The ingredient rows shown for a new recipe match the submitted entries one for one, in insertion order (a choice of the model). Each row has the entry's ingredient id, that ingredient's name and unit, and the entry's amount. |
| Links.FilterLinked | backend/api/filters.py:23-31 | `false` returns the listing unchanged. `true` keeps a sub-listing, and an anonymous viewer makes the `true` filter fail. |
| Links.FilterAgreesWithFlag | backend/api/filters.py:23-25 | The `true` filter keeps exactly the recipes whose serializer flag is true. Applying it again changes nothing. |
| Links.FavoriteValidate | backend/api/serializers/favorite.py:12-21 | With no request or an anonymous user the result is False. An existing favorite of the requesting user is an error. Otherwise the data passes unchanged. |
| Links.AddLink | backend/api/views/recipe.py:140-145 | An anonymous viewer, an unknown recipe and an existing row are refused with the store unchanged. Otherwise exactly the viewer's row is added and the answer is the recipe's short form. |
| Links.RemoveLink | backend/api/views/recipe.py:148-153 | An unknown recipe or a missing row is not found, with the store unchanged. Otherwise exactly that one row is removed. |
| Links.AddThenRemove | backend/api/serializers/recipes.py:47-59 | The flag is false before an add and true after it. Removing the row again gives back the original store. |
| Links.RemoveThenAdd | backend/api/views/recipe.py:148-153 | After a remove the flag is false, and adding the row again gives back the original store. |
| Links.LinkChangesOneRow | backend/api/views/recipe.py:148-153 | Adding or removing touches only the viewer's row for that recipe in that table. Other users' rows and the other table stay as they were. |
| Links.LinksPreserve | backend/recipes/models/m2m_models.py:11-28 | Adding and removing favorites and cart rows keeps every constraint and rule. |
| Follows.ListingExact | backend/recipes/models/basic.py:97-98 | The author's listing holds each of their recipes once and nothing else, newest first. Its length is their recipe count. |
| Follows.Limit | backend/api/serializers/follows.py:33-39 | No limit or an empty one keeps all recipes. A non-integer or a negative limit is an error. Otherwise the result is the first `min(n, count)` recipes. |
| Follows.LimitShown | backend/api/serializers/follows.py:36-38 | A limit written as a decimal `n` keeps exactly the first `n` recipes, so "0" keeps none. `-n` is refused. |
| Follows.Represent | backend/api/serializers/follows.py:42-46 | The representation is the author's own data. It fails exactly when the limit does. `is_subscribed` is false for anonymous viewers, and otherwise true iff the follow exists. |
| Follows.RepresentRecipes | backend/api/serializers/follows.py:33-50 | The shown recipes are a prefix of the author's newest-first listing and are only the author's. The count is the author's total whatever the limit. Without a limit all recipes are shown. |
| Follows.FollowPost | backend/api/views/follows.py:26-46 | An unknown target, a self-follow and an existing follow are refused with the store unchanged. Otherwise exactly Follow(viewer, target) is added and the answer shows the viewer as subscribed. |
| Follows.FollowDelete | backend/api/views/follows.py:48-59 | An unknown target is not found, and a missing subscription is refused; both leave the store unchanged. Otherwise exactly that follow is removed. |
| Follows.SelfCheckAgreesWithClean | backend/api/views/follows.py:28-32 | The view's identity check refuses exactly what `Follow.clean`'s username check refuses. |
| Follows.FollowThenUnfollow | backend/api/views/follows.py:40-55 | Following and then unfollowing gives back the original store, and the viewer is subscribed in between. |
| Follows.UnfollowThenFollow | backend/api/views/follows.py:48-55 | Unfollowing and then following again gives back the original store. |
| Follows.FollowsPreserve | backend/users/models.py:51-58 | Follow and unfollow keep every constraint and rule, so no one ends up following themselves. |

## Left out

- Network and services:
  - The network: the recipes API GET and the image GETs are the parameters `fetch` and `download`.
  - Translation and `strip_tags`: uninterpreted functions in `Parser.Text`. A translation failure is modelled as an error value.
  - Image storage: only the file name is kept.
  - `urljoin` with the configured base URL: only the relative path is modelled.
- Randomness: `random.randint(4, 8)` and `random.choice` are fields of `Job.Env`, constrained to their ranges. The tag is picked by id.
- PDF rendering of the shopping list (backend/api/logic.py): only the aggregation is modelled.
- Celery: scheduling, back-off and jitter timing, and overlapping runs. Only the retry counter is kept.
- Integer widths: the `PositiveSmallIntegerField` upper bound of 32767 is not a database constraint on SQLite and is not modelled, so amounts and times are unbounded integers. The `>= 0` CHECK is modelled (`Store.InRange`).
- Saver.BulkCreateAmountsSpec: a bulk insert that breaks both the amount CHECK and `unique_ingredient_amount` is reported as `AmountOutOfRange`. SQLite reports whichever row it meets first, and both are an `IntegrityError` that ends the task.
- Malformed external JSON: a missing key of the external JSON is not modelled, because the raw records are total.
- Parser.Lower: lower-cases ASCII letters only, because Python's Unicode case mapping is not modelled.
- Follows.ParseInt: accepts an optional sign and digits only, because Python's `int()` also takes surrounding whitespace and digit underscores, and those are not modelled.
- Follows.ListingExact: the database leaves the order of recipes with equal `pub_date` unspecified; the model lists them by decreasing id, the later insert first. In the source every recipe insert, from the API or from an import, gets its own `auto_now_add` stamp, so later inserts have later dates and newest first is higher id first; listing ties by decreasing id reproduces that order.
- Job.Run: one run passes a single clock value `now` to every recipe it imports, where the source stamps each insert on its own. The recipes of one import therefore tie on `pubDate` in the model, and the decreasing-id tie order above keeps their listing as the source's.
- Ordering of ingredients and tags by name: it affects no modelled result.
- RecipeApi.CreateThenShow: shows a recipe's amount rows in insertion order. This is a choice of the model: `get_ingredients` filters without an `ORDER BY`, so the database promises no order, and the rows are equal to the entries only up to order.
- Store.AddUser: accepts any non-empty email and username. The `EmailField` format check and the `max_length` bounds of 254 for the email and 150 for the other name fields (backend/users/models.py:11-23) are not modelled.
- ShoppingList.Aggregate: the result is a map keyed by (name, unit), with no order. The query has no `ORDER BY`, so a "first seen" order is not a property of the code.
- Partial update (`PATCH`): the model covers full updates only.
- Object permissions: `IsAuthorOrReadOnly` (backend/api/permissions.py) is not part of this model. Create takes an existing author, and update does not check who asks.
- Recipe name conflicts on create and update: the model reports them as `NameConflict`, ordered against duplicate ingredients by the order of the writes (the recipe row first on create, the amount rows first on update). Whether they surface as a validator's 400 or as a database error depends on `AbstractNamedModel` (backend/recipes/models/abstract.py), which is not part of this model. The name's `max_length` of 256 and its and the text's non-blank rule are taken from the initial migration (backend/recipes/migrations/0001_initial.py:109-117).
- RecipeApi.FieldErrors: the errors of a missing field, of a value of the wrong JSON type and of the Base64 image decoding are not modelled, because the request body arrives already decoded.
- Cart duplicates: the duplicate cart row is refused by the `unique_shopping_cart` constraint. Its HTTP status depends on the framework version and is not modelled.
- `FollowListAPIView`: its filter names a relation the models do not define.
- Migrations, admin, settings, signals, Swagger and the tags/users serializers.

Where the code and its written description disagree, the model follows the code:

- The saver has no transaction: a failure after some records leaves those records, and a record's own recipe row, in place.
- Only an HTTP error of the crawl and a zero count are retried. A crawl with no answer (connection error, timeout), image-download, translation and superuser failures, and database errors of the bulk inserts end the task.
- The import superuser is looked up inside `save()`, after the fetch and the parse.
- `FollowAPIView.post` commits the new follow before it builds the response, so an invalid `recipes_limit` fails the request but keeps the row.
