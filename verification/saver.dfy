/** The recipe importer (`RecipeSaver` in backend/recipes/services.py).
    Records are saved one after another with no enclosing transaction: a
    record whose recipe insert raises `IntegrityError` (a taken name, or a
    negative cooking time against the column's CHECK) is skipped, any other
    failure propagates and leaves the rows written so far in place.
    Downloading an image is a parameter (`download` says whether the GET
    succeeded); the file storage is not modelled beyond the file name. */
module Saver {
  import opened Wrappers
  import opened Seqs
  import opened Store
  import opened Records

  datatype SaveError =
    | NoSuperuser              // get_object_or_404 finds no superuser (Http404)
    | ManySuperusers           // get_object_or_404 finds several (MultipleObjectsReturned)
    | ImageFetchFailed(url: string)
    | IngredientConflict       // Ingredient bulk insert violates unique_ingredient
    | AmountConflict           // IngredientAmount bulk insert violates unique_ingredient_amount
    | AmountOutOfRange         // IngredientAmount bulk insert violates the CHECK (amount >= 0)
    | UnresolvedIngredient     // `[...][0]` on an empty list (IndexError)

  /** The state the database is left in, with the number of recipes created. */
  datatype SaveOutcome = Saved(db: Db, count: nat) | Aborted(db: Db, count: nat, error: SaveError)

  datatype Step = Skipped | Inserted(db: Db) | Broken(db: Db, error: SaveError)

  // ---------------------------------------------------------------------------
  // Import user, image file name, tag

  function Superusers(db: Db): set<Id>
  {
    set k | k in db.users && db.users[k].isSuperuser
  }

  /** `_get_superuser`: `get_object_or_404(User, is_superuser=True)`. */
  function ImportUser(db: Db): Result<Id, SaveError>
  {
    if |Superusers(db)| == 0 then Failure(NoSuperuser)
    else if |Superusers(db)| > 1 then Failure(ManySuperusers)
    else match FirstKey(db.users, (u: User) => u.isSuperuser, 0, db.nextId)
      case None => Failure(NoSuperuser)
      case Some(k) => Success(k)
  }

  /** The import user is found exactly when there is one superuser, and it is that superuser. */
  lemma ImportUserExact(db: Db)
    requires Valid(db)
    ensures ImportUser(db).Success? <==> |Superusers(db)| == 1
    ensures ImportUser(db).Success? ==> Superusers(db) == {ImportUser(db).value}
    ensures ImportUser(db) == Failure(NoSuperuser) <==> Superusers(db) == {}
  {
    var p := (u: User) => u.isSuperuser;
    FirstKeyFinds(db.users, p, db.nextId);
    if |Superusers(db)| == 1 {
      var k :| k in Superusers(db);
      assert p(db.users[k]);
      var r := FirstKey(db.users, p, 0, db.nextId);
      assert r.Some?;
      assert r.value in Superusers(db);
      var rest := Superusers(db) - {k};
      assert |rest| == 0;
      assert rest == {};
      assert Superusers(db) == {k};
    }
  }

  /** `url.split('/')[-1]`: the longest suffix of the URL without a slash. */
  function FileName(url: string): (r: string)
    ensures '/' !in r
    ensures |r| <= |url| && r == url[|url| - |r|..]
    ensures |r| < |url| ==> url[|url| - |r| - 1] == '/'
  {
    if |url| == 0 || url[|url| - 1] == '/' then ""
    else
      var head := url[..|url| - 1];
      SuffixExtends(url, FileName(head));
      FileName(head) + [url[|url| - 1]]
  }

  /** A suffix of the URL without its last character, followed by that
      character, is a suffix of the URL. */
  lemma SuffixExtends(url: string, tail: string)
    requires |url| > 0 && |tail| <= |url| - 1
    requires tail == url[..|url| - 1][|url| - 1 - |tail|..]
    ensures url[|url| - |tail| - 1..] == tail + [url[|url| - 1]]
  {
  }

  /** `_get_tag`: the tags whose slug is the record's tag (at most one). */
  function TagsWithSlug(db: Db, slug: string): set<Id>
  {
    set k | k in db.tags && db.tags[k].slug == slug
  }

  // ---------------------------------------------------------------------------
  // Ingredients

  function Names(entries: seq<IngredientResult>): set<string>
  {
    set e | e in entries :: e.name
  }

  function Units(entries: seq<IngredientResult>): set<string>
  {
    set e | e in entries :: e.unit
  }

  /** The (name, unit) pairs a record's entries name. */
  function Pairs(entries: seq<IngredientResult>): set<Ingredient>
  {
    set e | e in entries :: Pair(e)
  }

  /** `_get_ingredient_in_db`: every ingredient whose name is among the
      record's names and whose unit is among its units (a superset of the exact pairs). */
  function Candidates(ingredients: map<Id, Ingredient>, entries: seq<IngredientResult>): map<Id, Ingredient>
  {
    map k | k in ingredients && ingredients[k].name in Names(entries) && ingredients[k].unit in Units(entries)
      :: ingredients[k]
  }

  /** `_transformation_ingredients`. */
  function StoredPairs(candidates: map<Id, Ingredient>): set<Ingredient>
  {
    set k | k in candidates :: candidates[k]
  }

  /** The superset query loses no exact pair: for an entry of the record,
      membership among the candidates is membership in the whole table. */
  lemma CandidatesExact(ingredients: map<Id, Ingredient>, entries: seq<IngredientResult>, e: IngredientResult)
    requires e in entries
    ensures Pair(e) in StoredPairs(Candidates(ingredients, entries)) <==> Pair(e) in ingredients.Values
  {
    if Pair(e) in ingredients.Values {
      var k :| k in ingredients && ingredients[k] == Pair(e);
      assert e.name in Names(entries) && e.unit in Units(entries);
      assert k in Candidates(ingredients, entries);
    }
  }

  /** `_validate_ingredient_data`: the entries whose exact pair is not stored yet, in record order. */
  function Missing(ingredients: map<Id, Ingredient>, entries: seq<IngredientResult>): seq<IngredientResult>
  {
    var stored := StoredPairs(Candidates(ingredients, entries));
    Filter(entries, (e: IngredientResult) => Pair(e) !in stored)
  }

  /** The `Ingredient` objects built from the missing entries. */
  function NewPairs(ingredients: map<Id, Ingredient>, entries: seq<IngredientResult>): (news: seq<Ingredient>)
    ensures |news| == |Missing(ingredients, entries)|
    ensures forall i :: 0 <= i < |news| ==> news[i] == Pair(Missing(ingredients, entries)[i])
  {
    var missing := Missing(ingredients, entries);
    seq(|missing|, i requires 0 <= i < |missing| => Pair(missing[i]))
  }

  /** Rows created by `Ingredient.objects.bulk_create`, numbered from `next`. */
  function AddIngredients(ingredients: map<Id, Ingredient>, next: Id, news: seq<Ingredient>): (r: map<Id, Ingredient>)
    decreases |news|
    ensures forall k :: k in r <==> k in ingredients || next <= k < next + |news|
    ensures forall k :: k in ingredients && !(next <= k < next + |news|) ==> r[k] == ingredients[k]
    ensures forall i :: 0 <= i < |news| ==> r[next + i] == news[i]
  {
    if |news| == 0 then ingredients
    else AddIngredients(ingredients[next := news[0]], next + 1, news[1..])
  }

  /** `_bulk_create_ingredients`: inserts the missing pairs; two equal
      missing pairs make the whole bulk insert fail on `unique_ingredient`. */
  function BulkCreateIngredients(db: Db, entries: seq<IngredientResult>): Result<Db, SaveError>
  {
    var news := NewPairs(db.ingredients, entries);
    if !Distinct(news) then Failure(IngredientConflict)
    else Success(db.(ingredients := AddIngredients(db.ingredients, db.nextId, news), nextId := db.nextId + |news|))
  }

  // ---------------------------------------------------------------------------
  // Ingredient amounts

  /** `_get_valid_ingredient`: the first candidate with the entry's exact pair. */
  function ResolveEntry(candidates: map<Id, Ingredient>, bound: Id, recipe: Id, e: IngredientResult): Result<Amount, SaveError>
  {
    match FirstKey(candidates, (i: Ingredient) => i == Pair(e), 0, bound)
    case None => Failure(UnresolvedIngredient)
    case Some(k) => Success(Amount(recipe, k, e.amount))
  }

  /** `_bulk_create_ingredient_amount`: one row per entry, resolved against a
      fresh candidate query; the bulk insert fails as a whole on the CHECK of
      the amount column or on `unique_ingredient_amount`. */
  function BulkCreateAmounts(db: Db, recipe: Id, entries: seq<IngredientResult>): (r: Result<Db, SaveError>)
    ensures r.Success? ==> r.value == db.(amounts := r.value.amounts)
  {
    match ResolveRows(db, recipe, entries)
    case Failure(err) => Failure(err)
    case Success(rows) =>
      if !AmountsInRange(rows) then Failure(AmountOutOfRange)
      else if !DistinctBy(db.amounts + rows, AmountKey) then Failure(AmountConflict)
      else Success(db.(amounts := db.amounts + rows))
  }

  /** The list comprehension of `_bulk_create_ingredient_amount`: every entry
      resolved against one candidate query, before anything is inserted. */
  function ResolveRows(db: Db, recipe: Id, entries: seq<IngredientResult>): Result<seq<Amount>, SaveError>
  {
    var candidates := Candidates(db.ingredients, entries);
    Traverse(entries, (e: IngredientResult) => ResolveEntry(candidates, db.nextId, recipe, e))
  }

  // ---------------------------------------------------------------------------
  // One record, then the batch

  /** The recipe row `_save_recipe` writes for a record, dated `now`: one
      clock value for the whole run, where `auto_now_add` stamps each insert. */
  function NewRecipe(db: Db, user: Id, rec: RecipeResult, now: int): Recipe
  {
    Recipe(user, rec.name, FileName(rec.image), rec.text, rec.cookingTime, now, TagsWithSlug(db, rec.tag))
  }

  /** One iteration of the loop in `save`: download the image, insert the
      recipe (skipping it when the insert raises `IntegrityError`: a taken
      name or a negative cooking time against the column's CHECK), then
      `_bulk_create`. */
  function SaveRecord(db: Db, user: Id, rec: RecipeResult, download: string -> bool, now: int): Step
  {
    if !download(rec.image) then Broken(db, ImageFetchFailed(rec.image))
    else if NameTaken(db, rec.name) || rec.cookingTime < 0 then Skipped
    else BulkCreate(WithRecipe(db, user, rec, now), db.nextId, rec.ingredients)
  }

  /** The store right after `recipe.save()`, before any ingredient work. */
  function WithRecipe(db: Db, user: Id, rec: RecipeResult, now: int): Db
  {
    db.(recipes := db.recipes[db.nextId := NewRecipe(db, user, rec, now)], nextId := db.nextId + 1)
  }

  /** `_bulk_create`: the missing ingredients, then the amount rows. */
  function BulkCreate(db: Db, recipe: Id, entries: seq<IngredientResult>): Step
  {
    match BulkCreateIngredients(db, entries)
    case Failure(err) => Broken(db, err)
    case Success(db2) =>
      match BulkCreateAmounts(db2, recipe, entries)
      case Failure(err) => Broken(db2, err)
      case Success(db3) => Inserted(db3)
  }

  function SaveFrom(db: Db, user: Id, recs: seq<RecipeResult>, download: string -> bool, now: int, count: nat): SaveOutcome
    decreases |recs|
  {
    if |recs| == 0 then Saved(db, count)
    else match SaveRecord(db, user, recs[0], download, now)
      case Skipped => SaveFrom(db, user, recs[1..], download, now, count)
      case Inserted(db') => SaveFrom(db', user, recs[1..], download, now, count + 1)
      case Broken(db', err) => Aborted(db', count, err)
  }

  /** `RecipeSaver(data).save()`. */
  function Save(db: Db, recs: seq<RecipeResult>, download: string -> bool, now: int): SaveOutcome
  {
    match ImportUser(db)
    case Failure(err) => Aborted(db, 0, err)
    case Success(user) => SaveFrom(db, user, recs, download, now, 0)
  }

  // ---------------------------------------------------------------------------
  // Properties

  /** Two entries of one record never share a (name, unit) pair. */
  predicate DistinctPairs(entries: seq<IngredientResult>)
  {
    DistinctBy(entries, Pair)
  }

  /** The validator-level bounds a record must meet for the stored rows to meet them. */
  predicate WellFormed(rec: RecipeResult)
  {
    rec.cookingTime >= 1 && PositiveAmounts(rec.ingredients)
  }

  predicate KeysBelow(ingredients: map<Id, Ingredient>, bound: Id)
  {
    forall k :: k in ingredients ==> k < bound
  }

  /** Only inserts happened between `db` and `db'`. */
  predicate Grows(db: Db, db': Db)
  {
    && db'.users == db.users && db'.tags == db.tags
    && db'.favorites == db.favorites && db'.carts == db.carts && db'.follows == db.follows
    && (forall k :: k in db.recipes ==> k in db'.recipes && db'.recipes[k] == db.recipes[k])
    && (forall k :: k in db.ingredients ==> k in db'.ingredients && db'.ingredients[k] == db.ingredients[k])
    && |db.amounts| <= |db'.amounts| && db'.amounts[..|db.amounts|] == db.amounts
    && db.nextId <= db'.nextId
  }

  lemma GrowsTransitive(a: Db, b: Db, c: Db)
    requires Grows(a, b) && Grows(b, c)
    ensures Grows(a, c)
  {
    assert c.amounts[..|a.amounts|] == c.amounts[..|b.amounts|][..|a.amounts|];
  }

  /** Row `i` stands for entry `i`: same recipe, the stored ingredient of the
      entry's exact pair, and the entry's amount. */
  predicate RowsMatch(ingredients: map<Id, Ingredient>, recipe: Id, rows: seq<Amount>, entries: seq<IngredientResult>)
  {
    && |rows| == |entries|
    && forall i :: 0 <= i < |rows| ==>
         && rows[i].recipe == recipe
         && rows[i].ingredient in ingredients
         && ingredients[rows[i].ingredient] == Pair(entries[i])
         && rows[i].amount == entries[i].amount
  }

  lemma MissingDistinct(ingredients: map<Id, Ingredient>, entries: seq<IngredientResult>)
    requires DistinctPairs(entries)
    ensures DistinctBy(Missing(ingredients, entries), Pair)
  {
    var stored := StoredPairs(Candidates(ingredients, entries));
    FilterDistinct(entries, (e: IngredientResult) => Pair(e) !in stored, Pair);
  }

  /** The new pairs are the record's pairs the table lacks, and nothing else. */
  lemma NewPairsExact(ingredients: map<Id, Ingredient>, entries: seq<IngredientResult>)
    ensures forall i :: 0 <= i < |NewPairs(ingredients, entries)| ==>
      NewPairs(ingredients, entries)[i] !in ingredients.Values
      && NewPairs(ingredients, entries)[i] in Pairs(entries)
    ensures forall e :: e in entries ==> Pair(e) in ingredients.Values || Pair(e) in NewPairs(ingredients, entries)
  {
    var missing := Missing(ingredients, entries);
    var news := NewPairs(ingredients, entries);
    forall i | 0 <= i < |news|
      ensures news[i] !in ingredients.Values && news[i] in Pairs(entries)
    {
      assert missing[i] in missing;
      CandidatesExact(ingredients, entries, missing[i]);
    }
    forall e | e in entries
      ensures Pair(e) in ingredients.Values || Pair(e) in news
    {
      CandidatesExact(ingredients, entries, e);
      if Pair(e) !in ingredients.Values {
        assert e in missing;
        var i :| 0 <= i < |missing| && missing[i] == e;
        assert news[i] == Pair(e);
      }
    }
  }

  lemma NewPairsDistinct(ingredients: map<Id, Ingredient>, entries: seq<IngredientResult>)
    requires DistinctPairs(entries)
    ensures Distinct(NewPairs(ingredients, entries))
  {
    MissingDistinct(ingredients, entries);
  }

  /** Adding distinct pairs the table lacks keeps `unique_ingredient`. */
  lemma AddIngredientsUnique(ingredients: map<Id, Ingredient>, next: Id, news: seq<Ingredient>)
    requires UniqueIngredients(ingredients) && KeysBelow(ingredients, next)
    requires Distinct(news)
    requires forall i :: 0 <= i < |news| ==> news[i] !in ingredients.Values
    ensures UniqueIngredients(AddIngredients(ingredients, next, news))
  {
    var added := AddIngredients(ingredients, next, news);
    forall a, b | a in added && b in added && a != b
      ensures added[a] != added[b]
    {
      if a < next && b < next {
      } else if a < next {
        assert added[b] == news[b - next];
      } else if b < next {
        assert added[a] == news[a - next];
      } else {
        assert added[a] == news[a - next] && added[b] == news[b - next];
      }
    }
  }

  /** The rows `bulk_create` adds hold the missing pairs, so afterwards the
      table holds every pair of the record. */
  lemma AddedPairs(ingredients: map<Id, Ingredient>, next: Id, news: seq<Ingredient>, entries: seq<IngredientResult>)
    requires KeysBelow(ingredients, next)
    requires forall i :: 0 <= i < |news| ==> news[i] !in ingredients.Values && news[i] in Pairs(entries)
    requires forall e :: e in entries ==> Pair(e) in ingredients.Values || Pair(e) in news
    ensures var added := AddIngredients(ingredients, next, news);
      && (forall k :: k in added && k !in ingredients ==> added[k] !in ingredients.Values && added[k] in Pairs(entries))
      && Pairs(entries) <= added.Values
  {
    var added := AddIngredients(ingredients, next, news);
    forall k | k in added && k !in ingredients
      ensures added[k] !in ingredients.Values && added[k] in Pairs(entries)
    {
      assert added[k] == news[k - next];
    }
    forall x | x in Pairs(entries)
      ensures x in added.Values
    {
      var e :| e in entries && Pair(e) == x;
      if Pair(e) in ingredients.Values {
        var k :| k in ingredients && ingredients[k] == Pair(e);
        assert added[k] == Pair(e);
      } else {
        var i :| 0 <= i < |news| && news[i] == Pair(e);
        assert added[next + i] == Pair(e);
      }
    }
  }

  /** After `_bulk_create_ingredients` every entry's pair is stored, once, and
      rows already stored are untouched. */
  lemma BulkCreateIngredientsSpec(db: Db, entries: seq<IngredientResult>)
    requires UniqueIngredients(db.ingredients) && KeysBelow(db.ingredients, db.nextId)
    ensures DistinctPairs(entries) ==> BulkCreateIngredients(db, entries).Success?
    ensures BulkCreateIngredients(db, entries).Success? ==>
      var db2 := BulkCreateIngredients(db, entries).value;
      && db2 == db.(ingredients := db2.ingredients, nextId := db2.nextId)
      && db.nextId <= db2.nextId
      && KeysBelow(db2.ingredients, db2.nextId)
      && UniqueIngredients(db2.ingredients)
      && (forall k :: k in db.ingredients ==> k in db2.ingredients && db2.ingredients[k] == db.ingredients[k])
      && (forall k :: k in db2.ingredients && k !in db.ingredients ==>
            db2.ingredients[k] !in db.ingredients.Values && db2.ingredients[k] in Pairs(entries))
      && Pairs(entries) <= db2.ingredients.Values
  {
    var news := NewPairs(db.ingredients, entries);
    if DistinctPairs(entries) {
      NewPairsDistinct(db.ingredients, entries);
    }
    if Distinct(news) {
      var next := db.nextId;
      var added := AddIngredients(db.ingredients, next, news);
      NewPairsExact(db.ingredients, entries);
      AddIngredientsUnique(db.ingredients, next, news);
      AddedPairs(db.ingredients, next, news, entries);
    }
  }

  lemma ResolveEntrySpec(db: Db, recipe: Id, entries: seq<IngredientResult>, e: IngredientResult)
    requires KeysBelow(db.ingredients, db.nextId)
    requires e in entries && Pair(e) in db.ingredients.Values
    ensures ResolveEntry(Candidates(db.ingredients, entries), db.nextId, recipe, e).Success?
    ensures var row := ResolveEntry(Candidates(db.ingredients, entries), db.nextId, recipe, e).value;
      row.recipe == recipe && row.ingredient in db.ingredients
      && db.ingredients[row.ingredient] == Pair(e) && row.amount == e.amount
  {
    var candidates := Candidates(db.ingredients, entries);
    var p := (i: Ingredient) => i == Pair(e);
    var k :| k in db.ingredients && db.ingredients[k] == Pair(e);
    assert e.name in Names(entries) && e.unit in Units(entries);
    assert k in candidates && p(candidates[k]);
    FirstKeyFinds(candidates, p, db.nextId);
  }

  /** Once every pair is stored, `_get_valid_ingredient` never meets an empty
      list: every entry resolves to the stored ingredient of its exact pair. */
  lemma ResolveAllSpec(db: Db, recipe: Id, entries: seq<IngredientResult>)
    requires KeysBelow(db.ingredients, db.nextId)
    requires Pairs(entries) <= db.ingredients.Values
    ensures ResolveRows(db, recipe, entries).Success?
    ensures RowsMatch(db.ingredients, recipe, ResolveRows(db, recipe, entries).value, entries)
  {
    var f := (e: IngredientResult) => ResolveEntry(Candidates(db.ingredients, entries), db.nextId, recipe, e);
    forall i | 0 <= i < |entries|
      ensures f(entries[i]).Success?
      ensures var row := f(entries[i]).value;
        row.recipe == recipe && row.ingredient in db.ingredients
        && db.ingredients[row.ingredient] == Pair(entries[i]) && row.amount == entries[i].amount
    {
      ResolveEntrySpec(db, recipe, entries, entries[i]);
    }
  }

  /** Rows standing for entries with distinct pairs use distinct ingredients. */
  lemma RowsDistinct(ingredients: map<Id, Ingredient>, recipe: Id, rows: seq<Amount>, entries: seq<IngredientResult>)
    requires RowsMatch(ingredients, recipe, rows, entries) && DistinctPairs(entries)
    ensures DistinctBy(rows, AmountKey)
  {
    forall i, j | 0 <= i < j < |rows|
      ensures AmountKey(rows[i]) != AmountKey(rows[j])
    {
      assert Pair(entries[i]) != Pair(entries[j]);
    }
  }

  /** `_bulk_create_ingredient_amount` appends one row per entry, each standing
      for its entry; it succeeds when the pairs are distinct, the amounts are
      not negative and the recipe is new, and a negative amount always fails. */
  lemma BulkCreateAmountsSpec(db: Db, recipe: Id, entries: seq<IngredientResult>)
    requires KeysBelow(db.ingredients, db.nextId)
    requires UniqueAmounts(db.amounts)
    requires Pairs(entries) <= db.ingredients.Values
    ensures DistinctPairs(entries) && NonNegativeAmounts(entries) && (forall a :: a in db.amounts ==> a.recipe != recipe) ==>
      BulkCreateAmounts(db, recipe, entries).Success?
    ensures !NonNegativeAmounts(entries) ==> BulkCreateAmounts(db, recipe, entries) == Failure(AmountOutOfRange)
    ensures BulkCreateAmounts(db, recipe, entries).Failure? ==>
      BulkCreateAmounts(db, recipe, entries).error in {AmountOutOfRange, AmountConflict}
    ensures BulkCreateAmounts(db, recipe, entries).Success? ==>
      var db3 := BulkCreateAmounts(db, recipe, entries).value;
      && db3 == db.(amounts := db3.amounts)
      && |db.amounts| <= |db3.amounts| && db3.amounts[..|db.amounts|] == db.amounts
      && RowsMatch(db.ingredients, recipe, db3.amounts[|db.amounts|..], entries)
      && AmountsInRange(db3.amounts[|db.amounts|..])
      && UniqueAmounts(db3.amounts)
  {
    BulkCreateAmountsOutcome(db, recipe, entries);
    BulkCreateAmountsAppends(db, recipe, entries);
  }

  /** When `_bulk_create_ingredient_amount` succeeds or fails. */
  lemma BulkCreateAmountsOutcome(db: Db, recipe: Id, entries: seq<IngredientResult>)
    requires KeysBelow(db.ingredients, db.nextId)
    requires UniqueAmounts(db.amounts)
    requires Pairs(entries) <= db.ingredients.Values
    ensures DistinctPairs(entries) && NonNegativeAmounts(entries) && (forall a :: a in db.amounts ==> a.recipe != recipe) ==>
      BulkCreateAmounts(db, recipe, entries).Success?
    ensures !NonNegativeAmounts(entries) ==> BulkCreateAmounts(db, recipe, entries) == Failure(AmountOutOfRange)
    ensures BulkCreateAmounts(db, recipe, entries).Failure? ==>
      BulkCreateAmounts(db, recipe, entries).error in {AmountOutOfRange, AmountConflict}
  {
    ResolveAllSpec(db, recipe, entries);
    var rows := ResolveRows(db, recipe, entries).value;
    assert AmountsInRange(rows) <==> NonNegativeAmounts(entries);
    if DistinctPairs(entries) && NonNegativeAmounts(entries) && (forall a :: a in db.amounts ==> a.recipe != recipe) {
      ResolvedRowsDistinct(db, recipe, entries);
    }
  }

  /** Rows for distinct pairs of a recipe that has none yet keep
      `unique_ingredient_amount`. */
  lemma ResolvedRowsDistinct(db: Db, recipe: Id, entries: seq<IngredientResult>)
    requires KeysBelow(db.ingredients, db.nextId)
    requires UniqueAmounts(db.amounts)
    requires Pairs(entries) <= db.ingredients.Values
    requires DistinctPairs(entries) && (forall a :: a in db.amounts ==> a.recipe != recipe)
    ensures ResolveRows(db, recipe, entries).Success?
    ensures DistinctBy(db.amounts + ResolveRows(db, recipe, entries).value, AmountKey)
  {
    ResolveAllSpec(db, recipe, entries);
    var rows := ResolveRows(db, recipe, entries).value;
    RowsDistinct(db.ingredients, recipe, rows, entries);
    forall x, y | x in db.amounts && y in rows
      ensures AmountKey(x) != AmountKey(y)
    {
      var i :| 0 <= i < |rows| && rows[i] == y;
    }
    AppendDistinct(db.amounts, rows, AmountKey);
  }

  /** What a successful `_bulk_create_ingredient_amount` appends. */
  lemma BulkCreateAmountsAppends(db: Db, recipe: Id, entries: seq<IngredientResult>)
    requires KeysBelow(db.ingredients, db.nextId)
    requires Pairs(entries) <= db.ingredients.Values
    ensures BulkCreateAmounts(db, recipe, entries).Success? ==>
      var db3 := BulkCreateAmounts(db, recipe, entries).value;
      && db3 == db.(amounts := db3.amounts)
      && |db.amounts| <= |db3.amounts| && db3.amounts[..|db.amounts|] == db.amounts
      && RowsMatch(db.ingredients, recipe, db3.amounts[|db.amounts|..], entries)
      && AmountsInRange(db3.amounts[|db.amounts|..])
      && UniqueAmounts(db3.amounts)
  {
    ResolveAllSpec(db, recipe, entries);
    var rows := ResolveRows(db, recipe, entries).value;
    var all := db.amounts + rows;
    assert all[..|db.amounts|] == db.amounts && all[|db.amounts|..] == rows;
  }

  lemma WithRecipeValid(db: Db, user: Id, rec: RecipeResult, now: int)
    requires Valid(db) && user in db.users && !NameTaken(db, rec.name) && rec.cookingTime >= 0
    ensures Valid(WithRecipe(db, user, rec, now)) && Grows(db, WithRecipe(db, user, rec, now))
    ensures Checked(db) && rec.cookingTime >= 1 ==> Checked(WithRecipe(db, user, rec, now))
    ensures db.nextId in WithRecipe(db, user, rec, now).recipes
    ensures forall a :: a in WithRecipe(db, user, rec, now).amounts ==> a.recipe != db.nextId
  {
    var db1 := WithRecipe(db, user, rec, now);
    AddRecipeValid(db, NewRecipe(db, user, rec, now));
    assert Grows(db, db1) by {
      AddRecipeGrows(db, NewRecipe(db, user, rec, now));
    }
  }

  /** Adding a recipe under the next id only grows the store. */
  lemma AddRecipeGrows(db: Db, recipe: Recipe)
    requires db.nextId !in db.recipes
    ensures Grows(db, db.(recipes := db.recipes[db.nextId := recipe], nextId := db.nextId + 1))
  {
    assert db.amounts[..|db.amounts|] == db.amounts;
  }

  /** What each stage of `_bulk_create` keeps, from `db` to `d`: the store
      stays valid, only grows, keeps its recipes, and keeps the rules when the
      entries' amounts are positive. */
  predicate StoreKept(db: Db, entries: seq<IngredientResult>, d: Db)
  {
    && Valid(d)
    && Grows(db, d)
    && d.recipes == db.recipes
    && (Checked(db) && PositiveAmounts(entries) ==> Checked(d))
  }

  predicate PositiveAmounts(entries: seq<IngredientResult>)
  {
    forall i :: 0 <= i < |entries| ==> entries[i].amount >= 1
  }

  /** Amounts the `>= 0` CHECK of `IngredientAmount.amount` admits. */
  predicate NonNegativeAmounts(entries: seq<IngredientResult>)
  {
    forall i :: 0 <= i < |entries| ==> entries[i].amount >= 0
  }

  lemma StoreKeptTransitive(a: Db, b: Db, c: Db, entries: seq<IngredientResult>)
    requires StoreKept(a, entries, b) && StoreKept(b, entries, c)
    ensures StoreKept(a, entries, c)
  {
    GrowsTransitive(a, b, c);
  }

  lemma AfterIngredientsValid(db1: Db, entries: seq<IngredientResult>)
    requires Valid(db1)
    requires BulkCreateIngredients(db1, entries).Success?
    ensures StoreKept(db1, entries, BulkCreateIngredients(db1, entries).value)
    ensures Pairs(entries) <= BulkCreateIngredients(db1, entries).value.ingredients.Values
  {
    BulkCreateIngredientsSpec(db1, entries);
    var db2 := BulkCreateIngredients(db1, entries).value;
    WithIngredientsValid(db1, db2.ingredients, db2.nextId);
    assert db2.amounts[..|db1.amounts|] == db1.amounts;
  }

  lemma AfterAmountsValid(db2: Db, recipe: Id, entries: seq<IngredientResult>)
    requires Valid(db2) && recipe in db2.recipes
    requires Pairs(entries) <= db2.ingredients.Values
    requires BulkCreateAmounts(db2, recipe, entries).Success?
    ensures StoreKept(db2, entries, BulkCreateAmounts(db2, recipe, entries).value)
  {
    BulkCreateAmountsSpec(db2, recipe, entries);
    var db3 := BulkCreateAmounts(db2, recipe, entries).value;
    var rows := db3.amounts[|db2.amounts|..];
    assert db3.amounts == db2.amounts + rows;
    AppendedKept(db2, recipe, entries, rows, db3);
  }

  /** Amount rows that stand for the entries, meet the CHECK and keep the
      pairs unique leave the store valid, grown and with its recipes. */
  lemma AppendedKept(db2: Db, recipe: Id, entries: seq<IngredientResult>, rows: seq<Amount>, db3: Db)
    requires Valid(db2) && recipe in db2.recipes
    requires RowsMatch(db2.ingredients, recipe, rows, entries) && AmountsInRange(rows)
    requires UniqueAmounts(db2.amounts + rows)
    requires db3 == db2.(amounts := db2.amounts + rows)
    ensures StoreKept(db2, entries, db3)
  {
    AppendAmountsValid(db2, rows);
    assert db3.amounts[..|db2.amounts|] == db2.amounts;
  }

  /** `_bulk_create` on a recipe that has no rows yet: with distinct pairs it
      succeeds exactly when no amount is negative, and only a unique
      constraint or the CHECK on amounts can make it fail. */
  lemma BulkCreateOutcome(db: Db, recipe: Id, entries: seq<IngredientResult>)
    requires UniqueIngredients(db.ingredients) && KeysBelow(db.ingredients, db.nextId)
    requires UniqueAmounts(db.amounts)
    requires forall a :: a in db.amounts ==> a.recipe != recipe
    ensures DistinctPairs(entries) && NonNegativeAmounts(entries) ==> BulkCreate(db, recipe, entries).Inserted?
    ensures DistinctPairs(entries) && !NonNegativeAmounts(entries) ==>
      BulkCreate(db, recipe, entries).Broken? && BulkCreate(db, recipe, entries).error == AmountOutOfRange
    ensures !BulkCreate(db, recipe, entries).Skipped?
    ensures BulkCreate(db, recipe, entries).Broken? ==>
      BulkCreate(db, recipe, entries).error in {IngredientConflict, AmountConflict, AmountOutOfRange}
  {
    BulkCreateIngredientsSpec(db, entries);
    var r2 := BulkCreateIngredients(db, entries);
    if r2.Success? {
      var db2 := r2.value;
      assert db2.amounts == db.amounts;
      BulkCreateAmountsSpec(db2, recipe, entries);
      var r3 := BulkCreateAmounts(db2, recipe, entries);
      if r3.Success? {
        assert BulkCreate(db, recipe, entries) == Inserted(r3.value);
      } else {
        assert BulkCreate(db, recipe, entries) == Broken(db2, r3.error);
      }
    } else {
      assert BulkCreate(db, recipe, entries) == Broken(db, IngredientConflict);
    }
  }

  /** Whatever `_bulk_create` does, the store stays valid and only grows. */
  lemma BulkCreateValid(db: Db, recipe: Id, entries: seq<IngredientResult>)
    requires Valid(db) && recipe in db.recipes
    ensures StoreKept(db, entries, BulkCreate(db, recipe, entries).db)
  {
    var r2 := BulkCreateIngredients(db, entries);
    if r2.Success? {
      var db2 := r2.value;
      AfterIngredientsValid(db, entries);
      var r3 := BulkCreateAmounts(db2, recipe, entries);
      if r3.Success? {
        assert BulkCreate(db, recipe, entries) == Inserted(r3.value);
        AfterAmountsValid(db2, recipe, entries);
        StoreKeptTransitive(db, db2, r3.value, entries);
      } else {
        assert BulkCreate(db, recipe, entries) == Broken(db2, r3.error);
      }
    } else {
      assert BulkCreate(db, recipe, entries) == Broken(db, r2.error);
      assert db.amounts[..|db.amounts|] == db.amounts;
    }
  }

  /** After a successful `_bulk_create` every pair is stored and the appended
      rows stand for the entries one by one. */
  lemma BulkCreateRows(db: Db, recipe: Id, entries: seq<IngredientResult>)
    requires Valid(db) && recipe in db.recipes
    requires BulkCreate(db, recipe, entries).Inserted?
    ensures Pairs(entries) <= BulkCreate(db, recipe, entries).db.ingredients.Values
    ensures StartsWith(BulkCreate(db, recipe, entries).db.amounts, db.amounts)
    ensures RowsMatch(BulkCreate(db, recipe, entries).db.ingredients, recipe,
      BulkCreate(db, recipe, entries).db.amounts[|db.amounts|..], entries)
  {
    var db2 := BulkCreateIngredients(db, entries).value;
    AfterIngredientsValid(db, entries);
    BulkCreateAmountsSpec(db2, recipe, entries);
    assert db2.amounts == db.amounts;
  }

  /** A record whose name is free, whose cooking time the CHECK admits and
      whose image downloads is inserted: its recipe row, the missing
      ingredients and one amount row per entry. With distinct pairs and no
      negative amount nothing can fail; a failure leaves the recipe row behind. */
  lemma SaveRecordInsert(db: Db, user: Id, rec: RecipeResult, download: string -> bool, now: int)
    requires Valid(db) && user in db.users
    requires download(rec.image) && !NameTaken(db, rec.name) && rec.cookingTime >= 0
    ensures !SaveRecord(db, user, rec, download, now).Skipped?
    ensures DistinctPairs(rec.ingredients) && NonNegativeAmounts(rec.ingredients) ==>
      SaveRecord(db, user, rec, download, now).Inserted?
    ensures DistinctPairs(rec.ingredients) && !NonNegativeAmounts(rec.ingredients) ==>
      SaveRecord(db, user, rec, download, now).Broken? && SaveRecord(db, user, rec, download, now).error == AmountOutOfRange
    ensures SaveRecord(db, user, rec, download, now).Broken? ==>
      SaveRecord(db, user, rec, download, now).error in {IngredientConflict, AmountConflict, AmountOutOfRange}
    ensures Valid(SaveRecord(db, user, rec, download, now).db)
    ensures Grows(db, SaveRecord(db, user, rec, download, now).db)
    ensures SaveRecord(db, user, rec, download, now).db.recipes == db.recipes[db.nextId := NewRecipe(db, user, rec, now)]
    ensures Checked(db) && WellFormed(rec) ==> Checked(SaveRecord(db, user, rec, download, now).db)
    ensures SaveRecord(db, user, rec, download, now).Inserted? ==>
      RowsMatch(SaveRecord(db, user, rec, download, now).db.ingredients, db.nextId,
        SaveRecord(db, user, rec, download, now).db.amounts[|db.amounts|..], rec.ingredients)
  {
    var db1 := WithRecipe(db, user, rec, now);
    WithRecipeValid(db, user, rec, now);
    var step := BulkCreate(db1, db.nextId, rec.ingredients);
    assert SaveRecord(db, user, rec, download, now) == step;
    BulkCreateOutcome(db1, db.nextId, rec.ingredients);
    BulkCreateValid(db1, db.nextId, rec.ingredients);
    GrowsTransitive(db, db1, step.db);
    if step.Inserted? {
      BulkCreateRows(db1, db.nextId, rec.ingredients);
    }
  }

  /** The ways a record leaves the store as it was: a failed download, and a
      recipe insert that a taken name or a negative cooking time refuses. */
  lemma SaveRecordNoInsert(db: Db, user: Id, rec: RecipeResult, download: string -> bool, now: int)
    ensures !download(rec.image) ==> SaveRecord(db, user, rec, download, now) == Broken(db, ImageFetchFailed(rec.image))
    ensures SaveRecord(db, user, rec, download, now).Skipped? <==>
      download(rec.image) && (NameTaken(db, rec.name) || rec.cookingTime < 0)
  {
  }

  /** An entry whose pair is already stored is linked to the stored row, not to a new one. */
  lemma ReusesStoredIngredient(db: Db, user: Id, rec: RecipeResult, download: string -> bool, now: int, i: int, k: Id)
    requires Valid(db) && user in db.users
    requires download(rec.image) && !NameTaken(db, rec.name) && rec.cookingTime >= 0
    requires DistinctPairs(rec.ingredients) && NonNegativeAmounts(rec.ingredients)
    requires 0 <= i < |rec.ingredients|
    requires k in db.ingredients && db.ingredients[k] == Pair(rec.ingredients[i])
    ensures |db.amounts| + i < |SaveRecord(db, user, rec, download, now).db.amounts|
    ensures SaveRecord(db, user, rec, download, now).db.amounts[|db.amounts| + i].ingredient == k
  {
    SaveRecordInsert(db, user, rec, download, now);
    var db' := SaveRecord(db, user, rec, download, now).db;
    var rows := db'.amounts[|db.amounts|..];
    assert rows[i] == db'.amounts[|db.amounts| + i];
  }

  /** The names of the records whose cooking time the CHECK admits: the
      only ones whose recipe insert can succeed. */
  function BatchNames(recs: seq<RecipeResult>): set<string>
  {
    set r | r in recs && r.cookingTime >= 0 :: r.name
  }

  predicate AllWellFormed(recs: seq<RecipeResult>)
  {
    forall i :: 0 <= i < |recs| ==> WellFormed(recs[i])
  }

  /** No record can break the batch: its image downloads, its pairs are
      distinct and none of its amounts is negative. */
  predicate Insertable(recs: seq<RecipeResult>, download: string -> bool)
  {
    forall i :: 0 <= i < |recs| ==>
      download(recs[i].image) && DistinctPairs(recs[i].ingredients) && NonNegativeAmounts(recs[i].ingredients)
  }

  lemma NamesOfUpdate(db: Db, db': Db, id: Id, r: Recipe)
    requires id !in db.recipes && db'.recipes == db.recipes[id := r]
    ensures RecipeNames(db') == RecipeNames(db) + {r.name}
    ensures |db'.recipes| == |db.recipes| + 1
  {
    assert db'.recipes.Keys == db.recipes.Keys + {id};
    assert forall k :: k in db.recipes ==> db'.recipes[k] == db.recipes[k];
    assert db'.recipes[id] == r;
  }

  lemma NamesAfterInsert(db: Db, user: Id, rec: RecipeResult, download: string -> bool, now: int)
    requires Valid(db) && user in db.users
    requires download(rec.image) && !NameTaken(db, rec.name) && rec.cookingTime >= 0
    ensures RecipeNames(SaveRecord(db, user, rec, download, now).db) == RecipeNames(db) + {rec.name}
    ensures |SaveRecord(db, user, rec, download, now).db.recipes| == |db.recipes| + 1
  {
    SaveRecordInsert(db, user, rec, download, now);
    assert db.nextId !in db.recipes;
    NamesOfUpdate(db, SaveRecord(db, user, rec, download, now).db, db.nextId, NewRecipe(db, user, rec, now));
  }

  /** What the batch loop needs to know about an inserted record. */
  lemma InsertedStep(db: Db, user: Id, rec: RecipeResult, download: string -> bool, now: int, db': Db)
    requires Valid(db) && user in db.users
    requires SaveRecord(db, user, rec, download, now) == Inserted(db')
    ensures Valid(db') && user in db'.users
    ensures rec.name !in RecipeNames(db) && rec.cookingTime >= 0
    ensures RecipeNames(db') == RecipeNames(db) + {rec.name}
    ensures |db'.recipes| == |db.recipes| + 1
  {
    SaveRecordNoInsert(db, user, rec, download, now);
    NamesAfterInsert(db, user, rec, download, now);
    SaveRecordInsert(db, user, rec, download, now);
    NameTakenIn(db, rec.name);
  }

  lemma NameTakenIn(db: Db, name: string)
    ensures NameTaken(db, name) <==> name in RecipeNames(db)
  {
  }

  /** What the loop of `save`, started at `count` on `db` with `recs`, keeps:
      the store stays valid and only grows, the count goes up by one per
      inserted record at most, well-formed records keep the rules, and
      records that can all be inserted never abort the loop. */
  predicate LoopKeeps(db: Db, recs: seq<RecipeResult>, download: string -> bool, count: nat, out: SaveOutcome)
  {
    && Valid(out.db)
    && Grows(db, out.db)
    && count <= out.count <= count + |recs|
    && (Checked(db) && AllWellFormed(recs) ==> Checked(out.db))
    && (Insertable(recs, download) ==> out.Saved?)
  }

  /** What one record does to the store, as the loop needs it: a step that
      changes the store keeps it valid and only grows it, and a record whose
      image downloads, whose pairs are distinct and whose amounts are not
      negative never breaks. */
  lemma SaveRecordKept(db: Db, user: Id, rec: RecipeResult, download: string -> bool, now: int)
    requires Valid(db) && user in db.users
    ensures var step := SaveRecord(db, user, rec, download, now);
      step.Skipped? || (Valid(step.db) && Grows(db, step.db) && (Checked(db) && WellFormed(rec) ==> Checked(step.db)))
    ensures download(rec.image) && DistinctPairs(rec.ingredients) && NonNegativeAmounts(rec.ingredients) ==>
      !SaveRecord(db, user, rec, download, now).Broken?
  {
    SaveRecordNoInsert(db, user, rec, download, now);
    if !download(rec.image) {
      assert db.amounts[..|db.amounts|] == db.amounts;
    } else if !NameTaken(db, rec.name) && rec.cookingTime >= 0 {
      SaveRecordInsert(db, user, rec, download, now);
    }
  }

  /** The loop of `save` keeps `LoopKeeps`. */
  lemma {:induction false} SaveFromValid(db: Db, user: Id, recs: seq<RecipeResult>, download: string -> bool, now: int, count: nat)
    requires Valid(db) && user in db.users
    ensures LoopKeeps(db, recs, download, count, SaveFrom(db, user, recs, download, now, count))
    decreases |recs|, 1
  {
    if |recs| == 0 {
      assert db.amounts[..|db.amounts|] == db.amounts;
    } else {
      var step := SaveRecord(db, user, recs[0], download, now);
      if step.Skipped? {
        SaveFromValidSkipped(db, user, recs, download, now, count);
      } else if step.Inserted? {
        SaveFromValidInserted(db, user, recs, download, now, count);
      } else {
        SaveFromValidBroken(db, user, recs, download, now, count);
      }
    }
  }

  /** The first record's name is taken: the loop goes on from the same store. */
  lemma {:induction false} SaveFromValidSkipped(db: Db, user: Id, recs: seq<RecipeResult>, download: string -> bool, now: int, count: nat)
    requires Valid(db) && user in db.users && |recs| > 0
    requires SaveRecord(db, user, recs[0], download, now).Skipped?
    ensures LoopKeeps(db, recs, download, count, SaveFrom(db, user, recs, download, now, count))
    decreases |recs|, 0
  {
    var rest := recs[1..];
    SaveFromStep(db, user, recs, download, now, count);
    assert AllWellFormed(recs) ==> AllWellFormed(rest);
    assert Insertable(recs, download) ==> Insertable(rest, download);
    SaveFromValid(db, user, rest, download, now, count);
  }

  /** The first record is inserted: the loop goes on from the new store. */
  lemma {:induction false} SaveFromValidInserted(db: Db, user: Id, recs: seq<RecipeResult>, download: string -> bool, now: int, count: nat)
    requires Valid(db) && user in db.users && |recs| > 0
    requires SaveRecord(db, user, recs[0], download, now).Inserted?
    ensures LoopKeeps(db, recs, download, count, SaveFrom(db, user, recs, download, now, count))
    decreases |recs|, 0
  {
    var rec := recs[0];
    var rest := recs[1..];
    var db' := SaveRecord(db, user, rec, download, now).db;
    SaveFromStep(db, user, recs, download, now, count);
    SaveRecordKept(db, user, rec, download, now);
    SaveFromValid(db', user, rest, download, now, count + 1);
    LoopKeepsCons(db, db', recs, download, count, SaveFrom(db', user, rest, download, now, count + 1));
  }

  /** An inserted first record followed by a loop over the rest that keeps
      `LoopKeeps` from the new store keeps it from the old one. */
  lemma LoopKeepsCons(db: Db, db': Db, recs: seq<RecipeResult>, download: string -> bool, count: nat, out: SaveOutcome)
    requires |recs| > 0 && Grows(db, db') && (Checked(db) && WellFormed(recs[0]) ==> Checked(db'))
    requires LoopKeeps(db', recs[1..], download, count + 1, out)
    ensures LoopKeeps(db, recs, download, count, out)
  {
    assert AllWellFormed(recs) ==> AllWellFormed(recs[1..]) && WellFormed(recs[0]);
    assert Insertable(recs, download) ==> Insertable(recs[1..], download);
    GrowsTransitive(db, db', out.db);
  }

  /** The first record breaks: the loop stops with the store as the step left it. */
  lemma SaveFromValidBroken(db: Db, user: Id, recs: seq<RecipeResult>, download: string -> bool, now: int, count: nat)
    requires Valid(db) && user in db.users && |recs| > 0
    requires SaveRecord(db, user, recs[0], download, now).Broken?
    ensures LoopKeeps(db, recs, download, count, SaveFrom(db, user, recs, download, now, count))
  {
    var rec := recs[0];
    SaveFromStep(db, user, recs, download, now, count);
    SaveRecordKept(db, user, rec, download, now);
    assert AllWellFormed(recs) ==> WellFormed(rec);
    assert Insertable(recs, download) ==>
      download(rec.image) && DistinctPairs(rec.ingredients) && NonNegativeAmounts(rec.ingredients);
  }

  /** The batch result `out`, started at `count` on `db`, created exactly the
      records whose names in `names` were not stored yet, and nothing else. */
  predicate Accounted(db: Db, names: set<string>, count: nat, out: SaveOutcome)
  {
    && out.count >= count
    && out.count - count == |names - RecipeNames(db)|
    && RecipeNames(out.db) == RecipeNames(db) + names
    && |out.db.recipes| == |db.recipes| + out.count - count
    && (out.count == count ==> out.db == db)
  }

  lemma SkipNames(names: set<string>, x: string, rest: set<string>)
    requires x in names
    ensures ({x} + rest) - names == rest - names
    ensures names + ({x} + rest) == names + rest
  {
  }

  lemma InsertNames(names: set<string>, names': set<string>, x: string, rest: set<string>)
    requires x !in names && names' == names + {x}
    ensures |({x} + rest) - names| == |rest - names'| + 1
    ensures names' + rest == names + ({x} + rest)
  {
    var before := rest - names';
    assert ({x} + rest) - names == {x} + before;
    assert x !in before;
  }

  lemma AccountedSkip(db: Db, x: string, rest: set<string>, count: nat, out: SaveOutcome)
    requires x in RecipeNames(db) && Accounted(db, rest, count, out)
    ensures Accounted(db, {x} + rest, count, out)
  {
    SkipNames(RecipeNames(db), x, rest);
  }

  lemma AccountedInsert(db: Db, db': Db, x: string, rest: set<string>, count: nat, out: SaveOutcome)
    requires x !in RecipeNames(db) && RecipeNames(db') == RecipeNames(db) + {x}
    requires |db'.recipes| == |db.recipes| + 1
    requires Accounted(db', rest, count + 1, out)
    ensures Accounted(db, {x} + rest, count, out)
  {
    InsertNames(RecipeNames(db), RecipeNames(db'), x, rest);
  }

  /** When the loop completes, the created count is the number of distinct
      record names that were not stored yet, those names are now stored, and
      a count of zero means the store was not touched. */
  lemma {:induction false} SaveFromCount(db: Db, user: Id, recs: seq<RecipeResult>, download: string -> bool, now: int, count: nat)
    requires Valid(db) && user in db.users
    requires SaveFrom(db, user, recs, download, now, count).Saved?
    ensures Accounted(db, BatchNames(recs), count, SaveFrom(db, user, recs, download, now, count))
    decreases |recs|, 1
  {
    if |recs| == 0 {
      SaveFromCountEmpty(db, user, recs, download, now, count);
    } else if SaveRecord(db, user, recs[0], download, now).Skipped? {
      SaveFromCountSkipped(db, user, recs, download, now, count);
    } else {
      SaveFromCountInserted(db, user, recs, download, now, count);
    }
  }

  lemma SaveFromCountEmpty(db: Db, user: Id, recs: seq<RecipeResult>, download: string -> bool, now: int, count: nat)
    requires |recs| == 0
    ensures Accounted(db, BatchNames(recs), count, SaveFrom(db, user, recs, download, now, count))
  {
    assert BatchNames(recs) == {};
    assert RecipeNames(db) + BatchNames(recs) == RecipeNames(db);
  }

  /** One turn of the loop in `save`: a broken step aborts it, an inserted one
      continues on the new store with the count one higher. */
  lemma SaveFromStep(db: Db, user: Id, recs: seq<RecipeResult>, download: string -> bool, now: int, count: nat)
    requires |recs| > 0
    ensures SaveRecord(db, user, recs[0], download, now).Broken? ==>
      SaveFrom(db, user, recs, download, now, count)
        == Aborted(SaveRecord(db, user, recs[0], download, now).db, count, SaveRecord(db, user, recs[0], download, now).error)
    ensures SaveRecord(db, user, recs[0], download, now).Skipped? ==>
      SaveFrom(db, user, recs, download, now, count) == SaveFrom(db, user, recs[1..], download, now, count)
    ensures SaveRecord(db, user, recs[0], download, now).Inserted? ==>
      SaveFrom(db, user, recs, download, now, count)
        == SaveFrom(SaveRecord(db, user, recs[0], download, now).db, user, recs[1..], download, now, count + 1)
  {
  }

  lemma BatchNamesCons(recs: seq<RecipeResult>)
    requires |recs| > 0
    ensures recs[0].cookingTime >= 0 ==> BatchNames(recs) == {recs[0].name} + BatchNames(recs[1..])
    ensures recs[0].cookingTime < 0 ==> BatchNames(recs) == BatchNames(recs[1..])
  {
    assert recs == [recs[0]] + recs[1..];
  }

  /** `SaveFromCount` for a first record that is skipped. */
  lemma {:induction false} SaveFromCountSkipped(db: Db, user: Id, recs: seq<RecipeResult>, download: string -> bool, now: int, count: nat)
    requires Valid(db) && user in db.users && |recs| > 0
    requires SaveRecord(db, user, recs[0], download, now).Skipped?
    requires SaveFrom(db, user, recs, download, now, count).Saved?
    ensures Accounted(db, BatchNames(recs), count, SaveFrom(db, user, recs, download, now, count))
    decreases |recs|, 0
  {
    var rec := recs[0];
    var out := SaveFrom(db, user, recs[1..], download, now, count);
    assert SaveFrom(db, user, recs, download, now, count) == out;
    BatchNamesCons(recs);
    SaveRecordNoInsert(db, user, rec, download, now);
    NameTakenIn(db, rec.name);
    SaveFromCount(db, user, recs[1..], download, now, count);
    if rec.cookingTime >= 0 {
      AccountedSkip(db, rec.name, BatchNames(recs[1..]), count, out);
    }
  }

  /** `SaveFromCount` for a first record that is not skipped: since the loop
      completed, it was inserted. */
  lemma {:induction false} SaveFromCountInserted(db: Db, user: Id, recs: seq<RecipeResult>, download: string -> bool, now: int, count: nat)
    requires Valid(db) && user in db.users && |recs| > 0
    requires !SaveRecord(db, user, recs[0], download, now).Skipped?
    requires SaveFrom(db, user, recs, download, now, count).Saved?
    ensures Accounted(db, BatchNames(recs), count, SaveFrom(db, user, recs, download, now, count))
    decreases |recs|, 0
  {
    var rec := recs[0];
    var step := SaveRecord(db, user, rec, download, now);
    SaveFromStep(db, user, recs, download, now, count);
    var db' := step.db;
    var out := SaveFrom(db', user, recs[1..], download, now, count + 1);
    BatchNamesCons(recs);
    InsertedStep(db, user, rec, download, now, db');
    SaveFromCount(db', user, recs[1..], download, now, count + 1);
    AccountedInsert(db, db', rec.name, BatchNames(recs[1..]), count, out);
  }

  /** No step of the import touches the tag table. */
  lemma SaveRecordKeepsTags(db: Db, user: Id, rec: RecipeResult, download: string -> bool, now: int)
    ensures var step := SaveRecord(db, user, rec, download, now);
      step.Skipped? || step.db.tags == db.tags
  {
    if download(rec.image) && !NameTaken(db, rec.name) && rec.cookingTime >= 0 {
      var db1 := WithRecipe(db, user, rec, now);
      BulkCreateKeepsTags(db1, db.nextId, rec.ingredients);
    }
  }

  lemma BulkCreateKeepsTags(db: Db, recipe: Id, entries: seq<IngredientResult>)
    ensures BulkCreate(db, recipe, entries).db.tags == db.tags
  {
    var r1 := BulkCreateIngredients(db, entries);
    if r1.Success? {
      assert r1.value.tags == db.tags;
      var r2 := BulkCreateAmounts(r1.value, recipe, entries);
      assert r2.Success? ==> r2.value.tags == db.tags;
    }
  }

  lemma {:induction false} SaveFromKeepsTags(db: Db, user: Id, recs: seq<RecipeResult>, download: string -> bool, now: int, count: nat)
    ensures SaveFrom(db, user, recs, download, now, count).db.tags == db.tags
    decreases |recs|
  {
    if |recs| > 0 {
      var step := SaveRecord(db, user, recs[0], download, now);
      SaveFromStep(db, user, recs, download, now, count);
      SaveRecordKeepsTags(db, user, recs[0], download, now);
      if step.Skipped? {
        SaveFromKeepsTags(db, user, recs[1..], download, now, count);
      } else if step.Inserted? {
        SaveFromKeepsTags(step.db, user, recs[1..], download, now, count + 1);
      }
    }
  }

  /** The import leaves the tag table as it was, whatever the store holds. */
  lemma SaveKeepsTags(db: Db, recs: seq<RecipeResult>, download: string -> bool, now: int)
    ensures Save(db, recs, download, now).db.tags == db.tags
  {
    if ImportUser(db).Success? {
      SaveFromKeepsTags(db, ImportUser(db).value, recs, download, now, 0);
    }
  }

  /** `RecipeSaver.save`: without exactly one superuser nothing is written;
      otherwise the store stays valid and the count is the number of distinct
      new recipe names, zero meaning the store was not touched. */
  lemma SaveSpec(db: Db, recs: seq<RecipeResult>, download: string -> bool, now: int)
    requires Valid(db)
    ensures |Superusers(db)| != 1 ==> Save(db, recs, download, now) == Aborted(db, 0, ImportUser(db).error)
    ensures Valid(Save(db, recs, download, now).db) && Grows(db, Save(db, recs, download, now).db)
    ensures Save(db, recs, download, now).count <= |recs|
    ensures Checked(db) && AllWellFormed(recs) ==> Checked(Save(db, recs, download, now).db)
    ensures |Superusers(db)| == 1 && Insertable(recs, download) ==> Save(db, recs, download, now).Saved?
    ensures Save(db, recs, download, now).Saved? ==>
      && Save(db, recs, download, now).count == |BatchNames(recs) - RecipeNames(db)|
      && RecipeNames(Save(db, recs, download, now).db) == RecipeNames(db) + BatchNames(recs)
      && |Save(db, recs, download, now).db.recipes| == |db.recipes| + Save(db, recs, download, now).count
    ensures Save(db, recs, download, now) == Saved(Save(db, recs, download, now).db, 0) ==>
      Save(db, recs, download, now).db == db
  {
    ImportUserExact(db);
    match ImportUser(db)
    case Failure(err) =>
      assert db.amounts[..|db.amounts|] == db.amounts;
    case Success(user) =>
      assert user in Superusers(db);
      SaveFromValid(db, user, recs, download, now, 0);
      if SaveFrom(db, user, recs, download, now, 0).Saved? {
        SaveFromCount(db, user, recs, download, now, 0);
      }
  }

  /** Once a name is stored, a record with that name is skipped against any
      later state of the store. */
  lemma StoredNameSkipped(db: Db, d: Db, user: Id, rec: RecipeResult, download: string -> bool, now: int)
    requires Grows(db, d) && rec.name in RecipeNames(db) && download(rec.image)
    ensures SaveRecord(d, user, rec, download, now) == Skipped
  {
    var k :| k in db.recipes && db.recipes[k].name == rec.name;
    assert k in d.recipes && d.recipes[k] == db.recipes[k];
    assert NameTaken(d, rec.name);
  }

  lemma SaveCounts(db: Db, recs: seq<RecipeResult>, download: string -> bool, now: int)
    requires Valid(db) && |Superusers(db)| == 1 && Insertable(recs, download)
    ensures Save(db, recs, download, now).Saved?
    ensures Save(db, recs, download, now).count == |BatchNames(recs) - RecipeNames(db)|
  {
    SaveSpec(db, recs, download, now);
  }

  lemma ThreeNames(recs: seq<RecipeResult>)
    requires |recs| == 3 && recs[0].cookingTime >= 0 && recs[2].cookingTime >= 0
    ensures {recs[0].name, recs[2].name} <= BatchNames(recs) <= {recs[0].name, recs[1].name, recs[2].name}
  {
    assert forall r :: r in recs <==> r == recs[0] || r == recs[1] || r == recs[2];
  }

  lemma TwoNewNames(recs: seq<RecipeResult>, stored: set<string>)
    requires |recs| == 3 && recs[0].cookingTime >= 0 && recs[2].cookingTime >= 0
    requires recs[0].name != recs[2].name && recs[1].name in stored
    requires recs[0].name !in stored && recs[2].name !in stored
    ensures |BatchNames(recs) - stored| == 2
  {
    ThreeNames(recs);
    var created := BatchNames(recs) - stored;
    assert created == {recs[0].name, recs[2].name};
  }

  /** A batch of three records whose second name is already stored creates two
      recipes (the second record is skipped, by `StoredNameSkipped`). */
  lemma ImportScenario(db: Db, recs: seq<RecipeResult>, download: string -> bool, now: int)
    requires Valid(db) && |Superusers(db)| == 1
    requires |recs| == 3 && Insertable(recs, download)
    requires recs[0].cookingTime >= 0 && recs[2].cookingTime >= 0
    requires recs[0].name != recs[2].name
    requires recs[1].name in RecipeNames(db)
    requires recs[0].name !in RecipeNames(db) && recs[2].name !in RecipeNames(db)
    ensures Save(db, recs, download, now).Saved?
    ensures Save(db, recs, download, now).count == 2
  {
    SaveCounts(db, recs, download, now);
    TwoNewNames(recs, RecipeNames(db));
  }

  /** A record with a free name but a negative `readyInMinutes` fails the
      CHECK on the recipe insert and is skipped: nothing is created and the
      store is left as it was. */
  lemma NegativeTimeScenario(db: Db, rec: RecipeResult, download: string -> bool, now: int)
    requires Valid(db) && |Superusers(db)| == 1 && Insertable([rec], download)
    requires rec.cookingTime < 0 && rec.name !in RecipeNames(db)
    ensures Save(db, [rec], download, now) == Saved(db, 0)
  {
    SaveCounts(db, [rec], download, now);
    assert BatchNames([rec]) == {};
    SaveSpec(db, [rec], download, now);
  }
}
