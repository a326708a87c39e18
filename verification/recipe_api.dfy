/** Recipe create and update through the API (`RecipeSerializer` in
    backend/api/serializers/recipes.py with the nested
    `CreateIngredientAmountSerializer` of backend/api/serializers/ingredients.py).
    Both methods run under `transaction.atomic`, so every failure returns the
    store unchanged. */
module RecipeApi {
  import opened Wrappers
  import opened Seqs
  import opened Store

  /** One submitted `{id, amount}` entry. */
  datatype EntryInput = EntryInput(id: Id, amount: int)

  /** The request body after JSON decoding; the image is already decoded. */
  datatype RecipeInput = RecipeInput(
    name: string,
    image: string,
    text: string,
    cookingTime: int,
    tags: seq<Id>,
    ingredients: seq<EntryInput>)

  datatype Invalid = NotPositive

  /** A field error of the serializer. Every field is validated and all
      failing fields are reported at once; within the nested ingredient list
      every failing entry is reported, while the tag list stops at its first
      unknown key. */
  datatype FieldError =
    | BlankName                          // CharField with allow_blank=False
    | NameTooLong                        // max_length=256, after trimming
    | BlankText                          // TextField with blank=False
    | CookingTime(cause: Invalid)
    | BadAmount(index: nat, cause: Invalid)
    | UnknownIngredient(index: nat)      // PrimaryKeyRelatedField: no such Ingredient
    | UnknownTag(tag: Id)                // PrimaryKeyRelatedField: no such Tag

  datatype ApiError =
    | Rejected(errors: set<FieldError>)  // 400 with the field errors
    | NameConflict                       // unique_recipe_name
    | DuplicateIngredient                // unique_ingredient_amount in bulk_create
    | NotFound                           // update of a missing recipe (404)

  /** `max_length` of `Recipe.name`. */
  const MaxNameLength := 256

  // ---------------------------------------------------------------------------
  // Text fields: DRF's CharField trims with Python's `str.strip()`

  /** The characters Python's `str.isspace` accepts, which `str.strip()`
      removes from both ends. */
  predicate IsSpace(c: char)
  {
    var n := c as int;
    || n == 0x20 || 0x09 <= n <= 0x0D || 0x1C <= n <= 0x1F || n == 0x85 || n == 0xA0
    || n == 0x1680 || 0x2000 <= n <= 0x200A || n == 0x2028 || n == 0x2029
    || n == 0x202F || n == 0x205F || n == 0x3000
  }

  /** `s` without its leading whitespace. */
  function TrimLeft(s: string): (r: string)
    ensures |r| <= |s|
  {
    if s == [] || !IsSpace(s[0]) then s else TrimLeft(s[1..])
  }

  /** `s` without its trailing whitespace. */
  function TrimRight(s: string): (r: string)
    ensures |r| <= |s|
  {
    if s == [] || !IsSpace(s[|s| - 1]) then s else TrimRight(s[..|s| - 1])
  }

  /** `str.strip()`: the value a trimming CharField validates and stores. */
  function Strip(s: string): string
  {
    TrimRight(TrimLeft(s))
  }

  /** TrimLeft drops exactly the leading whitespace: what it keeps is a
      suffix that does not start with whitespace. */
  lemma {:induction false} TrimLeftSpec(s: string)
    ensures var r := TrimLeft(s);
      && r == s[|s| - |r|..]
      && (forall k :: 0 <= k < |s| - |r| ==> IsSpace(s[k]))
      && (r == [] || !IsSpace(r[0]))
  {
    if s != [] && IsSpace(s[0]) {
      TrimLeftSpec(s[1..]);
      var r := TrimLeft(s);
      forall k | 0 <= k < |s| - |r|
        ensures IsSpace(s[k])
      {
        if k > 0 {
          assert s[k] == s[1..][k - 1];
        }
      }
    }
  }

  /** TrimRight drops exactly the trailing whitespace: what it keeps is a
      prefix that does not end with whitespace. */
  lemma {:induction false} TrimRightSpec(s: string)
    ensures var r := TrimRight(s);
      && r == s[..|r|]
      && (forall k :: |r| <= k < |s| ==> IsSpace(s[k]))
      && (r == [] || !IsSpace(r[|r| - 1]))
  {
    if s != [] && IsSpace(s[|s| - 1]) {
      TrimRightSpec(s[..|s| - 1]);
      var r := TrimRight(s);
      forall k | |r| <= k < |s|
        ensures IsSpace(s[k])
      {
        if k < |s| - 1 {
          assert s[k] == s[..|s| - 1][k];
        }
      }
    }
  }

  /** The stripped value neither starts nor ends with whitespace. */
  lemma StripEnds(s: string)
    ensures Strip(s) == [] || (!IsSpace(Strip(s)[0]) && !IsSpace(Strip(s)[|Strip(s)| - 1]))
  {
    var l := TrimLeft(s);
    var r := TrimRight(l);
    TrimLeftSpec(s);
    TrimRightSpec(l);
    if r != [] {
      assert r[0] == l[0];
    }
  }

  /** Stripping twice is stripping once, so a stored value passes again
      unchanged. */
  lemma {:induction false} StripIdempotent(s: string)
    ensures Strip(Strip(s)) == Strip(s)
  {
    var r := Strip(s);
    StripEnds(s);
    assert TrimLeft(r) == r;
    if r != [] {
      assert TrimRight(r) == r;
    }
  }

  /** A text field is blank when nothing but whitespace is left: DRF's
      `data == '' or str(data).strip() == ''`. */
  predicate Blank(s: string)
  {
    Strip(s) == []
  }

  /** The errors of the `name` field: a blank value fails alone, otherwise
      the trimmed value is checked against `max_length`. */
  function NameErrors(name: string): (e: set<FieldError>)
    ensures e == {} <==> !Blank(name) && |Strip(name)| <= MaxNameLength
    ensures e <= {BlankName, NameTooLong}
    ensures Blank(name) ==> e == {BlankName}
  {
    if Blank(name) then {BlankName}
    else if |Strip(name)| > MaxNameLength then {NameTooLong}
    else {}
  }

  /** The errors of the `text` field: only blankness, as a TextField has no
      length bound. */
  function TextErrors(text: string): (e: set<FieldError>)
    ensures e == {} <==> !Blank(text)
    ensures e <= {BlankText}
  {
    if Blank(text) then {BlankText} else {}
  }

  /** `ManyRelatedField.to_internal_value`: the tag keys are looked up in
      submission order and the first missing one raises. */
  function FirstUnknownTag(db: Db, tags: seq<Id>): (r: Option<Id>)
    ensures r.None? <==> forall t :: t in tags ==> t in db.tags
    ensures r.Some? ==> exists i :: (0 <= i < |tags| && tags[i] == r.value && r.value !in db.tags
      && forall j :: 0 <= j < i ==> tags[j] in db.tags)
  {
    if tags == [] then None
    else if tags[0] !in db.tags then Some(tags[0])
    else
      var r := FirstUnknownTag(db, tags[1..]);
      if r.Some? then
        var i :| (0 <= i < |tags[1..]| && tags[1..][i] == r.value && r.value !in db.tags
          && forall j :: 0 <= j < i ==> tags[1..][j] in db.tags);
        assert tags[i + 1] == r.value;
        r
      else r
  }

  /** `validate_cooking_time`: a value at most 0 is rejected, any other passes unchanged. */
  function ValidateCookingTime(value: int): (r: Result<int, Invalid>)
    ensures r.Success? <==> value >= 1
    ensures r.Success? ==> r.value == value
  {
    if value <= 0 then Failure(NotPositive) else Success(value)
  }

  /** `validate_amount` of an ingredient entry: the same rule. */
  function ValidateAmount(value: int): (r: Result<int, Invalid>)
    ensures r.Success? <==> value >= 1
    ensures r.Success? ==> r.value == value
  {
    if value <= 0 then Failure(NotPositive) else Success(value)
  }

  /** The errors of the nested ingredient list: the list serializer
      validates every entry and reports each failing one by position. */
  function EntryErrors(db: Db, entries: seq<EntryInput>): (e: set<FieldError>)
    ensures e == {} <==> forall i :: 0 <= i < |entries| ==> entries[i].id in db.ingredients && entries[i].amount >= 1
    ensures forall i :: 0 <= i < |entries| && entries[i].id !in db.ingredients ==> UnknownIngredient(i) in e
    ensures forall i :: 0 <= i < |entries| && entries[i].amount < 1 ==> BadAmount(i, NotPositive) in e
    ensures forall f :: f in e ==> f.UnknownIngredient? || f.BadAmount?
  {
    var e := (set i: nat | i < |entries| && entries[i].id !in db.ingredients :: UnknownIngredient(i))
      + (set i: nat | i < |entries| && ValidateAmount(entries[i].amount).Failure? :: BadAmount(i, NotPositive));
    if exists i :: 0 <= i < |entries| && entries[i].id !in db.ingredients then
      var i :| 0 <= i < |entries| && entries[i].id !in db.ingredients;
      assert UnknownIngredient(i) in e;
      e
    else if exists i :: 0 <= i < |entries| && entries[i].amount < 1 then
      var i :| 0 <= i < |entries| && entries[i].amount < 1;
      assert BadAmount(i, NotPositive) in e;
      e
    else e
  }

  function TagErrors(db: Db, tags: seq<Id>): (e: set<FieldError>)
    ensures e == {} <==> forall t :: t in tags ==> t in db.tags
    ensures forall t, u :: UnknownTag(t) in e && UnknownTag(u) in e ==> t == u
  {
    match FirstUnknownTag(db, tags)
    case Some(t) => {UnknownTag(t)}
    case None => {}
  }

  /** Validation passes exactly on acceptable input, and at most one tag is
      ever reported: the first unknown one. */
  function FieldErrors(db: Db, input: RecipeInput): (e: set<FieldError>)
    ensures e == {} <==> Acceptable(db, input)
    ensures forall t, u :: UnknownTag(t) in e && UnknownTag(u) in e ==> t == u
  {
    var name := NameErrors(input.name);
    var text := TextErrors(input.text);
    var time := if ValidateCookingTime(input.cookingTime).Failure? then {CookingTime(NotPositive)} else {};
    var entries := EntryErrors(db, input.ingredients);
    var tags := TagErrors(db, input.tags);
    assert forall t :: UnknownTag(t) in name + text + time + entries + tags ==> UnknownTag(t) in tags;
    name + text + time + entries + tags
  }

  /** The input as the serializer accepts it. */
  predicate Acceptable(db: Db, input: RecipeInput)
  {
    && !Blank(input.name) && |Strip(input.name)| <= MaxNameLength
    && !Blank(input.text)
    && input.cookingTime >= 1
    && (forall i :: 0 <= i < |input.ingredients| ==>
          input.ingredients[i].id in db.ingredients && input.ingredients[i].amount >= 1)
    && (forall t :: t in input.tags ==> t in db.tags)
  }

  function EntryId(e: EntryInput): Id
  {
    e.id
  }

  /** `bulk_create`: one IngredientAmount per entry, in order. */
  function AmountRows(recipe: Id, entries: seq<EntryInput>): (rows: seq<Amount>)
    ensures |rows| == |entries|
    ensures forall i :: 0 <= i < |rows| ==> rows[i] == Amount(recipe, entries[i].id, entries[i].amount)
  {
    seq(|entries|, i requires 0 <= i < |entries| => Amount(recipe, entries[i].id, entries[i].amount))
  }

  /** The IngredientAmount rows of one recipe. */
  function RowsOf(db: Db, recipe: Id): seq<Amount>
  {
    Filter(db.amounts, (a: Amount) => a.recipe == recipe)
  }

  function TagSet(tags: seq<Id>): set<Id>
  {
    set t | t in tags
  }

  /** Another recipe than `id` already has this name. */
  predicate NameTakenByOther(db: Db, id: Id, name: string)
  {
    exists k :: k in db.recipes && k != id && db.recipes[k].name == name
  }

  /** `RecipeSerializer.create`: a recipe by `author`, dated `now`, with the
      submitted tags and one amount row per submitted entry. */
  function CreateRecipe(db: Db, author: Id, input: RecipeInput, now: int): (r: (Db, Result<Id, ApiError>))
    ensures r.1.Failure? ==> r.0 == db
    ensures r.1.Success? <==>
      FieldErrors(db, input) == {} && !NameTaken(db, Strip(input.name)) && DistinctBy(input.ingredients, EntryId)
    ensures FieldErrors(db, input) != {} ==> r.1 == Failure(Rejected(FieldErrors(db, input)))
    ensures FieldErrors(db, input) == {} && NameTaken(db, Strip(input.name)) ==> r.1 == Failure(NameConflict)
    ensures r.1.Success? ==>
      var id := r.1.value;
      && id == db.nextId && r.0.nextId == id + 1
      && r.0.recipes.Keys == db.recipes.Keys + {id}
      && (forall k :: k in db.recipes && k != id ==> r.0.recipes[k] == db.recipes[k])
      && r.0.recipes[id] == Recipe(author, Strip(input.name), input.image, Strip(input.text), input.cookingTime, now, TagSet(input.tags))
      && r.0.amounts == db.amounts + AmountRows(id, input.ingredients)
      && r.0.users == db.users && r.0.ingredients == db.ingredients && r.0.tags == db.tags
      && r.0.favorites == db.favorites && r.0.carts == db.carts && r.0.follows == db.follows
  {
    var errors := FieldErrors(db, input);
    if errors != {} then (db, Failure(Rejected(errors)))
    else if NameTaken(db, Strip(input.name)) then (db, Failure(NameConflict))
    else if !DistinctBy(input.ingredients, EntryId) then (db, Failure(DuplicateIngredient))
    else
      var id := db.nextId;
      var recipe := Recipe(author, Strip(input.name), input.image, Strip(input.text), input.cookingTime, now, TagSet(input.tags));
      (db.(recipes := db.recipes[id := recipe],
           amounts := db.amounts + AmountRows(id, input.ingredients),
           nextId := id + 1),
       Success(id))
  }

  /** `RecipeSerializer.update`: the recipe's amount rows are replaced by the
      submitted ones and its tags by the submitted set; author and date stay.
      The amount rows are written before the recipe row, so duplicate
      ingredients are reported ahead of a name conflict; a create writes the
      recipe row first, so there the name conflict comes first. */
  function UpdateRecipe(db: Db, id: Id, input: RecipeInput): (r: (Db, Result<Id, ApiError>))
    ensures r.1.Failure? ==> r.0 == db
    ensures id !in db.recipes ==> r.1 == Failure(NotFound)
    ensures id in db.recipes && FieldErrors(db, input) == {} && !DistinctBy(input.ingredients, EntryId) ==>
      r.1 == Failure(DuplicateIngredient)
    ensures r.1.Success? <==>
      && id in db.recipes && FieldErrors(db, input) == {}
      && !NameTakenByOther(db, id, Strip(input.name)) && DistinctBy(input.ingredients, EntryId)
    ensures r.1.Success? ==>
      && r.1.value == id
      && r.0.recipes.Keys == db.recipes.Keys
      && (forall k :: k in db.recipes && k != id ==> r.0.recipes[k] == db.recipes[k])
      && r.0.recipes[id] == Recipe(db.recipes[id].author, Strip(input.name), input.image, Strip(input.text),
                                   input.cookingTime, db.recipes[id].pubDate, TagSet(input.tags))
      && r.0.users == db.users && r.0.ingredients == db.ingredients && r.0.tags == db.tags
      && r.0.favorites == db.favorites && r.0.carts == db.carts && r.0.follows == db.follows
      && r.0.nextId == db.nextId
  {
    if id !in db.recipes then (db, Failure(NotFound))
    else
      var errors := FieldErrors(db, input);
      if errors != {} then (db, Failure(Rejected(errors)))
      else if !DistinctBy(input.ingredients, EntryId) then (db, Failure(DuplicateIngredient))
      else if NameTakenByOther(db, id, Strip(input.name)) then (db, Failure(NameConflict))
      else
        (Replace(db, id, input), Success(id))
  }

  /** What an accepted update writes: the recipe's own fields and tag set,
      and its amount rows replaced by the submitted ones. */
  function Replace(db: Db, id: Id, input: RecipeInput): Db
    requires id in db.recipes
  {
    var recipe := db.recipes[id].(name := Strip(input.name), image := input.image, text := Strip(input.text),
                                  cookingTime := input.cookingTime, tags := TagSet(input.tags));
    db.(recipes := db.recipes[id := recipe],
        amounts := Filter(db.amounts, (a: Amount) => a.recipe != id) + AmountRows(id, input.ingredients))
  }

  // ---------------------------------------------------------------------------
  // What create and update leave in the store

  /** After a create the new recipe's amount rows are exactly the submitted
      entries, in order, and no other recipe's rows change. */
  lemma CreateRecipeRows(db: Db, author: Id, input: RecipeInput, now: int)
    requires Valid(db)
    ensures var r := CreateRecipe(db, author, input, now);
      r.1.Success? ==>
        && RowsOf(r.0, r.1.value) == AmountRows(r.1.value, input.ingredients)
        && forall k :: k != r.1.value ==> RowsOf(r.0, k) == RowsOf(db, k)
  {
    var r := CreateRecipe(db, author, input, now);
    if r.1.Success? {
      RowsOfAppended(db, r.0, db.nextId, AmountRows(db.nextId, input.ingredients));
    }
  }

  /** Rows of a fresh recipe appended after rows of other recipes: the fresh
      recipe's rows are exactly the appended ones, every other recipe's rows
      are those it had. */
  lemma RowsOfAppended(db: Db, d: Db, id: Id, rows: seq<Amount>)
    requires forall i :: 0 <= i < |db.amounts| ==> db.amounts[i].recipe != id
    requires forall i :: 0 <= i < |rows| ==> rows[i].recipe == id
    requires d.amounts == db.amounts + rows
    ensures RowsOf(d, id) == rows
    ensures forall k :: k != id ==> RowsOf(d, k) == RowsOf(db, k)
  {
    FilterAppend(db.amounts, rows, (a: Amount) => a.recipe == id);
    FilterDropsAll(db.amounts, (a: Amount) => a.recipe == id);
    FilterKeepsAll(rows, (a: Amount) => a.recipe == id);
    forall k | k != id
      ensures RowsOf(d, k) == RowsOf(db, k)
    {
      FilterAppend(db.amounts, rows, (a: Amount) => a.recipe == k);
      FilterDropsAll(rows, (a: Amount) => a.recipe == k);
    }
  }

  /** The submitted entries carry distinct ingredients, so their rows meet
      the (ingredient, recipe) constraint. */
  lemma AmountRowsDistinct(id: Id, entries: seq<EntryInput>)
    requires DistinctBy(entries, EntryId)
    ensures UniqueAmounts(AmountRows(id, entries))
  {
    var rows := AmountRows(id, entries);
    forall i, j | 0 <= i < |rows| && 0 <= j < |rows| && i != j
      ensures AmountKey(rows[i]) != AmountKey(rows[j])
    {
      assert EntryId(entries[i]) != EntryId(entries[j]);
    }
  }

  /** A successful create by an existing user keeps every constraint and rule. */
  lemma CreateRecipeValid(db: Db, author: Id, input: RecipeInput, now: int)
    requires Valid(db) && Checked(db) && author in db.users
    ensures Valid(CreateRecipe(db, author, input, now).0)
    ensures Checked(CreateRecipe(db, author, input, now).0)
  {
    var r := CreateRecipe(db, author, input, now);
    if r.1.Success? {
      var id := r.1.value;
      var rows := AmountRows(id, input.ingredients);
      AmountRowsDistinct(id, input.ingredients);
      AppendDistinct(db.amounts, rows, AmountKey);
      AddRecipeRowsValid(db, r.0.recipes[id], rows);
    }
  }

  /** Deleting a recipe just created gives back the store it was created
      in, with only the id counter advanced. */
  lemma CreateThenDelete(db: Db, author: Id, input: RecipeInput, now: int)
    requires Valid(db)
    ensures var r := CreateRecipe(db, author, input, now);
      r.1.Success? ==> DeleteRecipe(r.0, r.1.value) == db.(nextId := db.nextId + 1)
  {
    var r := CreateRecipe(db, author, input, now);
    if r.1.Success? {
      var id := r.1.value;
      assert id !in db.recipes;
      DeleteFreshRecipe(db, r.0.recipes[id], AmountRows(id, input.ingredients));
    }
  }

  /** After an update the recipe's amount rows are exactly the submitted
      entries: every earlier row of it is gone. No other recipe's rows change. */
  lemma UpdateRecipeRows(db: Db, id: Id, input: RecipeInput)
    ensures var r := UpdateRecipe(db, id, input);
      r.1.Success? ==>
        && RowsOf(r.0, id) == AmountRows(id, input.ingredients)
        && forall k :: k != id ==> RowsOf(r.0, k) == RowsOf(db, k)
  {
    var r := UpdateRecipe(db, id, input);
    if r.1.Success? {
      var rows := AmountRows(id, input.ingredients);
      var others := (a: Amount) => a.recipe != id;
      var kept := Filter(db.amounts, others);
      FilterAppend(kept, rows, (a: Amount) => a.recipe == id);
      FilterDropsAll(kept, (a: Amount) => a.recipe == id);
      FilterKeepsAll(rows, (a: Amount) => a.recipe == id);
      forall k | k != id
        ensures RowsOf(r.0, k) == RowsOf(db, k)
      {
        FilterAppend(kept, rows, (a: Amount) => a.recipe == k);
        FilterDropsAll(rows, (a: Amount) => a.recipe == k);
        FilterNarrows(db.amounts, others, (a: Amount) => a.recipe == k);
      }
    }
  }

  /** A successful update keeps every constraint and rule. */
  lemma UpdateRecipeValid(db: Db, id: Id, input: RecipeInput)
    requires Valid(db) && Checked(db)
    ensures Valid(UpdateRecipe(db, id, input).0)
    ensures Checked(UpdateRecipe(db, id, input).0)
  {
    var r := UpdateRecipe(db, id, input);
    if r.1.Success? {
      ReplacedValid(db, id, input);
      assert r.0 == Replace(db, id, input);
    }
  }

  /** The store an accepted update writes keeps every constraint and rule. */
  lemma ReplacedValid(db: Db, id: Id, input: RecipeInput)
    requires Valid(db) && Checked(db) && id in db.recipes
    requires Acceptable(db, input) && !NameTakenByOther(db, id, Strip(input.name))
    requires DistinctBy(input.ingredients, EntryId)
    ensures Valid(Replace(db, id, input)) && Checked(Replace(db, id, input))
  {
    ReplacedRows(db, id, input);
    ReplacedKeepsValid(db, id, input);
    ReplacedKeepsChecked(db, id, input);
  }

  lemma ReplacedKeepsValid(db: Db, id: Id, input: RecipeInput)
    requires Valid(db) && id in db.recipes
    requires Acceptable(db, input) && !NameTakenByOther(db, id, Strip(input.name))
    requires var rows := Filter(db.amounts, (a: Amount) => a.recipe != id) + AmountRows(id, input.ingredients);
      && UniqueAmounts(rows)
      && forall a :: a in rows ==> a.recipe in db.recipes && a.ingredient in db.ingredients && a.amount >= 1
    ensures Valid(Replace(db, id, input))
  {
    var recipe := db.recipes[id].(name := Strip(input.name), image := input.image, text := Strip(input.text),
                                  cookingTime := input.cookingTime, tags := TagSet(input.tags));
    var rows := Filter(db.amounts, (a: Amount) => a.recipe != id) + AmountRows(id, input.ingredients);
    assert forall k :: k in db.recipes && k != id ==> db.recipes[k].name != recipe.name;
    ReplaceRecipeValid(db, id, recipe, rows);
  }

  lemma ReplacedKeepsChecked(db: Db, id: Id, input: RecipeInput)
    requires Checked(db) && id in db.recipes && Acceptable(db, input)
    requires forall a :: a in Filter(db.amounts, (a: Amount) => a.recipe != id) + AmountRows(id, input.ingredients) ==>
      a.amount >= 1
    ensures Checked(Replace(db, id, input))
  {
    var d := Replace(db, id, input);
    assert d.amounts == Filter(db.amounts, (a: Amount) => a.recipe != id) + AmountRows(id, input.ingredients);
  }

  /** The amount rows an accepted update leaves meet the (ingredient, recipe)
      constraint, reference stored rows and carry positive amounts. */
  lemma ReplacedRows(db: Db, id: Id, input: RecipeInput)
    requires UniqueAmounts(db.amounts) && id in db.recipes
    requires forall a :: a in db.amounts ==> a.recipe in db.recipes && a.ingredient in db.ingredients && a.amount >= 1
    requires Acceptable(db, input) && DistinctBy(input.ingredients, EntryId)
    ensures var rows := Filter(db.amounts, (a: Amount) => a.recipe != id) + AmountRows(id, input.ingredients);
      && UniqueAmounts(rows)
      && forall a :: a in rows ==> a.recipe in db.recipes && a.ingredient in db.ingredients && a.amount >= 1
  {
    var kept := Filter(db.amounts, (a: Amount) => a.recipe != id);
    var rows := AmountRows(id, input.ingredients);
    AmountRowsDistinct(id, input.ingredients);
    FilterDistinct(db.amounts, (a: Amount) => a.recipe != id, AmountKey);
    AppendDistinct(kept, rows, AmountKey);
    forall a: Amount | a in kept + rows
      ensures a.recipe in db.recipes && a.ingredient in db.ingredients && a.amount >= 1
    {
      if a !in kept {
        var i :| 0 <= i < |rows| && rows[i] == a;
      }
    }
  }

  /** Submitting the same update twice leaves the store as the first one did. */
  lemma UpdateIdempotent(db: Db, id: Id, input: RecipeInput)
    ensures var r := UpdateRecipe(db, id, input);
      r.1.Success? ==> UpdateRecipe(r.0, id, input) == r
  {
    var r := UpdateRecipe(db, id, input);
    if r.1.Success? {
      var d := Replace(db, id, input);
      assert r.0 == d;
      assert FieldErrors(d, input) == FieldErrors(db, input);
      assert !NameTakenByOther(d, id, Strip(input.name));
      ReplaceTwice(db, id, input);
    }
  }

  /** Writing the same accepted update again changes nothing. */
  lemma ReplaceTwice(db: Db, id: Id, input: RecipeInput)
    requires id in db.recipes
    ensures Replace(Replace(db, id, input), id, input) == Replace(db, id, input)
  {
    var d := Replace(db, id, input);
    var others := (a: Amount) => a.recipe != id;
    var kept := Filter(db.amounts, others);
    var rows := AmountRows(id, input.ingredients);
    FilterAppend(kept, rows, others);
    FilterTwice(db.amounts, others);
    FilterDropsAll(rows, others);
    assert Filter(d.amounts, others) == kept;
    assert d.recipes[id := d.recipes[id]] == d.recipes;
  }

  // ---------------------------------------------------------------------------
  // Validation on concrete requests

  /** A value without whitespace at either end is kept as it is. */
  lemma StripPlain(s: string)
    requires s != [] && !IsSpace(s[0]) && !IsSpace(s[|s| - 1])
    ensures Strip(s) == s
  {
  }

  /** A name of whitespace only is refused as blank, and nothing is written. */
  lemma BlankNameScenario(db: Db, author: Id, now: int)
    ensures var r := CreateRecipe(db, author, RecipeInput(" \t", "soup.png", "Boil.", 5, [], []), now);
      r == (db, Failure(Rejected({BlankName})))
  {
    var input := RecipeInput(" \t", "soup.png", "Boil.", 5, [], []);
    assert input.name[1..][1..] == [];
    assert Strip(input.name) == [];
    StripPlain(input.text);
  }

  /** The name is trimmed before the uniqueness check: " Soup\n" conflicts
      with a stored "Soup". */
  lemma PaddedNameScenario(db: Db, author: Id, input: RecipeInput, now: int)
    requires exists k :: k in db.recipes && db.recipes[k].name == "Soup"
    requires input.name == " Soup\n" && Acceptable(db, input)
    ensures CreateRecipe(db, author, input, now) == (db, Failure(NameConflict))
  {
    var padded := input.name;
    assert padded[1..] == "Soup\n";
    assert TrimLeft(padded) == "Soup\n";
    assert "Soup\n"[..4] == "Soup";
    StripPlain("Soup");
    assert Strip(padded) == "Soup";
  }

  /** Of two unknown tags only the first submitted one is reported. */
  lemma FirstTagScenario(db: Db, author: Id, now: int)
    requires 98 !in db.tags && 99 !in db.tags
    ensures var r := CreateRecipe(db, author, RecipeInput("Soup", "soup.png", "Boil.", 5, [98, 99], []), now);
      r == (db, Failure(Rejected({UnknownTag(98)})))
  {
    var input := RecipeInput("Soup", "soup.png", "Boil.", 5, [98, 99], []);
    StripPlain(input.name);
    StripPlain(input.text);
    assert FirstUnknownTag(db, input.tags) == Some(98);
    assert NameErrors(input.name) == {} && TextErrors(input.text) == {};
    assert EntryErrors(db, input.ingredients) == {};
    assert FieldErrors(db, input) == {UnknownTag(98)};
  }

  // ---------------------------------------------------------------------------
  // Representations

  /** `ShortRecipeSerializer`: id, name, image and cooking time. */
  datatype ShortRecipe = ShortRecipe(id: Id, name: string, image: string, cookingTime: int)

  function Short(db: Db, id: Id): (s: ShortRecipe)
    requires id in db.recipes
    ensures s.id == id && s.name == db.recipes[id].name
  {
    var r := db.recipes[id];
    ShortRecipe(id, r.name, r.image, r.cookingTime)
  }

  /** One output row of `IngredientAmountSerializer`. */
  datatype AmountView = AmountView(id: Id, name: string, unit: string, amount: int)

  /** `get_ingredients`: the recipe's amount rows, each shown with the id,
      name and unit of its ingredient and its own amount. The query has no
      `ORDER BY`; the model shows the rows in insertion order. */
  function AmountViews(db: Db, recipe: Id): (v: seq<AmountView>)
    requires Valid(db)
  {
    var rows := RowsOf(db, recipe);
    seq(|rows|, i requires 0 <= i < |rows| =>
      var a := rows[i];
      var ing := db.ingredients[a.ingredient];
      AmountView(a.ingredient, ing.name, ing.unit, a.amount))
  }

  /** What a create submits is what the recipe shows: one row per entry, in
      the model's insertion order, with the entry's ingredient, that ingredient's name and unit,
      and the entry's amount. */
  lemma CreateThenShow(db: Db, author: Id, input: RecipeInput, now: int)
    requires Valid(db) && Checked(db) && author in db.users
    ensures var r := CreateRecipe(db, author, input, now);
      r.1.Success? ==>
        && Valid(r.0)
        && |AmountViews(r.0, r.1.value)| == |input.ingredients|
        && forall i :: 0 <= i < |input.ingredients| ==>
             var e := input.ingredients[i];
             && e.id in db.ingredients
             && AmountViews(r.0, r.1.value)[i]
                == AmountView(e.id, db.ingredients[e.id].name, db.ingredients[e.id].unit, e.amount)
  {
    var r := CreateRecipe(db, author, input, now);
    if r.1.Success? {
      CreateRecipeValid(db, author, input, now);
      CreateRecipeRows(db, author, input, now);
    }
  }
}
