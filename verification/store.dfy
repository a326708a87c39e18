/** The entity store: the tables of backend/recipes/models/basic.py,
    backend/recipes/models/m2m_models.py and backend/users/models.py as one
    immutable value, with the database constraints (`Valid`), the rules that
    only validators and views enforce (`Checked`), identity lookups and the
    `on_delete=CASCADE` deletions. */
module Store {
  import opened Wrappers
  import opened Seqs

  /** Primary keys. One counter (`Db.nextId`) hands them out for every table. */
  type Id = nat

  datatype User = User(email: string, username: string, firstName: string, lastName: string, isSuperuser: bool)

  /** An Ingredient row is identified, besides its id, by its (name, unit) pair. */
  datatype Ingredient = Ingredient(name: string, unit: string)

  datatype Tag = Tag(name: string, color: string, slug: string)

  /** `tags` is the recipe's many-to-many tag association. */
  datatype Recipe = Recipe(
    author: Id,
    name: string,
    image: string,
    text: string,
    cookingTime: int,
    pubDate: int,
    tags: set<Id>)

  /** An IngredientAmount row. */
  datatype Amount = Amount(recipe: Id, ingredient: Id, amount: int)

  /** A Favorite or ShoppingCart row. */
  datatype Link = Link(user: Id, recipe: Id)

  /** A Follow row: `user` follows `following`. */
  datatype Follow = Follow(user: Id, following: Id)

  datatype Db = Db(
    users: map<Id, User>,
    ingredients: map<Id, Ingredient>,
    tags: map<Id, Tag>,
    recipes: map<Id, Recipe>,
    amounts: seq<Amount>,
    favorites: set<Link>,
    carts: set<Link>,
    follows: set<Follow>,
    nextId: Id)

  const DefaultColor := "#FF0000"

  // ---------------------------------------------------------------------------
  // Database constraints

  predicate UniqueEmails(users: map<Id, User>)
  {
    forall a, b :: a in users && b in users && a != b ==> users[a].email != users[b].email
  }

  /** Inherited from the framework's user model, whose username is unique. */
  predicate UniqueUsernames(users: map<Id, User>)
  {
    forall a, b :: a in users && b in users && a != b ==> users[a].username != users[b].username
  }

  /** `unique_ingredient` on (name, measurement_unit). */
  predicate UniqueIngredients(ingredients: map<Id, Ingredient>)
  {
    forall a, b :: a in ingredients && b in ingredients && a != b ==> ingredients[a] != ingredients[b]
  }

  /** `unique_tag_name` and `unique_tag_slug`. */
  predicate UniqueTags(tags: map<Id, Tag>)
  {
    forall a, b :: a in tags && b in tags && a != b ==>
      tags[a].name != tags[b].name && tags[a].slug != tags[b].slug
  }

  /** `unique_recipe_name`. */
  predicate UniqueRecipeNames(recipes: map<Id, Recipe>)
  {
    forall a, b :: a in recipes && b in recipes && a != b ==> recipes[a].name != recipes[b].name
  }

  function AmountKey(a: Amount): (Id, Id)
  {
    (a.ingredient, a.recipe)
  }

  /** `unique_ingredient_amount` on (ingredient, recipe). */
  predicate UniqueAmounts(amounts: seq<Amount>)
  {
    DistinctBy(amounts, AmountKey)
  }

  predicate IdsBelow(db: Db)
  {
    && (forall k :: k in db.users ==> k < db.nextId)
    && (forall k :: k in db.ingredients ==> k < db.nextId)
    && (forall k :: k in db.tags ==> k < db.nextId)
    && (forall k :: k in db.recipes ==> k < db.nextId)
  }

  /** Every foreign key points at an existing row. */
  predicate References(db: Db)
  {
    && (forall r :: r in db.recipes ==> db.recipes[r].author in db.users && db.recipes[r].tags <= db.tags.Keys)
    && (forall a :: a in db.amounts ==> a.recipe in db.recipes && a.ingredient in db.ingredients)
    && (forall l :: l in db.favorites ==> l.user in db.users && l.recipe in db.recipes)
    && (forall l :: l in db.carts ==> l.user in db.users && l.recipe in db.recipes)
    && (forall f :: f in db.follows ==> f.user in db.users && f.following in db.users)
  }

  /** The `>= 0` CHECK constraint that the `PositiveSmallIntegerField`
      columns carry on SQLite: cooking time and amount. */
  predicate InRange(db: Db)
  {
    && (forall r :: r in db.recipes ==> db.recipes[r].cookingTime >= 0)
    && (forall a :: a in db.amounts ==> a.amount >= 0)
  }

  /** Amount rows about to be inserted that the same CHECK admits. */
  predicate AmountsInRange(rows: seq<Amount>)
  {
    forall i :: 0 <= i < |rows| ==> rows[i].amount >= 0
  }

  /** What the database itself guarantees of every state it holds: its unique
      and CHECK constraints, its keys and its foreign keys. Uniqueness of
      Favorite, ShoppingCart and Follow rows per pair is the set semantics of
      `favorites`, `carts` and `follows`. */
  predicate Valid(db: Db)
  {
    && UniqueEmails(db.users)
    && UniqueUsernames(db.users)
    && UniqueIngredients(db.ingredients)
    && UniqueTags(db.tags)
    && UniqueRecipeNames(db.recipes)
    && UniqueAmounts(db.amounts)
    && InRange(db)
    && IdsBelow(db)
    && References(db)
  }

  // ---------------------------------------------------------------------------
  // Validator- and view-level rules

  predicate IsSlugChar(c: char)
  {
    c == '-' || c == '_' || ('a' <= c <= 'z') || ('A' <= c <= 'Z') || ('0' <= c <= '9')
  }

  /** Django's slug validator: one or more of `[-a-zA-Z0-9_]`. */
  predicate IsSlug(s: string)
  {
    |s| > 0 && forall i :: 0 <= i < |s| ==> IsSlugChar(s[i])
  }

  /** Rules the database does not enforce: `MinValueValidator(1)` on cooking
      time and amount, the views' refusal of self-follows, and the slug field's
      validator. */
  predicate Checked(db: Db)
  {
    && (forall r :: r in db.recipes ==> db.recipes[r].cookingTime >= 1)
    && (forall a :: a in db.amounts ==> a.amount >= 1)
    && (forall f :: f in db.follows ==> f.user != f.following)
    && (forall t :: t in db.tags ==> IsSlug(db.tags[t].slug))
  }

  /** Growing the ingredient table under `unique_ingredient`, with the id
      counter past every key, keeps every constraint and rule. */
  lemma WithIngredientsValid(db: Db, ingredients: map<Id, Ingredient>, nextId: Id)
    requires Valid(db) && UniqueIngredients(ingredients)
    requires forall k :: k in db.ingredients ==> k in ingredients
    requires forall k :: k in ingredients ==> k < nextId
    requires db.nextId <= nextId
    ensures Valid(db.(ingredients := ingredients, nextId := nextId))
    ensures Checked(db) ==> Checked(db.(ingredients := ingredients, nextId := nextId))
  {
  }

  /** Inserting a recipe under the next id, with a free name, a cooking time
      the CHECK admits, an existing author and existing tags, keeps every
      constraint, and every rule when its cooking time is positive. */
  lemma AddRecipeValid(db: Db, recipe: Recipe)
    requires Valid(db) && recipe.author in db.users && recipe.tags <= db.tags.Keys
    requires recipe.cookingTime >= 0
    requires forall k :: k in db.recipes ==> db.recipes[k].name != recipe.name
    ensures Valid(db.(recipes := db.recipes[db.nextId := recipe], nextId := db.nextId + 1))
    ensures Checked(db) && recipe.cookingTime >= 1 ==>
      Checked(db.(recipes := db.recipes[db.nextId := recipe], nextId := db.nextId + 1))
  {
    var d := db.(recipes := db.recipes[db.nextId := recipe], nextId := db.nextId + 1);
    assert UniqueRecipeNames(d.recipes) && InRange(d) && IdsBelow(d) by {
      AddRecipeRows(db, recipe);
    }
    assert References(d) by {
      AddRecipeRefs(db, recipe);
    }
  }

  lemma AddRecipeRows(db: Db, recipe: Recipe)
    requires IdsBelow(db) && InRange(db) && UniqueRecipeNames(db.recipes) && recipe.cookingTime >= 0
    requires forall k :: k in db.recipes ==> db.recipes[k].name != recipe.name
    ensures var d := db.(recipes := db.recipes[db.nextId := recipe], nextId := db.nextId + 1);
      UniqueRecipeNames(d.recipes) && InRange(d) && IdsBelow(d)
  {
  }

  lemma AddRecipeRefs(db: Db, recipe: Recipe)
    requires References(db) && recipe.author in db.users && recipe.tags <= db.tags.Keys
    ensures References(db.(recipes := db.recipes[db.nextId := recipe], nextId := db.nextId + 1))
  {
  }

  /** Appending amount rows that reference stored rows, without breaking
      `unique_ingredient_amount` or the CHECK on amounts, keeps every
      constraint, and every rule when the new amounts are positive. */
  lemma AppendAmountsValid(db: Db, rows: seq<Amount>)
    requires Valid(db) && UniqueAmounts(db.amounts + rows)
    requires forall i :: 0 <= i < |rows| ==> rows[i].recipe in db.recipes && rows[i].ingredient in db.ingredients
    requires AmountsInRange(rows)
    ensures Valid(db.(amounts := db.amounts + rows))
    ensures Checked(db) && (forall i :: 0 <= i < |rows| ==> rows[i].amount >= 1) ==>
      Checked(db.(amounts := db.amounts + rows))
  {
    forall a | a in db.amounts + rows
      ensures a.recipe in db.recipes && a.ingredient in db.ingredients && a.amount >= 0
      ensures Checked(db) && (forall i :: 0 <= i < |rows| ==> rows[i].amount >= 1) ==> a.amount >= 1
    {
      if a !in db.amounts {
        var i :| 0 <= i < |rows| && rows[i] == a;
      }
    }
  }

  /** Rewriting a stored recipe, with a name no other recipe has, an existing
      author and existing tags, and replacing the amount table by rows that
      meet its constraints, keeps every constraint. */
  lemma ReplaceRecipeValid(db: Db, id: Id, recipe: Recipe, amounts: seq<Amount>)
    requires Valid(db) && id in db.recipes
    requires recipe.author in db.users && recipe.tags <= db.tags.Keys && recipe.cookingTime >= 0
    requires forall k :: k in db.recipes && k != id ==> db.recipes[k].name != recipe.name
    requires UniqueAmounts(amounts)
    requires forall a :: a in amounts ==> a.recipe in db.recipes && a.ingredient in db.ingredients && a.amount >= 0
    ensures Valid(db.(recipes := db.recipes[id := recipe], amounts := amounts))
  {
    var d := db.(recipes := db.recipes[id := recipe], amounts := amounts);
    assert d.recipes.Keys == db.recipes.Keys;
    assert UniqueRecipeNames(d.recipes) && InRange(d) && IdsBelow(d) by {
      ReplaceRecipeRows(db, id, recipe, amounts);
    }
    assert References(d) by {
      ReplaceRecipeRefs(db, id, recipe, amounts);
    }
  }

  lemma ReplaceRecipeRows(db: Db, id: Id, recipe: Recipe, amounts: seq<Amount>)
    requires IdsBelow(db) && InRange(db) && id in db.recipes && recipe.cookingTime >= 0
    requires forall k :: k in db.recipes && k != id ==> db.recipes[k].name != recipe.name
    requires UniqueRecipeNames(db.recipes)
    requires forall a :: a in amounts ==> a.amount >= 0
    ensures var d := db.(recipes := db.recipes[id := recipe], amounts := amounts);
      UniqueRecipeNames(d.recipes) && InRange(d) && IdsBelow(d)
  {
  }

  lemma ReplaceRecipeRefs(db: Db, id: Id, recipe: Recipe, amounts: seq<Amount>)
    requires References(db) && id in db.recipes
    requires recipe.author in db.users && recipe.tags <= db.tags.Keys
    requires forall a :: a in amounts ==> a.recipe in db.recipes && a.ingredient in db.ingredients
    ensures References(db.(recipes := db.recipes[id := recipe], amounts := amounts))
  {
  }

  /** A new recipe together with its amount rows: both steps above at once. */
  lemma AddRecipeRowsValid(db: Db, recipe: Recipe, rows: seq<Amount>)
    requires Valid(db) && recipe.author in db.users && recipe.tags <= db.tags.Keys
    requires forall k :: k in db.recipes ==> db.recipes[k].name != recipe.name
    requires UniqueAmounts(db.amounts + rows) && recipe.cookingTime >= 0
    requires forall i :: 0 <= i < |rows| ==> rows[i].recipe == db.nextId && rows[i].ingredient in db.ingredients
    requires AmountsInRange(rows)
    ensures Valid(db.(recipes := db.recipes[db.nextId := recipe], amounts := db.amounts + rows, nextId := db.nextId + 1))
    ensures Checked(db) && recipe.cookingTime >= 1 && (forall i :: 0 <= i < |rows| ==> rows[i].amount >= 1) ==>
      Checked(db.(recipes := db.recipes[db.nextId := recipe], amounts := db.amounts + rows, nextId := db.nextId + 1))
  {
    var db1 := db.(recipes := db.recipes[db.nextId := recipe], nextId := db.nextId + 1);
    AddRecipeValid(db, recipe);
    AppendAmountsValid(db1, rows);
  }

  // ---------------------------------------------------------------------------
  // Requests

  /** Who sends a request: `request.user` is either the anonymous user or a
      logged-in one. */
  datatype Viewer = Anonymous | Member(id: Id)

  /** A logged-in viewer is an existing user. */
  predicate Authenticated(db: Db, v: Viewer)
  {
    v.Member? ==> v.id in db.users
  }

  // ---------------------------------------------------------------------------
  // Lookups

  /** A recipe with this name is stored. */
  predicate NameTaken(db: Db, name: string)
  {
    exists k :: k in db.recipes && db.recipes[k].name == name
  }

  function RecipeNames(db: Db): set<string>
  {
    set k | k in db.recipes :: db.recipes[k].name
  }

  /** The smallest key in `[from, bound)` whose row satisfies `p`. */
  function FirstKey<T>(m: map<Id, T>, p: T -> bool, from: Id, bound: Id): (r: Option<Id>)
    decreases bound - from
    ensures r.Some? ==> r.value in m && p(m[r.value]) && from <= r.value < bound
    ensures r.None? ==> forall k :: from <= k < bound && k in m ==> !p(m[k])
  {
    if from >= bound then None
    else if from in m && p(m[from]) then Some(from)
    else FirstKey(m, p, from + 1, bound)
  }

  /** With all keys below `bound`, the scan finds a row exactly when one exists. */
  lemma FirstKeyFinds<T>(m: map<Id, T>, p: T -> bool, bound: Id)
    requires forall k :: k in m ==> k < bound
    ensures FirstKey(m, p, 0, bound).Some? <==> exists k :: k in m && p(m[k])
  {
  }

  function FindIngredient(ingredients: map<Id, Ingredient>, pair: Ingredient, bound: Id): Option<Id>
  {
    FirstKey(ingredients, (i: Ingredient) => i == pair, 0, bound)
  }

  /** Under the (name, unit) constraint the lookup returns THE row of the pair. */
  lemma FindIngredientExact(db: Db, pair: Ingredient)
    requires Valid(db)
    ensures FindIngredient(db.ingredients, pair, db.nextId).Some? <==> pair in db.ingredients.Values
    ensures forall k :: k in db.ingredients && db.ingredients[k] == pair ==>
      FindIngredient(db.ingredients, pair, db.nextId) == Some(k)
  {
    var p := (i: Ingredient) => i == pair;
    FirstKeyFinds(db.ingredients, p, db.nextId);
    if pair in db.ingredients.Values {
      var k :| k in db.ingredients && db.ingredients[k] == pair;
      assert p(db.ingredients[k]);
    }
  }

  /** `USERNAME_FIELD = 'email'`: logging in looks the user up by email. */
  function FindByEmail(db: Db, email: string): Option<Id>
  {
    FirstKey(db.users, (u: User) => u.email == email, 0, db.nextId)
  }

  /** Email identifies at most one user, so the login lookup is exact. */
  lemma FindByEmailExact(db: Db, email: string)
    requires Valid(db)
    ensures forall k :: k in db.users && db.users[k].email == email ==> FindByEmail(db, email) == Some(k)
    ensures FindByEmail(db, email).None? ==> forall k :: k in db.users ==> db.users[k].email != email
  {
  }

  // ---------------------------------------------------------------------------
  // Row-level operations

  /** `Ingredient.__str__`. */
  function IngredientLabel(i: Ingredient): string
  {
    i.name + " - " + i.unit
  }

  /** The label splits back into name and unit at its first hyphen when the name has none. */
  lemma IngredientLabelSplits(i: Ingredient)
    requires '-' !in i.name
    ensures SplitAt(IngredientLabel(i), '-') == Some((i.name + " ", " " + i.unit))
  {
    assert IngredientLabel(i) == (i.name + " ") + ['-'] + (" " + i.unit);
    SplitAtFirst(i.name + " ", " " + i.unit, '-');
  }

  /** Labels tell ingredients apart when names carry no hyphen. */
  lemma IngredientLabelInjective(a: Ingredient, b: Ingredient)
    requires '-' !in a.name && '-' !in b.name
    requires IngredientLabel(a) == IngredientLabel(b)
    ensures a == b
  {
    IngredientLabelSplits(a);
    IngredientLabelSplits(b);
    assert a.name == (a.name + " ")[..|a.name|];
    assert b.name == (b.name + " ")[..|b.name|];
    assert a.unit == (" " + a.unit)[1..];
    assert b.unit == (" " + b.unit)[1..];
  }

  datatype CleanError = SelfFollow

  /** `Follow.clean`: refuses a follow whose two sides share a username. */
  function FollowClean(db: Db, f: Follow): (r: Option<CleanError>)
    requires f.user in db.users && f.following in db.users
  {
    if db.users[f.user].username == db.users[f.following].username then Some(SelfFollow) else None
  }

  /** Usernames are unique, so the username comparison rejects exactly self-follows. */
  lemma FollowCleanRejectsSelf(db: Db, f: Follow)
    requires Valid(db)
    requires f.user in db.users && f.following in db.users
    ensures FollowClean(db, f) == Some(SelfFollow) <==> f.user == f.following
  {
  }

  datatype UserError = EmailTaken | UsernameTaken | MissingField

  /** Inserting a user: `REQUIRED_FIELDS` must be non-empty, and the unique
      email and username columns refuse a duplicate. */
  function AddUser(db: Db, u: User): (r: (Db, Result<Id, UserError>))
  {
    if u.email == "" || u.username == "" || u.firstName == "" || u.lastName == "" then (db, Failure(MissingField))
    else if exists k :: k in db.users && db.users[k].email == u.email then (db, Failure(EmailTaken))
    else if exists k :: k in db.users && db.users[k].username == u.username then (db, Failure(UsernameTaken))
    else (db.(users := db.users[db.nextId := u], nextId := db.nextId + 1), Success(db.nextId))
  }

  /** A stored user can log in with their email, and a refused insert changes nothing. */
  lemma AddUserSound(db: Db, u: User)
    requires Valid(db)
    ensures AddUser(db, u).1.Failure? ==> AddUser(db, u).0 == db
    ensures AddUser(db, u).1.Success? <==>
      u.email != "" && u.username != "" && u.firstName != "" && u.lastName != ""
      && (forall k :: k in db.users ==> db.users[k].email != u.email && db.users[k].username != u.username)
    ensures AddUser(db, u).1.Success? ==>
      var db' := AddUser(db, u).0;
      Valid(db') && FindByEmail(db', u.email) == Some(AddUser(db, u).1.value)
  {
    var (db', res) := AddUser(db, u);
    if res.Success? {
      AddUserValid(db, u);
      FindByEmailExact(db', u.email);
    }
  }

  lemma AddUserValid(db: Db, u: User)
    requires Valid(db)
    requires forall k :: k in db.users ==> db.users[k].email != u.email && db.users[k].username != u.username
    ensures Valid(db.(users := db.users[db.nextId := u], nextId := db.nextId + 1))
  {
  }

  // ---------------------------------------------------------------------------
  // Cascading deletions

  /** Deleting a recipe deletes its IngredientAmount, Favorite and ShoppingCart rows. */
  function DeleteRecipe(db: Db, id: Id): (r: Db)
    ensures id !in r.recipes && r.recipes == db.recipes - {id}
    ensures forall a :: a in r.amounts <==> a in db.amounts && a.recipe != id
    ensures forall l :: l in r.favorites <==> l in db.favorites && l.recipe != id
    ensures forall l :: l in r.carts <==> l in db.carts && l.recipe != id
    ensures r.users == db.users && r.ingredients == db.ingredients && r.tags == db.tags
    ensures r.follows == db.follows && r.nextId == db.nextId
    ensures forall k :: k in db.recipes && k != id ==> k in r.recipes && r.recipes[k] == db.recipes[k]
  {
    db.(recipes := db.recipes - {id},
        amounts := Filter(db.amounts, (a: Amount) => a.recipe != id),
        favorites := (set l | l in db.favorites && l.recipe != id),
        carts := (set l | l in db.carts && l.recipe != id))
  }
  /** Deleting a recipe inserted under the next id, with its amount rows,
      gives back the store it was inserted into, id counter aside. */
  lemma DeleteFreshRecipe(db: Db, recipe: Recipe, rows: seq<Amount>)
    requires db.nextId !in db.recipes
    requires forall a :: a in db.amounts ==> a.recipe != db.nextId
    requires forall l :: l in db.favorites ==> l.recipe != db.nextId
    requires forall l :: l in db.carts ==> l.recipe != db.nextId
    requires forall i :: 0 <= i < |rows| ==> rows[i].recipe == db.nextId
    ensures DeleteRecipe(db.(recipes := db.recipes[db.nextId := recipe], amounts := db.amounts + rows, nextId := db.nextId + 1), db.nextId)
      == db.(nextId := db.nextId + 1)
  {
    var id := db.nextId;
    var d := DeleteRecipe(db.(recipes := db.recipes[id := recipe], amounts := db.amounts + rows, nextId := id + 1), id);
    var keep := (a: Amount) => a.recipe != id;
    FilterAppend(db.amounts, rows, keep);
    FilterKeepsAll(db.amounts, keep);
    FilterDropsAll(rows, keep);
    assert d.amounts == db.amounts;
    assert d.recipes == db.recipes;
    assert d.favorites == db.favorites;
    assert d.carts == db.carts;
  }


  lemma DeleteRecipePreserves(db: Db, id: Id)
    requires Valid(db) && Checked(db)
    ensures Valid(DeleteRecipe(db, id)) && Checked(DeleteRecipe(db, id))
  {
    FilterDistinct(db.amounts, (a: Amount) => a.recipe != id, AmountKey);
  }

  /** Deleting an ingredient deletes the IngredientAmount rows that use it. */
  function DeleteIngredient(db: Db, id: Id): (r: Db)
    ensures id !in r.ingredients && r.ingredients == db.ingredients - {id}
    ensures forall a :: a in r.amounts <==> a in db.amounts && a.ingredient != id
    ensures r.recipes == db.recipes && r.users == db.users && r.tags == db.tags
    ensures r.favorites == db.favorites && r.carts == db.carts && r.follows == db.follows
    ensures r.nextId == db.nextId
  {
    db.(ingredients := db.ingredients - {id},
        amounts := Filter(db.amounts, (a: Amount) => a.ingredient != id))
  }

  lemma DeleteIngredientPreserves(db: Db, id: Id)
    requires Valid(db) && Checked(db)
    ensures Valid(DeleteIngredient(db, id)) && Checked(DeleteIngredient(db, id))
  {
    FilterDistinct(db.amounts, (a: Amount) => a.ingredient != id, AmountKey);
  }

  /** Deleting a tag drops it from every recipe's tag set. */
  function DeleteTag(db: Db, id: Id): (r: Db)
    ensures id !in r.tags && r.tags == db.tags - {id}
    ensures r.users == db.users && r.ingredients == db.ingredients && r.amounts == db.amounts
    ensures r.favorites == db.favorites && r.carts == db.carts && r.follows == db.follows
    ensures r.nextId == db.nextId
    ensures r.recipes.Keys == db.recipes.Keys
    ensures forall k :: k in r.recipes ==>
      id !in r.recipes[k].tags && r.recipes[k] == db.recipes[k].(tags := db.recipes[k].tags - {id})
  {
    db.(tags := db.tags - {id},
        recipes := map k | k in db.recipes :: db.recipes[k].(tags := db.recipes[k].tags - {id}))
  }

  lemma DeleteTagPreserves(db: Db, id: Id)
    requires Valid(db) && Checked(db)
    ensures Valid(DeleteTag(db, id)) && Checked(DeleteTag(db, id))
  {
    var r := DeleteTag(db, id);
    assert UniqueRecipeNames(r.recipes) by {
      forall a, b | a in r.recipes && b in r.recipes && a != b
        ensures r.recipes[a].name != r.recipes[b].name
      {
        assert r.recipes[a].name == db.recipes[a].name && r.recipes[b].name == db.recipes[b].name;
      }
    }
  }

  /** The recipes a user authored. */
  function AuthoredBy(db: Db, u: Id): set<Id>
  {
    set k | k in db.recipes && db.recipes[k].author == u
  }

  /** Deleting a user deletes their recipes (with those recipes' own cascades),
      their Favorite and ShoppingCart rows and every Follow they take part in. */
  function DeleteUser(db: Db, u: Id): (r: Db)
    ensures u !in r.users && r.users == db.users - {u}
    ensures r.ingredients == db.ingredients && r.tags == db.tags && r.nextId == db.nextId
    ensures forall k :: k in r.recipes <==> k in db.recipes && db.recipes[k].author != u
    ensures forall k :: k in r.recipes ==> r.recipes[k] == db.recipes[k]
    ensures forall a :: a in r.amounts <==> a in db.amounts && a.recipe !in AuthoredBy(db, u)
    ensures forall l :: l in r.favorites <==> l in db.favorites && l.user != u && l.recipe !in AuthoredBy(db, u)
    ensures forall l :: l in r.carts <==> l in db.carts && l.user != u && l.recipe !in AuthoredBy(db, u)
    ensures forall f :: f in r.follows <==> f in db.follows && f.user != u && f.following != u
  {
    var gone := AuthoredBy(db, u);
    db.(users := db.users - {u},
        recipes := map k | k in db.recipes && k !in gone :: db.recipes[k],
        amounts := Filter(db.amounts, (a: Amount) => a.recipe !in gone),
        favorites := (set l | l in db.favorites && l.user != u && l.recipe !in gone),
        carts := (set l | l in db.carts && l.user != u && l.recipe !in gone),
        follows := (set f | f in db.follows && f.user != u && f.following != u))
  }

  lemma DeleteUserPreserves(db: Db, u: Id)
    requires Valid(db) && Checked(db)
    ensures Valid(DeleteUser(db, u)) && Checked(DeleteUser(db, u))
  {
    DeleteUserValid(db, u);
    DeleteUserChecked(db, u);
  }

  lemma DeleteUserValid(db: Db, u: Id)
    requires Valid(db)
    ensures Valid(DeleteUser(db, u))
  {
    var gone := AuthoredBy(db, u);
    FilterDistinct(db.amounts, (a: Amount) => a.recipe !in gone, AmountKey);
  }

  lemma DeleteUserChecked(db: Db, u: Id)
    requires Checked(db)
    ensures Checked(DeleteUser(db, u))
  {
  }
}
