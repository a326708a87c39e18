/** The shopping-list query (`get_list_ingredients` in backend/api/services.py):
    the IngredientAmount rows of the recipes in a user's cart, grouped by the
    ingredient's (name, unit) pair and summed. The query has no ORDER BY, so
    the result is a map keyed by the pair. */
module ShoppingList {
  import opened Store

  /** The row joins the user's cart (`recipe__carts__user=user`) and its ingredient. */
  predicate Counts(db: Db, user: Id, a: Amount)
  {
    Link(user, a.recipe) in db.carts && a.ingredient in db.ingredients
  }

  /** The reference: the sum of the amounts of the counted rows whose
      ingredient is the pair `k`, taken from the front of the table. */
  function Total(db: Db, user: Id, rows: seq<Amount>, k: Ingredient): int
  {
    if |rows| == 0 then 0
    else
      (if Counts(db, user, rows[0]) && db.ingredients[rows[0].ingredient] == k then rows[0].amount else 0)
      + Total(db, user, rows[1..], k)
  }

  /** `GROUP BY name, measurement_unit` with `SUM(amount)`, row by row from
      the back. */
  function Group(db: Db, user: Id, rows: seq<Amount>): map<Ingredient, int>
  {
    if |rows| == 0 then map[]
    else
      var m := Group(db, user, rows[..|rows| - 1]);
      var a := rows[|rows| - 1];
      if !Counts(db, user, a) then m
      else
        var k := db.ingredients[a.ingredient];
        m[k := (if k in m then m[k] else 0) + a.amount]
  }

  /** The aggregated shopping list of `user`; an empty cart gives an empty list. */
  function Aggregate(db: Db, user: Id): (m: map<Ingredient, int>)
    ensures (forall r :: Link(user, r) !in db.carts) ==> m == map[]
    ensures forall k :: k in m <==>
      exists a :: a in db.amounts && Counts(db, user, a) && db.ingredients[a.ingredient] == k
  {
    GroupKeys(db, user, db.amounts);
    Group(db, user, db.amounts)
  }

  /** The grouping has one line per pair of the counted rows, and no other. */
  lemma {:induction false} GroupKeys(db: Db, user: Id, rows: seq<Amount>)
    ensures forall k :: k in Group(db, user, rows) <==>
      exists i :: 0 <= i < |rows| && Counts(db, user, rows[i]) && db.ingredients[rows[i].ingredient] == k
  {
    if |rows| > 0 {
      var init := rows[..|rows| - 1];
      GroupKeys(db, user, init);
      forall k | k in Group(db, user, rows)
        ensures exists i :: 0 <= i < |rows| && Counts(db, user, rows[i]) && db.ingredients[rows[i].ingredient] == k
      {
        if k in Group(db, user, init) {
          var i :| 0 <= i < |init| && Counts(db, user, init[i]) && db.ingredients[init[i].ingredient] == k;
          assert rows[i] == init[i];
        }
      }
      forall k | exists i :: 0 <= i < |rows| && Counts(db, user, rows[i]) && db.ingredients[rows[i].ingredient] == k
        ensures k in Group(db, user, rows)
      {
        var i :| 0 <= i < |rows| && Counts(db, user, rows[i]) && db.ingredients[rows[i].ingredient] == k;
        if i < |init| {
          assert init[i] == rows[i];
        }
      }
    }
  }

  lemma {:induction false} TotalAppend(db: Db, user: Id, rows: seq<Amount>, a: Amount, k: Ingredient)
    ensures Total(db, user, rows + [a], k)
      == Total(db, user, rows, k) + (if Counts(db, user, a) && db.ingredients[a.ingredient] == k then a.amount else 0)
  {
    if |rows| > 0 {
      assert (rows + [a])[1..] == rows[1..] + [a];
      TotalAppend(db, user, rows[1..], a, k);
    }
  }

  /** Every line of the grouping is the sum over its group; a pair without a
      line has no counted row. */
  lemma {:induction false} GroupSums(db: Db, user: Id, rows: seq<Amount>, k: Ingredient)
    ensures k in Group(db, user, rows) ==> Group(db, user, rows)[k] == Total(db, user, rows, k)
    ensures k !in Group(db, user, rows) ==> Total(db, user, rows, k) == 0
  {
    if |rows| > 0 {
      var init := rows[..|rows| - 1];
      var a := rows[|rows| - 1];
      assert rows == init + [a];
      GroupSums(db, user, init, k);
      TotalAppend(db, user, init, a, k);
    }
  }

  /** Each line of a user's shopping list is the total of that (name, unit)
      pair over the rows of the recipes in the user's cart; the same name
      under two units gives two lines with their own totals. */
  lemma AggregateSums(db: Db, user: Id)
    ensures forall k :: k in Aggregate(db, user) ==> Aggregate(db, user)[k] == Total(db, user, db.amounts, k)
    ensures forall k :: k !in Aggregate(db, user) ==> Total(db, user, db.amounts, k) == 0
  {
    forall k
      ensures k in Aggregate(db, user) ==> Aggregate(db, user)[k] == Total(db, user, db.amounts, k)
      ensures k !in Aggregate(db, user) ==> Total(db, user, db.amounts, k) == 0
    {
      GroupSums(db, user, db.amounts, k);
    }
  }

  /** One more counted row adds its amount to its pair's line. */
  lemma GroupStep(db: Db, user: Id, rows: seq<Amount>, i: nat, m: map<Ingredient, int>, k: Ingredient)
    requires i < |rows| && Counts(db, user, rows[i]) && db.ingredients[rows[i].ingredient] == k
    requires Group(db, user, rows[..i]) == m
    ensures Group(db, user, rows[..i + 1]) == m[k := (if k in m then m[k] else 0) + rows[i].amount]
  {
    assert rows[..i + 1][..i] == rows[..i];
  }

  const Potato := Ingredient("potato", "g")
  const Salt := Ingredient("salt", "g")
  const Pepper := Ingredient("pepper", "g")

  /** User 0 has recipes A (id 4) and B (id 5) in the cart: A with potato 200
      and salt 5, B with potato 100, salt 10 and pepper 3. */
  function ScenarioDb(): Db
  {
    Db(
      map[0 := User("u@example.com", "u", "U", "U", false)],
      map[1 := Potato, 2 := Salt, 3 := Pepper],
      map[],
      map[4 := Recipe(0, "A", "a.jpg", "", 10, 0, {}), 5 := Recipe(0, "B", "b.jpg", "", 20, 1, {})],
      [Amount(4, 1, 200), Amount(4, 2, 5), Amount(5, 1, 100), Amount(5, 2, 10), Amount(5, 3, 3)],
      {}, {Link(0, 4), Link(0, 5)}, {}, 6)
  }

  /** Recipe A's rows alone. */
  lemma ScenarioRecipeA()
    ensures Group(ScenarioDb(), 0, ScenarioDb().amounts[..2]) == map[Potato := 200, Salt := 5]
  {
    var db := ScenarioDb();
    var rows := db.amounts;
    assert Group(db, 0, rows[..0]) == map[];
    GroupStep(db, 0, rows, 0, map[], Potato);
    GroupStep(db, 0, rows, 1, map[Potato := 200], Salt);
  }

  /** Then B's potato row. */
  lemma ScenarioThreeRows()
    ensures Group(ScenarioDb(), 0, ScenarioDb().amounts[..3]) == map[Potato := 300, Salt := 5]
  {
    ScenarioRecipeA();
    GroupStep(ScenarioDb(), 0, ScenarioDb().amounts, 2, map[Potato := 200, Salt := 5], Potato);
    assert map[Potato := 200, Salt := 5][Potato := 200 + 100] == map[Potato := 300, Salt := 5];
  }

  /** Then B's salt row. */
  lemma ScenarioFourRows()
    ensures Group(ScenarioDb(), 0, ScenarioDb().amounts[..4]) == map[Potato := 300, Salt := 15]
  {
    ScenarioThreeRows();
    GroupStep(ScenarioDb(), 0, ScenarioDb().amounts, 3, map[Potato := 300, Salt := 5], Salt);
    assert map[Potato := 300, Salt := 5][Salt := 5 + 10] == map[Potato := 300, Salt := 15];
  }

  /** The list for that cart is potato 300, salt 15 and pepper 3. */
  lemma CartScenario()
    ensures Aggregate(ScenarioDb(), 0) == map[Potato := 300, Salt := 15, Pepper := 3]
  {
    var db := ScenarioDb();
    var rows := db.amounts;
    ScenarioFourRows();
    GroupStep(db, 0, rows, 4, map[Potato := 300, Salt := 15], Pepper);
    assert rows[..5] == rows;
  }
}
