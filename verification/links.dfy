/** Favorites and the shopping cart from the user's side: the
    `is_favorited` / `is_in_shopping_cart` flags of `RecipeListSerializer`,
    the boolean filters of `RecipeFilter` (backend/api/filters.py), the
    `FavoriteSerializer` validation (backend/api/serializers/favorite.py) and
    the add/remove actions of `RecipeViewSet` (backend/api/views/recipe.py).
    Both tables hold `(user, recipe)` pairs and behave alike, so one set of
    operations takes the table as an argument. */
module Links {
  import opened Wrappers
  import opened Seqs
  import opened Store
  import opened RecipeApi

  datatype Table = Favorites | Carts

  function LinksOf(db: Db, t: Table): set<Link>
  {
    match t
    case Favorites => db.favorites
    case Carts => db.carts
  }

  /** The store with table `t` replaced by `links`. */
  function WithLinks(db: Db, t: Table, links: set<Link>): (r: Db)
    ensures LinksOf(r, t) == links
  {
    match t
    case Favorites => db.(favorites := links)
    case Carts => db.(carts := links)
  }

  // ---------------------------------------------------------------------------
  // Queries

  /** `get_is_favorited` / `get_is_in_shopping_cart`: false for an anonymous
      viewer, otherwise whether the viewer's row for the recipe exists. */
  function IsLinked(db: Db, t: Table, v: Viewer, recipe: Id): bool
  {
    match v
    case Anonymous => false
    case Member(u) => Link(u, recipe) in LinksOf(db, t)
  }

  datatype FilterError =
    | AnonymousFilter  // the join on `user=request.user` cannot take an anonymous user

  /** `filter_is_favorited` / `filter_is_in_shopping_cart` on a listing of
      recipe ids: `false` passes the listing through, `true` keeps the
      viewer's recipes in listing order. */
  function FilterLinked(db: Db, t: Table, v: Viewer, listing: seq<Id>, value: bool): (r: Result<seq<Id>, FilterError>)
    ensures !value ==> r == Success(listing)
    ensures value && v.Anonymous? ==> r == Failure(AnonymousFilter)
    ensures r.Success? ==> |r.value| <= |listing|
  {
    if !value then Success(listing)
    else match v
      case Anonymous => Failure(AnonymousFilter)
      case Member(u) => Success(Filter(listing, (k: Id) => Link(u, k) in LinksOf(db, t)))
  }

  /** The `true` filter keeps exactly the recipes whose flag the serializer
      shows as true, and keeps them in listing order. */
  lemma FilterAgreesWithFlag(db: Db, t: Table, u: Id, listing: seq<Id>)
    ensures FilterLinked(db, t, Member(u), listing, true).Success?
    ensures var kept := FilterLinked(db, t, Member(u), listing, true).value;
      && (forall k :: k in kept <==> k in listing && IsLinked(db, t, Member(u), k))
      && FilterLinked(db, t, Member(u), kept, true) == Success(kept)
  {
    FilterTwice(listing, (k: Id) => Link(u, k) in LinksOf(db, t));
  }

  // ---------------------------------------------------------------------------
  // Favorite validation

  datatype Validation =
    | ReturnsFalse          // no request, or an anonymous user
    | AlreadyFavorited      // ValidationError: the favorite exists
    | Passes(data: Link)    // the data, unchanged

  /** `FavoriteSerializer.validate`; `request` is the viewer of the request
      in the serializer's context, if there is one. The existing-row check
      uses the requesting user, not the user in `data`. */
  function FavoriteValidate(db: Db, request: Option<Viewer>, data: Link): (r: Validation)
    ensures r.ReturnsFalse? <==> request.None? || request.value.Anonymous?
    ensures r.AlreadyFavorited? <==>
      request.Some? && request.value.Member? && Link(request.value.id, data.recipe) in db.favorites
    ensures r.Passes? ==> r.data == data
  {
    match request
    case None => ReturnsFalse
    case Some(Anonymous) => ReturnsFalse
    case Some(Member(u)) =>
      if Link(u, data.recipe) in db.favorites then AlreadyFavorited else Passes(data)
  }

  // ---------------------------------------------------------------------------
  // Mutations

  datatype LinkError =
    | Unauthorized          // 401: the actions require an authenticated user
    | UnknownRecipe         // 400: the `recipe` primary key names no recipe
    | AlreadyLinked         // 400: the row exists
    | NoSuchRow             // 404: no such recipe, or no such row

  /** `post_method_for_actions` with `FavoriteSerializer` or
      `ShoppingCartSerializer`: the data `{user: request.user.id, recipe: pk}`
      is validated and saved, and the answer is the short form of the
      recipe. The favorite's duplicate check is `FavoriteSerializer.validate`;
      the cart's is the `unique_shopping_cart` constraint. */
  function AddLink(db: Db, t: Table, v: Viewer, pk: Id): (r: (Db, Result<ShortRecipe, LinkError>))
    requires Authenticated(db, v)
    ensures r.1.Failure? ==> r.0 == db
    ensures v.Anonymous? ==> r.1 == Failure(Unauthorized)
    ensures v.Member? && pk !in db.recipes ==> r.1 == Failure(UnknownRecipe)
    ensures v.Member? && pk in db.recipes && Link(v.id, pk) in LinksOf(db, t) ==> r.1 == Failure(AlreadyLinked)
    ensures r.1.Success? <==> v.Member? && pk in db.recipes && Link(v.id, pk) !in LinksOf(db, t)
    ensures r.1.Success? ==>
      && r.1.value == Short(db, pk)
      && LinksOf(r.0, t) == LinksOf(db, t) + {Link(v.id, pk)}
      && r.0 == WithLinks(db, t, LinksOf(r.0, t))
  {
    match v
    case Anonymous => (db, Failure(Unauthorized))
    case Member(u) =>
      if pk !in db.recipes then (db, Failure(UnknownRecipe))
      else
        var link := Link(u, pk);
        var duplicate :=
          match t
          case Favorites => FavoriteValidate(db, Some(v), link).AlreadyFavorited?
          case Carts => link in db.carts;
        if duplicate then (db, Failure(AlreadyLinked))
        else (WithLinks(db, t, LinksOf(db, t) + {link}), Success(Short(db, pk)))
  }

  /** `delete_method_for_actions`: 404 for an unknown recipe or a missing
      row, otherwise that one row is deleted (204). */
  function RemoveLink(db: Db, t: Table, v: Viewer, pk: Id): (r: (Db, Result<(), LinkError>))
    ensures r.1.Failure? ==> r.0 == db
    ensures v.Anonymous? ==> r.1 == Failure(Unauthorized)
    ensures v.Member? && (pk !in db.recipes || Link(v.id, pk) !in LinksOf(db, t)) ==> r.1 == Failure(NoSuchRow)
    ensures r.1.Success? <==> v.Member? && pk in db.recipes && Link(v.id, pk) in LinksOf(db, t)
    ensures r.1.Success? ==>
      && LinksOf(r.0, t) == LinksOf(db, t) - {Link(v.id, pk)}
      && r.0 == WithLinks(db, t, LinksOf(r.0, t))
  {
    match v
    case Anonymous => (db, Failure(Unauthorized))
    case Member(u) =>
      if pk !in db.recipes then (db, Failure(NoSuchRow))
      else if Link(u, pk) !in LinksOf(db, t) then (db, Failure(NoSuchRow))
      else (WithLinks(db, t, LinksOf(db, t) - {Link(u, pk)}), Success(()))
  }

  /** Adding and then removing a row gives back the store; the flag is true
      in between and false after. */
  lemma AddThenRemove(db: Db, t: Table, v: Viewer, pk: Id)
    requires Authenticated(db, v)
    ensures var a := AddLink(db, t, v, pk);
      a.1.Success? ==>
        && IsLinked(a.0, t, v, pk)
        && RemoveLink(a.0, t, v, pk) == (db, Success(()))
        && !IsLinked(db, t, v, pk)
  {
    var a := AddLink(db, t, v, pk);
    if a.1.Success? {
      assert LinksOf(db, t) + {Link(v.id, pk)} - {Link(v.id, pk)} == LinksOf(db, t);
    }
  }

  /** Removing and then adding a row gives back the store. */
  lemma RemoveThenAdd(db: Db, t: Table, v: Viewer, pk: Id)
    requires Authenticated(db, v)
    ensures var d := RemoveLink(db, t, v, pk);
      d.1.Success? ==>
        && !IsLinked(d.0, t, v, pk)
        && AddLink(d.0, t, v, pk) == (db, Success(Short(db, pk)))
  {
    var d := RemoveLink(db, t, v, pk);
    if d.1.Success? {
      assert LinksOf(db, t) - {Link(v.id, pk)} + {Link(v.id, pk)} == LinksOf(db, t);
      assert WithLinks(db, t, LinksOf(db, t)) == db;
    }
  }

  /** Only the viewer's own row for that recipe changes; every other row of
      either table, other users' included, stays as it was. */
  lemma LinkChangesOneRow(db: Db, t: Table, v: Viewer, pk: Id, other: Link)
    requires Authenticated(db, v)
    requires v.Member? ==> other != Link(v.id, pk)
    ensures other in LinksOf(AddLink(db, t, v, pk).0, t) <==> other in LinksOf(db, t)
    ensures other in LinksOf(RemoveLink(db, t, v, pk).0, t) <==> other in LinksOf(db, t)
    ensures forall t' :: t' != t ==>
      LinksOf(AddLink(db, t, v, pk).0, t') == LinksOf(db, t')
      && LinksOf(RemoveLink(db, t, v, pk).0, t') == LinksOf(db, t')
  {
  }

  /** Adding and removing rows keeps every constraint and rule. */
  lemma LinksPreserve(db: Db, t: Table, v: Viewer, pk: Id)
    requires Valid(db) && Checked(db) && Authenticated(db, v)
    ensures Valid(AddLink(db, t, v, pk).0) && Checked(AddLink(db, t, v, pk).0)
    ensures Valid(RemoveLink(db, t, v, pk).0) && Checked(RemoveLink(db, t, v, pk).0)
  {
    var a := AddLink(db, t, v, pk);
    if a.1.Success? {
      WithLinksValid(db, t, LinksOf(a.0, t));
    }
    var d := RemoveLink(db, t, v, pk);
    if d.1.Success? {
      WithLinksValid(db, t, LinksOf(d.0, t));
    }
  }

  /** A table whose rows name stored users and recipes keeps the store valid. */
  lemma WithLinksValid(db: Db, t: Table, links: set<Link>)
    requires Valid(db) && Checked(db)
    requires forall l :: l in links ==> l.user in db.users && l.recipe in db.recipes
    ensures Valid(WithLinks(db, t, links)) && Checked(WithLinks(db, t, links))
  {
  }
}
