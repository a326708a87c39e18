/** Subscriptions: `FollowAPIView.post` / `delete` (backend/api/views/follows.py)
    and the author representation of `FollowSerializer`
    (backend/api/serializers/follows.py) with its `recipes_limit` truncation
    of the author's recipes, newest first as `Recipe.Meta.ordering` asks. */
module Follows {
  import opened Wrappers
  import opened Seqs
  import opened Decimal
  import opened Store
  import opened RecipeApi

  // ---------------------------------------------------------------------------
  // The author's recipes, newest first

  function PubDate(db: Db, k: Id): int
    requires k in db.recipes
  {
    db.recipes[k].pubDate
  }

  predicate AllRecipes(db: Db, s: seq<Id>)
  {
    forall i :: 0 <= i < |s| ==> s[i] in db.recipes
  }

  /** `ordering = ('-pub_date',)`. */
  predicate NewestFirst(db: Db, s: seq<Id>)
    requires AllRecipes(db, s)
  {
    forall i, j :: 0 <= i < j < |s| ==> PubDate(db, s[i]) >= PubDate(db, s[j])
  }

  /** Places `k` after every recipe at least as recent. */
  function InsertByDate(db: Db, k: Id, s: seq<Id>): (r: seq<Id>)
    requires k in db.recipes && AllRecipes(db, s)
    ensures |r| == |s| + 1
    ensures forall x :: x in r <==> x == k || x in s
    ensures AllRecipes(db, r)
  {
    if |s| == 0 then [k]
    else if PubDate(db, s[0]) >= PubDate(db, k) then [s[0]] + InsertByDate(db, k, s[1..])
    else [k] + s
  }

  /** Dropping the newest recipe keeps a listing sorted and distinct. */
  lemma TailSorted(db: Db, s: seq<Id>)
    requires AllRecipes(db, s) && NewestFirst(db, s) && Distinct(s) && |s| > 0
    ensures AllRecipes(db, s[1..]) && NewestFirst(db, s[1..]) && Distinct(s[1..])
  {
    var tail := s[1..];
    forall i, j | 0 <= i < j < |tail|
      ensures PubDate(db, tail[i]) >= PubDate(db, tail[j]) && tail[i] != tail[j]
    {
      assert tail[i] == s[i + 1] && tail[j] == s[j + 1];
    }
  }

  lemma {:induction false} InsertByDateSorted(db: Db, k: Id, s: seq<Id>)
    requires k in db.recipes && AllRecipes(db, s)
    requires NewestFirst(db, s) && Distinct(s) && k !in s
    ensures NewestFirst(db, InsertByDate(db, k, s)) && Distinct(InsertByDate(db, k, s))
  {
    var r := InsertByDate(db, k, s);
    if |s| > 0 && PubDate(db, s[0]) >= PubDate(db, k) {
      var tail := s[1..];
      TailSorted(db, s);
      InsertByDateSorted(db, k, tail);
      var rest := InsertByDate(db, k, tail);
      forall j | 0 < j < |r|
        ensures PubDate(db, s[0]) >= PubDate(db, r[j]) && s[0] != r[j]
      {
        assert r[j] == rest[j - 1];
        assert r[j] in rest;
        if r[j] != k {
          var m :| 0 <= m < |tail| && tail[m] == r[j];
          assert s[m + 1] == r[j];
        }
      }
    } else if |s| > 0 {
      forall j | 0 < j < |r|
        ensures PubDate(db, k) >= PubDate(db, r[j]) && k != r[j]
      {
        assert r[j] == s[j - 1];
      }
    }
  }

  /** The recipes of `author` among the ids in `[from, bound)`, newest first;
      among recipes of the same date, the higher id first (each lower id is
      placed after every recipe at least as recent). */
  function Collect(db: Db, author: Id, from: Id, bound: Id): (r: seq<Id>)
    decreases bound - from
    ensures AllRecipes(db, r)
    ensures forall k :: k in r <==> from <= k < bound && k in db.recipes && db.recipes[k].author == author
  {
    if from >= bound then []
    else
      var rest := Collect(db, author, from + 1, bound);
      if from in db.recipes && db.recipes[from].author == author then InsertByDate(db, from, rest)
      else rest
  }

  lemma {:induction false} CollectSorted(db: Db, author: Id, from: Id, bound: Id)
    decreases bound - from
    ensures NewestFirst(db, Collect(db, author, from, bound))
    ensures Distinct(Collect(db, author, from, bound))
  {
    if from < bound {
      CollectSorted(db, author, from + 1, bound);
      var rest := Collect(db, author, from + 1, bound);
      if from in db.recipes && db.recipes[from].author == author {
        InsertByDateSorted(db, from, rest);
      }
    }
  }

  /** `obj.recipes.all()`: the author's recipes in the model's ordering. */
  function Listing(db: Db, author: Id): seq<Id>
  {
    Collect(db, author, 0, db.nextId)
  }

  /** The listing holds each of the author's recipes once, and nothing
      else, newest first; its length is the author's recipe count. */
  lemma ListingExact(db: Db, author: Id)
    requires Valid(db)
    ensures AllRecipes(db, Listing(db, author))
    ensures forall k :: k in Listing(db, author) <==> k in AuthoredBy(db, author)
    ensures NewestFirst(db, Listing(db, author)) && Distinct(Listing(db, author))
    ensures |Listing(db, author)| == |AuthoredBy(db, author)|
  {
    var s := Listing(db, author);
    CollectSorted(db, author, 0, db.nextId);
    DistinctCard(s);
    assert Elements(s) == AuthoredBy(db, author);
  }

  // ---------------------------------------------------------------------------
  // recipes_limit

  datatype LimitError =
    | NotAnInteger     // `int(recipes_limit)` raises ValueError
    | NegativeLimit    // a queryset refuses negative slicing

  /** `int(s)` for an optional sign followed by decimal digits. */
  function ParseInt(s: string): Option<int>
  {
    if |s| >= 2 && s[0] == '-' && AllDigits(s[1..]) then Some(-(Read(s[1..]) as int))
    else if |s| >= 2 && s[0] == '+' && AllDigits(s[1..]) then Some(Read(s[1..]))
    else if |s| >= 1 && AllDigits(s) then Some(Read(s))
    else None
  }

  function Min(a: int, b: int): int
  {
    if a <= b then a else b
  }

  /** `get_recipes`' truncation: an absent or empty `recipes_limit` keeps
      every recipe (the empty string is falsy), otherwise the listing is
      sliced to `[:int(recipes_limit)]`. */
  function Limit(listing: seq<Id>, param: Option<string>): (r: Result<seq<Id>, LimitError>)
    ensures param.None? || param == Some("") ==> r == Success(listing)
    ensures r.Success? ==> StartsWith(listing, r.value)
    ensures param.Some? && param.value != "" ==>
      match ParseInt(param.value)
      case None => r == Failure(NotAnInteger)
      case Some(n) =>
        && (n < 0 ==> r == Failure(NegativeLimit))
        && (n >= 0 ==> r.Success? && |r.value| == Min(n, |listing|))
  {
    match param
    case None => Success(listing)
    case Some(s) =>
      if s == "" then Success(listing)
      else match ParseInt(s)
        case None => Failure(NotAnInteger)
        case Some(n) =>
          if n < 0 then Failure(NegativeLimit)
          else Success(listing[..Min(n, |listing|)])
  }

  lemma ParseShow(n: nat)
    ensures ParseInt(Show(n)) == Some(n)
    ensures ParseInt("-" + Show(n)) == Some(0 - n)
  {
    ReadShow(n);
    assert ("-" + Show(n))[1..] == Show(n);
  }

  /** A limit written the way a client writes a number keeps the first `n`
      recipes, or all of them when there are fewer; "0" keeps none. A
      negative one is refused. */
  lemma LimitShown(listing: seq<Id>, n: nat)
    ensures Limit(listing, Some(Show(n))) == Success(listing[..Min(n, |listing|)])
    ensures n > 0 ==> Limit(listing, Some("-" + Show(n))) == Failure(NegativeLimit)
  {
    ParseShow(n);
  }

  // ---------------------------------------------------------------------------
  // The author representation

  datatype AuthorView = AuthorView(
    id: Id,
    email: string,
    username: string,
    firstName: string,
    lastName: string,
    isSubscribed: bool,
    recipes: seq<ShortRecipe>,
    recipesCount: nat)

  /** `get_is_subscribed`: false for an anonymous viewer, otherwise whether
      the viewer follows the author. */
  function IsSubscribed(db: Db, v: Viewer, author: Id): bool
  {
    match v
    case Anonymous => false
    case Member(u) => Follow(u, author) in db.follows
  }

  function Shorts(db: Db, ids: seq<Id>): (r: seq<ShortRecipe>)
    requires AllRecipes(db, ids)
    ensures |r| == |ids|
    ensures forall i :: 0 <= i < |ids| ==> r[i] == Short(db, ids[i])
  {
    seq(|ids|, i requires 0 <= i < |ids| => Short(db, ids[i]))
  }

  /** `FollowSerializer(author).data` for a request from `v` with the query
      parameter `param`. */
  function Represent(db: Db, v: Viewer, author: Id, param: Option<string>): (r: Result<AuthorView, LimitError>)
    requires author in db.users
    ensures r.Success? <==> Limit(Listing(db, author), param).Success?
    ensures r.Success? ==>
      && r.value.id == author && r.value.email == db.users[author].email
      && r.value.isSubscribed == IsSubscribed(db, v, author)
  {
    var u := db.users[author];
    var listing := Listing(db, author);
    match Limit(listing, param)
    case Failure(e) => Failure(e)
    case Success(shown) =>
      Success(AuthorView(author, u.email, u.username, u.firstName, u.lastName,
                         IsSubscribed(db, v, author), Shorts(db, shown), |listing|))
  }

  /** The representation shows a prefix of the author's recipes, newest
      first, only the author's; without a limit it shows all of them. The
      count is the author's number of recipes whatever the limit. */
  lemma RepresentRecipes(db: Db, v: Viewer, author: Id, param: Option<string>)
    requires Valid(db) && author in db.users
    ensures var r := Represent(db, v, author, param);
      r.Success? ==>
        && r.value.recipesCount == |AuthoredBy(db, author)|
        && |r.value.recipes| <= r.value.recipesCount
        && (forall i :: 0 <= i < |r.value.recipes| ==>
              && r.value.recipes[i].id in AuthoredBy(db, author)
              && r.value.recipes[i] == Short(db, Listing(db, author)[i]))
        && (forall i, j :: 0 <= i < j < |r.value.recipes| ==>
              db.recipes[r.value.recipes[i].id].pubDate >= db.recipes[r.value.recipes[j].id].pubDate)
        && (param.None? ==> |r.value.recipes| == r.value.recipesCount)
  {
    ListingExact(db, author);
    var listing := Listing(db, author);
    var r := Represent(db, v, author, param);
    if r.Success? {
      var shown := Limit(listing, param).value;
      assert shown == listing[..|shown|];
      forall i | 0 <= i < |r.value.recipes|
        ensures r.value.recipes[i].id in AuthoredBy(db, author)
      {
        assert shown[i] == listing[i];
        assert listing[i] in listing;
      }
    }
  }

  // ---------------------------------------------------------------------------
  // Follow and unfollow

  datatype FollowError =
    | Unauthorized            // 401: the view requires an authenticated user
    | UserNotFound            // 404: `get_object_or_404(User, id=user_id)`
    | FollowSelf              // 400: the target is the requesting user
    | AlreadyFollowing        // 400: the Follow row exists
    | NotFollowing            // 400: there is no Follow row to delete
    | BadLimit(cause: LimitError)  // the response body could not be built

  /** `FollowAPIView.post`: with no error, exactly one Follow row (viewer,
      target) is added and the answer is the target's representation. The
      row is committed before the representation is built, so a bad
      `recipes_limit` fails the request but keeps the row. */
  function FollowPost(db: Db, v: Viewer, target: Id, param: Option<string>): (r: (Db, Result<AuthorView, FollowError>))
    requires Authenticated(db, v)
    ensures v.Anonymous? ==> r == (db, Failure(Unauthorized))
    ensures v.Member? && target !in db.users ==> r == (db, Failure(UserNotFound))
    ensures v.Member? && target in db.users && target == v.id ==> r == (db, Failure(FollowSelf))
    ensures v.Member? && target in db.users && target != v.id && Follow(v.id, target) in db.follows ==>
      r == (db, Failure(AlreadyFollowing))
    ensures v.Member? && target in db.users && target != v.id && Follow(v.id, target) !in db.follows ==>
      && r.0 == db.(follows := db.follows + {Follow(v.id, target)})
      && (r.1.Success? <==> Limit(Listing(db, target), param).Success?)
      && (r.1.Success? ==> r.1.value.isSubscribed && r.1.value.id == target)
    ensures r.1.Success? ==> v.Member? && target in db.users && target != v.id && Follow(v.id, target) !in db.follows
  {
    match v
    case Anonymous => (db, Failure(Unauthorized))
    case Member(u) =>
      if target !in db.users then (db, Failure(UserNotFound))
      else if target == u then (db, Failure(FollowSelf))
      else if Follow(u, target) in db.follows then (db, Failure(AlreadyFollowing))
      else
        var db' := db.(follows := db.follows + {Follow(u, target)});
        match Represent(db', v, target, param)
        case Failure(e) => (db', Failure(BadLimit(e)))
        case Success(view) => (db', Success(view))
  }

  /** `FollowAPIView.delete`: an existing subscription is removed (204),
      a missing one is refused. */
  function FollowDelete(db: Db, v: Viewer, target: Id): (r: (Db, Result<(), FollowError>))
    ensures r.1.Failure? ==> r.0 == db
    ensures v.Anonymous? ==> r.1 == Failure(Unauthorized)
    ensures v.Member? && target !in db.users ==> r.1 == Failure(UserNotFound)
    ensures v.Member? && target in db.users && Follow(v.id, target) !in db.follows ==> r.1 == Failure(NotFollowing)
    ensures r.1.Success? <==> v.Member? && target in db.users && Follow(v.id, target) in db.follows
    ensures r.1.Success? ==> r.0 == db.(follows := db.follows - {Follow(v.id, target)})
  {
    match v
    case Anonymous => (db, Failure(Unauthorized))
    case Member(u) =>
      if target !in db.users then (db, Failure(UserNotFound))
      else if Follow(u, target) in db.follows then (db.(follows := db.follows - {Follow(u, target)}), Success(()))
      else (db, Failure(NotFollowing))
  }

  /** The view's identity test refuses exactly what `Follow.clean`'s
      username test refuses. */
  lemma SelfCheckAgreesWithClean(db: Db, u: Id, target: Id, param: Option<string>)
    requires Valid(db) && u in db.users && target in db.users
    ensures FollowPost(db, Member(u), target, param).1 == Failure(FollowSelf)
      <==> FollowClean(db, Follow(u, target)) == Some(SelfFollow)
  {
    FollowCleanRejectsSelf(db, Follow(u, target));
  }

  /** Following and then unfollowing gives back the store, and the viewer
      shows as subscribed in between. */
  lemma FollowThenUnfollow(db: Db, u: Id, target: Id, param: Option<string>)
    requires u in db.users
    ensures var p := FollowPost(db, Member(u), target, param);
      p.0 != db ==>
        && IsSubscribed(p.0, Member(u), target)
        && FollowDelete(p.0, Member(u), target) == (db, Success(()))
  {
    var p := FollowPost(db, Member(u), target, param);
    if p.0 != db {
      assert db.follows + {Follow(u, target)} - {Follow(u, target)} == db.follows;
    }
  }

  /** Unfollowing and then following again gives back the store. */
  lemma UnfollowThenFollow(db: Db, u: Id, target: Id, param: Option<string>)
    requires Checked(db) && u in db.users
    ensures var d := FollowDelete(db, Member(u), target);
      d.1.Success? ==>
        && !IsSubscribed(d.0, Member(u), target)
        && FollowPost(d.0, Member(u), target, param).0 == db
  {
    var d := FollowDelete(db, Member(u), target);
    if d.1.Success? {
      assert db.follows - {Follow(u, target)} + {Follow(u, target)} == db.follows;
    }
  }

  /** Follow and unfollow keep every constraint and rule; in particular no
      one ends up following themselves. */
  lemma FollowsPreserve(db: Db, v: Viewer, target: Id, param: Option<string>)
    requires Valid(db) && Checked(db) && Authenticated(db, v)
    ensures Valid(FollowPost(db, v, target, param).0) && Checked(FollowPost(db, v, target, param).0)
    ensures Valid(FollowDelete(db, v, target).0) && Checked(FollowDelete(db, v, target).0)
  {
    FollowPostPreserves(db, v, target, param);
    FollowDeletePreserves(db, v, target);
  }

  lemma FollowPostPreserves(db: Db, v: Viewer, target: Id, param: Option<string>)
    requires Valid(db) && Checked(db) && Authenticated(db, v)
    ensures Valid(FollowPost(db, v, target, param).0) && Checked(FollowPost(db, v, target, param).0)
  {
  }

  lemma FollowDeletePreserves(db: Db, v: Viewer, target: Id)
    requires Valid(db) && Checked(db) && Authenticated(db, v)
    ensures Valid(FollowDelete(db, v, target).0) && Checked(FollowDelete(db, v, target).0)
  {
  }
}
