/**
  The menu serializers that guard the Category/Kitchen -> Restaurant links:
  the write validation of a whole restaurant list, and attaching one
  restaurant, which needs authorship of the new restaurant's organization
  and of the organization of every restaurant already attached.
*/
module MenuSerializers {

  import opened Wrappers
  import opened Http
  import opened OrganizationModels
  import opened MenuModels
  import opened Database

  const EXPECTED_LIST := "Expected a list of restaurant IDs"
  const RESTAURANTS_NOT_FOUND := "One or more restaurants not found"
  const NOT_RESTAURANT_AUTHOR := "You are not an author of this restaurant"
  const RESTAURANT_NOT_FOUND := "Restaurant not found"
  const ALREADY_ATTACHED := "Restaurant already in category"

  /** Category and Kitchen share their serializer code; only the table and one message differ. */
  datatype CatalogKind = CategoryKind | KitchenKind

  function Table(s: Store, kind: CatalogKind): map<CatalogId, Catalog> {
    match kind
    case CategoryKind => s.categories
    case KitchenKind => s.kitchens
  }

  function WithTable(s: Store, kind: CatalogKind, t: map<CatalogId, Catalog>): (r: Store)
    ensures Table(r, kind) == t
  {
    match kind
    case CategoryKind => s.(categories := t)
    case KitchenKind => s.(kitchens := t)
  }

  function CatalogNotFound(kind: CatalogKind): string {
    match kind
    case CategoryKind => "Category not found"
    case KitchenKind => "Kitchen not found"
  }

  lemma TableValid(s: Store, kind: CatalogKind)
    requires s.Valid()
    ensures forall k :: k in Table(s, kind) ==> Table(s, kind)[k].restaurant <= s.restaurants.Keys
  {
  }

  /** A set with a positive size has an element: what lets a loop pick its next row. */
  lemma NonEmptyHasElement(rows: set<RestaurantId>)
    requires |rows| > 0
    ensures exists x :: x in rows
  {
    if forall x :: x !in rows {
      assert false;
    }
  }

  predicate Distinct(ids: seq<int>) {
    forall i, j :: 0 <= i < j < |ids| ==> ids[i] != ids[j]
  }

  /** `Restaurant.objects.filter(id__in=ids)`: the distinct existing restaurants among `ids`. */
  function FoundRestaurants(s: Store, ids: seq<int>): (found: set<RestaurantId>)
    ensures found <= s.restaurants.Keys
    ensures forall i :: i in found ==> i in ids
    ensures forall i :: i in ids && i in s.restaurants ==> i in found
  {
    set i | i in ids && i in s.restaurants
  }

  /**
    The lookup finds as many rows as the list has ids exactly when the ids
    are distinct and all exist.
  */
  lemma {:induction false} FoundCount(s: Store, ids: seq<int>)
    ensures |FoundRestaurants(s, ids)| <= |ids|
    ensures |FoundRestaurants(s, ids)| == |ids| <==> Distinct(ids) && forall i :: i in ids ==> i in s.restaurants
  {
    if ids == [] {
      assert FoundRestaurants(s, ids) == {};
    } else {
      var x, t := ids[0], ids[1..];
      FoundCount(s, t);
      assert ids == [x] + t;
      assert Distinct(ids) <==> x !in t && Distinct(t) by {
        if x in t {
          var j :| 0 <= j < |t| && t[j] == x;
          assert ids[0] == ids[j + 1];
        }
        if Distinct(ids) {
          assert forall i, j :: 0 <= i < j < |t| ==> t[i] == ids[i + 1] && t[j] == ids[j + 1];
        }
      }
      if x in s.restaurants && x !in t {
        assert FoundRestaurants(s, ids) == FoundRestaurants(s, t) + {x};
      } else {
        assert FoundRestaurants(s, ids) == FoundRestaurants(s, t);
      }
    }
  }

  /**
    `PostPatchCategorySerializer.validate` (and the identical
    `PostPatchKitchenSerializer.validate`).  `data` is None when the request
    carries no `restaurant` list.
  */
  function WriteVerdict(s: Store, requester: UserId, data: Option<seq<int>>): (v: Validation)
    requires s.Valid()
    ensures v == Passed <==>
              && data.Some? && Distinct(data.value)
              && forall i :: i in data.value ==> i in s.restaurants && s.AuthorsRestaurant(requester, i)
    ensures data.None? ==> v == Rejected(EXPECTED_LIST)
    ensures data.Some? && !Distinct(data.value) ==> v == Rejected(RESTAURANTS_NOT_FOUND)
    ensures data.Some? && (exists i :: i in data.value && i !in s.restaurants)
            ==> v == Rejected(RESTAURANTS_NOT_FOUND)
    ensures data.Some? && Distinct(data.value) && (forall i :: i in data.value ==> i in s.restaurants) &&
            (exists i :: i in data.value && !s.AuthorsRestaurant(requester, i))
            ==> v == Rejected(NOT_RESTAURANT_AUTHOR)
    ensures v.Rejected? ==> v.message in {EXPECTED_LIST, RESTAURANTS_NOT_FOUND, NOT_RESTAURANT_AUTHOR}
  {
    if data.None? then Rejected(EXPECTED_LIST)
    else
      var found := FoundRestaurants(s, data.value);
      FoundCount(s, data.value);
      if |found| != |data.value| then Rejected(RESTAURANTS_NOT_FOUND)
      else if exists r :: r in found && !s.AuthorsRestaurant(requester, r) then Rejected(NOT_RESTAURANT_AUTHOR)
      else Passed
  }

  /** The write validation as the serializer runs it: one lookup, then a loop over the rows found. */
  method ValidateRestaurantList(s: Store, requester: UserId, data: Option<seq<int>>) returns (v: Validation)
    requires s.Valid()
    ensures v == WriteVerdict(s, requester, data)
  {
    if data.None? {
      return Rejected(EXPECTED_LIST);
    }
    var found := FoundRestaurants(s, data.value);
    if |found| != |data.value| {
      return Rejected(RESTAURANTS_NOT_FOUND);
    }
    var rest := found;
    while |rest| > 0
      invariant rest <= found
      invariant forall r :: r in found && r !in rest ==> s.AuthorsRestaurant(requester, r)
      decreases rest
    {
      NonEmptyHasElement(rest);
      var x :| x in rest;
      if !s.AuthorsRestaurant(requester, x) {
        return Rejected(NOT_RESTAURANT_AUTHOR);
      }
      rest := rest - {x};
    }
    return Passed;
  }

  /**
    `AddRestaurantToCategorySerializer.validate` (and the Kitchen one): the
    catalog exists, the restaurant exists, the requester authors the
    restaurant's organization, it is not attached yet, and the requester
    authors the organization of every restaurant already attached.
  */
  function AttachVerdict(s: Store, kind: CatalogKind, requester: UserId,
                         catalogId: CatalogId, restaurantId: RestaurantId): (v: Validation)
    requires s.Valid()
    ensures v == Passed <==>
              && catalogId in Table(s, kind) && restaurantId in s.restaurants
              && restaurantId !in Table(s, kind)[catalogId].restaurant
              && forall r :: r in Table(s, kind)[catalogId].restaurant + {restaurantId} ==>
                   r in s.restaurants && s.AuthorsRestaurant(requester, r)
    ensures catalogId !in Table(s, kind) ==> v == Rejected(CatalogNotFound(kind))
    ensures catalogId in Table(s, kind) && restaurantId !in s.restaurants ==> v == Rejected(RESTAURANT_NOT_FOUND)
    ensures catalogId in Table(s, kind) && restaurantId in s.restaurants &&
            !s.AuthorsRestaurant(requester, restaurantId)
            ==> v == Rejected(NOT_RESTAURANT_AUTHOR)
    ensures catalogId in Table(s, kind) && restaurantId in Table(s, kind)[catalogId].restaurant ==>
              v == Rejected(if s.AuthorsRestaurant(requester, restaurantId) then ALREADY_ATTACHED
                            else NOT_RESTAURANT_AUTHOR)
    ensures catalogId in Table(s, kind) && restaurantId in s.restaurants &&
            restaurantId !in Table(s, kind)[catalogId].restaurant &&
            (exists r :: r in Table(s, kind)[catalogId].restaurant && !s.AuthorsRestaurant(requester, r))
            ==> v == Rejected(NOT_RESTAURANT_AUTHOR)
    ensures v.Rejected? ==>
              v.message in {CatalogNotFound(kind), RESTAURANT_NOT_FOUND, NOT_RESTAURANT_AUTHOR, ALREADY_ATTACHED}
  {
    TableValid(s, kind);
    var table := Table(s, kind);
    if catalogId !in table then Rejected(CatalogNotFound(kind))
    else if restaurantId !in s.restaurants then Rejected(RESTAURANT_NOT_FOUND)
    else if !s.AuthorsRestaurant(requester, restaurantId) then Rejected(NOT_RESTAURANT_AUTHOR)
    else if restaurantId in table[catalogId].restaurant then Rejected(ALREADY_ATTACHED)
    else if exists r :: r in table[catalogId].restaurant && !s.AuthorsRestaurant(requester, r)
    then Rejected(NOT_RESTAURANT_AUTHOR)
    else Passed
  }

  /** The attach validation as the serializer runs it, looping over the attached restaurants. */
  method ValidateAttach(s: Store, kind: CatalogKind, requester: UserId,
                        catalogId: CatalogId, restaurantId: RestaurantId) returns (v: Validation)
    requires s.Valid()
    ensures v == AttachVerdict(s, kind, requester, catalogId, restaurantId)
  {
    TableValid(s, kind);
    var table := Table(s, kind);
    if catalogId !in table {
      return Rejected(CatalogNotFound(kind));
    }
    if restaurantId !in s.restaurants {
      return Rejected(RESTAURANT_NOT_FOUND);
    }
    if !s.AuthorsRestaurant(requester, restaurantId) {
      return Rejected(NOT_RESTAURANT_AUTHOR);
    }
    var attached := table[catalogId].restaurant;
    if restaurantId in attached {
      return Rejected(ALREADY_ATTACHED);
    }
    var rest := attached;
    while |rest| > 0
      invariant rest <= attached
      invariant forall r :: r in attached && r !in rest ==> s.AuthorsRestaurant(requester, r)
      decreases rest
    {
      NonEmptyHasElement(rest);
      var x :| x in rest;
      if !s.AuthorsRestaurant(requester, x) {
        return Rejected(NOT_RESTAURANT_AUTHOR);
      }
      rest := rest - {x};
    }
    return Passed;
  }

  /** The catalog table with restaurant `r` added to catalog `k`. */
  function AddLink(t: map<CatalogId, Catalog>, k: CatalogId, r: RestaurantId): (t': map<CatalogId, Catalog>)
    requires k in t
    ensures t'.Keys == t.Keys
    ensures t'[k].name == t[k].name && t'[k].restaurant == t[k].restaurant + {r}
    ensures forall k' :: k' in t && k' != k ==> t'[k'] == t[k']
  {
    t[k := t[k].(restaurant := t[k].restaurant + {r})]
  }

  /**
    The attach serializer validated and saved: on success `create` adds
    exactly that restaurant to the catalog's set.
  */
  method AttachRestaurant(db: Db, kind: CatalogKind, requester: UserId,
                          catalogId: CatalogId, restaurantId: RestaurantId) returns (v: Validation)
    requires db.Valid()
    modifies db
    ensures db.Valid()
    ensures v == AttachVerdict(old(db.State()), kind, requester, catalogId, restaurantId)
    ensures v.Rejected? ==> db.State() == old(db.State())
    ensures v == Passed ==>
              db.State() == WithTable(old(db.State()), kind, AddLink(old(Table(db.State(), kind)), catalogId, restaurantId))
  {
    v := ValidateAttach(db.State(), kind, requester, catalogId, restaurantId);
    if v == Passed {
      var t := AddLink(Table(db.State(), kind), catalogId, restaurantId);
      match kind {
        case CategoryKind => db.categories := t;
        case KitchenKind => db.kitchens := t;
      }
      assert UniqueCatalogNames(t);
    }
  }

  /**
    The shared-catalog rule: an author of the new restaurant's organization
    is refused when some restaurant already attached belongs to an
    organization they do not author.
  */
  lemma SharedCatalogNeedsEveryOrganization(s: Store, kind: CatalogKind, requester: UserId,
                                            catalogId: CatalogId, restaurantId: RestaurantId, attachedId: RestaurantId)
    requires s.Valid() && catalogId in Table(s, kind) && restaurantId in s.restaurants
    requires restaurantId !in Table(s, kind)[catalogId].restaurant
    requires s.AuthorsRestaurant(requester, restaurantId)
    requires attachedId in Table(s, kind)[catalogId].restaurant && attachedId in s.restaurants
    requires !s.AuthorsRestaurant(requester, attachedId)
    ensures AttachVerdict(s, kind, requester, catalogId, restaurantId) == Rejected(NOT_RESTAURANT_AUTHOR)
  {
  }
}
