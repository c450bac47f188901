/**
  `CategoryViewSet.delete_restaurant_to_category`: detaching one restaurant
  from a category.  Unlike attaching, it asks only for authorship of the
  detached restaurant's organization.
*/
module MenuViews {

  import opened Http
  import opened OrganizationModels
  import opened MenuModels
  import opened Database
  import opened MenuSerializers

  const NOT_IN_CATEGORY := "Restaurant not in category"

  /** The category table with restaurant `r` taken out of category `k`. */
  function RemoveLink(t: map<CatalogId, Catalog>, k: CatalogId, r: RestaurantId): (t': map<CatalogId, Catalog>)
    requires k in t
    ensures t'.Keys == t.Keys
    ensures t'[k].name == t[k].name && t'[k].restaurant == t[k].restaurant - {r}
    ensures forall k' :: k' in t && k' != k ==> t'[k'] == t[k']
  {
    t[k := t[k].(restaurant := t[k].restaurant - {r})]
  }

  /**
    Guards in source order (404 category, 404 restaurant, 403, 404 not
    attached); on success the one link row is deleted.
  */
  method DetachRestaurant(db: Db, requester: UserId, categoryId: CatalogId, restaurantId: RestaurantId)
    returns (r: Reply)
    requires db.Valid()
    modifies db
    ensures db.Valid()
    ensures r.Error? ==> db.State() == old(db.State())
    ensures categoryId !in old(db.categories) ==> r == Error(HTTP_404_NOT_FOUND, CatalogNotFound(CategoryKind))
    ensures categoryId in old(db.categories) && restaurantId !in old(db.restaurants) ==>
              r == Error(HTTP_404_NOT_FOUND, RESTAURANT_NOT_FOUND)
    ensures categoryId in old(db.categories) && restaurantId in old(db.restaurants) ==>
              && (!old(db.State()).AuthorsRestaurant(requester, restaurantId) ==>
                    r == Error(HTTP_403_FORBIDDEN, NOT_RESTAURANT_AUTHOR))
              && (old(db.State()).AuthorsRestaurant(requester, restaurantId) &&
                  restaurantId !in old(db.categories[categoryId].restaurant) ==>
                    r == Error(HTTP_404_NOT_FOUND, NOT_IN_CATEGORY))
    ensures r == Ok <==>
              && categoryId in old(db.categories) && restaurantId in old(db.restaurants)
              && old(db.State()).AuthorsRestaurant(requester, restaurantId)
              && restaurantId in old(db.categories[categoryId].restaurant)
    ensures r == Ok ==>
              && db.categories == RemoveLink(old(db.categories), categoryId, restaurantId)
              && restaurantId !in db.categories[categoryId].restaurant
              && db.State() == old(db.State()).(categories := db.categories)
  {
    if categoryId !in db.categories {
      return Error(HTTP_404_NOT_FOUND, CatalogNotFound(CategoryKind));
    }
    if restaurantId !in db.restaurants {
      return Error(HTTP_404_NOT_FOUND, RESTAURANT_NOT_FOUND);
    }
    var organization := db.organizations[db.State().OwnerOf(restaurantId)];
    if requester !in organization.authors {
      return Error(HTTP_403_FORBIDDEN, NOT_RESTAURANT_AUTHOR);
    }
    if restaurantId !in db.categories[categoryId].restaurant {
      return Error(HTTP_404_NOT_FOUND, NOT_IN_CATEGORY);
    }
    db.categories := RemoveLink(db.categories, categoryId, restaurantId);
    assert UniqueCatalogNames(db.categories);
    r := Ok;
  }

  /** A second detach of the same pair, right after a successful one, finds nothing to detach. */
  method DetachTwice(db: Db, requester: UserId, categoryId: CatalogId, restaurantId: RestaurantId)
    returns (first: Reply, second: Reply)
    requires db.Valid()
    modifies db
    ensures first == Ok ==> second == Error(HTTP_404_NOT_FOUND, NOT_IN_CATEGORY)
  {
    first := DetachRestaurant(db, requester, categoryId, restaurantId);
    second := DetachRestaurant(db, requester, categoryId, restaurantId);
  }
}
