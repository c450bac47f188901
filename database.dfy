/**
  The relational store both apps share: one table per model plus the
  many-to-many link tables, as a value (`Store`) and as the mutable
  database the views and serializers change in place (`Db`).
*/
module Database {

  import opened OrganizationModels
  import opened MenuModels

  datatype Store = Store(
    organizations: map<OrgId, Organization>,
    chains: map<ChainId, Chain>,
    restaurants: map<RestaurantId, Restaurant>,
    users: map<UserId, Membership>,
    categories: map<CatalogId, Catalog>,
    kitchens: map<CatalogId, Catalog>)
  {
    /**
      What the database enforces: every foreign key and every many-to-many
      link points at an existing row, and the unique names are unique.
    */
    ghost predicate Valid()
      ensures Valid() ==> forall r :: r in restaurants ==>
                restaurants[r].chain in chains && chains[restaurants[r].chain].organization in organizations
    {
      && (forall c :: c in chains ==> chains[c].organization in organizations)
      && (forall r :: r in restaurants ==> restaurants[r].chain in chains)
      && (forall o :: o in organizations ==> organizations[o].authors <= users.Keys)
      && (forall u :: u in users ==> users[u].organizations <= organizations.Keys)
      && (forall u :: u in users ==> users[u].chains <= chains.Keys)
      && (forall u :: u in users ==> users[u].restaurants <= restaurants.Keys)
      && (forall k :: k in categories ==> categories[k].restaurant <= restaurants.Keys)
      && (forall k :: k in kitchens ==> kitchens[k].restaurant <= restaurants.Keys)
      && UniqueOrganizationNames(organizations)
      && UniqueCatalogNames(categories)
      && UniqueCatalogNames(kitchens)
    }

    /** `restaurant.chain.organization`: the one organization that owns a restaurant. */
    function OwnerOf(r: RestaurantId): (o: OrgId)
      requires Valid() && r in restaurants
      ensures o in organizations
      ensures o == chains[restaurants[r].chain].organization
    {
      chains[restaurants[r].chain].organization
    }

    /** `user in restaurant.chain.organization.authors.all()`. */
    predicate AuthorsRestaurant(u: UserId, r: RestaurantId)
      requires Valid() && r in restaurants
    {
      u in organizations[OwnerOf(r)].authors
    }
  }

  /**
    Removes the given organizations, chains and restaurants and every link
    row that points at one of them.  Closed under the foreign keys (a chain
    of a removed organization, a restaurant of a removed chain is removed
    too), so no reference is left dangling.
  */
  function RemoveRows(s: Store, orgs: set<OrgId>, chs: set<ChainId>, rs: set<RestaurantId>): (t: Store)
    requires s.Valid()
    requires forall c :: c in s.chains && s.chains[c].organization in orgs ==> c in chs
    requires forall r :: r in s.restaurants && s.restaurants[r].chain in chs ==> r in rs
    ensures t.Valid()
    ensures t.organizations == s.organizations - orgs
    ensures t.chains == s.chains - chs
    ensures t.restaurants == s.restaurants - rs
    ensures t.users.Keys == s.users.Keys
    ensures forall u :: u in t.users ==>
              t.users[u] == Membership(s.users[u].organizations - orgs,
                                       s.users[u].chains - chs,
                                       s.users[u].restaurants - rs)
    ensures t.categories.Keys == s.categories.Keys
    ensures forall k :: k in t.categories ==>
              t.categories[k] == s.categories[k].(restaurant := s.categories[k].restaurant - rs)
    ensures t.kitchens.Keys == s.kitchens.Keys
    ensures forall k :: k in t.kitchens ==>
              t.kitchens[k] == s.kitchens[k].(restaurant := s.kitchens[k].restaurant - rs)
  {
    UnlinkKeepsNames(s.categories, rs);
    UnlinkKeepsNames(s.kitchens, rs);
    Store(s.organizations - orgs, s.chains - chs, s.restaurants - rs,
          Forget(s.users, orgs, chs, rs), Unlink(s.categories, rs), Unlink(s.kitchens, rs))
  }

  /** Every user's membership sets without the removed rows. */
  function Forget(users: map<UserId, Membership>, orgs: set<OrgId>, chs: set<ChainId>, rs: set<RestaurantId>)
    : (users': map<UserId, Membership>)
    ensures users'.Keys == users.Keys
    ensures forall u :: u in users' ==>
              users'[u] == Membership(users[u].organizations - orgs, users[u].chains - chs, users[u].restaurants - rs)
  {
    map u | u in users :: Membership(users[u].organizations - orgs, users[u].chains - chs, users[u].restaurants - rs)
  }

  /** A catalog table with the links to the removed restaurants dropped; no catalog row goes. */
  function Unlink(t: map<CatalogId, Catalog>, rs: set<RestaurantId>): (t': map<CatalogId, Catalog>)
    ensures t'.Keys == t.Keys
    ensures forall k :: k in t' ==> t'[k] == t[k].(restaurant := t[k].restaurant - rs)
  {
    map k | k in t :: t[k].(restaurant := t[k].restaurant - rs)
  }

  lemma UnlinkKeepsNames(t: map<CatalogId, Catalog>, rs: set<RestaurantId>)
    requires UniqueCatalogNames(t)
    ensures UniqueCatalogNames(Unlink(t, rs))
  {
    var t' := Unlink(t, rs);
    forall a, b | a in t' && b in t' && a != b
      ensures t'[a].name != t'[b].name
    {
      assert t'[a].name == t[a].name && t'[b].name == t[b].name;
    }
  }

  /**
    Deleting a chain: the CASCADE on `Restaurant.chain` deletes its
    restaurants, and every link row to a deleted row goes with it.
  */
  function DeleteChain(s: Store, c: ChainId): (t: Store)
    requires s.Valid() && c in s.chains
    ensures t.Valid()
    ensures t.organizations == s.organizations
    ensures t.chains.Keys == s.chains.Keys - {c}
    ensures forall c' :: c' in t.chains ==> t.chains[c'] == s.chains[c']
    ensures t.restaurants.Keys == set r | r in s.restaurants && s.restaurants[r].chain != c
    ensures forall r :: r in t.restaurants ==> t.restaurants[r] == s.restaurants[r]
    ensures t.users.Keys == s.users.Keys
    ensures forall u :: u in t.users ==>
              && t.users[u].organizations == s.users[u].organizations
              && t.users[u].chains == s.users[u].chains - {c}
              && t.users[u].restaurants == s.users[u].restaurants - (s.restaurants.Keys - t.restaurants.Keys)
    ensures t.categories.Keys == s.categories.Keys
    ensures forall k :: k in t.categories ==>
              t.categories[k] == s.categories[k].(restaurant := s.categories[k].restaurant - (s.restaurants.Keys - t.restaurants.Keys))
    ensures t.kitchens.Keys == s.kitchens.Keys
    ensures forall k :: k in t.kitchens ==>
              t.kitchens[k] == s.kitchens[k].(restaurant := s.kitchens[k].restaurant - (s.restaurants.Keys - t.restaurants.Keys))
  {
    var gone := set r | r in s.restaurants && s.restaurants[r].chain == c;
    var t := RemoveRows(s, {}, {c}, gone);
    assert s.restaurants.Keys - t.restaurants.Keys == gone;
    t
  }

  /**
    Deleting an organization: the CASCADE on `Chain.organization` deletes its
    chains and, through them, their restaurants; its authorship goes with
    the row, and every link row to a deleted row goes too.
  */
  function DeleteOrganization(s: Store, o: OrgId): (t: Store)
    requires s.Valid() && o in s.organizations
    ensures t.Valid()
    ensures t.organizations.Keys == s.organizations.Keys - {o}
    ensures forall o' :: o' in t.organizations ==> t.organizations[o'] == s.organizations[o']
    ensures t.chains.Keys == set c | c in s.chains && s.chains[c].organization != o
    ensures forall c :: c in t.chains ==> t.chains[c] == s.chains[c]
    ensures t.restaurants.Keys == set r | r in s.restaurants && s.OwnerOf(r) != o
    ensures forall r :: r in t.restaurants ==> t.restaurants[r] == s.restaurants[r]
    ensures forall r :: r in t.restaurants ==> t.OwnerOf(r) == s.OwnerOf(r)
    ensures t.users.Keys == s.users.Keys
    ensures forall u :: u in t.users ==>
              && t.users[u].organizations == s.users[u].organizations - {o}
              && t.users[u].chains == s.users[u].chains - (s.chains.Keys - t.chains.Keys)
              && t.users[u].restaurants == s.users[u].restaurants - (s.restaurants.Keys - t.restaurants.Keys)
    ensures t.categories.Keys == s.categories.Keys
    ensures forall k :: k in t.categories ==>
              t.categories[k] == s.categories[k].(restaurant := s.categories[k].restaurant - (s.restaurants.Keys - t.restaurants.Keys))
    ensures t.kitchens.Keys == s.kitchens.Keys
    ensures forall k :: k in t.kitchens ==>
              t.kitchens[k] == s.kitchens[k].(restaurant := s.kitchens[k].restaurant - (s.restaurants.Keys - t.restaurants.Keys))
  {
    var goneChains := set c | c in s.chains && s.chains[c].organization == o;
    var gone := set r | r in s.restaurants && s.restaurants[r].chain in goneChains;
    var t := RemoveRows(s, {o}, goneChains, gone);
    CascadeFromOrganization(s, o, goneChains, gone, t);
    t
  }

  /** Which chains and restaurants the cascade from organization `o` removes. */
  lemma CascadeFromOrganization(s: Store, o: OrgId, goneChains: set<ChainId>, gone: set<RestaurantId>, t: Store)
    requires s.Valid() && t.Valid()
    requires goneChains == set c | c in s.chains && s.chains[c].organization == o
    requires gone == set r | r in s.restaurants && s.restaurants[r].chain in goneChains
    requires t.organizations == s.organizations - {o}
    requires t.chains == s.chains - goneChains
    requires t.restaurants == s.restaurants - gone
    ensures s.chains.Keys - t.chains.Keys == goneChains
    ensures s.restaurants.Keys - t.restaurants.Keys == gone
    ensures t.chains.Keys == set c | c in s.chains && s.chains[c].organization != o
    ensures t.restaurants.Keys == set r | r in s.restaurants && s.OwnerOf(r) != o
    ensures forall r :: r in t.restaurants ==> t.OwnerOf(r) == s.OwnerOf(r)
  {
    forall r | r in t.restaurants
      ensures t.OwnerOf(r) == s.OwnerOf(r)
    {
      assert t.restaurants[r] == s.restaurants[r];
      assert t.chains[t.restaurants[r].chain] == s.chains[s.restaurants[r].chain];
    }
  }

  /**
    Chain and Restaurant names carry no UNIQUE constraint: two chains of one
    organization, and two restaurants, may share a name.
  */
  lemma ChainAndRestaurantNamesMayRepeat()
    ensures Store(map[1 := Organization("o", {})],
                  map[1 := Chain("c", 1), 2 := Chain("c", 1)],
                  map[1 := Restaurant("r", 1), 2 := Restaurant("r", 1)],
                  map[], map[], map[]).Valid()
  {
  }

  /** The database, whose tables the views and serializers update in place. */
  class Db {
    var organizations: map<OrgId, Organization>
    var chains: map<ChainId, Chain>
    var restaurants: map<RestaurantId, Restaurant>
    var users: map<UserId, Membership>
    var categories: map<CatalogId, Catalog>
    var kitchens: map<CatalogId, Catalog>

    /** The current contents of every table. */
    function State(): Store
      reads this
    {
      Store(organizations, chains, restaurants, users, categories, kitchens)
    }

    ghost predicate Valid()
      reads this
    {
      State().Valid()
    }
  }
}
