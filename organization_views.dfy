/**
  The custom actions of the organization, chain and restaurant view sets
  that remove edges of the access graph.  Each one is a guard chain
  followed by one set delete; a refused request changes nothing.
*/
module OrganizationViews {

  import opened Http
  import opened OrganizationModels
  import opened Database
  import opened OrganizationSerializers

  const NOT_THE_AUTHOR := "You are not the author of this organization"
  const USER_NOT_IN_ORGANIZATION := "User not found in this organization"
  const USER_NOT_IN_CHAIN := "User not found in this chain"

  /**
    `OrganizationViewSet.delete_author`: the requester gives up authorship of
    organization `pk`, and leaves its members too.
  */
  method DeleteAuthor(db: Db, requester: UserId, pk: OrgId) returns (r: Reply)
    requires db.Valid() && requester in db.users
    modifies db
    ensures db.Valid()
    ensures pk !in old(db.organizations) ==>
              r == Error(HTTP_404_NOT_FOUND, ORGANIZATION_NOT_FOUND) && db.State() == old(db.State())
    ensures pk in old(db.organizations) && requester !in old(db.organizations[pk].authors) ==>
              r == Error(HTTP_403_FORBIDDEN, NOT_AN_AUTHOR) && db.State() == old(db.State())
    ensures pk in old(db.organizations) && requester in old(db.organizations[pk].authors) ==>
              && r == Ok
              && db.organizations == old(db.organizations)[pk := old(db.organizations[pk]).(authors := old(db.organizations[pk].authors) - {requester})]
              && db.users == old(db.users)[requester := old(db.users[requester]).(organizations := old(db.users[requester].organizations) - {pk})]
              && db.State() == old(db.State()).(organizations := db.organizations, users := db.users)
  {
    if pk !in db.organizations {
      return Error(HTTP_404_NOT_FOUND, ORGANIZATION_NOT_FOUND);
    }
    var organization := db.organizations[pk];
    if requester !in organization.authors {
      return Error(HTTP_403_FORBIDDEN, NOT_AN_AUTHOR);
    }
    db.organizations := db.organizations[pk := organization.(authors := organization.authors - {requester})];
    db.users := db.users[requester := db.users[requester].(organizations := db.users[requester].organizations - {pk})];
    r := Ok;
  }

  /**
    `OrganizationViewSet.delete_user_in_organization`: an author of the
    organization removes a user's membership.  Authorship is checked before
    membership, and the target's authorship is left alone.
  */
  method DeleteUserInOrganization(db: Db, requester: UserId, userId: UserId, orgId: OrgId) returns (r: Reply)
    requires db.Valid() && userId in db.users && orgId in db.organizations
    modifies db
    ensures db.Valid()
    ensures requester !in old(db.organizations[orgId].authors) ==>
              r == Error(HTTP_403_FORBIDDEN, NOT_THE_AUTHOR) && db.State() == old(db.State())
    ensures requester in old(db.organizations[orgId].authors) && orgId !in old(db.users[userId].organizations) ==>
              r == Error(HTTP_404_NOT_FOUND, USER_NOT_IN_ORGANIZATION) && db.State() == old(db.State())
    ensures requester in old(db.organizations[orgId].authors) && orgId in old(db.users[userId].organizations) ==>
              && r == Ok
              && db.users == old(db.users)[userId := old(db.users[userId]).(organizations := old(db.users[userId].organizations) - {orgId})]
              && db.State() == old(db.State()).(users := db.users)
  {
    if requester !in db.organizations[orgId].authors {
      return Error(HTTP_403_FORBIDDEN, NOT_THE_AUTHOR);
    }
    if orgId !in db.users[userId].organizations {
      return Error(HTTP_404_NOT_FOUND, USER_NOT_IN_ORGANIZATION);
    }
    db.users := db.users[userId := db.users[userId].(organizations := db.users[userId].organizations - {orgId})];
    r := Ok;
  }

  /**
    `ChainViewSet.delete_user_in_chain`: authorization is against the
    chain's organization; only the chain membership edge is removed.
  */
  method DeleteUserInChain(db: Db, requester: UserId, userId: UserId, chainId: ChainId) returns (r: Reply)
    requires db.Valid() && userId in db.users && chainId in db.chains
    modifies db
    ensures db.Valid()
    ensures requester !in old(db.organizations[db.chains[chainId].organization].authors) ==>
              r == Error(HTTP_403_FORBIDDEN, NOT_THE_AUTHOR) && db.State() == old(db.State())
    ensures requester in old(db.organizations[db.chains[chainId].organization].authors) && chainId !in old(db.users[userId].chains) ==>
              r == Error(HTTP_404_NOT_FOUND, USER_NOT_IN_CHAIN) && db.State() == old(db.State())
    ensures requester in old(db.organizations[db.chains[chainId].organization].authors) && chainId in old(db.users[userId].chains) ==>
              && r == Ok
              && db.users == old(db.users)[userId := old(db.users[userId]).(chains := old(db.users[userId].chains) - {chainId})]
              && db.State() == old(db.State()).(users := db.users)
  {
    if requester !in db.organizations[db.chains[chainId].organization].authors {
      return Error(HTTP_403_FORBIDDEN, NOT_THE_AUTHOR);
    }
    if chainId !in db.users[userId].chains {
      return Error(HTTP_404_NOT_FOUND, USER_NOT_IN_CHAIN);
    }
    db.users := db.users[userId := db.users[userId].(chains := db.users[userId].chains - {chainId})];
    r := Ok;
  }

  /**
    `RestaurantViewSet.delete_user_in_restaurant`: authorization is against
    `restaurant.chain.organization`; only the restaurant membership edge is
    removed.  (The not-a-member message says "chain", as the source does.)
  */
  method DeleteUserInRestaurant(db: Db, requester: UserId, userId: UserId, restaurantId: RestaurantId) returns (r: Reply)
    requires db.Valid() && userId in db.users && restaurantId in db.restaurants
    modifies db
    ensures db.Valid()
    ensures !old(db.State()).AuthorsRestaurant(requester, restaurantId) ==>
              r == Error(HTTP_403_FORBIDDEN, NOT_THE_AUTHOR) && db.State() == old(db.State())
    ensures old(db.State()).AuthorsRestaurant(requester, restaurantId) && restaurantId !in old(db.users[userId].restaurants) ==>
              r == Error(HTTP_404_NOT_FOUND, USER_NOT_IN_CHAIN) && db.State() == old(db.State())
    ensures old(db.State()).AuthorsRestaurant(requester, restaurantId) && restaurantId in old(db.users[userId].restaurants) ==>
              && r == Ok
              && db.users == old(db.users)[userId := old(db.users[userId]).(restaurants := old(db.users[userId].restaurants) - {restaurantId})]
              && db.State() == old(db.State()).(users := db.users)
  {
    var organization := db.organizations[db.State().OwnerOf(restaurantId)];
    if requester !in organization.authors {
      return Error(HTTP_403_FORBIDDEN, NOT_THE_AUTHOR);
    }
    if restaurantId !in db.users[userId].restaurants {
      return Error(HTTP_404_NOT_FOUND, USER_NOT_IN_CHAIN);
    }
    db.users := db.users[userId := db.users[userId].(restaurants := db.users[userId].restaurants - {restaurantId})];
    r := Ok;
  }

  /** The serializer a view set hands to an action. */
  datatype SerializerRole = ReadSerializer | WriteSerializer

  /**
    `get_serializer_class`: `create` and `partial_update` get the write
    serializer, every other action the read serializer.
  */
  function SerializerFor(action: string): (role: SerializerRole)
    ensures role == WriteSerializer <==> action in {"create", "partial_update"}
    ensures action in {"list", "retrieve", "update", "destroy"} ==> role == ReadSerializer
  {
    if action == "create" || action == "partial_update" then WriteSerializer else ReadSerializer
  }
}
