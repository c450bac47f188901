/**
  The rows of the `organization` app: Organization -> Chain -> Restaurant,
  and the membership sets a user carries (`User.organizations`,
  `User.chains`, `User.restaurants`).  Every reference is a row id; the
  tables themselves live in module `Database`.
*/
module OrganizationModels {

  type UserId = int
  type OrgId = int
  type ChainId = int
  type RestaurantId = int

  /** An organization: a unique name and its `authors`, the users who may write it. */
  datatype Organization = Organization(name: string, authors: set<UserId>)

  /** A chain belongs to exactly one organization (a required foreign key). */
  datatype Chain = Chain(name: string, organization: OrgId)

  /** A restaurant belongs to exactly one chain (a required foreign key). */
  datatype Restaurant = Restaurant(name: string, chain: ChainId)

  /**
    A user's plain membership: three many-to-many sets, independent of
    authorship (which is stored on the organization side).
  */
  datatype Membership = Membership(
    organizations: set<OrgId>,
    chains: set<ChainId>,
    restaurants: set<RestaurantId>)

  /** The UNIQUE constraint on `Organization.name`. */
  ghost predicate UniqueOrganizationNames(orgs: map<OrgId, Organization>) {
    forall a, b :: a in orgs && b in orgs && a != b ==> orgs[a].name != orgs[b].name
  }

  /** True when some organization in `orgs` already carries `name`. */
  predicate NameTaken(orgs: map<OrgId, Organization>, name: string) {
    exists o :: o in orgs && orgs[o].name == name
  }
}
