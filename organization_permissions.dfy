/**
  The object-level permission classes of the organization app: read-only
  requests are open to everyone, writes need authorship of the owning
  organization.
*/
module OrganizationPermissions {

  import opened Http
  import opened OrganizationModels
  import opened Database

  /** `IsAuthorOrReadOnly.has_object_permission` for an organization. */
  function IsAuthorOrReadOnly(m: HttpMethod, requester: UserId, org: Organization): (granted: bool)
    ensures IsSafe(m) ==> granted
    ensures !IsSafe(m) ==> (granted <==> requester in org.authors)
  {
    if IsSafe(m) then true else requester in org.authors
  }

  /**
    `IsAuthorInChainOrReadOnly.has_object_permission` for a chain: the
    organization permission, evaluated on the chain's organization.
  */
  function IsAuthorInChainOrReadOnly(s: Store, m: HttpMethod, requester: UserId, c: ChainId): (granted: bool)
    requires s.Valid() && c in s.chains
    ensures granted == IsAuthorOrReadOnly(m, requester, s.organizations[s.chains[c].organization])
    ensures !IsSafe(m) ==> (granted <==> requester in s.organizations[s.chains[c].organization].authors)
  {
    if IsSafe(m) then true else requester in s.organizations[s.chains[c].organization].authors
  }

  /** Being a member of an organization or of a chain never grants a write. */
  lemma MembershipNeverGrantsWrite(s: Store, m: HttpMethod, requester: UserId, c: ChainId)
    requires s.Valid() && c in s.chains && !IsSafe(m)
    requires requester in s.users
    requires s.chains[c].organization in s.users[requester].organizations
    requires c in s.users[requester].chains
    requires requester !in s.organizations[s.chains[c].organization].authors
    ensures !IsAuthorOrReadOnly(m, requester, s.organizations[s.chains[c].organization])
    ensures !IsAuthorInChainOrReadOnly(s, m, requester, c)
  {
  }

  /**
    Both permissions read only the authorship relation and the chain's
    foreign key: changing membership rows changes no decision.
  */
  lemma PermissionIgnoresMembership(s: Store, t: Store, m: HttpMethod, requester: UserId, c: ChainId)
    requires s.Valid() && t.Valid() && c in s.chains
    requires t.organizations == s.organizations && t.chains == s.chains
    ensures IsAuthorInChainOrReadOnly(t, m, requester, c) == IsAuthorInChainOrReadOnly(s, m, requester, c)
  {
  }
}
