/**
  The organization serializers that change the access graph: creating an
  organization, and the add-author guard chain with its insert.
*/
module OrganizationSerializers {

  import opened Wrappers
  import opened Http
  import opened OrganizationModels
  import opened Database
  import opened OrganizationPermissions

  const USER_NOT_FOUND := "User not found"
  const CANNOT_ADD_YOURSELF := "You can not add yourself to organization"
  const ORGANIZATION_NOT_FOUND := "Organization not found"
  const NOT_AN_AUTHOR := "You are not an author of this organization"

  /**
    `GetOrganizationSerializer.create`.  `requester` is None when there is no
    request or its user is anonymous; `newId` is the id the database assigns
    to the new row.  The name has already passed the field's unique validator.
  */
  method CreateOrganization(db: Db, requester: Option<UserId>, name: string, newId: OrgId)
    returns (v: Validation)
    requires db.Valid()
    requires requester.Some? ==> requester.value in db.users
    requires !NameTaken(db.organizations, name)
    requires newId !in db.organizations
    modifies db
    ensures db.Valid()
    ensures requester.None? ==> v == Rejected(USER_NOT_FOUND) && db.State() == old(db.State())
    ensures requester.Some? ==>
              var u := requester.value;
              && v == Passed
              && db.organizations == old(db.organizations)[newId := Organization(name, {u})]
              && db.users == old(db.users)[u := old(db.users[u]).(organizations := old(db.users[u].organizations) + {newId})]
              && db.State() == old(db.State()).(organizations := db.organizations, users := db.users)
  {
    if requester.None? {
      return Rejected(USER_NOT_FOUND);
    }
    var u := requester.value;
    db.organizations := db.organizations[newId := Organization(name, {})];
    db.organizations := db.organizations[newId := db.organizations[newId].(authors := db.organizations[newId].authors + {u})];
    assert db.organizations[newId].authors == {u};
    db.users := db.users[u := db.users[u].(organizations := db.users[u].organizations + {newId})];
    v := Passed;
  }

  /**
    `PostAddAuthorSerializer.validate`: target exists, target is not the
    requester, organization exists, requester is one of its authors; the
    first check that fails is reported.
  */
  function AddAuthorVerdict(s: Store, requester: UserId, userId: UserId, orgId: OrgId): (v: Validation)
    ensures v == Passed <==>
              && userId in s.users && userId != requester
              && orgId in s.organizations && requester in s.organizations[orgId].authors
    ensures v == Passed ==> IsAuthorOrReadOnly(PATCH, requester, s.organizations[orgId])
    ensures userId !in s.users ==> v == Rejected(USER_NOT_FOUND)
    ensures userId in s.users && userId == requester ==> v == Rejected(CANNOT_ADD_YOURSELF)
    ensures userId in s.users && userId != requester && orgId !in s.organizations
            ==> v == Rejected(ORGANIZATION_NOT_FOUND)
    ensures userId in s.users && userId != requester && orgId in s.organizations &&
            requester !in s.organizations[orgId].authors
            ==> v == Rejected(NOT_AN_AUTHOR)
    ensures v.Rejected? ==>
              v.message in {USER_NOT_FOUND, CANNOT_ADD_YOURSELF, ORGANIZATION_NOT_FOUND, NOT_AN_AUTHOR}
  {
    if userId !in s.users then Rejected(USER_NOT_FOUND)
    else if userId == requester then Rejected(CANNOT_ADD_YOURSELF)
    else if orgId !in s.organizations then Rejected(ORGANIZATION_NOT_FOUND)
    else if requester !in s.organizations[orgId].authors then Rejected(NOT_AN_AUTHOR)
    else Passed
  }

  /**
    `PostAddAuthorSerializer` validated and saved: on success `create` adds
    the target to the organization's authors, and to nothing else.
  */
  method AddAuthor(db: Db, requester: UserId, userId: UserId, orgId: OrgId) returns (v: Validation)
    requires db.Valid()
    modifies db
    ensures db.Valid()
    ensures v == AddAuthorVerdict(old(db.State()), requester, userId, orgId)
    ensures v.Rejected? ==> db.State() == old(db.State())
    ensures v == Passed ==>
              && db.organizations == old(db.organizations)[orgId := old(db.organizations[orgId]).(authors := old(db.organizations[orgId].authors) + {userId})]
              && db.State() == old(db.State()).(organizations := db.organizations)
    ensures v == Passed && userId in old(db.organizations[orgId].authors) ==> db.State() == old(db.State())
  {
    v := AddAuthorVerdict(db.State(), requester, userId, orgId);
    if v == Passed {
      var org := db.organizations[orgId];
      if userId in org.authors {
        assert org.(authors := org.authors + {userId}) == org;
        assert db.organizations[orgId := org] == db.organizations;
      }
      db.organizations := db.organizations[orgId := org.(authors := org.authors + {userId})];
    }
  }
}
