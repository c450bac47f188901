# iiko access graph, stock flags, user codes and cookies, in Dafny

This project models the access-control and membership graph of the iiko
restaurant back end (a Django REST application), plus three small routines
that sit beside it.

**The graph.** Organizations own chains, and chains own restaurants. Both
are required foreign keys with `ON DELETE CASCADE`, so every restaurant has
exactly one owner: `restaurant.chain.organization`. Each organization has a
set of **authors**, the only users who may change it. Separately, each user
carries three plain **membership** sets: organizations, chains and
restaurants (the shape comes from
`backend_iiko/backend/core/migrations/0004_alter_user_chains_alter_user_organizations_and_more.py:14-27`).
Categories and kitchens carry the set of restaurants they are attached to.

**The database.** All tables live in one value `Database.Store`. Its
`Valid()` predicate states the database's constraints:

- foreign keys and many-to-many links point at existing rows;
- organization, category and kitchen names are unique.

The mutable database is the class `Database.Db`, with one field per table.
Each view action and serializer `create` is a method that `modifies` it. Its
postcondition states the whole new state, and that `Valid()` still holds.

**The operations.** Each serializer `validate` is a pure guard chain. It is
written as a verdict function, and the looping validators are methods proved
equal to that function. Each view action is a guard chain followed by one set
insert or delete. Its contract gives:

- the status and message of every refusal, in source order;
- that a refused request changes nothing;
- exactly which edge a successful request adds or removes.

**The smaller routines.** `Product.save` and `Product.buy_stop` become a
`Product` class with its `stop` and `count` fields. `User.save` becomes a
`User` class whose retry loop reads the random draws from a parameter.
`getCookies` becomes a loop over the `;`-separated header, proved equal to
the function `Lookup`.

Some behaviour of the code worth knowing before reading the contracts:

- `add_author` inserts the new author into `Organization.authors` only, and not into the user's member organizations (`backend_iiko/backend/organization/serializers.py:67`).
- Detaching a restaurant from a category checks authorship of the detached restaurant's organization only. The other attached restaurants' organizations are not checked (`backend_iiko/backend/menu/views.py:108`).
- `buy_stop` decrements `count` only when `stop` is already true (`backend_iiko/backend/menu/models.py:28-30`).
- The back end stores its rows in PostgreSQL (`backend_iiko/backend/backend/config.py:7-11`). There a `PositiveIntegerField` carries the constraint `CHECK (count >= 0)`, so a save with a negative count raises an IntegrityError and leaves the stored row as it was. `Product.Save` and `Product.BuyStop` return whether that happened.
- The `add_author` view names a `PostAddAuthorOrUserSerializer`. That class is not part of this model. What is modelled is the `PostAddAuthorSerializer` that the serializers file defines.

## Model

| member | source | states |
|---|---|---|
| Database.Store.Valid | backend_iiko/backend/organization/models.py:5-22 | the database constraints (foreign keys, link rows, unique organization, category and kitchen names, also backend_iiko/backend/menu/models.py:5,12); a valid store lets every restaurant reach an existing chain and an existing organization |
| Database.Store.OwnerOf | backend_iiko/backend/organization/models.py:12-22 | a valid store gives every restaurant exactly one existing owner organization, reached through its chain |
| Database.RemoveRows | backend_iiko/backend/organization/models.py:12-22 | removing a set of rows closed under the cascading foreign keys leaves a valid store with exactly those rows gone; every other row is unchanged; every user keeps their membership sets minus the removed rows; every category and kitchen keeps its key and name and loses only its links to removed restaurants |
| Database.DeleteChain | backend_iiko/backend/organization/models.py:20-22 | deleting a chain deletes exactly that chain and its restaurants and keeps the store valid; organizations and every other chain and restaurant are unchanged; users lose only that chain and the deleted restaurants from their sets; catalogs keep their rows and lose only links to the deleted restaurants |
| Database.DeleteOrganization | backend_iiko/backend/organization/models.py:12-22 | deleting an organization deletes exactly it, its chains and the restaurants it owns; every surviving organization, chain and restaurant is unchanged and keeps its owner; users lose only the deleted rows from their three sets; catalogs keep their rows and lose only links to the deleted restaurants |
| Database.ChainAndRestaurantNamesMayRepeat | backend_iiko/backend/organization/models.py:12-22 | two chains of one organization, and two restaurants, with the same name form a valid store (only organization names are unique) |
| Http.IsSafe | backend_iiko/backend/organization/permissions.py:8 | a method is safe if and only if it is GET, HEAD or OPTIONS, that is, not POST, PUT, PATCH or DELETE |
| OrganizationPermissions.IsAuthorOrReadOnly | backend_iiko/backend/organization/permissions.py:6-11 | safe methods are granted to anyone; any other method is granted if and only if the requester is an author |
| OrganizationPermissions.IsAuthorInChainOrReadOnly | backend_iiko/backend/organization/permissions.py:14-19 | chain permission equals the organization permission evaluated on the chain's organization |
| OrganizationPermissions.MembershipNeverGrantsWrite | backend_iiko/backend/organization/permissions.py:6-19 | a member of the organization and of the chain who is not an author is refused every write by both classes |
| OrganizationPermissions.PermissionIgnoresMembership | backend_iiko/backend/organization/permissions.py:6-19 | changing only the membership tables changes no permission decision |
| OrganizationSerializers.CreateOrganization | backend_iiko/backend/organization/serializers.py:20-29 | with a user, the new organization has exactly that user as author and is added to that user's member organizations; nothing else changes; without a user, 'User not found' and no change |
| OrganizationSerializers.AddAuthorVerdict | backend_iiko/backend/organization/serializers.py:36-57 | passes if and only if the target exists, is not the requester, and the organization exists with the requester among its authors; the first failing check is reported: unknown user, then self-addition, then unknown organization, then a requester who is not an author, each with its own message |
| OrganizationSerializers.AddAuthor | backend_iiko/backend/organization/serializers.py:60-74 | on success only the organization's authors gain the target, and every membership set is unchanged; re-adding an existing author passes and changes nothing; a refusal changes nothing |
| OrganizationViews.DeleteAuthor | backend_iiko/backend/organization/views.py:42-55 | 404 for an unknown organization, then 403 for a non-author, with no change; otherwise the requester leaves both the authors and their own member organizations, and nothing else changes |
| OrganizationViews.DeleteUserInOrganization | backend_iiko/backend/organization/views.py:67-83 | 403 for a non-author before 404 for a non-member; on success only the target's membership edge goes and authorship is untouched |
| OrganizationViews.DeleteUserInChain | backend_iiko/backend/organization/views.py:107-123 | authorization is checked against the chain's organization, and 403 comes before 404; on success only the chain membership edge goes |
| OrganizationViews.DeleteUserInRestaurant | backend_iiko/backend/organization/views.py:147-163 | authorization is checked against the restaurant's owner, and 403 comes before 404 (with the "chain" message the code uses); on success only the restaurant membership edge goes |
| OrganizationViews.SerializerFor | backend_iiko/backend/organization/views.py:95-98 | the write serializer is chosen exactly for create and partial_update, and the read serializer for every other action; the category view set's `get_serializer_class` (backend_iiko/backend/menu/views.py:59-62) makes the same choice |
| OrganizationFilters.IContains | backend_iiko/backend/organization/filters.py:7 | a name contains only queries no longer than itself, and contains every query that folds to the same lower case |
| OrganizationFilters.FilterName | backend_iiko/backend/organization/filters.py:7 | keeps exactly the input chains whose name contains the query, ignoring case |
| OrganizationFilters.EmptyQueryMatchesAll | backend_iiko/backend/organization/filters.py:7 | an empty query is contained in every name |
| OrganizationFilters.IContainsIgnoresQueryCase | backend_iiko/backend/organization/filters.py:7 | two queries that fold to the same lower case select the same chains |
| OrganizationFilters.FilterMyChain | backend_iiko/backend/organization/filters.py:15-21 | false returns the input unchanged; true keeps exactly the input chains whose organization the requester authors |
| OrganizationFilters.FilterMeInChain | backend_iiko/backend/organization/filters.py:23-29 | false returns the input unchanged; true returns the requester's member chains, whatever the input |
| OrganizationFilters.ChainListing | backend_iiko/backend/organization/filters.py:6-29 | me_in_chain=true overrides the name and my_chain filters; otherwise a chain is listed if and only if it matches the name (when given) and, with my_chain=true, is authored by the requester |
| MenuSerializers.FoundRestaurants | backend_iiko/backend/menu/serializers.py:31 | the lookup finds exactly the listed ids that are existing restaurants |
| MenuSerializers.FoundCount | backend_iiko/backend/menu/serializers.py:31-34 | the lookup finds at most as many rows as there are ids, and exactly as many if and only if the ids are distinct and all exist |
| MenuSerializers.WriteVerdict | backend_iiko/backend/menu/serializers.py:24-40 | passes if and only if a list is given, its ids are distinct and exist, and the requester authors every listed restaurant's owner; each refusal has the message of the first failing check: no list, then a repeated or unknown id, then an unauthored restaurant |
| MenuSerializers.ValidateRestaurantList | backend_iiko/backend/menu/serializers.py:94-110 | the kitchen write validation, a loop over the rows found, returns exactly the write verdict |
| MenuSerializers.AttachVerdict | backend_iiko/backend/menu/serializers.py:47-68 | passes if and only if the catalog and the restaurant exist, the restaurant is not attached yet, and the requester authors the owner of the new restaurant and of every attached one; each refusal has the message of the first failing check in source order: unknown catalog, unknown restaurant, non-author of the new restaurant, already attached, non-author of an attached restaurant |
| MenuSerializers.ValidateAttach | backend_iiko/backend/menu/serializers.py:117-138 | the kitchen attach validation, with its loop over attached restaurants and the 'Restaurant already in category' message, returns exactly the attach verdict |
| MenuSerializers.AttachRestaurant | backend_iiko/backend/menu/serializers.py:70-76 | on success exactly that restaurant is added to the catalog, all earlier ones remain and nothing else changes; a refusal changes nothing |
| MenuSerializers.AddLink | backend_iiko/backend/menu/serializers.py:74 | `restaurant.add` adds exactly that restaurant to the catalog and leaves its name and every other catalog unchanged |
| MenuSerializers.SharedCatalogNeedsEveryOrganization | backend_iiko/backend/menu/serializers.py:64-66 | an author of the new restaurant's owner is refused when some attached restaurant belongs to an organization they do not author |
| MenuViews.RemoveLink | backend_iiko/backend/menu/views.py:114 | `restaurant.remove` removes exactly that restaurant from the catalog and leaves its name and every other catalog unchanged |
| MenuViews.DetachRestaurant | backend_iiko/backend/menu/views.py:93-116 | 404, 404, 403 and 404 in source order with no change; succeeds exactly when the requester authors the detached restaurant's owner (no other owner is checked); removes exactly that link |
| MenuViews.DetachTwice | backend_iiko/backend/menu/views.py:111-114 | a second detach of the same pair after a successful one returns 404 'Restaurant not in category' |
| MenuModels.Saved | backend_iiko/backend/menu/models.py:32-35 | after save, count < 1 implies stop; stop is never cleared; count >= 1 leaves stop as it was; count is unchanged |
| MenuModels.SaveIdempotent | backend_iiko/backend/menu/models.py:32-35 | saving twice is the same as saving once |
| MenuModels.BoughtWhileStopped | backend_iiko/backend/menu/models.py:27-30 | the instance fields after buy_stop: with stop false nothing changes; with stop true the in-memory count drops by exactly one and stop stays true, whether or not the database then accepts the row (see BuyStopRefusedIffExhausted and Product.BuyStop) |
| MenuModels.BuyStopRefusedIffExhausted | backend_iiko/backend/menu/models.py:25-30 | from a row the database accepts, buy_stop produces a count the database refuses if and only if the product is stopped with count 0 |
| MenuModels.BuyStopRaisesOnExhaustedProduct | backend_iiko/backend/menu/models.py:24-35 | a product saved with count 0 is stopped and accepted by the database, and buy_stop then asks to store count -1, which the database refuses |
| MenuModels.BoughtWhileStoppedWithinBound | backend_iiko/backend/menu/models.py:24-30 | the corrected buy_stop keeps count >= 0 and agrees with buy_stop whenever a unit is left |
| MenuModels.Product.constructor | backend_iiko/backend/menu/models.py:24-25 | a new product starts with stop false and count 1 |
| MenuModels.Product.Save | backend_iiko/backend/menu/models.py:32-35 | the fields after save are Saved of the fields before; the row is written if and only if the count is not negative, and otherwise the stored row is unchanged (the IntegrityError) |
| MenuModels.Product.BuyStop | backend_iiko/backend/menu/models.py:27-30 | the fields after buy_stop are BoughtWhileStopped of the fields before; the save raises if and only if the product was stopped and the new count is negative, and then the stored row is unchanged; a stored row within the bound stays within it |
| MenuModels.Product.BuyStopWithinBound | backend_iiko/backend/menu/models.py:27-30 | the corrected buy_stop never raises and keeps the instance and the stored row within the count bound |
| CoreModels.DrawFreeCode | backend_iiko/backend/core/models.py:12-15 | the retry loop returns the first draw that no stored user has; it is in [100000, 999999] and every earlier draw was taken |
| CoreModels.CodeRange | backend_iiko/backend/core/models.py:13 | randint(100000, 999999) has exactly 900000 possible values |
| CoreModels.FreeCodeExistsIff | backend_iiko/backend/core/models.py:12-15 | a free code exists if and only if fewer than 900000 codes are taken |
| CoreModels.NoFreeDrawWhenAllTaken | backend_iiko/backend/core/models.py:12-15 | once all 900000 codes are taken, no draw ends the loop |
| CoreModels.FreshCodeKeepsUnique | backend_iiko/backend/core/models.py:8 | giving a code nobody has to a user without one keeps codes unique |
| CoreModels.User.Save | backend_iiko/backend/core/models.py:10-16 | an absent code (null or 0) is replaced by an in-range code that no stored user has, the first free draw; an existing code is kept; when the stored codes are unique, they stay unique with this user's new code |
| Cookies.Trim | frontend_iiko/src/utils/cookies.js:13 | the trimmed entry is no longer than the entry and neither starts nor ends with white space |
| Cookies.Lookup | frontend_iiko/src/utils/cookies.js:12-18 | a value is returned only from an entry that, trimmed, starts with name=, and it is the rest of that entry |
| Cookies.Split | frontend_iiko/src/utils/cookies.js:11 | split returns at least one part, and no part contains the separator |
| Cookies.SplitJoin | frontend_iiko/src/utils/cookies.js:11 | joining the parts of a split gives back the header |
| Cookies.JoinSplit | frontend_iiko/src/utils/cookies.js:11 | splitting a join of separator-free parts gives back the parts |
| Cookies.GetCookies | frontend_iiko/src/utils/cookies.js:9-19 | the search loop returns exactly Lookup of the split header |
| Cookies.LookupNoneIffNoMatch | frontend_iiko/src/utils/cookies.js:12-18 | null is returned if and only if no trimmed entry starts with name= |
| Cookies.LookupFirstMatchWins | frontend_iiko/src/utils/cookies.js:12-16 | the value after name= in the first matching entry is returned, and later entries are ignored |
| Cookies.KeyNeedsEqualsSign | frontend_iiko/src/utils/cookies.js:10-14 | looking up a does not match the entry ab=1 |
| Cookies.ValueKeepsEqualsSigns | frontend_iiko/src/utils/cookies.js:15 | only the leading name= is stripped: t=a=b reads as a=b |
| Cookies.PairMatches | frontend_iiko/src/utils/cookies.js:10-14 | a well-formed cookie's text starts with name= if and only if the cookie has that name |
| Cookies.ReadBackLine | frontend_iiko/src/utils/cookies.js:9-19 | a line starting with name=value; reads back as value, whatever follows |
| Cookies.SetCookieLine | frontend_iiko/src/utils/cookies.js:6 | the line setCookies writes starts with name=value; |
| Cookies.DeleteCookieLine | frontend_iiko/src/utils/cookies.js:22 | the line deleteCookies writes starts with name=; that is, it carries the empty value |
| Cookies.SetThenGet | frontend_iiko/src/utils/cookies.js:2-7 | the line setCookies writes reads back as the value set |
| Cookies.DeleteLineCarriesEmptyValue | frontend_iiko/src/utils/cookies.js:21-23 | the line deleteCookies writes carries the empty value name=: read the way getCookies reads a header, that line gives the empty string |
| Cookies.GetFromHeader | frontend_iiko/src/utils/cookies.js:9-19 | over the header of a jar of well-formed cookies, getCookies returns the value of the first cookie with that name, or null if there is none |

## Left out

- The `add_user_in_organization`, `add_user_in_chain` and `add_user_in_restaurant` actions (`backend_iiko/backend/organization/views.py:57-65, 100-105, 140-145`). Their serializers (`PostAddAuthorOrUserSerializer`, `AddUserToChainSerializer`, `AddUserToRestaurantSerializer`) are not part of this model, so their behaviour is not known.
- `IsAuthorInRestaurantOrReadOnly` and `MyModelViewSet` are not part of this model. The framework's authentication step (`IsAuthenticated`) is not modelled either: the requester is always a known user id.
- Category and kitchen `create`, `update` and `destroy` are not modelled. They are the framework's generic ModelSerializer and ModelViewSet behaviour; only their `validate` hooks are modelled.
- Transactions and concurrency are not modelled. `delete_author` makes two separate removals without an atomic block, and the model runs each operation as one step, with no interleaving.
- The retry loop in `User.save` is not atomic with the later insert: two concurrent saves could pick the same code. The model runs saves one at a time.
- `Product.price` (decimal money), `Product.name` and `Product.description`, and the Product rows that cascade from a deleted category or kitchen are not modelled.
- The `Date` arithmetic in `setCookies` is not modelled. The expiry date enters as the string `date.toUTCString()` returns. The default of 7 days is not modelled.
- The browser's cookie jar is not modelled: what assigning a line to `document.cookie` does to the jar (attributes, expiry, path). `Cookies.Header` models only what reading `document.cookie` returns for a jar.
- `GetKitchenSerializer` declares `Category` as its model (`backend_iiko/backend/menu/serializers.py:83`). This affects only read serialization, which is not modelled.
- The unique `email` field of `User` (`backend_iiko/backend/core/models.py:7`) and the other user fields besides `code` are not modelled; the access graph identifies users by id.
- Core views, serializers, utils and tasks are not modelled (JWT, authentication, e-mail, Celery). Nor are the settings, filters without logic of their own, admin classes, URL routing, API descriptions and React components.
- Responses carry a status and a message only. The serialized bodies of successful responses are not modelled.
- OrganizationViews.DeleteUserInOrganization: an unknown user or organization id makes `.get` raise before any check. This is modelled as a precondition, not as an error response. The same holds for DeleteUserInChain and DeleteUserInRestaurant.
- OrganizationFilters.IContains: only ASCII letters are case-folded. The database's full Unicode case folding is not modelled.
- OrganizationFilters.ChainListing: a query set is a set of chain ids. Result order is not modelled. The form field's stripping of white space around the `name` query is not modelled: `name` enters already cleaned.
- MenuSerializers.WriteVerdict: the framework's field-level validation of the `restaurant` list runs before `validate` and is not modelled. The list enters as the ids it carries.
- CoreModels.User.Save: `random.randint` is replaced by the sequence of draws it returns. A draw sequence with a free code is required; the case where the loop never ends is stated separately by `CoreModels.NoFreeDrawWhenAllTaken`.
- Cookies.GetCookies: `document.cookie` is a string parameter.
- MenuModels.Product.BuyStop: the IntegrityError is modelled as the `raised` result and an unchanged stored row. What the unhandled exception then does to the request (a server error response) is not modelled.

## Findings

| source | as written | input that shows it | evidently intended | confidence | as-written member | corrected member |
|---|---|---|---|---|---|---|
| backend_iiko/backend/menu/models.py:27-30 | `buy_stop` decrements `count` whenever `stop` is true, whatever the count, and the save it makes is not guarded | a product with count 0: `save` sets stop; `buy_stop` then saves count -1, PostgreSQL's `CHECK (count >= 0)` on the PositiveIntegerField (line 25) raises an unhandled IntegrityError, and the stored row keeps count 0 | a stopped product with no units left is not decremented, so `buy_stop` does not raise | medium; not executed | MenuModels.BuyStopRaisesOnExhaustedProduct | MenuModels.Product.BuyStopWithinBound |
