/**
  `ChainFilter`: the query-string filters of the chain list.  A query set
  of chains is a set of chain ids (the model declares no ordering).
  django-filter applies the filters in declaration order (name, my_chain,
  me_in_chain) and skips one whose value is absent.
*/
module OrganizationFilters {

  import opened Wrappers
  import opened OrganizationModels
  import opened Database

  /** Case folding of ASCII letters only. */
  function Lower(c: char): char {
    if 'A' <= c <= 'Z' then (c as int + 32) as char else c
  }

  function LowerString(s: string): (r: string)
    ensures |r| == |s| && forall i :: 0 <= i < |s| ==> r[i] == Lower(s[i])
  {
    seq(|s|, i requires 0 <= i < |s| => Lower(s[i]))
  }

  /** `q` occurs in `s` starting at index `i`. */
  predicate OccursAt(s: string, q: string, i: int) {
    0 <= i <= |s| - |q| && s[i..i + |q|] == q
  }

  /** `q` occurs in `s` as a contiguous piece. */
  predicate Contains(s: string, q: string) {
    exists i | 0 <= i <= |s| - |q| :: OccursAt(s, q, i)
  }

  /** The `icontains` lookup. */
  predicate IContains(s: string, q: string)
    ensures IContains(s, q) ==> |q| <= |s|
    ensures LowerString(s) == LowerString(q) ==> IContains(s, q)
  {
    assert LowerString(s) == LowerString(q) ==> OccursAt(LowerString(s), LowerString(q), 0);
    Contains(LowerString(s), LowerString(q))
  }

  /** The empty query is contained in every name. */
  lemma EmptyQueryMatchesAll(s: string)
    ensures IContains(s, "")
  {
    assert OccursAt(LowerString(s), LowerString(""), 0);
  }

  /** The query's letter case does not matter. */
  lemma IContainsIgnoresQueryCase(s: string, q: string, q': string)
    requires LowerString(q) == LowerString(q')
    ensures IContains(s, q) == IContains(s, q')
  {
  }

  /** `name = CharFilter(field_name='name', lookup_expr='icontains')`. */
  function FilterName(s: Store, qs: set<ChainId>, query: string): (r: set<ChainId>)
    requires qs <= s.chains.Keys
    ensures r <= qs
    ensures forall c :: c in qs ==> (c in r <==> IContains(s.chains[c].name, query))
  {
    set c | c in qs && IContains(s.chains[c].name, query)
  }

  /**
    `filter_my_chain`: with true, keep the chains whose organization has the
    requester among its authors; with false, the query set unchanged.
  */
  function FilterMyChain(s: Store, qs: set<ChainId>, requester: UserId, value: bool): (r: set<ChainId>)
    requires s.Valid() && qs <= s.chains.Keys
    ensures !value ==> r == qs
    ensures value ==> r <= qs
    ensures value ==> forall c :: c in qs ==>
              (c in r <==> requester in s.organizations[s.chains[c].organization].authors)
  {
    if value then set c | c in qs && requester in s.organizations[s.chains[c].organization].authors
    else qs
  }

  /**
    `filter_me_in_chain`: with true, the requester's member chains,
    whatever the incoming query set; with false, the query set unchanged.
  */
  function FilterMeInChain(s: Store, qs: set<ChainId>, requester: UserId, value: bool): (r: set<ChainId>)
    requires requester in s.users
    ensures !value ==> r == qs
    ensures value ==> r == s.users[requester].chains
  {
    if value then s.users[requester].chains else qs
  }

  /**
    The chain list after `ChainFilter`: all chains, then each filter whose
    query parameter is present, in declaration order.  `name` is the value
    after the form field has cleaned it (surrounding white space stripped),
    and an empty name is an absent one.
  */
  function ChainListing(s: Store, requester: UserId, name: Option<string>,
                        myChain: Option<bool>, meInChain: Option<bool>): (r: set<ChainId>)
    requires s.Valid() && requester in s.users
    ensures meInChain == Some(true) ==> r == s.users[requester].chains
    ensures meInChain != Some(true) ==> r <= s.chains.Keys
    ensures meInChain != Some(true) && myChain == Some(true) ==>
              forall c :: c in r ==> requester in s.organizations[s.chains[c].organization].authors
    ensures meInChain != Some(true) && name.Some? ==>
              forall c :: c in r ==> IContains(s.chains[c].name, name.value)
    ensures meInChain != Some(true) ==>
              forall c :: c in s.chains ==>
                (c in r <==> && (name.None? || IContains(s.chains[c].name, name.value))
                             && (myChain != Some(true) || requester in s.organizations[s.chains[c].organization].authors))
  {
    var all := s.chains.Keys;
    assert forall c :: c in all ==> IContains(s.chains[c].name, "") by {
      forall c | c in all ensures IContains(s.chains[c].name, "") {
        EmptyQueryMatchesAll(s.chains[c].name);
      }
    }
    var byName := if name.Some? && name.value != "" then FilterName(s, all, name.value) else all;
    var mine := if myChain.Some? then FilterMyChain(s, byName, requester, myChain.value) else byName;
    if meInChain.Some? then FilterMeInChain(s, mine, requester, meInChain.value) else mine
  }
}
