/**
  `User.save`: a user without a code gets a random six-digit code that no
  stored user has.  The random number generator is the sequence `draws`
  of the values `random.randint(100000, 999999)` returns, in order.
*/
module CoreModels {

  import opened Wrappers

  const CODE_MIN := 100000
  const CODE_MAX := 999999

  /** The values `random.randint(100000, 999999)` can return (both ends included). */
  predicate InCodeRange(c: int) {
    CODE_MIN <= c <= CODE_MAX
  }

  /** `not self.code`: no code yet (null) or the code 0. */
  predicate CodeAbsent(code: Option<int>) {
    code.None? || code.value == 0
  }

  /** Some draw hits a code no stored user has: the retry loop can stop. */
  predicate HasFreeDraw(taken: set<int>, draws: seq<int>) {
    exists i :: 0 <= i < |draws| && draws[i] !in taken
  }

  /**
    The retry loop of `User.save`: draw until the code is not taken.  The
    result is the first free draw; every earlier draw was taken.
  */
  method DrawFreeCode(taken: set<int>, draws: seq<int>) returns (code: int, tries: nat)
    requires forall i :: 0 <= i < |draws| ==> InCodeRange(draws[i])
    requires HasFreeDraw(taken, draws)
    ensures tries < |draws| && code == draws[tries]
    ensures InCodeRange(code) && code !in taken
    ensures forall i :: 0 <= i < tries ==> draws[i] in taken
  {
    var i := 0;
    while true
      invariant 0 <= i < |draws|
      invariant forall j :: 0 <= j < i ==> draws[j] in taken
      invariant exists j :: i <= j < |draws| && draws[j] !in taken
      decreases |draws| - i
    {
      code := draws[i];
      if code !in taken {
        return code, i;
      }
      i := i + 1;
    }
  }

  /** The integers in [lo, hi). */
  function Interval(lo: int, hi: int): (r: set<int>)
    ensures forall x :: x in r <==> lo <= x < hi
    ensures lo <= hi ==> |r| == hi - lo
    decreases hi - lo
  {
    if hi <= lo then {} else Interval(lo, hi - 1) + {hi - 1}
  }

  /** The codes `randint(100000, 999999)` can return: 900000 of them. */
  function CodeRange(): (r: set<int>)
    ensures forall c :: c in r <==> InCodeRange(c)
    ensures |r| == 900000
  {
    Interval(CODE_MIN, CODE_MAX + 1)
  }

  /**
    A free code exists exactly when fewer than 900000 codes are taken: once
    all of them are, no draw can end the retry loop.
  */
  lemma FreeCodeExistsIff(taken: set<int>)
    ensures (exists c :: InCodeRange(c) && c !in taken) <==> |taken * CodeRange()| < 900000
  {
    var range := CodeRange();
    var used := taken * range;
    if c :| InCodeRange(c) && c !in taken {
      assert used <= range - {c};
      SubsetSize(used, range - {c});
    } else {
      assert used == range;
    }
  }

  lemma {:induction false} SubsetSize(a: set<int>, b: set<int>)
    requires a <= b
    ensures |a| <= |b|
  {
    assert b == a + (b - a);
  }

  /** When every possible code is taken, no sequence of draws has a free one. */
  lemma NoFreeDrawWhenAllTaken(taken: set<int>, draws: seq<int>)
    requires forall i :: 0 <= i < |draws| ==> InCodeRange(draws[i])
    requires |taken * CodeRange()| == 900000
    ensures !HasFreeDraw(taken, draws)
  {
    FreeCodeExistsIff(taken);
    forall i | 0 <= i < |draws|
      ensures draws[i] in taken
    {
      assert InCodeRange(draws[i]);
    }
  }

  /** Codes are unique: no two users share one. */
  ghost predicate UniqueCodes(codes: map<int, int>) {
    forall a, b :: a in codes && b in codes && a != b ==> codes[a] != codes[b]
  }

  /** Giving a user without a code a code nobody has keeps codes unique. */
  lemma FreshCodeKeepsUnique(codes: map<int, int>, user: int, code: int)
    requires UniqueCodes(codes) && user !in codes && code !in codes.Values
    ensures UniqueCodes(codes[user := code])
  {
  }

  /** The code-carrying part of a User; email, names and password are not modelled. */
  class User {
    var code: Option<int>

    /**
      `User.save` for the user with primary key `id`.  `stored` maps each
      stored user that has a code to that code; it is consulted only when
      this user has no code.
    */
    method Save(id: int, stored: map<int, int>, draws: seq<int>)
      requires forall i :: 0 <= i < |draws| ==> InCodeRange(draws[i])
      requires CodeAbsent(code) ==> HasFreeDraw(stored.Values, draws)
      modifies this
      ensures !CodeAbsent(old(code)) ==> code == old(code)
      ensures CodeAbsent(old(code)) ==>
                && code.Some? && InCodeRange(code.value) && code.value !in stored.Values
                && exists k :: 0 <= k < |draws| && code.value == draws[k] &&
                                forall i :: 0 <= i < k ==> draws[i] in stored.Values
      ensures CodeAbsent(old(code)) && UniqueCodes(stored) && id !in stored ==>
                code.Some? && UniqueCodes(stored[id := code.value])
    {
      if CodeAbsent(code) {
        var c, tries := DrawFreeCode(stored.Values, draws);
        code := Some(c);
        if UniqueCodes(stored) && id !in stored {
          FreshCodeKeepsUnique(stored, id, c);
        }
      }
    }
  }
}
