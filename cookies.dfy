/**
  The front end's cookie helpers: `getCookies` scans the `document.cookie`
  header, `setCookies` and `deleteCookies` build the line assigned to it.
  The header is a `;`-separated list of `name=value` entries, each entry
  after the first preceded by a space.
*/
module Cookies {

  import opened Wrappers

  /** The characters JavaScript's `String.prototype.trim` removes (white space and line terminators). */
  predicate IsSpace(c: char) {
    || c == '\t' || c == '\n' || c == '\U{B}' || c == '\U{C}' || c == '\r' || c == ' '
    || c == '\U{A0}' || c == '\U{1680}' || ('\U{2000}' <= c <= '\U{200A}')
    || c == '\U{2028}' || c == '\U{2029}' || c == '\U{202F}' || c == '\U{205F}'
    || c == '\U{3000}' || c == '\U{FEFF}'
  }

  function TrimStart(s: string): (r: string)
    ensures |r| <= |s|
    ensures r == [] || !IsSpace(r[0])
  {
    if |s| > 0 && IsSpace(s[0]) then TrimStart(s[1..]) else s
  }

  function TrimEnd(s: string): (r: string)
    ensures |r| <= |s|
    ensures r == [] || !IsSpace(r[|r| - 1])
  {
    if |s| > 0 && IsSpace(s[|s| - 1]) then TrimEnd(s[..|s| - 1]) else s
  }

  /** `TrimEnd` only drops characters from the end. */
  lemma {:induction false} TrimEndIsPrefix(s: string)
    ensures TrimEnd(s) <= s
  {
    if |s| > 0 && IsSpace(s[|s| - 1]) {
      TrimEndIsPrefix(s[..|s| - 1]);
    }
  }

  /** `String.prototype.trim`. */
  function Trim(s: string): (r: string)
    ensures |r| <= |s|
    ensures r == [] || (!IsSpace(r[0]) && !IsSpace(r[|r| - 1]))
  {
    TrimEndIsPrefix(TrimStart(s));
    TrimEnd(TrimStart(s))
  }

  /** A string that starts and ends with something other than white space is its own trim. */
  lemma TrimUnspaced(s: string)
    requires s != [] && !IsSpace(s[0]) && !IsSpace(s[|s| - 1])
    ensures Trim(s) == s
  {
  }

  lemma TrimLeadingSpace(s: string)
    requires s != [] && !IsSpace(s[0]) && !IsSpace(s[|s| - 1])
    ensures Trim(" " + s) == s
  {
    assert (" " + s)[1..] == s;
    TrimUnspaced(s);
  }

  /** `String.prototype.split` with a one-character separator. */
  function Split(s: string, sep: char): (parts: seq<string>)
    ensures |parts| >= 1
    ensures forall i :: 0 <= i < |parts| ==> sep !in parts[i]
  {
    if s == [] then [""]
    else
      var rest := Split(s[1..], sep);
      if s[0] == sep then [""] + rest
      else [[s[0]] + rest[0]] + rest[1..]
  }

  /** `Array.prototype.join`. */
  function Join(parts: seq<string>, sep: char): string
    requires |parts| >= 1
  {
    if |parts| == 1 then parts[0] else parts[0] + [sep] + Join(parts[1..], sep)
  }

  /** Splitting and joining again gives the header back. */
  lemma {:induction false} SplitJoin(s: string, sep: char)
    ensures Join(Split(s, sep), sep) == s
  {
    if s != [] {
      var rest := Split(s[1..], sep);
      SplitJoin(s[1..], sep);
      if s[0] == sep {
        assert Split(s, sep)[1..] == rest;
      } else if |rest| == 1 {
        assert Join(Split(s, sep), sep) == [s[0]] + rest[0];
      } else {
        var parts := Split(s, sep);
        assert parts[1..] == rest[1..];
        assert Join(rest, sep) == rest[0] + [sep] + Join(rest[1..], sep);
        assert s == [s[0]] + s[1..];
      }
    }
  }

  /** Splitting a part followed by the separator peels that part off. */
  lemma {:induction false} SplitAfterPart(p: string, sep: char, t: string)
    requires sep !in p
    ensures Split(p + [sep] + t, sep) == [p] + Split(t, sep)
  {
    if p == [] {
      assert p + [sep] + t == [sep] + t;
      assert ([sep] + t)[1..] == t;
    } else {
      SplitAfterPart(p[1..], sep, t);
      assert (p + [sep] + t)[1..] == p[1..] + [sep] + t;
      assert [p[0]] + p[1..] == p;
    }
  }

  /** Joining parts free of the separator and splitting again gives the parts back. */
  lemma {:induction false} JoinSplit(parts: seq<string>, sep: char)
    requires |parts| >= 1
    requires forall i :: 0 <= i < |parts| ==> sep !in parts[i]
    ensures Split(Join(parts, sep), sep) == parts
  {
    if |parts| == 1 {
      SplitUnseparated(parts[0], sep);
    } else {
      JoinSplit(parts[1..], sep);
      SplitAfterPart(parts[0], sep, Join(parts[1..], sep));
      assert [parts[0]] + parts[1..] == parts;
    }
  }

  lemma {:induction false} SplitUnseparated(p: string, sep: char)
    requires sep !in p
    ensures Split(p, sep) == [p]
  {
    if p != [] {
      SplitUnseparated(p[1..], sep);
      assert [p[0]] + p[1..] == p;
    }
  }

  /** The prefix `getCookies` looks for. */
  function Key(name: string): string {
    name + "="
  }

  /** An entry of the header is the cookie `name` when, trimmed, it starts with `name=`. */
  predicate Matches(entry: string, name: string) {
    Key(name) <= Trim(entry)
  }

  /** What `getCookies` returns for a header already split into entries: the first match wins. */
  function Lookup(entries: seq<string>, name: string): (r: Option<string>)
    ensures r.Some? ==> exists i :: 0 <= i < |entries| && Matches(entries[i], name) && r.value == Trim(entries[i])[|name| + 1..]
  {
    if entries == [] then None
    else if Matches(entries[0], name) then Some(Trim(entries[0])[|Key(name)|..])
    else Lookup(entries[1..], name)
  }

  /** `getCookies(name)` run against the header `cookie`. */
  method GetCookies(cookie: string, name: string) returns (r: Option<string>)
    ensures r == Lookup(Split(cookie, ';'), name)
  {
    var cookieName := name + "=";
    var cookies := Split(cookie, ';');
    for i := 0 to |cookies|
      invariant Lookup(cookies[i..], name) == Lookup(cookies, name)
    {
      var c := Trim(cookies[i]);
      if cookieName <= c {
        return Some(c[|cookieName|..]);
      }
      assert cookies[i..][1..] == cookies[i + 1..];
    }
    assert cookies[|cookies|..] == [];
    return None;
  }

  /** Nothing is found exactly when no entry matches. */
  lemma {:induction false} LookupNoneIffNoMatch(entries: seq<string>, name: string)
    ensures Lookup(entries, name) == None <==> forall i :: 0 <= i < |entries| ==> !Matches(entries[i], name)
  {
    if entries != [] && !Matches(entries[0], name) {
      LookupNoneIffNoMatch(entries[1..], name);
      assert forall i :: 1 <= i < |entries| ==> entries[i] == entries[1..][i - 1];
    }
  }

  /** The value of the first matching entry is returned; later entries with the same name are ignored. */
  lemma {:induction false} LookupFirstMatchWins(entries: seq<string>, name: string, i: int)
    requires 0 <= i < |entries| && Matches(entries[i], name)
    requires forall j :: 0 <= j < i ==> !Matches(entries[j], name)
    ensures Lookup(entries, name) == Some(Trim(entries[i])[|name| + 1..])
  {
    if i > 0 {
      LookupFirstMatchWins(entries[1..], name, i - 1);
    }
  }

  /** The `=` is part of the key: looking up `a` does not pick up the cookie `ab`. */
  lemma KeyNeedsEqualsSign()
    ensures Lookup(["ab=1"], "a") == None
  {
    TrimUnspaced("ab=1");
    assert "ab=1"[1] != '=';
    assert !Matches("ab=1", "a");
  }

  /** Everything after the first `name=` is the value, further `=` signs included. */
  lemma ValueKeepsEqualsSigns()
    ensures Lookup([" t=a=b"], "t") == Some("a=b")
  {
    TrimLeadingSpace("t=a=b");
    assert Key("t") <= "t=a=b";
  }

  /** `${name}=${value}; ${expires}; path=/` as `setCookies` writes it; `utc` is `date.toUTCString()`. */
  function SetCookieLine(name: string, value: string, utc: string): (line: string)
    ensures Key(name) + value + ";" <= line
  {
    name + "=" + value + "; expires=" + utc + "; path=/"
  }

  /** The attributes `deleteCookies` writes after the empty value: an expiry date in 1970. */
  const EPOCH_EXPIRY := " expires=Thu, 01 Jan 1970 00:00:00 UTC; path=/;"

  /** The line `deleteCookies` writes: the cookie with an empty value and an expiry in 1970. */
  function DeleteCookieLine(name: string): (line: string)
    ensures Key(name) + ";" <= line
  {
    name + "=" + ";" + EPOCH_EXPIRY
  }

  /** A cookie name as a header can carry it. */
  predicate IsToken(n: string) {
    && n != []
    && forall i :: 0 <= i < |n| ==> !IsSpace(n[i]) && n[i] != ';' && n[i] != '='
  }

  /** A cookie value as a header can carry it: no separator and no trailing white space. */
  predicate IsCookieValue(v: string) {
    && ';' !in v
    && (v == [] || !IsSpace(v[|v| - 1]))
  }

  /** A line that starts with `name=value;` reads back as `value`, whatever follows the separator. */
  lemma ReadBackLine(name: string, value: string, attributes: string)
    requires IsToken(name) && IsCookieValue(value)
    ensures Lookup(Split(name + "=" + value + ";" + attributes, ';'), name) == Some(value)
  {
    var entry := name + "=" + value;
    assert ';' !in entry by {
      assert forall i :: 0 <= i < |entry| ==> entry[i] == if i < |name| then name[i] else if i == |name| then '=' else value[i - |name| - 1];
    }
    SplitAfterPart(entry, ';', attributes);
    assert entry[0] == name[0] && entry[|entry| - 1] == if value == [] then '=' else value[|value| - 1];
    TrimUnspaced(entry);
    assert Key(name) <= entry;
    assert entry[|Key(name)|..] == value;
  }

  /**
    Reading the line `setCookies` writes, the way `getCookies` reads a
    header, gives back the value that was set.
  */
  lemma SetThenGet(name: string, value: string, utc: string)
    requires IsToken(name) && IsCookieValue(value)
    ensures Lookup(Split(SetCookieLine(name, value, utc), ';'), name) == Some(value)
  {
    assert SetCookieLine(name, value, utc) == name + "=" + value + ";" + (" expires=" + utc + "; path=/");
    ReadBackLine(name, value, " expires=" + utc + "; path=/");
  }

  /**
    The line `deleteCookies` writes carries the empty value `name=`: read the
    way `getCookies` reads a header, that line gives the empty string.
  */
  lemma DeleteLineCarriesEmptyValue(name: string)
    requires IsToken(name)
    ensures Lookup(Split(DeleteCookieLine(name), ';'), name) == Some("")
  {
    assert DeleteCookieLine(name) == name + "=" + "" + ";" + EPOCH_EXPIRY;
    ReadBackLine(name, "", EPOCH_EXPIRY);
  }

  /** One stored cookie. */
  datatype Cookie = Cookie(name: string, value: string)

  /** The `name=value` text of one cookie. */
  function Pair(c: Cookie): string {
    c.name + "=" + c.value
  }

  predicate WellFormed(jar: seq<Cookie>) {
    forall k :: 0 <= k < |jar| ==> IsToken(jar[k].name) && IsCookieValue(jar[k].value)
  }

  /** The entries of the header for `jar`: every entry after the first has a leading space. */
  function HeaderEntries(jar: seq<Cookie>): (entries: seq<string>)
    ensures |entries| == if jar == [] then 1 else |jar|
  {
    if jar == [] then [""]
    else [Pair(jar[0])] + seq(|jar| - 1, k requires 0 <= k < |jar| - 1 => " " + Pair(jar[k + 1]))
  }

  /** The `document.cookie` header for `jar`: `n1=v1; n2=v2; ...`. */
  function Header(jar: seq<Cookie>): string {
    Join(HeaderEntries(jar), ';')
  }

  /** The value of the first cookie in `jar` called `name`. */
  function JarGet(jar: seq<Cookie>, name: string): (r: Option<string>)
    ensures r.Some? <==> exists k :: 0 <= k < |jar| && jar[k].name == name
  {
    if jar == [] then None
    else if jar[0].name == name then Some(jar[0].value)
    else
      var r := JarGet(jar[1..], name);
      assert forall k :: 1 <= k < |jar| ==> jar[k] == jar[1..][k - 1];
      r
  }

  /** A cookie's text starts with `name=` exactly when the cookie is called `name`. */
  lemma PairMatches(c: Cookie, name: string)
    requires IsToken(c.name) && IsToken(name)
    ensures Key(name) <= Pair(c) <==> c.name == name
  {
    var p, k := Pair(c), Key(name);
    assert forall i :: 0 <= i < |c.name| ==> p[i] == c.name[i];
    assert p[|c.name|] == '=';
    assert forall i :: 0 <= i < |name| ==> k[i] == name[i];
    assert k[|name|] == '=';
    if k <= p {
      assert |name| == |c.name|;
      assert name == c.name;
    }
  }

  lemma PairUnspaced(c: Cookie)
    requires IsToken(c.name) && IsCookieValue(c.value)
    ensures Pair(c) != [] && !IsSpace(Pair(c)[0]) && !IsSpace(Pair(c)[|Pair(c)| - 1])
    ensures ';' !in Pair(c)
    ensures Pair(c)[|c.name| + 1..] == c.value
  {
    var p := Pair(c);
    assert p[0] == c.name[0];
    assert p[|p| - 1] == if c.value == [] then '=' else c.value[|c.value| - 1];
    assert forall i :: 0 <= i < |p| ==> p[i] == if i < |c.name| then c.name[i] else if i == |c.name| then '=' else c.value[i - |c.name| - 1];
  }

  /** Looking up space-led cookie entries finds the first cookie of that name. */
  lemma {:induction false} LookupSpaced(jar: seq<Cookie>, name: string)
    requires WellFormed(jar) && IsToken(name)
    ensures Lookup(seq(|jar|, k requires 0 <= k < |jar| => " " + Pair(jar[k])), name) == JarGet(jar, name)
  {
    var entries := seq(|jar|, k requires 0 <= k < |jar| => " " + Pair(jar[k]));
    if jar != [] {
      PairUnspaced(jar[0]);
      TrimLeadingSpace(Pair(jar[0]));
      PairMatches(jar[0], name);
      if jar[0].name != name {
        LookupSpaced(jar[1..], name);
        assert entries[1..] == seq(|jar[1..]|, k requires 0 <= k < |jar[1..]| => " " + Pair(jar[1..][k]));
      }
    }
  }

  /** The header splits back into its entries. */
  lemma HeaderSplit(jar: seq<Cookie>)
    requires WellFormed(jar)
    ensures Split(Header(jar), ';') == HeaderEntries(jar)
  {
    var entries := HeaderEntries(jar);
    if jar == [] {
      SplitUnseparated("", ';');
    } else {
      forall i | 0 <= i < |entries|
        ensures ';' !in entries[i]
      {
        PairUnspaced(jar[i]);
        if i > 0 {
          assert entries[i] == [' '] + Pair(jar[i]);
        }
      }
      JoinSplit(entries, ';');
    }
  }

  /**
    `getCookies` over the header of a jar of well-formed cookies returns the
    value of the first cookie with that name, and null when there is none.
  */
  lemma GetFromHeader(jar: seq<Cookie>, name: string)
    requires WellFormed(jar) && IsToken(name)
    ensures Lookup(Split(Header(jar), ';'), name) == JarGet(jar, name)
  {
    HeaderSplit(jar);
    var entries := HeaderEntries(jar);
    if jar == [] {
      assert !(Key(name) <= Trim(""));
    } else {
      PairUnspaced(jar[0]);
      TrimUnspaced(Pair(jar[0]));
      PairMatches(jar[0], name);
      if jar[0].name != name {
        LookupSpaced(jar[1..], name);
        assert entries[1..] == seq(|jar[1..]|, k requires 0 <= k < |jar[1..]| => " " + Pair(jar[1..][k]));
      }
    }
  }
}
