/**
 * The browser support matrix: which versions of which browsers the emitted
 * CSS must keep working in, and from that, which vendor prefixes a property
 * or function name needs.
 */
module Support {
  import opened Wrappers
  import opened BrowserData

  /** Ascending and duplicate-free: the iteration order of a tree set. */
  predicate StrictlyAscending(s: seq<real>) {
    forall i, j :: 0 <= i < j < |s| ==> s[i] < s[j]
  }

  /** Adds `v` to an ascending, duplicate-free version list (a tree set's `put`). */
  function Insert(s: seq<real>, v: real): (r: seq<real>)
    requires StrictlyAscending(s)
    ensures StrictlyAscending(r)
    ensures forall x :: x in r <==> x in s || x == v
  {
    if s == [] || v < s[0] then [v] + s
    else if v == s[0] then s
    else
      var tail := Insert(s[1..], v);
      assert forall k :: 0 <= k < |tail| ==> s[0] < tail[k] by {
        forall k | 0 <= k < |tail| ensures s[0] < tail[k] {
          assert tail[k] in s[1..] || tail[k] == v;
        }
      }
      [s[0]] + tail
  }

  /** The list obtained by inserting each of `vs` into `s`, in order. */
  function InsertAll(s: seq<real>, vs: seq<real>): (r: seq<real>)
    requires StrictlyAscending(s)
    ensures StrictlyAscending(r)
    ensures forall x :: x in r <==> x in s || x in vs
  {
    if vs == [] then s else Insert(InsertAll(s, vs[..|vs| - 1]), vs[|vs| - 1])
  }

  /** An ascending, duplicate-free list is determined by its elements. */
  lemma {:induction false} AscendingDeterminedByElements(s: seq<real>, t: seq<real>)
    requires StrictlyAscending(s) && StrictlyAscending(t)
    requires forall x :: x in s <==> x in t
    ensures s == t
  {
    if s == [] {
      assert forall k :: 0 <= k < |t| ==> t[k] in s;
    } else {
      assert s[0] in s;
      assert s[0] in t;
      assert t != [];
      assert t[0] in s;
      assert s[0] == t[0];
      forall x
        ensures x in s[1..] <==> x in t[1..]
      {
        if x in s[1..] {
          assert x in t && x != t[0];
        }
        if x in t[1..] {
          assert x in s && x != s[0];
        }
      }
      AscendingDeterminedByElements(s[1..], t[1..]);
    }
  }

  /** Designating the same versions in any order, with any repetitions, gives the same list. */
  lemma InsertionOrderIrrelevant(s: seq<real>, vs: seq<real>, ws: seq<real>)
    requires StrictlyAscending(s)
    requires forall x :: x in vs <==> x in ws
    ensures InsertAll(s, vs) == InsertAll(s, ws)
  {
    AscendingDeterminedByElements(InsertAll(s, vs), InsertAll(s, ws));
  }

  /** Designating a version that is already supported changes nothing. */
  lemma InsertIdempotent(s: seq<real>, v: real)
    requires StrictlyAscending(s) && v in s
    ensures Insert(s, v) == s
  {
    AscendingDeterminedByElements(Insert(s, v), s);
  }

  /** The configuration errors raised eagerly by the matrix. */
  datatype ConfigError = VersionDoesNotExist | NumVersionsOutOfRange

  /** A set of supported browser versions. */
  class SupportMatrix {
    /** The browser catalog the matrix validates against. */
    const catalog: Catalog
    /** For each browser with at least one supported version, those versions in ascending order. */
    var supported: map<Browser, seq<real>>

    ghost predicate Valid()
      reads this
    {
      && catalog.Valid()
      && forall b :: b in supported ==>
           && supported[b] != []
           && StrictlyAscending(supported[b])
           && forall v :: v in supported[b] ==> v in catalog.versions(b)
    }

    /** A matrix that supports nothing yet. */
    constructor (catalog: Catalog)
      requires catalog.Valid()
      ensures Valid() && this.catalog == catalog
      ensures supported == map[]
    {
      this.catalog := catalog;
      supported := map[];
    }

    /** All supported versions of `b`, ascending; empty when none is. */
    function AllSupportedVersions(b: Browser): (r: seq<real>)
      reads this
      requires Valid()
      ensures StrictlyAscending(r)
      ensures forall v :: v in r ==> v in catalog.versions(b)
    {
      if b in supported then supported[b] else []
    }

    /** Whether any version of `b` is supported. */
    function SupportsBrowser(b: Browser): (r: bool)
      reads this
      requires Valid()
      ensures r <==> AllSupportedVersions(b) != []
    {
      b in supported
    }

    /** Whether version `v` of `b` is supported. */
    function SupportsVersion(b: Browser, v: real): (r: bool)
      reads this
      requires Valid()
      ensures r <==> v in AllSupportedVersions(b)
      ensures r ==> SupportsBrowser(b) && v in catalog.versions(b)
    {
      b in supported && v in supported[b]
    }

    /** The lowest supported version of `b`, or -1 when no version is supported. */
    function LowestSupportedVersion(b: Browser): (r: real)
      reads this
      requires Valid()
      ensures !SupportsBrowser(b) ==> r == -1.0
      ensures SupportsBrowser(b) ==>
        && SupportsVersion(b, r)
        && forall v :: SupportsVersion(b, v) ==> r <= v
    {
      if b in supported then supported[b][0] else -1.0
    }

    /** The browsers with at least one supported version. */
    function SupportedBrowsers(): (r: set<Browser>)
      reads this
      requires Valid()
      ensures forall b :: b in r <==> SupportsBrowser(b)
    {
      supported.Keys
    }

    /** Records version `v` of `b` as supported (the multimap's put). */
    method Put(b: Browser, v: real)
      requires Valid() && v in catalog.versions(b)
      modifies this
      ensures Valid()
      ensures AllSupportedVersions(b) == Insert(old(AllSupportedVersions(b)), v)
      ensures forall c :: c != b ==> AllSupportedVersions(c) == old(AllSupportedVersions(c))
    {
      supported := supported[b := Insert(AllSupportedVersions(b), v)];
    }

    /** Designates support for version `v` of `b`; fails when `b` has no such version. */
    method SupportBrowser(b: Browser, v: real) returns (result: Outcome<ConfigError>)
      requires Valid()
      modifies this
      ensures Valid()
      ensures result == if v in catalog.versions(b) then Pass else Fail(VersionDoesNotExist)
      ensures result.Pass? ==> AllSupportedVersions(b) == Insert(old(AllSupportedVersions(b)), v)
      ensures result.Fail? ==> supported == old(supported)
      ensures forall c :: c != b ==> AllSupportedVersions(c) == old(AllSupportedVersions(c))
    {
      if v !in catalog.versions(b) {
        return Fail(VersionDoesNotExist);
      }
      Put(b, v);
      result := Pass;
    }

    /** Designates support for the current version of `b`. */
    method SupportLatest(b: Browser)
      requires Valid()
      modifies this
      ensures Valid()
      ensures AllSupportedVersions(b) == Insert(old(AllSupportedVersions(b)), catalog.versions(b)[0])
      ensures forall c :: c != b ==> AllSupportedVersions(c) == old(AllSupportedVersions(c))
    {
      Put(b, catalog.versions(b)[0]);
    }

    /**
     * Designates support for the `n` newest versions of `b`; fails when `b`
     * has fewer than `n` versions, and adds nothing when `n <= 0`.
     */
    method SupportLast(b: Browser, n: int) returns (result: Outcome<ConfigError>)
      requires Valid()
      modifies this
      ensures Valid()
      ensures result == if n <= |catalog.versions(b)| then Pass else Fail(NumVersionsOutOfRange)
      ensures result.Pass? ==>
        AllSupportedVersions(b) == InsertAll(old(AllSupportedVersions(b)), catalog.versions(b)[..if n < 0 then 0 else n])
      ensures result.Fail? ==> supported == old(supported)
      ensures forall c :: c != b ==> AllSupportedVersions(c) == old(AllSupportedVersions(c))
    {
      if n > |catalog.versions(b)| {
        return Fail(NumVersionsOutOfRange);
      }
      ghost var before := AllSupportedVersions(b);
      var versions := catalog.versions(b);
      var i := 0;
      while i < n
        invariant 0 <= i <= if n < 0 then 0 else n
        invariant Valid()
        invariant AllSupportedVersions(b) == InsertAll(before, versions[..i])
        invariant forall c :: c != b ==> AllSupportedVersions(c) == old(AllSupportedVersions(c))
      {
        assert versions[..i + 1][..i] == versions[..i];
        assert InsertAll(before, versions[..i + 1]) == Insert(InsertAll(before, versions[..i]), versions[i]);
        Put(b, versions[i]);
        i := i + 1;
      }
      result := Pass;
    }

    /**
     * Prefix `x` is required when some supported browser using `x` is
     * supported down to a version no newer than its last prefixed version.
     */
    ghost predicate PrefixRequired(x: Prefix, lastPrefixed: Browser -> real)
      reads this
      requires Valid()
    {
      exists b :: Qualifies(b, lastPrefixed) && catalog.prefix(b) == x
    }

    /** `b` is supported down to a version no newer than `lastPrefixed(b)`. */
    predicate Qualifies(b: Browser, lastPrefixed: Browser -> real)
      reads this
      requires Valid()
    {
      SupportsBrowser(b) && LowestSupportedVersion(b) <= lastPrefixed(b)
    }

    /**
     * The prefixes required under the last-prefixed versions `lastPrefixed`,
     * deduplicated and in prefix ordinal order.
     */
    method PrefixesFor(lastPrefixed: Browser -> real) returns (r: seq<Prefix>)
      requires Valid()
      ensures forall x :: x in r <==> PrefixRequired(x, lastPrefixed)
      ensures forall i, j :: 0 <= i < j < |r| ==> r[i].ordinal < r[j].ordinal
    {
      var required: set<Prefix> := {};
      var remaining := SupportedBrowsers();
      ghost var done: set<Browser> := {};
      while remaining != {}
        invariant remaining <= supported.Keys
        invariant forall c :: c in supported ==> c in done || c in remaining
        invariant forall x :: x in required <==> exists c :: c in done && Qualifies(c, lastPrefixed) && catalog.prefix(c) == x
        decreases remaining
      {
        var b :| b in remaining;
        if Qualifies(b, lastPrefixed) {
          required := required + {catalog.prefix(b)};
        }
        remaining := remaining - {b};
        done := done + {b};
      }
      forall x | x in required
        ensures x.ordinal < catalog.prefixCount
      {
        var c :| c in done && Qualifies(c, lastPrefixed) && catalog.prefix(c) == x;
      }
      r := OrdinalOrder(required, catalog.prefixCount);
    }

    /** The prefixes property `p` requires under the supported versions. */
    method PrefixesForProperty(info: PrefixInfo, p: Property) returns (r: seq<Prefix>)
      requires Valid()
      ensures forall x :: x in r <==> PrefixRequired(x, info.propertyVersion(p))
      ensures forall i, j :: 0 <= i < j < |r| ==> r[i].ordinal < r[j].ordinal
    {
      r := PrefixesFor(info.propertyVersion(p));
    }

    /** The prefixes function name `f` requires under the supported versions. */
    method PrefixesForFunction(info: PrefixInfo, f: string) returns (r: seq<Prefix>)
      requires Valid()
      ensures forall x :: x in r <==> PrefixRequired(x, info.functionVersion(f))
      ensures forall i, j :: 0 <= i < j < |r| ==> r[i].ordinal < r[j].ordinal
    {
      r := PrefixesFor(info.functionVersion(f));
    }

    /** Whether property `p` requires prefix `x`; false for a property with no prefix history. */
    method RequiresPrefixForProperty(x: Prefix, info: PrefixInfo, p: Property) returns (r: bool)
      requires Valid()
      ensures r <==> info.hasProperty(p) && PrefixRequired(x, info.propertyVersion(p))
    {
      if !info.hasProperty(p) {
        return false;
      }
      var prefixes := PrefixesForProperty(info, p);
      r := x in prefixes;
    }

    /** Whether function name `f` requires prefix `x`; false for a function with no prefix history. */
    method RequiresPrefixForFunction(x: Prefix, info: PrefixInfo, f: string) returns (r: bool)
      requires Valid()
      ensures r <==> info.hasFunction(f) && PrefixRequired(x, info.functionVersion(f))
    {
      if !info.hasFunction(f) {
        return false;
      }
      var prefixes := PrefixesForFunction(info, f);
      r := x in prefixes;
    }
  }

  /**
   * The prefixes of `required` in ordinal order, as an enum set iterates
   * them; `count` is the number of constants of the enumeration.
   */
  method OrdinalOrder(required: set<Prefix>, count: nat) returns (r: seq<Prefix>)
    requires forall x :: x in required ==> x.ordinal < count
    ensures forall x :: x in r <==> x in required
    ensures forall i, j :: 0 <= i < j < |r| ==> r[i].ordinal < r[j].ordinal
  {
    r := [];
    for o := 0 to count
      invariant forall x :: x in r <==> x in required && x.ordinal < o
      invariant forall i, j :: 0 <= i < j < |r| ==> r[i].ordinal < r[j].ordinal
      invariant forall i :: 0 <= i < |r| ==> r[i].ordinal < o
    {
      if Prefix(o) in required {
        r := r + [Prefix(o)];
      }
    }
  }

  /** A matrix that supports nothing requires no prefix. */
  lemma EmptyMatrixRequiresNothing(m: SupportMatrix, x: Prefix, lastPrefixed: Browser -> real)
    requires m.Valid() && m.supported == map[]
    ensures m.SupportedBrowsers() == {}
    ensures !m.PrefixRequired(x, lastPrefixed)
  {
  }

  /**
   * With a single browser supported at a single version `v`, the browser's
   * prefix is required exactly when `v` is no newer than its last prefixed
   * version, and no other prefix is.
   */
  lemma {:induction false} SingleVersionPrefixes(m: SupportMatrix, b: Browser, v: real, lastPrefixed: Browser -> real, x: Prefix)
    requires m.Valid() && m.supported == map[b := [v]]
    ensures m.PrefixRequired(x, lastPrefixed) <==> v <= lastPrefixed(b) && x == m.catalog.prefix(b)
  {
    assert m.LowestSupportedVersion(b) == v;
    if v <= lastPrefixed(b) && x == m.catalog.prefix(b) {
      assert b in m.supported;
    }
  }
}
