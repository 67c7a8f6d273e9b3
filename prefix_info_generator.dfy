/**
 * The computation behind the generated last-prefixed-version table. For each
 * category of properties (or function names), the compatibility feed gives,
 * per browser, a map from version keys to support flags; a flag containing
 * 'x' means that version needed the vendor prefix. The last prefixed version
 * of a browser is the largest such version, at most the browser's current
 * version, and a browser is recorded only when that is positive. Every
 * property of the category then gets one record per recorded browser.
 *
 * Downloading the feed is a parameter (`statsFor`), and so is turning a
 * version key's last segment into a number (`parse`).
 */
module PrefixInfoGeneration {
  import opened Wrappers
  import opened BrowserData

  /** One entry of a browser's stats: a version key such as "4.2-4.3" and its support flags. */
  datatype StatEntry = StatEntry(key: string, flags: string)

  /** A browser and the last version of it that needed the prefix. */
  datatype BrowserVersion = BrowserVersion(browser: Browser, version: real)

  /** One record of the generated table: an item (property or function name), a browser, a version. */
  datatype Info<T> = Info(item: T, browser: Browser, version: real)

  datatype GenerateError =
    | BrowserNotFound(browser: Browser)  // the feed has no stats for a known browser
    | PropertyNotFound(name: string)     // a configured property name is not a known property

  /**
   * What the computation reads: the browser catalog, every browser in
   * enumeration order, the feed's stats per category (browser key to
   * entries), and the number parser for version keys.
   */
  datatype Inputs = Inputs(
    catalog: Catalog,
    browsers: seq<Browser>,
    statsFor: string -> map<string, seq<StatEntry>>,
    parse: string -> real)
  {
    /** The catalog is valid and `browsers` lists each browser once, by increasing ordinal. */
    ghost predicate Valid() {
      && catalog.Valid()
      && forall i, j :: 0 <= i < j < |browsers| ==> browsers[i].ordinal < browsers[j].ordinal
    }
  }

  function Max(a: real, b: real): real {
    if a < b then b else a
  }

  function Min(a: real, b: real): real {
    if a < b then a else b
  }

  /** The last '-'-separated segment of a version key: everything after its last '-'. */
  function LastSegment(s: string): (r: string)
    ensures '-' !in r
    ensures exists i :: 0 <= i <= |s| && r == s[i..] && (i == 0 || s[i - 1] == '-')
  {
    if s == [] || s[|s| - 1] == '-' then
      assert s[|s|..] == [];
      []
    else
      var n := |s| - 1;
      var init := LastSegment(s[..n]);
      var i :| 0 <= i <= n && init == s[..n][i..] && (i == 0 || s[..n][i - 1] == '-');
      assert init + [s[n]] == s[i..];
      init + [s[n]]
  }

  /** An entry whose flags contain 'x': the version needed the prefix. */
  predicate Flagged(e: StatEntry) {
    'x' in e.flags
  }

  function VersionOf(e: StatEntry, parse: string -> real): real {
    parse(LastSegment(e.key))
  }

  /** The largest version among the flagged entries, starting from 0. */
  function MaxFlagged(entries: seq<StatEntry>, parse: string -> real): (r: real)
    ensures r >= 0.0
    ensures forall k :: 0 <= k < |entries| && Flagged(entries[k]) ==> VersionOf(entries[k], parse) <= r
    ensures r == 0.0 || exists k :: 0 <= k < |entries| && Flagged(entries[k]) && r == VersionOf(entries[k], parse)
  {
    if entries == [] then 0.0
    else
      var n := |entries| - 1;
      var init := entries[..n];
      var prev := MaxFlagged(init, parse);
      assert forall k :: 0 <= k < n ==> init[k] == entries[k];
      if Flagged(entries[n]) && prev < VersionOf(entries[n], parse) then VersionOf(entries[n], parse)
      else
        assert prev != 0.0 ==> exists k :: 0 <= k < n && Flagged(entries[k]) && prev == VersionOf(entries[k], parse);
        prev
  }

  /** A browser with no flagged entries never needed the prefix. */
  lemma NoFlagsNoVersion(entries: seq<StatEntry>, parse: string -> real)
    requires forall k :: 0 <= k < |entries| ==> !Flagged(entries[k])
    ensures MaxFlagged(entries, parse) == 0.0
  {
  }

  /** The last prefixed version of `b`: its largest flagged version, at most its current version. */
  function Clamped(ins: Inputs, stats: map<string, seq<StatEntry>>, b: Browser): (v: real)
    requires ins.Valid() && ins.catalog.key(b) in stats
    ensures v <= ins.catalog.versions(b)[0]
    ensures v <= MaxFlagged(stats[ins.catalog.key(b)], ins.parse)
    ensures v == ins.catalog.versions(b)[0] || v == MaxFlagged(stats[ins.catalog.key(b)], ins.parse)
  {
    Min(MaxFlagged(stats[ins.catalog.key(b)], ins.parse), ins.catalog.versions(b)[0])
  }

  /**
   * The browsers of `bs` that need the prefix, in the order of `bs`, each
   * with its last prefixed version; fails at the first browser without stats.
   */
  function VersionsFrom(ins: Inputs, stats: map<string, seq<StatEntry>>, bs: seq<Browser>): (r: Result<seq<BrowserVersion>, GenerateError>)
    requires ins.Valid()
    ensures r.Success? ==> |r.value| <= |bs|
  {
    if bs == [] then Success([])
    else
      var b := bs[|bs| - 1];
      match VersionsFrom(ins, stats, bs[..|bs| - 1])
      case Failure(e) => Failure(e)
      case Success(prev) =>
        if ins.catalog.key(b) !in stats then Failure(BrowserNotFound(b))
        else if Clamped(ins, stats, b) > 0.0 then Success(prev + [BrowserVersion(b, Clamped(ins, stats, b))])
        else Success(prev)
  }

  /** A browser of `bs` without stats, here `bs[k]`, makes computing the versions fail. */
  lemma {:induction false} MissingStatsFail(ins: Inputs, stats: map<string, seq<StatEntry>>, bs: seq<Browser>, k: nat)
    requires ins.Valid() && k < |bs| && ins.catalog.key(bs[k]) !in stats
    ensures VersionsFrom(ins, stats, bs).Failure?
  {
    var init := bs[..|bs| - 1];
    if k < |init| {
      assert init[k] == bs[k];
      MissingStatsFail(ins, stats, init, k);
    }
  }

  /** A failure names the first browser of `bs` without stats. */
  lemma {:induction false} FailureNamesFirstMissing(ins: Inputs, stats: map<string, seq<StatEntry>>, bs: seq<Browser>)
    requires ins.Valid()
    ensures var r := VersionsFrom(ins, stats, bs);
      r.Failure? ==> exists k ::
        && 0 <= k < |bs| && r.error == BrowserNotFound(bs[k]) && ins.catalog.key(bs[k]) !in stats
        && forall m :: 0 <= m < k ==> ins.catalog.key(bs[m]) in stats
  {
    if bs != [] {
      var init := bs[..|bs| - 1];
      var b := bs[|bs| - 1];
      var prev := VersionsFrom(ins, stats, init);
      if prev.Failure? {
        FailureNamesFirstMissing(ins, stats, init);
        assert VersionsFrom(ins, stats, bs) == prev;
        var k :| && 0 <= k < |init| && prev.error == BrowserNotFound(init[k]) && ins.catalog.key(init[k]) !in stats
                 && forall m :: 0 <= m < k ==> ins.catalog.key(init[m]) in stats;
        assert bs[k] == init[k];
        assert forall m :: 0 <= m < k ==> bs[m] == init[m];
      } else if ins.catalog.key(b) !in stats {
        assert VersionsFrom(ins, stats, bs) == Failure(BrowserNotFound(b));
        forall m | 0 <= m < |init|
          ensures ins.catalog.key(bs[m]) in stats
        {
          assert bs[m] == init[m];
          if ins.catalog.key(init[m]) !in stats {
            MissingStatsFail(ins, stats, init, m);
          }
        }
      }
    }
  }

  /** Computing the versions fails exactly when some browser has no stats, and names the first such browser. */
  lemma VersionsFromFails(ins: Inputs, stats: map<string, seq<StatEntry>>, bs: seq<Browser>)
    requires ins.Valid()
    ensures var r := VersionsFrom(ins, stats, bs);
      && (r.Failure? <==> exists k :: 0 <= k < |bs| && ins.catalog.key(bs[k]) !in stats)
      && (r.Failure? ==> exists k ::
            && 0 <= k < |bs| && r.error == BrowserNotFound(bs[k]) && ins.catalog.key(bs[k]) !in stats
            && forall m :: 0 <= m < k ==> ins.catalog.key(bs[m]) in stats)
  {
    if k :| 0 <= k < |bs| && ins.catalog.key(bs[k]) !in stats {
      MissingStatsFail(ins, stats, bs, k);
    }
    FailureNamesFirstMissing(ins, stats, bs);
  }

  /**
   * On success, a browser of `bs` is recorded exactly when its last prefixed
   * version is positive, and with that version, which is at most its current one.
   */
  lemma {:induction false} VersionsFromRecords(ins: Inputs, stats: map<string, seq<StatEntry>>, bs: seq<Browser>)
    requires ins.Valid() && VersionsFrom(ins, stats, bs).Success?
    ensures var r := VersionsFrom(ins, stats, bs).value;
      && (forall b :: b in bs ==> ins.catalog.key(b) in stats)
      && (forall v :: v in r ==>
            && v.browser in bs
            && ins.catalog.key(v.browser) in stats
            && v.version == Clamped(ins, stats, v.browser)
            && 0.0 < v.version <= ins.catalog.versions(v.browser)[0])
      && (forall b :: b in bs && Clamped(ins, stats, b) > 0.0 ==> BrowserVersion(b, Clamped(ins, stats, b)) in r)
  {
    if bs != [] {
      var init := bs[..|bs| - 1];
      var b := bs[|bs| - 1];
      assert bs == init + [b];
      VersionsFromRecords(ins, stats, init);
      var prev := VersionsFrom(ins, stats, init).value;
      var r := VersionsFrom(ins, stats, bs).value;
      assert ins.catalog.key(b) in stats;
      if Clamped(ins, stats, b) > 0.0 {
        assert r == prev + [BrowserVersion(b, Clamped(ins, stats, b))];
      } else {
        assert r == prev;
      }
      forall c | c in bs && Clamped(ins, stats, c) > 0.0
        ensures BrowserVersion(c, Clamped(ins, stats, c)) in r
      {
        if c != b {
          assert c in init;
        }
      }
    }
  }

  /** Once a prefix of the browsers fails, so does the whole list, with the same error. */
  lemma {:induction false} VersionsFailureSticks(ins: Inputs, stats: map<string, seq<StatEntry>>, bs: seq<Browser>, n: nat)
    requires ins.Valid() && n <= |bs|
    requires VersionsFrom(ins, stats, bs[..n]).Failure?
    ensures VersionsFrom(ins, stats, bs) == VersionsFrom(ins, stats, bs[..n])
  {
    if n < |bs| {
      var init := bs[..|bs| - 1];
      assert init[..n] == bs[..n];
      VersionsFailureSticks(ins, stats, init, n);
    } else {
      assert bs[..n] == bs;
    }
  }

  function BrowsersOf(versions: seq<BrowserVersion>): (bs: seq<Browser>)
    ensures |bs| == |versions| && forall k :: 0 <= k < |versions| ==> bs[k] == versions[k].browser
  {
    seq(|versions|, k requires 0 <= k < |versions| => versions[k].browser)
  }

  /** `a` is `b` with some elements left out, the rest in the same order. */
  predicate IsSubsequence(a: seq<Browser>, b: seq<Browser>)
    decreases |b|
  {
    if a == [] then true
    else if b == [] then false
    else
      || (a[|a| - 1] == b[|b| - 1] && IsSubsequence(a[..|a| - 1], b[..|b| - 1]))
      || IsSubsequence(a, b[..|b| - 1])
  }

  /** The recorded browsers are the browsers of `bs` in their order, some left out. */
  lemma {:induction false} VersionsFollowBrowserOrder(ins: Inputs, stats: map<string, seq<StatEntry>>, bs: seq<Browser>)
    requires ins.Valid()
    requires VersionsFrom(ins, stats, bs).Success?
    ensures IsSubsequence(BrowsersOf(VersionsFrom(ins, stats, bs).value), bs)
  {
    if bs != [] {
      var init := bs[..|bs| - 1];
      var b := bs[|bs| - 1];
      VersionsFollowBrowserOrder(ins, stats, init);
      var prev := VersionsFrom(ins, stats, init).value;
      var r := VersionsFrom(ins, stats, bs).value;
      var before := BrowsersOf(prev);
      var after := BrowsersOf(r);
      if ins.catalog.key(b) in stats && Clamped(ins, stats, b) > 0.0 {
        assert r == prev + [BrowserVersion(b, Clamped(ins, stats, b))];
        assert after[..|after| - 1] == before && after[|after| - 1] == b;
      } else {
        assert after == before;
      }
    }
  }

  /** Records in increasing ordinal order stay so when a browser above all of theirs is added. */
  lemma AppendAscends(prev: seq<BrowserVersion>, init: seq<Browser>, b: Browser, v: real)
    requires forall k :: 0 <= k < |prev| ==> prev[k].browser in init
    requires forall k :: 0 <= k < |init| ==> init[k].ordinal < b.ordinal
    requires forall i, j :: 0 <= i < j < |prev| ==> prev[i].browser.ordinal < prev[j].browser.ordinal
    ensures var r := prev + [BrowserVersion(b, v)];
      forall i, j :: 0 <= i < j < |r| ==> r[i].browser.ordinal < r[j].browser.ordinal
  {
    forall k | 0 <= k < |prev|
      ensures prev[k].browser.ordinal < b.ordinal
    {
      var m :| 0 <= m < |init| && init[m] == prev[k].browser;
    }
  }

  /** Every recorded browser is a browser of `bs`. */
  lemma {:induction false} VersionsWithin(ins: Inputs, stats: map<string, seq<StatEntry>>, bs: seq<Browser>)
    requires ins.Valid() && VersionsFrom(ins, stats, bs).Success?
    ensures var r := VersionsFrom(ins, stats, bs).value;
      forall k :: 0 <= k < |r| ==> r[k].browser in bs
  {
    if bs != [] {
      var init := bs[..|bs| - 1];
      var b := bs[|bs| - 1];
      VersionsWithin(ins, stats, init);
      var prev := VersionsFrom(ins, stats, init).value;
      var r := VersionsFrom(ins, stats, bs).value;
      assert forall k :: 0 <= k < |prev| ==> prev[k].browser in bs by {
        forall k | 0 <= k < |prev|
          ensures prev[k].browser in bs
        {
          var m :| 0 <= m < |init| && init[m] == prev[k].browser;
          assert bs[m] == init[m];
        }
      }
      if ins.catalog.key(b) in stats && Clamped(ins, stats, b) > 0.0 {
        assert r == prev + [BrowserVersion(b, Clamped(ins, stats, b))];
      } else {
        assert r == prev;
      }
    }
  }

  /**
   * When `bs` is listed by increasing ordinal, so are the recorded browsers:
   * each is a browser of `bs`, and no browser is recorded twice.
   */
  lemma {:induction false} VersionsAscend(ins: Inputs, stats: map<string, seq<StatEntry>>, bs: seq<Browser>)
    requires ins.Valid()
    requires forall i, j :: 0 <= i < j < |bs| ==> bs[i].ordinal < bs[j].ordinal
    requires VersionsFrom(ins, stats, bs).Success?
    ensures var r := VersionsFrom(ins, stats, bs).value;
      && (forall k :: 0 <= k < |r| ==> r[k].browser in bs)
      && (forall i, j :: 0 <= i < j < |r| ==> r[i].browser.ordinal < r[j].browser.ordinal)
  {
    VersionsWithin(ins, stats, bs);
    if bs != [] {
      var init := bs[..|bs| - 1];
      var b := bs[|bs| - 1];
      assert forall k :: 0 <= k < |init| ==> init[k].ordinal < b.ordinal;
      VersionsAscend(ins, stats, init);
      var prev := VersionsFrom(ins, stats, init).value;
      var r := VersionsFrom(ins, stats, bs).value;
      if ins.catalog.key(b) in stats && Clamped(ins, stats, b) > 0.0 {
        var v := Clamped(ins, stats, b);
        assert r == prev + [BrowserVersion(b, v)];
        AppendAscends(prev, init, b, v);
      } else {
        assert r == prev;
      }
    }
  }

  /**
   * The generated versions hold at most one record per browser, in the order
   * of the browser enumeration.
   */
  lemma LastPrefixedBrowsersDistinct(ins: Inputs, stats: map<string, seq<StatEntry>>)
    requires ins.Valid() && VersionsFrom(ins, stats, ins.browsers).Success?
    ensures var r := VersionsFrom(ins, stats, ins.browsers).value;
      forall i, j :: 0 <= i < j < |r| ==> r[i].browser != r[j].browser && r[i].browser.ordinal < r[j].browser.ordinal
  {
    VersionsAscend(ins, stats, ins.browsers);
  }

  /** The largest version among the flagged entries, computed by a scan of the entries. */
  method LatestPrefixed(entries: seq<StatEntry>, parse: string -> real) returns (latest: real)
    ensures latest == MaxFlagged(entries, parse)
  {
    latest := 0.0;
    for i := 0 to |entries|
      invariant latest == MaxFlagged(entries[..i], parse)
    {
      assert entries[..i + 1][..i] == entries[..i];
      if Flagged(entries[i]) {
        var last := LastSegment(entries[i].key);
        latest := if latest < parse(last) then parse(last) else latest;
      }
    }
    assert entries[..|entries|] == entries;
  }

  /** One more browser with stats: its record is added when its last prefixed version is positive. */
  lemma VersionsStep(ins: Inputs, stats: map<string, seq<StatEntry>>, bs: seq<Browser>, i: nat)
    requires ins.Valid() && i < |bs| && ins.catalog.key(bs[i]) in stats
    requires VersionsFrom(ins, stats, bs[..i]).Success?
    ensures var prev := VersionsFrom(ins, stats, bs[..i]).value;
      var v := Clamped(ins, stats, bs[i]);
      VersionsFrom(ins, stats, bs[..i + 1]) == Success(if v > 0.0 then prev + [BrowserVersion(bs[i], v)] else prev)
  {
    assert bs[..i + 1][..i] == bs[..i];
  }

  /** Reads the category's stats and records every browser that needed the prefix, in enumeration order. */
  method LastPrefixedBrowserVersions(ins: Inputs, category: string) returns (r: Result<seq<BrowserVersion>, GenerateError>)
    requires ins.Valid()
    ensures r == VersionsFrom(ins, ins.statsFor(category), ins.browsers)
  {
    var stats := ins.statsFor(category);
    var versions := [];
    for i := 0 to |ins.browsers|
      invariant VersionsFrom(ins, stats, ins.browsers[..i]) == Success(versions)
    {
      var browser := ins.browsers[i];
      if ins.catalog.key(browser) !in stats {
        assert ins.browsers[..i + 1][..i] == ins.browsers[..i];
        VersionsFailureSticks(ins, stats, ins.browsers, i + 1);
        return Failure(BrowserNotFound(browser));
      }
      var latest := LatestPrefixed(stats[ins.catalog.key(browser)], ins.parse);
      latest := Min(latest, ins.catalog.versions(browser)[0]);
      assert latest == Clamped(ins, stats, browser);
      VersionsStep(ins, stats, ins.browsers, i);
      if latest > 0.0 {
        versions := versions + [BrowserVersion(browser, latest)];
      }
    }
    assert ins.browsers[..|ins.browsers|] == ins.browsers;
    r := Success(versions);
  }

  /** Every name resolves. */
  predicate AllResolve<T>(names: seq<string>, resolve: string -> Option<T>) {
    forall k :: 0 <= k < |names| ==> resolve(names[k]).Some?
  }

  /** The items the names resolve to, in order, skipping names that do not resolve. */
  function ResolveAll<T>(names: seq<string>, resolve: string -> Option<T>): (items: seq<T>)
    ensures |items| <= |names|
    ensures AllResolve(names, resolve) ==>
      |items| == |names| && forall k :: 0 <= k < |names| ==> items[k] == resolve(names[k]).value
  {
    if names == [] then []
    else
      var init := names[..|names| - 1];
      assert forall k :: 0 <= k < |init| ==> init[k] == names[k];
      var last := resolve(names[|names| - 1]);
      ResolveAll(init, resolve) + (if last.Some? then [last.value] else [])
  }

  /** The first name that does not resolve. */
  function FirstUnresolved<T>(names: seq<string>, resolve: string -> Option<T>): (name: string)
    requires !AllResolve(names, resolve)
    ensures exists k ::
      && 0 <= k < |names| && names[k] == name && resolve(name).None?
      && forall m :: 0 <= m < k ==> resolve(names[m]).Some?
  {
    if resolve(names[0]).None? then names[0]
    else
      assert forall k :: 1 <= k < |names| ==> names[k] == names[1..][k - 1];
      var name := FirstUnresolved(names[1..], resolve);
      name
  }

  /** A name that does not resolve, after names that all do, is the first unresolved one. */
  lemma {:induction false} FirstUnresolvedAt<T>(names: seq<string>, resolve: string -> Option<T>, k: nat)
    requires k < |names| && resolve(names[k]).None?
    requires forall m :: 0 <= m < k ==> resolve(names[m]).Some?
    ensures FirstUnresolved(names, resolve) == names[k]
  {
    if k > 0 {
      assert forall m :: 0 <= m < k - 1 ==> names[1..][m] == names[m + 1];
      FirstUnresolvedAt(names[1..], resolve, k - 1);
    }
  }

  /** One record per item for a single browser version, in item order. */
  function Row<T>(bv: BrowserVersion, items: seq<T>): (r: seq<Info<T>>)
    ensures |r| == |items|
    ensures forall k :: 0 <= k < |items| ==> r[k] == Info(items[k], bv.browser, bv.version)
  {
    if items == [] then []
    else
      assert forall k :: 0 <= k < |items| - 1 ==> items[..|items| - 1][k] == items[k];
      Row(bv, items[..|items| - 1]) + [Info(items[|items| - 1], bv.browser, bv.version)]
  }

  /** One row per browser version, browser versions outermost. */
  function Records<T>(versions: seq<BrowserVersion>, items: seq<T>): seq<Info<T>>
  {
    if versions == [] then []
    else Records(versions[..|versions| - 1], items) + Row(versions[|versions| - 1], items)
  }

  lemma {:induction false} RecordsLength<T>(versions: seq<BrowserVersion>, items: seq<T>)
    ensures |Records(versions, items)| == |versions| * |items|
  {
    if versions != [] {
      RecordsLength(versions[..|versions| - 1], items);
      assert (|versions| - 1) * |items| + |items| == |versions| * |items|;
    }
  }

  /** The record for browser version `i` and item `k` sits at `i * |items| + k`. */
  lemma {:induction false} RecordsAt<T>(versions: seq<BrowserVersion>, items: seq<T>, i: nat, k: nat)
    requires i < |versions| && k < |items|
    ensures i * |items| + k < |Records(versions, items)|
    ensures Records(versions, items)[i * |items| + k] == Info(items[k], versions[i].browser, versions[i].version)
  {
    var n := |versions|;
    var init := versions[..n - 1];
    var m := |items|;
    RecordsLength(init, items);
    RecordsLength(versions, items);
    if i < n - 1 {
      RecordsAt(init, items, i, k);
      assert init[i] == versions[i];
    } else {
      assert i * m == (n - 1) * m;
    }
  }

  /**
   * The table for the categories, each given as its name and item names:
   * for each category in order, its browser versions times its items.
   * An unresolvable name fails only when some browser needs the prefix.
   */
  function Loaded<T>(ins: Inputs, categories: seq<(string, seq<string>)>, resolve: string -> Option<T>): (r: Result<seq<Info<T>>, GenerateError>)
    requires ins.Valid()
  {
    if categories == [] then Success([])
    else
      var (category, names) := categories[|categories| - 1];
      match Loaded(ins, categories[..|categories| - 1], resolve)
      case Failure(e) => Failure(e)
      case Success(prev) =>
        match VersionsFrom(ins, ins.statsFor(category), ins.browsers)
        case Failure(e) => Failure(e)
        case Success(versions) =>
          if versions != [] && !AllResolve(names, resolve) then Failure(PropertyNotFound(FirstUnresolved(names, resolve)))
          else Success(prev + Records(versions, ResolveAll(names, resolve)))
  }

  /** How many records the categories yield: browser versions times names, summed over categories. */
  function RecordCount(ins: Inputs, categories: seq<(string, seq<string>)>): nat
    requires ins.Valid()
  {
    if categories == [] then 0
    else
      var (category, names) := categories[|categories| - 1];
      var versions := VersionsFrom(ins, ins.statsFor(category), ins.browsers);
      RecordCount(ins, categories[..|categories| - 1]) + (if versions.Success? then |versions.value| * |names| else 0)
  }

  lemma {:induction false} LoadedCount<T>(ins: Inputs, categories: seq<(string, seq<string>)>, resolve: string -> Option<T>)
    requires ins.Valid() && Loaded(ins, categories, resolve).Success?
    ensures |Loaded(ins, categories, resolve).value| == RecordCount(ins, categories)
  {
    if categories != [] {
      var init := categories[..|categories| - 1];
      var category := categories[|categories| - 1].0;
      var names := categories[|categories| - 1].1;
      LoadedCount(ins, init, resolve);
      var prev := Loaded(ins, init, resolve).value;
      var versions := VersionsFrom(ins, ins.statsFor(category), ins.browsers).value;
      var items := ResolveAll(names, resolve);
      assert Loaded(ins, categories, resolve).value == prev + Records(versions, items);
      RecordsLength(versions, items);
      if versions == [] {
        assert |versions| * |names| == 0 == |versions| * |items|;
      } else {
        assert |items| == |names|;
      }
    }
  }

  /** Once a prefix of the categories fails, so does the whole list, with the same error. */
  lemma {:induction false} LoadedFailureSticks<T>(ins: Inputs, categories: seq<(string, seq<string>)>, n: nat, resolve: string -> Option<T>)
    requires ins.Valid() && n <= |categories|
    requires Loaded(ins, categories[..n], resolve).Failure?
    ensures Loaded(ins, categories, resolve) == Loaded(ins, categories[..n], resolve)
  {
    if n < |categories| {
      var init := categories[..|categories| - 1];
      assert init[..n] == categories[..n];
      LoadedFailureSticks(ins, init, n, resolve);
    } else {
      assert categories[..n] == categories;
    }
  }

  /** Function names are recorded as written: they always resolve. */
  function Keep(name: string): Option<string> {
    Some(name)
  }

  /** Loading function names fails only for a browser missing from the stats. */
  lemma {:induction false} FunctionsFailOnlyOnStats(ins: Inputs, categories: seq<(string, seq<string>)>)
    requires ins.Valid() && Loaded(ins, categories, Keep).Failure?
    ensures Loaded(ins, categories, Keep).error.BrowserNotFound?
  {
    var init := categories[..|categories| - 1];
    if Loaded(ins, init, Keep).Failure? {
      FunctionsFailOnlyOnStats(ins, init);
    } else {
      var (category, names) := categories[|categories| - 1];
      VersionsFromFails(ins, ins.statsFor(category), ins.browsers);
      assert AllResolve(names, Keep);
    }
  }

  /** Records laid out one per name, in name order, after `info`, are `info` followed by the row. */
  lemma RowLaidOut<T>(info: seq<Info<T>>, out: seq<Info<T>>, bv: BrowserVersion, names: seq<string>, resolve: string -> Option<T>)
    requires AllResolve(names, resolve)
    requires |out| == |info| + |names| && out[..|info|] == info
    requires forall m :: 0 <= m < |names| ==> out[|info| + m] == Info(resolve(names[m]).value, bv.browser, bv.version)
    ensures out == info + Row(bv, ResolveAll(names, resolve))
  {
    var row := Row(bv, ResolveAll(names, resolve));
    assert |row| == |names|;
    forall m | 0 <= m < |out|
      ensures out[m] == (info + row)[m]
    {
      if m >= |info| {
        assert out[m] == out[|info| + (m - |info|)];
      }
    }
  }

  /** Appends one record per name for a single browser version, looking the names up in order. */
  method AppendRow<T>(info: seq<Info<T>>, bv: BrowserVersion, names: seq<string>, resolve: string -> Option<T>)
    returns (r: Result<seq<Info<T>>, GenerateError>)
    ensures !AllResolve(names, resolve) ==> r == Failure(PropertyNotFound(FirstUnresolved(names, resolve)))
    ensures AllResolve(names, resolve) ==> r == Success(info + Row(bv, ResolveAll(names, resolve)))
  {
    var out := info;
    for k := 0 to |names|
      invariant forall m :: 0 <= m < k ==> resolve(names[m]).Some?
      invariant |out| == |info| + k && out[..|info|] == info
      invariant forall m :: 0 <= m < k ==> out[|info| + m] == Info(resolve(names[m]).value, bv.browser, bv.version)
    {
      var item := resolve(names[k]);
      if item.None? {
        FirstUnresolvedAt(names, resolve, k);
        return Failure(PropertyNotFound(names[k]));
      }
      out := out + [Info(item.value, bv.browser, bv.version)];
    }
    RowLaidOut(info, out, bv, names, resolve);
    r := Success(out);
  }

  lemma AppendAssociates<X>(a: seq<X>, b: seq<X>, c: seq<X>)
    ensures (a + b) + c == a + (b + c)
  {
  }

  /**
   * Appends the records of one category to `info`: for each browser version,
   * the category's names looked up in order. Fails at the first name that
   * does not resolve, which can only happen for the first browser version.
   */
  method AppendCategory<T>(info: seq<Info<T>>, versions: seq<BrowserVersion>, names: seq<string>, resolve: string -> Option<T>)
    returns (r: Result<seq<Info<T>>, GenerateError>)
    ensures versions != [] && !AllResolve(names, resolve) ==> r == Failure(PropertyNotFound(FirstUnresolved(names, resolve)))
    ensures versions == [] || AllResolve(names, resolve) ==> r == Success(info + Records(versions, ResolveAll(names, resolve)))
  {
    var out := info;
    ghost var items := ResolveAll(names, resolve);
    for j := 0 to |versions|
      invariant j > 0 ==> AllResolve(names, resolve)
      invariant out == info + Records(versions[..j], items)
    {
      var next := AppendRow(out, versions[j], names, resolve);
      if next.Failure? {
        return next;
      }
      assert AllResolve(names, resolve) && next.value == out + Row(versions[j], items);
      assert versions[..j + 1][..j] == versions[..j];
      assert Records(versions[..j + 1], items) == Records(versions[..j], items) + Row(versions[j], items);
      AppendAssociates(info, Records(versions[..j], items), Row(versions[j], items));
      out := next.value;
    }
    assert versions[..|versions|] == versions;
    r := Success(out);
  }

  /** Loads the property table: for each category, its browser versions times its property names. */
  method LoadProperties(ins: Inputs, categories: seq<(string, seq<string>)>, lookup: string -> Option<Property>)
    returns (r: Result<seq<Info<Property>>, GenerateError>)
    requires ins.Valid()
    ensures r == Loaded(ins, categories, lookup)
  {
    var info := [];
    for i := 0 to |categories|
      invariant Loaded(ins, categories[..i], lookup) == Success(info)
    {
      assert categories[..i + 1][..i] == categories[..i];
      var (category, names) := categories[i];
      var versions := LastPrefixedBrowserVersions(ins, category);
      if versions.Failure? {
        LoadedFailureSticks(ins, categories, i + 1, lookup);
        return Failure(versions.error);
      }
      var next := AppendCategory(info, versions.value, names, lookup);
      if next.Failure? {
        LoadedFailureSticks(ins, categories, i + 1, lookup);
        return next;
      }
      info := next.value;
    }
    assert categories[..|categories|] == categories;
    r := Success(info);
  }

  /** Loads the function table: as for properties, with each function name recorded as written. */
  method LoadFunctions(ins: Inputs, categories: seq<(string, seq<string>)>)
    returns (r: Result<seq<Info<string>>, GenerateError>)
    requires ins.Valid()
    ensures r == Loaded(ins, categories, Keep)
  {
    var info := [];
    for i := 0 to |categories|
      invariant Loaded(ins, categories[..i], Keep) == Success(info)
    {
      assert categories[..i + 1][..i] == categories[..i];
      var (category, names) := categories[i];
      var versions := LastPrefixedBrowserVersions(ins, category);
      if versions.Failure? {
        LoadedFailureSticks(ins, categories, i + 1, Keep);
        return Failure(versions.error);
      }
      assert AllResolve(names, Keep);
      var next := AppendCategory(info, versions.value, names, Keep);
      info := next.value;
    }
    assert categories[..|categories|] == categories;
    r := Success(info);
  }
}
