/**
 * The live-visitor and visit-count logic of the `useLiveViewers` hook:
 * the session-storage helpers, the flag mapping, and the three procedures
 * (`init`, `fetchTopCountries`, `heartbeat`) that the hook runs against the
 * shared key-value store.
 *
 * The session storage and the three React state cells are fields of the
 * class `LiveViewers`; the store is a `KeyValueStore.Store`.  What the
 * environment decides is passed in: the answer of the geolocation lookup
 * (`GeoReply`), the clock and random part of a fresh visitor id, and the
 * fate of every store command (`faults`, one per command in the order the
 * procedure issues them; a command past the end of the sequence succeeds).
 */
module LiveViewers {
  import opened Wrappers
  import opened Text
  import opened KeyValueStore
  import Sorting

  const VisitorKeyPrefix := "visitor:"
  const TotalVisitsKey := "total_visits"
  const CountryKeyPrefix := "country:"
  /** Lifetime of a presence marker, in seconds. */
  const TtlSeconds: nat := 30
  /** Period of the heartbeat timer, in seconds. */
  const HeartbeatIntervalSeconds: nat := 20

  // Session-storage item names.
  const VisitorIdItem := "visitor_id"
  const HasVisitedItem := "has_visited"
  const CountryItem := "visitor_country"

  /** What `countryCodeToFlag` adds to each upper-cased character's code. */
  const FlagOffset := 127397
  /** REGIONAL INDICATOR SYMBOL LETTER A, the flag letter for 'A'. */
  const RegionalIndicatorA := 0x1F1E6

  // ------------------------------------------------------------------ flags

  /** A string as the sequence of its code points. */
  function CodePoints(s: string): (r: seq<int>)
    ensures |r| == |s| && forall i :: 0 <= i < |s| ==> r[i] == s[i] as int
  {
    seq(|s|, i requires 0 <= i < |s| => s[i] as int)
  }

  /** `countryCodeToFlag`, with the result as its sequence of code points:
      a two-character code becomes one code point per character, shifted by
      `FlagOffset` after upper-casing; any other text is returned as it is.
      The values of the two code points are pinned here only by their count;
      for a code of two ASCII letters, the kind the geolocation service is
      meant to answer, `FlagOfLetters` states them. */
  function CountryCodeToFlag(code: string): (flag: seq<int>)
    ensures |code| != 2 ==> flag == CodePoints(code)
    ensures |code| == 2 ==> |flag| == 2
  {
    if |code| != 2 then CodePoints(code)
    else
      var upper := ToUpperAscii(code);
      seq(2, i requires 0 <= i < 2 => FlagOffset + upper[i] as int)
  }

  predicate IsAsciiLetter(c: char)
  {
    'a' <= c <= 'z' || 'A' <= c <= 'Z'
  }

  predicate IsRegionalIndicator(cp: int)
  {
    RegionalIndicatorA <= cp < RegionalIndicatorA + 26
  }

  /** The capital letter a regional indicator symbol stands for. */
  function IndicatorLetter(cp: int): (c: char)
    requires IsRegionalIndicator(cp)
    ensures 'A' <= c <= 'Z'
  {
    (cp - RegionalIndicatorA + 'A' as int) as char
  }

  /** Reads a flag back: the two letters of a pair of regional indicators. */
  function FlagLetters(flag: seq<int>): Option<string>
  {
    if |flag| == 2 && IsRegionalIndicator(flag[0]) && IsRegionalIndicator(flag[1])
    then Some([IndicatorLetter(flag[0]), IndicatorLetter(flag[1])])
    else None
  }

  /** A two-letter code becomes a pair of regional indicators that reads back
      as the upper-cased code. */
  lemma FlagOfLetters(code: string)
    requires |code| == 2 && IsAsciiLetter(code[0]) && IsAsciiLetter(code[1])
    ensures FlagLetters(CountryCodeToFlag(code)) == Some(ToUpperAscii(code))
  {
    var flag := CountryCodeToFlag(code);
    var upper := ToUpperAscii(code);
    assert flag[0] == FlagOffset + upper[0] as int && flag[1] == FlagOffset + upper[1] as int;
    assert [IndicatorLetter(flag[0]), IndicatorLetter(flag[1])] == upper;
  }

  /** The flag of a two-character code does not depend on letter case. */
  lemma FlagIgnoresCase(a: string, b: string)
    requires |a| == 2 && ToUpperAscii(a) == ToUpperAscii(b)
    ensures CountryCodeToFlag(a) == CountryCodeToFlag(b)
  {
    assert |b| == |ToUpperAscii(b)|;
  }

  /** Two-letter codes with the same flag are the same code up to case. */
  lemma FlagDistinguishes(a: string, b: string)
    requires |a| == 2 && IsAsciiLetter(a[0]) && IsAsciiLetter(a[1])
    requires |b| == 2 && IsAsciiLetter(b[0]) && IsAsciiLetter(b[1])
    requires CountryCodeToFlag(a) == CountryCodeToFlag(b)
    ensures ToUpperAscii(a) == ToUpperAscii(b)
  {
    FlagOfLetters(a);
    FlagOfLetters(b);
  }

  // -------------------------------------------------------- session storage

  /** A session-storage item counts as present when it is stored and is not
      the empty string, the way the hook tests the stored text for truth. */
  predicate HasItem(session: map<string, string>, name: string)
  {
    name in session && session[name] != ""
  }

  /** A new visitor id: the clock in milliseconds, a dash and a random suffix. */
  function FreshVisitorId(nowMs: nat, randomSuffix: string): (id: string)
    ensures id != ""
    ensures StartsWith(id, DecimalString(nowMs) + "-")
  {
    DecimalString(nowMs) + "-" + randomSuffix
  }

  /** The id `generateVisitorId` returns: the stored one, or a fresh one. */
  function VisitorIdFor(session: map<string, string>, nowMs: nat, randomSuffix: string): (id: string)
    ensures id != ""
    ensures HasItem(session, VisitorIdItem) ==> id == session[VisitorIdItem]
    ensures !HasItem(session, VisitorIdItem) ==> id == FreshVisitorId(nowMs, randomSuffix)
  {
    if HasItem(session, VisitorIdItem) then session[VisitorIdItem] else FreshVisitorId(nowMs, randomSuffix)
  }

  /** Once an id is stored, every later call returns it, whatever the clock and
      the random source say, and the storage stays as it is. */
  lemma VisitorIdStable(session: map<string, string>, t1: nat, s1: string, t2: nat, s2: string)
    ensures var id := VisitorIdFor(session, t1, s1);
      var after := session[VisitorIdItem := id];
      VisitorIdFor(after, t2, s2) == id && after[VisitorIdItem := VisitorIdFor(after, t2, s2)] == after
  {
  }

  /** `isNewVisit` answers true exactly when `has_visited` is not yet set. */
  predicate IsNew(session: map<string, string>)
  {
    !HasItem(session, HasVisitedItem)
  }

  /** The storage after `isNewVisit`. */
  function SessionAfterVisitCheck(session: map<string, string>): (r: map<string, string>)
    ensures HasItem(r, HasVisitedItem)
    ensures !IsNew(session) ==> r == session
    ensures forall k :: k != HasVisitedItem ==> (k in r <==> k in session) && (k in session ==> r[k] == session[k])
  {
    if IsNew(session) then session[HasVisitedItem := "true"] else session
  }

  /** What the geolocation service gives: a failed request, or a reply whose
      `country_code` is the given text (`""` for a missing or empty one). */
  datatype GeoReply = GeoFailed | GeoAnswer(countryCode: string)

  /** The result of `getCountryCode`.  `geo` is what the lookup would answer;
      it is not consulted when a country is cached. */
  function ResolveCountry(session: map<string, string>, geo: GeoReply): (r: Option<string>)
    ensures HasItem(session, CountryItem) ==> r == Some(session[CountryItem])
    ensures !HasItem(session, CountryItem) ==> (r.Some? <==> geo.GeoAnswer? && geo.countryCode != "")
    ensures r.Some? && !HasItem(session, CountryItem) ==> r.value == geo.countryCode
    ensures r.Some? ==> r.value != ""
  {
    if HasItem(session, CountryItem) then Some(session[CountryItem])
    else match geo
      case GeoAnswer(c) => if c != "" then Some(c) else None
      case GeoFailed => None
  }

  /** The storage after `getCountryCode`: a successful lookup is cached, a
      failed or empty one leaves the storage as it was. */
  function SessionAfterLookup(session: map<string, string>, geo: GeoReply): (r: map<string, string>)
    ensures ResolveCountry(session, geo).Some? ==>
      HasItem(r, CountryItem) && r[CountryItem] == ResolveCountry(session, geo).value
    ensures ResolveCountry(session, geo).None? || HasItem(session, CountryItem) ==> r == session
    ensures forall k :: k != CountryItem ==> (k in r <==> k in session) && (k in session ==> r[k] == session[k])
  {
    if HasItem(session, CountryItem) then session
    else match ResolveCountry(session, geo)
      case Some(c) => session[CountryItem := c]
      case None => session
  }

  /** Once a country is cached, later lookups answer it and change nothing,
      whatever the service would say. */
  lemma CountryCacheSticky(session: map<string, string>, g1: GeoReply, g2: GeoReply)
    requires ResolveCountry(session, g1).Some?
    ensures var s1 := SessionAfterLookup(session, g1);
      ResolveCountry(s1, g2) == ResolveCountry(session, g1) && SessionAfterLookup(s1, g2) == s1
  {
  }

  /** The country under which `init` counts a visit, if it counts one: only
      when a country is known and `isNewVisit` (asked only then) says yes. */
  function CountedCountry(session: map<string, string>, geo: GeoReply): (r: Option<string>)
    ensures r.Some? <==> ResolveCountry(session, geo).Some? && IsNew(session)
    ensures r.Some? ==> r == ResolveCountry(session, geo)
  {
    var country := ResolveCountry(session, geo);
    if country.Some? && IsNew(SessionAfterLookup(session, geo)) then country else None
  }

  /** The storage after `init`: `has_visited` is set exactly when it already
      was or a country is known; a resolved country is cached; nothing else
      changes. */
  function SessionAfterInit(session: map<string, string>, geo: GeoReply): (r: map<string, string>)
    ensures HasItem(r, HasVisitedItem) <==> HasItem(session, HasVisitedItem) || ResolveCountry(session, geo).Some?
    ensures ResolveCountry(session, geo).Some? ==>
      HasItem(r, CountryItem) && r[CountryItem] == ResolveCountry(session, geo).value
    ensures forall k :: k != HasVisitedItem && k != CountryItem ==>
      (k in r <==> k in session) && (k in session ==> r[k] == session[k])
    ensures ResolveCountry(session, geo).None? ==> r == session
  {
    var s1 := SessionAfterLookup(session, geo);
    if ResolveCountry(session, geo).Some? then SessionAfterVisitCheck(s1) else s1
  }

  /** The storage after one `init` per element of `geos`, in order. */
  function SessionAfterInits(session: map<string, string>, geos: seq<GeoReply>): map<string, string>
  {
    if geos == [] then session
    else SessionAfterInit(SessionAfterInits(session, geos[..|geos| - 1]), geos[|geos| - 1])
  }

  /** Whether the `i`-th of a series of `init` runs in one session counts a visit. */
  predicate CountedAt(session: map<string, string>, geos: seq<GeoReply>, i: nat)
    requires i < |geos|
  {
    CountedCountry(SessionAfterInits(session, geos[..i]), geos[i]).Some?
  }

  lemma AfterInitsStep(session: map<string, string>, geos: seq<GeoReply>, i: nat)
    requires i < |geos|
    ensures SessionAfterInits(session, geos[..i + 1])
         == SessionAfterInit(SessionAfterInits(session, geos[..i]), geos[i])
  {
    assert geos[..i + 1][..i] == geos[..i];
  }

  /** Once `has_visited` is set it stays set through any later `init`. */
  lemma {:induction false} VisitedPersists(session: map<string, string>, geos: seq<GeoReply>, i: nat, j: nat)
    requires i <= j <= |geos|
    requires !IsNew(SessionAfterInits(session, geos[..i]))
    ensures !IsNew(SessionAfterInits(session, geos[..j]))
    decreases j - i
  {
    if i < j {
      AfterInitsStep(session, geos, i);
      VisitedPersists(session, geos, i + 1, j);
    }
  }

  /** `init` counts at most one visit per session. */
  lemma CountedAtMostOnce(session: map<string, string>, geos: seq<GeoReply>, i: nat, j: nat)
    requires i < j < |geos|
    requires CountedAt(session, geos, i)
    ensures !CountedAt(session, geos, j)
  {
    AfterInitsStep(session, geos, i);
    VisitedPersists(session, geos, i + 1, j);
  }

  /** In a session that has not counted yet, the first `init` that knows the
      country counts the visit. */
  lemma {:induction false} FirstKnownCountryCounts(session: map<string, string>, geos: seq<GeoReply>, i: nat)
    requires i < |geos| && IsNew(session)
    requires forall k :: 0 <= k < i ==> ResolveCountry(SessionAfterInits(session, geos[..k]), geos[k]).None?
    requires ResolveCountry(SessionAfterInits(session, geos[..i]), geos[i]).Some?
    ensures CountedAt(session, geos, i)
  {
    var k := 0;
    while k < i
      invariant 0 <= k <= i
      invariant IsNew(SessionAfterInits(session, geos[..k]))
    {
      AfterInitsStep(session, geos, k);
      k := k + 1;
    }
  }

  // ---------------------------------------------------------- counting phase

  function CountryKey(country: string): string
  {
    CountryKeyPrefix + country
  }

  /** The fate of the `i`-th command of a procedure. */
  function FaultAt(faults: seq<Fault>, i: nat): Fault
  {
    if i < |faults| then faults[i] else NoFault
  }

  /** The faults left for the commands after the first `n`. */
  function Drop(faults: seq<Fault>, n: nat): (r: seq<Fault>)
    ensures forall i: nat :: FaultAt(r, i) == FaultAt(faults, n + i)
  {
    if n <= |faults| then faults[n..] else []
  }

  /** What the counting part of `init` leaves: the store, the total to show
      (`None` when an error ends `init` before it sets one), and how many
      commands it issued. */
  datatype CounterStep = CounterStep(db: Db, shown: Option<int>, commands: nat)

  /** The counting part of `init`, given the country it counts under (see
      `CountedCountry`): `INCR country:<c>` and then `INCR total_visits`, or
      else `GET total_visits`. */
  function RecordVisit(db: Db, now: int, counted: Option<string>, faults: seq<Fault>): (step: CounterStep)
    ensures db.Valid() ==> step.db.Valid()
    ensures counted.None? ==> step.db == db
    ensures counted.None? && FaultAt(faults, 0) == NoFault ==> step.shown == Some(db.Counter(TotalVisitsKey, now))
    ensures counted.Some? && FaultAt(faults, 0) == NoFault && FaultAt(faults, 1) == NoFault ==>
      step.db.Get(CountryKey(counted.value), now) == Some(db.Counter(CountryKey(counted.value), now) + 1)
      && step.db.Get(TotalVisitsKey, now) == Some(db.Counter(TotalVisitsKey, now) + 1)
    ensures counted.Some? && FaultAt(faults, 0) != NoFault ==>
      forall t :: step.db.Get(TotalVisitsKey, t) == db.Get(TotalVisitsKey, t)
    ensures step.shown.Some? <==> FaultAt(faults, 0) == NoFault && (counted.Some? ==> FaultAt(faults, 1) == NoFault)
    ensures step.shown.Some? ==> step.shown.value == step.db.Counter(TotalVisitsKey, now)
    ensures forall k :: db.Counter(k, now) <= step.db.Counter(k, now) <= db.Counter(k, now) + 1
    ensures forall k, t :: k != TotalVisitsKey && (counted.None? || k != CountryKey(counted.value)) ==>
      step.db.Get(k, t) == db.Get(k, t)
    ensures step.commands == if counted.Some? && FaultAt(faults, 0) == NoFault then 2 else 1
  {
    assert forall c :: CountryKey(c)[0] == 'c' != TotalVisitsKey[0];
    match counted
    case Some(c) =>
      var f0 := FaultAt(faults, 0);
      var db1 := if Executed(f0) then db.Incr(CountryKey(c), now) else db;
      if f0 != NoFault then CounterStep(db1, None, 1)
      else
        var f1 := FaultAt(faults, 1);
        var db2 := if Executed(f1) then db1.Incr(TotalVisitsKey, now) else db1;
        CounterStep(db2, if f1 == NoFault then Some(db1.Counter(TotalVisitsKey, now) + 1) else None, 2)
    case None =>
      CounterStep(db, if FaultAt(faults, 0) == NoFault then Some(db.Counter(TotalVisitsKey, now)) else None, 1)
  }

  /** The country `INCR` comes first: when it reaches the store, the country
      key ends as that one `INCR` leaves it, even if the second command is lost;
      when it is lost, the store is as it was. */
  lemma RecordVisitCountryFirst(db: Db, now: int, c: string, faults: seq<Fault>)
    ensures var step := RecordVisit(db, now, Some(c), faults);
      && (Executed(FaultAt(faults, 0)) ==>
            forall t :: step.db.Get(CountryKey(c), t) == db.Incr(CountryKey(c), now).Get(CountryKey(c), t))
      && (!Executed(FaultAt(faults, 0)) ==> step.db == db)
  {
    assert CountryKey(c)[0] == 'c' != TotalVisitsKey[0];
  }

  /** The total `INCR` is sent only after the country `INCR` succeeded; when it
      reaches the store, the total ends as that one `INCR` leaves it, and when
      it is lost, the total is as it was. */
  lemma RecordVisitTotalSecond(db: Db, now: int, c: string, faults: seq<Fault>)
    ensures var step := RecordVisit(db, now, Some(c), faults);
      && (FaultAt(faults, 0) == NoFault && Executed(FaultAt(faults, 1)) ==>
            forall t :: step.db.Get(TotalVisitsKey, t) == db.Incr(TotalVisitsKey, now).Get(TotalVisitsKey, t))
      && (FaultAt(faults, 0) == NoFault && !Executed(FaultAt(faults, 1)) ==>
            forall t :: step.db.Get(TotalVisitsKey, t) == db.Get(TotalVisitsKey, t))
  {
    assert CountryKey(c)[0] == 'c' != TotalVisitsKey[0];
    var db1 := db.Incr(CountryKey(c), now);
    assert forall t :: db1.Get(TotalVisitsKey, t) == db.Get(TotalVisitsKey, t);
    IncrSameKeyHistory(db1, db, TotalVisitsKey, now);
  }

  /** Two stores that agree on a key at every time agree on it after an `INCR` of it. */
  lemma IncrSameKeyHistory(a: Db, b: Db, key: string, now: int)
    requires forall t :: a.Get(key, t) == b.Get(key, t)
    ensures forall t :: a.Incr(key, now).Get(key, t) == b.Incr(key, now).Get(key, t)
  {
    assert a.Get(key, now) == b.Get(key, now);
    forall t ensures a.Incr(key, now).Get(key, t) == b.Incr(key, now).Get(key, t) {
      assert a.Get(key, t) == b.Get(key, t);
    }
  }

  // ------------------------------------------------------------ top countries

  datatype CountryStats = CountryStats(code: string, flag: seq<int>, count: int)

  function CountOf(s: CountryStats): int
  {
    s.count
  }

  /** The entry `fetchTopCountries` builds for one `country:*` key. */
  function StatsFor(db: Db, now: int, key: string): (r: CountryStats)
    ensures r.count == db.Counter(key, now)
    ensures r.flag == CountryCodeToFlag(r.code)
    ensures StartsWith(key, CountryKeyPrefix) ==> r.code == key[|CountryKeyPrefix|..] && CountryKey(r.code) == key
  {
    var code := RemoveFirst(key, CountryKeyPrefix);
    assert StartsWith(key, CountryKeyPrefix) ==> code == key[|CountryKeyPrefix|..] by {
      if StartsWith(key, CountryKeyPrefix) {
        RemoveFirstOfPrefix(key, CountryKeyPrefix);
      }
    }
    CountryStats(code, CountryCodeToFlag(code), db.Counter(key, now))
  }

  function StatsOf(db: Db, now: int, keys: seq<string>): (r: seq<CountryStats>)
    ensures |r| == |keys| && forall i :: 0 <= i < |keys| ==> r[i] == StatsFor(db, now, keys[i])
  {
    seq(|keys|, i requires 0 <= i < |keys| => StatsFor(db, now, keys[i]))
  }

  /** The ranking shown: the entries sorted by descending count, stably, and
      cut to the first three. */
  function TopThree(stats: seq<CountryStats>): (top: seq<CountryStats>)
    ensures |top| == Min(3, |stats|)
    ensures Sorting.SortedDesc(top, CountOf)
  {
    Sorting.SortDescCorrect(stats, CountOf);
    assert |multiset(Sorting.SortDesc(stats, CountOf))| == |multiset(stats)|;
    Sorting.SortDesc(stats, CountOf)[..Min(3, |stats|)]
  }

  /** In a sorted sequence nothing after position `m` outranks anything before it. */
  lemma SortedPrefixDominates(sorted: seq<CountryStats>, m: nat)
    requires Sorting.SortedDesc(sorted, CountOf) && m <= |sorted|
    ensures forall x, y :: x in multiset(sorted[m..]) && y in sorted[..m] ==> x.count <= y.count
  {
    forall x, y | x in multiset(sorted[m..]) && y in sorted[..m] ensures x.count <= y.count {
      var j :| 0 <= j < |sorted[m..]| && sorted[m..][j] == x;
      var i :| 0 <= i < m && sorted[i] == y;
      assert sorted[m + j] == x;
    }
  }

  /** The ranking holds entries of the input, and nothing left out has a
      higher count than anything shown. */
  lemma TopThreeIsTop(stats: seq<CountryStats>)
    ensures multiset(TopThree(stats)) <= multiset(stats)
    ensures forall x, y :: x in multiset(stats) - multiset(TopThree(stats)) && y in TopThree(stats) ==> x.count <= y.count
  {
    var sorted := Sorting.SortDesc(stats, CountOf);
    Sorting.SortDescCorrect(stats, CountOf);
    var m := Min(3, |stats|);
    assert |sorted| == |stats| by {
      assert |multiset(sorted)| == |multiset(stats)|;
    }
    assert TopThree(stats) == sorted[..m];
    assert sorted == sorted[..m] + sorted[m..];
    assert multiset(sorted) == multiset(sorted[..m]) + multiset(sorted[m..]);
    assert multiset(stats) - multiset(TopThree(stats)) == multiset(sorted[m..]);
    SortedPrefixDominates(sorted, m);
  }

  /** The ranking is the first three of any stable descending sort of the
      entries: ties keep the order in which `KEYS` listed them. */
  lemma TopThreeOfStableSort(stats: seq<CountryStats>, sorted: seq<CountryStats>)
    requires Sorting.SortedDesc(sorted, CountOf)
    requires Sorting.SameOrderPerKey(sorted, stats, CountOf)
    ensures TopThree(stats) == sorted[..Min(3, |sorted|)]
  {
    var reference := Sorting.SortDesc(stats, CountOf);
    Sorting.SortDescCorrect(stats, CountOf);
    assert Sorting.SameOrderPerKey(reference, sorted, CountOf) by {
      forall v ensures Sorting.WithKey(reference, CountOf, v) == Sorting.WithKey(sorted, CountOf, v) {
        assert Sorting.WithKey(reference, CountOf, v) == Sorting.WithKey(stats, CountOf, v);
      }
    }
    Sorting.StableSortUnique(reference, sorted, CountOf);
    assert |reference| == |stats| by {
      assert |multiset(reference)| == |multiset(stats)|;
    }
  }

  /** All commands from `from` up to, not including, `to` succeed. */
  predicate AllDelivered(faults: seq<Fault>, from: nat, to: nat)
  {
    forall i: nat :: from <= i < to ==> FaultAt(faults, i) == NoFault
  }

  /** What `fetchTopCountries` sets `topCountries` to, or `None` when an error
      ends it first: `KEYS country:*` and then one `GET` per key. */
  function TopCountriesOutcome(db: Db, now: int, faults: seq<Fault>): (r: Option<seq<CountryStats>>)
    ensures r.Some? <==> AllDelivered(faults, 0, |db.Keys(CountryKeyPrefix, now)| + 1)
    ensures r.Some? ==> r.value == TopThree(StatsOf(db, now, db.Keys(CountryKeyPrefix, now)))
    ensures r.Some? ==> |r.value| <= 3 && Sorting.SortedDesc(r.value, CountOf)
    ensures FaultAt(faults, 0) == NoFault && db.Keys(CountryKeyPrefix, now) == [] ==> r == Some([])
  {
    if FaultAt(faults, 0) != NoFault then None
    else
      var keys := db.Keys(CountryKeyPrefix, now);
      if keys == [] then Some([])
      else if !AllDelivered(faults, 1, |keys| + 1) then None
      else Some(TopThree(StatsOf(db, now, keys)))
  }

  /** When every command succeeds, the ranking shows as many entries as there
      are live `country:*` keys, up to three, and no live country left out has
      a higher count than one shown. */
  lemma TopCountriesWhenDelivered(db: Db, now: int, faults: seq<Fault>)
    requires db.Valid()
    requires AllDelivered(faults, 0, |db.Keys(CountryKeyPrefix, now)| + 1)
    ensures var r := TopCountriesOutcome(db, now, faults);
      && r.Some?
      && |r.value| == Min(3, |db.LiveKeys(CountryKeyPrefix, now)|)
      && forall key, s :: key in db.LiveKeys(CountryKeyPrefix, now) && StatsFor(db, now, key) !in r.value && s in r.value ==>
           db.Counter(key, now) <= s.count
  {
    var keys := db.Keys(CountryKeyPrefix, now);
    var stats := StatsOf(db, now, keys);
    var top := TopCountriesOutcome(db, now, faults).value;
    assert top == TopThree(stats);
    KeysCountLiveKeys(db, CountryKeyPrefix, now);
    TopThreeIsTop(stats);
    forall key, s | key in db.LiveKeys(CountryKeyPrefix, now) && StatsFor(db, now, key) !in top && s in top
      ensures db.Counter(key, now) <= s.count
    {
      var i :| 0 <= i < |keys| && keys[i] == key;
      assert stats[i] == StatsFor(db, now, key);
      assert StatsFor(db, now, key) in multiset(stats) - multiset(top);
    }
  }

  /** Every entry shown belongs to a live `country:<code>` key and carries that
      code, its flag and the key's count. */
  lemma TopCountriesFromLiveKeys(db: Db, now: int, faults: seq<Fault>)
    requires db.Valid()
    requires TopCountriesOutcome(db, now, faults).Some?
    ensures forall s :: s in TopCountriesOutcome(db, now, faults).value ==>
      exists c :: CountryKey(c) in db.LiveKeys(CountryKeyPrefix, now)
        && s == CountryStats(c, CountryCodeToFlag(c), db.Counter(CountryKey(c), now))
  {
    var keys := db.Keys(CountryKeyPrefix, now);
    if keys != [] {
      var stats := StatsOf(db, now, keys);
      assert multiset(TopThree(stats)) <= multiset(stats) by {
        TopThreeIsTop(stats);
      }
      forall s | s in TopThree(stats)
        ensures exists c :: (CountryKey(c) in db.LiveKeys(CountryKeyPrefix, now)
                             && s == CountryStats(c, CountryCodeToFlag(c), db.Counter(CountryKey(c), now)))
      {
        assert s in multiset(stats);
        var i :| 0 <= i < |stats| && stats[i] == s;
        var key := keys[i];
        assert key in keys;
        KeysCountLiveKeys(db, CountryKeyPrefix, now);
        var c := key[|CountryKeyPrefix|..];
        assert CountryKey(c) in db.LiveKeys(CountryKeyPrefix, now);
      }
    }
  }

  /** With counts 10, 7, 7 and 2 the ranking is the first three, and the two
      sevens keep their order. */
  lemma TopThreeExample(a: CountryStats, b: CountryStats, c: CountryStats, d: CountryStats)
    requires a.count == 10 && b.count == 7 && c.count == 7 && d.count == 2
    ensures TopThree([a, b, c, d]) == [a, b, c]
  {
    assert [a, b, c, d][1..] == [b, c, d] && [b, c, d][1..] == [c, d] && [c, d][1..] == [d];
    assert Sorting.SortDesc([d], CountOf) == [d];
    assert Sorting.SortDesc([c, d], CountOf) == [c, d];
    assert Sorting.SortDesc([b, c, d], CountOf) == [b, c, d];
    assert Sorting.SortDesc([a, b, c, d], CountOf) == [a, b, c, d];
  }

  /** Listed in the opposite order, the two sevens swap places as well. */
  lemma TopThreeTieExample(a: CountryStats, b: CountryStats, c: CountryStats, d: CountryStats)
    requires a.count == 10 && b.count == 7 && c.count == 7 && d.count == 2
    ensures TopThree([d, c, b, a]) == [a, c, b]
  {
    assert [d, c, b, a][1..] == [c, b, a] && [c, b, a][1..] == [b, a] && [b, a][1..] == [a];
    assert Sorting.SortDesc([a], CountOf) == [a];
    assert Sorting.SortDesc([b, a], CountOf) == [a, b] by {
      assert Sorting.Insert(b, [a], CountOf) == [a] + Sorting.Insert(b, [], CountOf);
    }
    assert Sorting.SortDesc([c, b, a], CountOf) == [a, c, b] by {
      assert [a, b][1..] == [b];
      assert Sorting.Insert(c, [b], CountOf) == [c, b];
      assert Sorting.Insert(c, [a, b], CountOf) == [a] + Sorting.Insert(c, [b], CountOf);
    }
    assert Sorting.SortDesc([d, c, b, a], CountOf) == [a, c, b, d] by {
      assert [a, c, b][1..] == [c, b] && [c, b][1..] == [b];
      assert Sorting.Insert(d, [b], CountOf) == [b, d];
      assert Sorting.Insert(d, [c, b], CountOf) == [c] + Sorting.Insert(d, [b], CountOf);
      assert Sorting.Insert(d, [a, c, b], CountOf) == [a] + Sorting.Insert(d, [c, b], CountOf);
    }
  }

  // ---------------------------------------------------------------- heartbeat

  /** The live count shown: the number of live markers, or 1 when the store
      lists none (a length of 0 is replaced by 1). */
  function ShownLiveCount(matched: nat): (shown: int)
    ensures shown >= 1
    ensures matched >= 1 ==> shown == matched
    ensures matched == 0 ==> shown == 1
  {
    if matched == 0 then 1 else matched
  }

  /** The first heartbeat into a store without live markers leaves exactly
      this visitor's marker, with the full lifetime, and shows a count of 1. */
  lemma FirstHeartbeatExample(db: Db, now: int, id: string)
    requires db.Valid() && db.LiveKeys(VisitorKeyPrefix, now) == {}
    ensures var key := VisitorKeyPrefix + id;
      var after := db.SetEx(key, TtlSeconds, 1, now);
      && after.Keys(VisitorKeyPrefix, now) == [key]
      && after.entries[key] == Entry(1, Some(now + TtlSeconds))
      && ShownLiveCount(|after.Keys(VisitorKeyPrefix, now)|) == 1
  {
    var key := VisitorKeyPrefix + id;
    var after := db.SetEx(key, TtlSeconds, 1, now);
    var keys := after.Keys(VisitorKeyPrefix, now);
    KeysCountLiveKeys(after, VisitorKeyPrefix, now);
    assert StartsWith(key, VisitorKeyPrefix);
    assert after.Get(key, now) == Some(1);
    assert key in after.LiveKeys(VisitorKeyPrefix, now);
    assert after.LiveKeys(VisitorKeyPrefix, now) == {key};
    assert keys == [keys[0]];
  }

  /** With `total_visits` at 41, a counted visit from "US" leaves 42, shows 42
      and adds one to `country:US`. */
  lemma CountedVisitExample(db: Db, now: int)
    requires db.Get(TotalVisitsKey, now) == Some(41)
    ensures var step := RecordVisit(db, now, Some("US"), []);
      && step.shown == Some(42)
      && step.db.Get(TotalVisitsKey, now) == Some(42)
      && step.db.Get(CountryKey("US"), now) == Some(db.Counter(CountryKey("US"), now) + 1)
  {
  }

  /** The store after a heartbeat of `key` at each of the times in `beats`. */
  function AfterBeats(db: Db, key: string, beats: seq<int>): Db
  {
    if beats == [] then db
    else AfterBeats(db, key, beats[..|beats| - 1]).SetEx(key, TtlSeconds, 1, beats[|beats| - 1])
  }

  /** Consecutive heartbeats at most one timer period apart. */
  predicate OnSchedule(beats: seq<int>)
  {
    forall i :: 0 < i < |beats| ==> beats[i - 1] <= beats[i] <= beats[i - 1] + HeartbeatIntervalSeconds
  }

  /** A marker refreshed on schedule never lapses: at any instant `t` from
      the `n`-th heartbeat until the next one (or, after the last, until the
      lifetime runs out), the store as the `n`-th heartbeat left it shows the
      marker. */
  lemma MarkerNeverLapses(db: Db, key: string, beats: seq<int>, n: nat, t: int)
    requires OnSchedule(beats)
    requires 0 < n <= |beats| && beats[n - 1] <= t
    requires if n < |beats| then t <= beats[n] else t < beats[n - 1] + TtlSeconds
    ensures AfterBeats(db, key, beats[..n]).Get(key, t) == Some(1)
  {
    assert beats[..n][..n - 1] == beats[..n - 1];
  }

  /** The lifetime is what keeps it so: after a gap longer than the lifetime,
      the marker is gone before the next heartbeat. */
  lemma MarkerLapsesAfterLongGap(db: Db, key: string, beats: seq<int>, n: nat)
    requires 0 < n < |beats| && beats[n] > beats[n - 1] + TtlSeconds
    ensures AfterBeats(db, key, beats[..n]).Get(key, beats[n - 1] + TtlSeconds).None?
  {
    assert beats[..n][..n - 1] == beats[..n - 1];
  }

  /** `init` and `heartbeat` run side by side, and neither sees the other's
      writes: the heartbeat's `SETEX` of a marker changes no key `init` reads
      and no `KEYS country:*` answer, and an `INCR` of a key outside
      `visitor:*` changes no marker and no `KEYS visitor:*` answer.  Each
      command's reply is therefore the same in every interleaving. */
  lemma InitAndHeartbeatDisjoint(db: Db, visitorKey: string, key: string, t: int, now: int)
    requires StartsWith(visitorKey, VisitorKeyPrefix) && !StartsWith(key, VisitorKeyPrefix)
    ensures forall k :: !StartsWith(k, VisitorKeyPrefix) ==>
      db.SetEx(visitorKey, TtlSeconds, 1, t).Get(k, now) == db.Get(k, now)
    ensures db.SetEx(visitorKey, TtlSeconds, 1, t).Keys(CountryKeyPrefix, now) == db.Keys(CountryKeyPrefix, now)
    ensures db.Incr(key, t).Get(visitorKey, now) == db.Get(visitorKey, now)
    ensures db.Incr(key, t).Keys(VisitorKeyPrefix, now) == db.Keys(VisitorKeyPrefix, now)
  {
    assert visitorKey[0] == 'v';
    assert !StartsWith(visitorKey, CountryKeyPrefix);
    assert visitorKey != key;
    KeysIgnoreOtherWrites(db, db.SetEx(visitorKey, TtlSeconds, 1, t), visitorKey, CountryKeyPrefix, now);
    KeysIgnoreOtherWrites(db, db.Incr(key, t), key, VisitorKeyPrefix, now);
  }

  /** The keys `init` writes lie outside `visitor:*`. */
  lemma InitKeysAreNotMarkers(country: string)
    ensures !StartsWith(CountryKey(country), VisitorKeyPrefix) && !StartsWith(TotalVisitsKey, VisitorKeyPrefix)
  {
    assert CountryKey(country)[0] == 'c';
  }

  // ------------------------------------------------------------- the hook

  /** One mounted instance of the hook: the tab's session storage, the three
      state cells it exposes, and the store it talks to. */
  class LiveViewers {
    const store: Store
    var session: map<string, string>
    var liveCount: Option<int>
    var totalVisits: Option<int>
    var topCountries: seq<CountryStats>

    /** The state cells hold what the procedures can put there: a live count
        of at least one and a ranking of at most three, highest first. */
    predicate CellsValid()
      reads this
    {
      (liveCount.Some? ==> liveCount.value >= 1)
      && |topCountries| <= 3 && Sorting.SortedDesc(topCountries, CountOf)
    }

    ghost predicate Valid()
      reads this, store
    {
      store.Valid() && CellsValid()
    }

    constructor (store: Store, session: map<string, string>)
      requires store.Valid()
      ensures Valid()
      ensures this.store == store && this.session == session
      ensures liveCount == None && totalVisits == None && topCountries == []
    {
      this.store := store;
      this.session := session;
      liveCount := None;
      totalVisits := None;
      topCountries := [];
    }

    /** `generateVisitorId`. */
    method GenerateVisitorId(nowMs: nat, randomSuffix: string) returns (id: string)
      modifies this`session
      ensures id == VisitorIdFor(old(session), nowMs, randomSuffix)
      ensures HasItem(old(session), VisitorIdItem) ==> session == old(session)
      ensures !HasItem(old(session), VisitorIdItem) ==> session == old(session)[VisitorIdItem := id]
      ensures HasItem(session, VisitorIdItem) && session[VisitorIdItem] == id
    {
      if VisitorIdItem in session && session[VisitorIdItem] != "" {
        id := session[VisitorIdItem];
      } else {
        id := FreshVisitorId(nowMs, randomSuffix);
        session := session[VisitorIdItem := id];
      }
    }

    /** `isNewVisit`. */
    method IsNewVisit() returns (isNew: bool)
      modifies this`session
      ensures isNew == IsNew(old(session))
      ensures session == SessionAfterVisitCheck(old(session))
      ensures !IsNew(session)
    {
      if HasVisitedItem in session && session[HasVisitedItem] != "" {
        isNew := false;
      } else {
        session := session[HasVisitedItem := "true"];
        isNew := true;
      }
    }

    /** `getCountryCode`, with `geo` standing for the lookup's answer. */
    method GetCountryCode(geo: GeoReply) returns (country: Option<string>)
      modifies this`session
      ensures country == ResolveCountry(old(session), geo)
      ensures session == SessionAfterLookup(old(session), geo)
    {
      if CountryItem in session && session[CountryItem] != "" {
        return Some(session[CountryItem]);
      }
      match geo
      case GeoFailed =>
        country := None;
      case GeoAnswer(c) =>
        country := if c != "" then Some(c) else None;
        if c != "" {
          session := session[CountryItem := c];
        }
    }

    /** The start of the effect: nothing happens without store credentials;
        otherwise the visitor id is settled and its marker key returned. */
    method Mount(configured: bool, nowMs: nat, randomSuffix: string) returns (visitorKey: Option<string>)
      modifies this`session
      ensures !configured ==> visitorKey == None && session == old(session)
      ensures configured ==>
        visitorKey == Some(VisitorKeyPrefix + VisitorIdFor(old(session), nowMs, randomSuffix))
        && session == old(session)[VisitorIdItem := VisitorIdFor(old(session), nowMs, randomSuffix)]
    {
      if !configured {
        return None;
      }
      var id := GenerateVisitorId(nowMs, randomSuffix);
      visitorKey := Some(VisitorKeyPrefix + id);
    }

    /** The loop of `fetchTopCountries`: one `GET` per key, in order, each
        result turned into an entry; `None` when a `GET` fails. */
    method CountryCounts(countryKeys: seq<string>, faults: seq<Fault>) returns (counts: Option<seq<CountryStats>>)
      ensures counts == if AllDelivered(faults, 1, |countryKeys| + 1)
                        then Some(StatsOf(store.db, store.now, countryKeys))
                        else None
    {
      var collected: seq<CountryStats> := [];
      var i := 0;
      while i < |countryKeys|
        invariant 0 <= i <= |countryKeys|
        invariant collected == StatsOf(store.db, store.now, countryKeys[..i])
        invariant AllDelivered(faults, 1, i + 1)
      {
        var key := countryKeys[i];
        var countReply := store.Get(key, FaultAt(faults, i + 1));
        if countReply.Failed? {
          assert !AllDelivered(faults, 1, |countryKeys| + 1);
          return None;
        }
        var code := RemoveFirst(key, CountryKeyPrefix);
        var entry := CountryStats(code, CountryCodeToFlag(code), countReply.value.GetOr(0));
        assert entry == StatsFor(store.db, store.now, key);
        collected := collected + [entry];
        assert countryKeys[..i + 1][..i] == countryKeys[..i];
        i := i + 1;
      }
      assert countryKeys[..i] == countryKeys;
      counts := Some(collected);
    }

    /** `fetchTopCountries`. */
    method FetchTopCountries(faults: seq<Fault>)
      requires Valid()
      modifies this`topCountries
      ensures Valid()
      ensures topCountries == TopCountriesOutcome(store.db, store.now, faults).GetOr(old(topCountries))
    {
      var keysReply := store.Keys(CountryKeyPrefix, FaultAt(faults, 0));
      if keysReply.Failed? {
        return;
      }
      var countryKeys := keysReply.value;
      if |countryKeys| == 0 {
        topCountries := [];
        return;
      }
      var counts := CountryCounts(countryKeys, faults);
      if counts.None? {
        return;
      }
      topCountries := TopThree(counts.value);
    }

    /** `init`: settles the country, counts the visit once per session, shows
        the total and then refreshes the ranking. */
    method Init(geo: GeoReply, faults: seq<Fault>)
      requires Valid()
      modifies this`session, this`totalVisits, this`topCountries, store`db
      ensures Valid()
      ensures session == SessionAfterInit(old(session), geo)
      ensures var step := RecordVisit(old(store.db), store.now, CountedCountry(old(session), geo), faults);
        store.db == step.db
        && totalVisits == (if step.shown.Some? then step.shown else old(totalVisits))
        && topCountries == if step.shown.Some?
                           then TopCountriesOutcome(step.db, store.now, Drop(faults, step.commands)).GetOr(old(topCountries))
                           else old(topCountries)
    {
      var counted := SettleCountry(geo);
      var shown, commands := RecordVisitOnStore(counted, faults);
      if shown.None? {
        return;
      }
      totalVisits := shown;
      FetchTopCountries(Drop(faults, commands));
    }

    /** The session part of `init`: the country lookup and, once a country
        is known, the first-visit check; yields the country the visit is
        counted under, if it is counted. */
    method SettleCountry(geo: GeoReply) returns (counted: Option<string>)
      modifies this`session
      ensures counted == CountedCountry(old(session), geo)
      ensures session == SessionAfterInit(old(session), geo)
    {
      var country := GetCountryCode(geo);
      counted := None;
      if country.Some? {
        var isNew := IsNewVisit();
        if isNew {
          counted := country;
        }
      }
    }

    /** The counting part of `init`: `INCR country:<c>` and `INCR total_visits`
        when a visit is counted under `c`, else `GET total_visits`; it yields
        the total to show (`None` after an error) and how many commands it
        issued. */
    method RecordVisitOnStore(counted: Option<string>, faults: seq<Fault>) returns (shown: Option<int>, commands: nat)
      requires store.Valid()
      modifies store`db
      ensures store.Valid()
      ensures var step := RecordVisit(old(store.db), store.now, counted, faults);
        store.db == step.db && shown == step.shown && commands == step.commands
    {
      match counted
      case Some(c) =>
        var countryReply := store.Incr(CountryKey(c), FaultAt(faults, 0));
        if countryReply.Failed? {
          return None, 1;
        }
        var totalReply := store.Incr(TotalVisitsKey, FaultAt(faults, 1));
        if totalReply.Failed? {
          return None, 2;
        }
        return Some(totalReply.value), 2;
      case None =>
        var totalReply := store.Get(TotalVisitsKey, FaultAt(faults, 0));
        if totalReply.Failed? {
          return None, 1;
        }
        return Some(totalReply.value.GetOr(0)), 1;
    }

    /** `heartbeat`: renews this visitor's marker, then counts the live ones. */
    method Heartbeat(visitorKey: string, faults: seq<Fault>)
      requires Valid()
      modifies this`liveCount, store`db
      ensures Valid()
      ensures store.db == if Executed(FaultAt(faults, 0))
                          then old(store.db).SetEx(visitorKey, TtlSeconds, 1, store.now)
                          else old(store.db)
      ensures Executed(FaultAt(faults, 0)) ==>
        store.db.entries[visitorKey] == Entry(1, Some(store.now + TtlSeconds))
      ensures liveCount == if FaultAt(faults, 0) == NoFault && FaultAt(faults, 1) == NoFault
                           then Some(ShownLiveCount(|store.db.Keys(VisitorKeyPrefix, store.now)|))
                           else old(liveCount)
      ensures FaultAt(faults, 0) == NoFault && FaultAt(faults, 1) == NoFault && StartsWith(visitorKey, VisitorKeyPrefix) ==>
        liveCount == Some(|store.db.LiveKeys(VisitorKeyPrefix, store.now)|)
    {
      var writeReply := store.SetEx(visitorKey, TtlSeconds, 1, FaultAt(faults, 0));
      if writeReply.Failed? {
        return;
      }
      var keysReply := store.Keys(VisitorKeyPrefix, FaultAt(faults, 1));
      if keysReply.Failed? {
        return;
      }
      liveCount := Some(ShownLiveCount(|keysReply.value|));
      if StartsWith(visitorKey, VisitorKeyPrefix) {
        assert store.db.Get(visitorKey, store.now) == Some(1);
        assert visitorKey in keysReply.value;
      }
    }
  }
}
