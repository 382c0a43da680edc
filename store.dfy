/**
 * An in-memory stand-in for the Redis-compatible key-value store that the
 * live-visitor hook talks to through `redisCommand`: the four commands it
 * issues (`GET`, `SETEX`, `INCR`, `KEYS prefix*`) over integer values with
 * optional expiry, against an explicit clock in seconds.
 *
 * Each command also takes a `Fault` saying how its network round trip went:
 * the request may be lost before the store sees it, or the reply may be lost
 * after the store has executed it; either way the caller sees an error.
 */
module KeyValueStore {
  import opened Wrappers
  import opened Text

  /** A stored integer and the instant from which it is gone, if it expires. */
  datatype Entry = Entry(value: int, expiresAt: Option<int>)

  predicate LiveAt(e: Entry, now: int)
  {
    e.expiresAt.None? || now < e.expiresAt.value
  }

  predicate NoDuplicates<T(==)>(s: seq<T>)
  {
    forall i, j :: 0 <= i < j < |s| ==> s[i] != s[j]
  }

  /**
   * The store's contents.  `order` lists every key ever written, once, in the
   * order of its first write; `KEYS` reports its matches in that order.
   * Expired entries stay in `entries` but are invisible to every command.
   */
  datatype Db = Db(entries: map<string, Entry>, order: seq<string>) {

    ghost predicate Valid()
    {
      NoDuplicates(order) && forall k :: k in entries <==> k in order
    }

    predicate Visible(key: string, now: int)
    {
      key in entries && LiveAt(entries[key], now)
    }

    /** `GET key`: the value of a live key; `None` (null) otherwise. */
    function Get(key: string, now: int): (r: Option<int>)
      ensures r.Some? <==> Visible(key, now)
    {
      if Visible(key, now) then Some(entries[key].value) else None
    }

    /** The number a key stands for when read as a counter: its live value, or
        0 when it is missing (as `INCR` treats it and as `Number(null) || 0`
        gives in the client). */
    function Counter(key: string, now: int): (n: int)
      ensures Visible(key, now) ==> n == entries[key].value
      ensures !Visible(key, now) ==> n == 0
    {
      match Get(key, now)
      case Some(v) => v
      case None => 0
    }

    function Enroll(key: string): seq<string>
    {
      if key in order then order else order + [key]
    }

    /** `SETEX key ttl value`: writes `value` with expiry `now + ttl`. */
    function SetEx(key: string, ttl: nat, value: int, now: int): (r: Db)
      ensures Valid() ==> r.Valid()
      ensures forall t :: now <= t < now + ttl ==> r.Get(key, t) == Some(value)
      ensures forall t :: now + ttl <= t ==> r.Get(key, t).None?
      ensures forall k, t :: k != key ==> r.Get(k, t) == Get(k, t)
    {
      Db(entries[key := Entry(value, Some(now + ttl))], Enroll(key))
    }

    /** `INCR key`: adds one to the counter; a key that is missing starts from
        0 and is created without expiry, a live key keeps its expiry. */
    function Incr(key: string, now: int): (r: Db)
      ensures Valid() ==> r.Valid()
      ensures r.Get(key, now) == Some(Counter(key, now) + 1)
      ensures !Visible(key, now) ==> forall t :: r.Get(key, t) == Some(1)
      ensures Visible(key, now) ==>
        forall t :: r.Get(key, t) == if Visible(key, t) then Some(entries[key].value + 1) else None
      ensures forall k, t :: k != key ==> r.Get(k, t) == Get(k, t)
    {
      var e := if Visible(key, now) then Entry(entries[key].value + 1, entries[key].expiresAt)
               else Entry(1, None);
      Db(entries[key := e], Enroll(key))
    }

    /** The keys of `ks` that are live and start with `prefix`, in order. */
    function Matching(ks: seq<string>, prefix: string, now: int): (r: seq<string>)
      ensures forall k :: k in r <==> k in ks && Visible(k, now) && StartsWith(k, prefix)
      ensures NoDuplicates(ks) ==> NoDuplicates(r)
    {
      if ks == [] then []
      else
        var last := ks[|ks| - 1];
        Matching(ks[..|ks| - 1], prefix, now)
          + (if Visible(last, now) && StartsWith(last, prefix) then [last] else [])
    }

    /** `KEYS prefix*`: in a valid store, each live key with the prefix once. */
    function Keys(prefix: string, now: int): (r: seq<string>)
      ensures Valid() ==> forall k :: k in r <==> k in LiveKeys(prefix, now)
      ensures Valid() ==> NoDuplicates(r)
    {
      Matching(order, prefix, now)
    }

    /** The set of live keys with the prefix, which `KEYS prefix*` enumerates. */
    ghost function LiveKeys(prefix: string, now: int): set<string>
    {
      set k | k in entries && LiveAt(entries[k], now) && StartsWith(k, prefix)
    }
  }

  /** A sequence without repetitions has as many elements as the set it lists. */
  lemma {:induction false} DistinctCardinality(s: seq<string>, members: set<string>)
    requires NoDuplicates(s)
    requires forall k :: k in s <==> k in members
    ensures |s| == |members|
  {
    if s == [] {
      assert members == {};
    } else {
      var last := s[|s| - 1];
      var init := s[..|s| - 1];
      forall k ensures k in init <==> k in members - {last} {
        if k in init {
          var i :| 0 <= i < |init| && init[i] == k;
          assert s[i] == k;
        }
        if k in members - {last} {
          assert k in s;
          var i :| 0 <= i < |s| && s[i] == k;
          assert i != |s| - 1;
          assert init[i] == k;
        }
      }
      DistinctCardinality(init, members - {last});
    }
  }

  /** `KEYS prefix*` reports each live key with the prefix exactly once. */
  lemma KeysCountLiveKeys(db: Db, prefix: string, now: int)
    requires db.Valid()
    ensures |db.Keys(prefix, now)| == |db.LiveKeys(prefix, now)|
  {
    DistinctCardinality(db.Keys(prefix, now), db.LiveKeys(prefix, now));
  }

  /** Scanning one more key appends it when it is live and has the prefix. */
  lemma MatchingStep(db: Db, ks: seq<string>, n: nat, prefix: string, now: int)
    requires n < |ks|
    ensures db.Matching(ks[..n + 1], prefix, now)
         == db.Matching(ks[..n], prefix, now) + if db.Visible(ks[n], now) && StartsWith(ks[n], prefix) then [ks[n]] else []
  {
    assert ks[..n + 1][..n] == ks[..n];
  }

  /** `KEYS prefix*` only looks at keys with the prefix. */
  lemma {:induction false} MatchingAgrees(db1: Db, db2: Db, ks: seq<string>, prefix: string, now: int)
    requires forall k :: StartsWith(k, prefix) ==> (db1.Visible(k, now) <==> db2.Visible(k, now))
    ensures db1.Matching(ks, prefix, now) == db2.Matching(ks, prefix, now)
  {
    if ks != [] {
      MatchingAgrees(db1, db2, ks[..|ks| - 1], prefix, now);
    }
  }

  /** A write to one key outside the prefix (such as `SETEX` or `INCR`) leaves
      `KEYS prefix*` as it was. */
  lemma KeysIgnoreOtherWrites(db: Db, db2: Db, key: string, prefix: string, now: int)
    requires !StartsWith(key, prefix)
    requires db2.order == db.Enroll(key)
    requires forall k :: k != key ==> db2.Get(k, now) == db.Get(k, now)
    ensures db2.Keys(prefix, now) == db.Keys(prefix, now)
  {
    forall k | StartsWith(k, prefix) ensures db.Visible(k, now) <==> db2.Visible(k, now) {
      assert db2.Get(k, now) == db.Get(k, now);
    }
    MatchingAgrees(db, db2, db.order, prefix, now);
    if key !in db.order {
      var ks := db.order + [key];
      assert ks[..|ks| - 1] == db.order;
    }
  }

  /** How a command's round trip went. */
  datatype Fault = NoFault | RequestLost | ReplyLost

  /** What the caller of a command gets back: the decoded result, or an error. */
  datatype Reply<T> = Ok(value: T) | Failed

  /** Whether the store executed a command that met `fault`. */
  predicate Executed(fault: Fault)
  {
    fault != RequestLost
  }

  /** The shared store: its contents and its clock. */
  class Store {
    var db: Db
    var now: int

    ghost predicate Valid()
      reads this
    {
      db.Valid()
    }

    constructor (now: int)
      ensures Valid() && db == Db(map[], []) && this.now == now
    {
      db := Db(map[], []);
      this.now := now;
    }

    /** Time passes; entries whose expiry is reached become invisible. */
    method Tick(seconds: nat)
      modifies this`now
      ensures now == old(now) + seconds
    {
      now := now + seconds;
    }

    method Get(key: string, fault: Fault) returns (r: Reply<Option<int>>)
      ensures r == if fault == NoFault then Ok(db.Get(key, now)) else Failed
    {
      r := if fault == NoFault then Ok(db.Get(key, now)) else Failed;
    }

    method SetEx(key: string, ttl: nat, value: int, fault: Fault) returns (r: Reply<()>)
      requires Valid()
      modifies this`db
      ensures Valid()
      ensures db == if Executed(fault) then old(db).SetEx(key, ttl, value, now) else old(db)
      ensures r == if fault == NoFault then Ok(()) else Failed
    {
      if Executed(fault) {
        db := db.SetEx(key, ttl, value, now);
      }
      r := if fault == NoFault then Ok(()) else Failed;
    }

    /** Replies with the counter's new value. */
    method Incr(key: string, fault: Fault) returns (r: Reply<int>)
      requires Valid()
      modifies this`db
      ensures Valid()
      ensures db == if Executed(fault) then old(db).Incr(key, now) else old(db)
      ensures r == if fault == NoFault then Ok(old(db).Counter(key, now) + 1) else Failed
    {
      var next := db.Counter(key, now) + 1;
      if Executed(fault) {
        db := db.Incr(key, now);
      }
      r := if fault == NoFault then Ok(next) else Failed;
    }

    /** `KEYS prefix*`: scans the keys in order and keeps the live matches. */
    method Keys(prefix: string, fault: Fault) returns (r: Reply<seq<string>>)
      requires Valid()
      ensures r == if fault == NoFault then Ok(db.Keys(prefix, now)) else Failed
      ensures r.Ok? ==> NoDuplicates(r.value) && |r.value| == |db.LiveKeys(prefix, now)|
    {
      if fault != NoFault {
        return Failed;
      }
      var matched: seq<string> := [];
      var i := 0;
      while i < |db.order|
        invariant 0 <= i <= |db.order|
        invariant matched == db.Matching(db.order[..i], prefix, now)
      {
        var k := db.order[i];
        MatchingStep(db, db.order, i, prefix, now);
        if db.Visible(k, now) && StartsWith(k, prefix) {
          matched := matched + [k];
        }
        i := i + 1;
      }
      assert db.order[..i] == db.order;
      KeysCountLiveKeys(db, prefix, now);
      r := Ok(matched);
    }
  }
}
