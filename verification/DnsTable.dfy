/** The table of remembered names: a TTL on every answer, and the least
    recently asked-about name dropped when the table is full
    (crates/nexapipe/src/dns.rs, `lookup`, `store`, `evict`). */
module DnsTable {
  import opened Wrappers
  import opened Finite

  /** What a caller is told about a name. */
  datatype Outcome =
    | Found(addrs: seq<string>)
    | NotFound(why: string)
    | Transient(why: string)

  datatype Entry = Entry(answer: Outcome, expiresAt: nat, lastUsed: nat)

  type Table = map<string, Entry>

  /** The name has an answer that still holds. */
  predicate Hit(t: Table, host: string, now: nat) {
    host in t && t[host].expiresAt > now
  }

  /** A hit marks the name as just asked about. */
  function Touched(t: Table, host: string, now: nat): Table
    requires host in t
  {
    t[host := t[host].(lastUsed := now)]
  }

  function LiveNames(t: Table, now: nat): set<string> {
    set n | n in t && t[n].expiresAt > now
  }

  /** `t'` is `t` with room made in it: what has expired is gone, and if that is
      not enough, so are the names asked about longest ago. Names with equal
      stamps go in any order. */
  ghost predicate Evicted(t: Table, max: nat, now: nat, t': Table) {
    var live := LiveNames(t, now);
    && t'.Keys <= live
    && (forall n :: n in t' ==> t'[n] == t[n])
    && |t'| == (if |live| < max then |live| else max - 1)
    && (forall n, k :: n in live && n !in t' && k in t' ==> t[n].lastUsed <= t[k].lastUsed)
  }

  /** `t'` is `t` after an answer about `host` is stored at `now`. */
  ghost predicate Stored(t: Table, max: nat, host: string, e: Entry, now: nat, t': Table) {
    if |t| < max then t' == t[host := e]
    else exists room :: Evicted(t, max, now, room) && t' == room[host := e]
  }

  /** The names, other than the one stored, that a store lost before they expired. */
  ghost function Lost(t: Table, host: string, now: nat, t': Table): set<string> {
    set n | n in t && n != host && n !in t' && now < t[n].expiresAt
  }

  /** Nothing in the table has expired. */
  predicate AllLive(t: Table, now: nat) {
    forall n :: n in t ==> now < t[n].expiresAt
  }

  lemma AllLiveIff(t: Table, now: nat)
    ensures AllLive(t, now) <==> LiveNames(t, now) == t.Keys
  {
  }

  lemma LostAre(t: Table, host: string, now: nat, t': Table)
    ensures Lost(t, host, now, t') == LiveNames(t, now) - t'.Keys - {host}
  {
  }

  lemma InsertSize(t: Table, host: string, e: Entry)
    ensures t[host := e].Keys == t.Keys + {host}
    ensures |t[host := e]| <= |t| + 1
  {
    assert t[host := e].Keys == t.Keys + {host};
    assert |t.Keys + {host}| <= |t.Keys| + 1;
  }

  /** A store keeps the table within its bound and changes no other answer. */
  lemma StoreKeepsOthers(t: Table, max: nat, host: string, e: Entry, now: nat, t': Table)
    requires 1 <= max && |t| <= max && Stored(t, max, host, e, now, t')
    ensures |t'| <= max
    ensures host in t' && t'[host] == e
    ensures forall n :: n in t' && n != host ==> n in t && t'[n] == t[n]
  {
    if |t| < max {
      InsertSize(t, host, e);
    } else {
      var room :| Evicted(t, max, now, room) && t' == room[host := e];
      EvictedDropsAtMostOne(t, max, now, room);
      hide Evicted;
      InsertSize(room, host, e);
    }
  }

  /** A store loses at most one live name: only when the table is full of live
      names, and then one asked about no later than any other. */
  lemma StoreLosesAtMostOne(t: Table, max: nat, host: string, e: Entry, now: nat, t': Table)
    requires 1 <= max && |t| <= max && Stored(t, max, host, e, now, t')
    ensures |Lost(t, host, now, t')| <= 1
    ensures Lost(t, host, now, t') != {} ==> |t| == max && AllLive(t, now)
    ensures forall n, k :: n in Lost(t, host, now, t') && k in t ==> t[n].lastUsed <= t[k].lastUsed
  {
    hide LiveNames, Lost;
    LiveAreNames(t, now);
    AllLiveIff(t, now);
    LostAre(t, host, now, t');
    if |t| < max {
      InsertSize(t, host, e);
      assert Lost(t, host, now, t') == {};
    } else {
      var room :| Evicted(t, max, now, room) && t' == room[host := e];
      EvictedDropsAtMostOne(t, max, now, room);
      InsertSize(room, host, e);
      var dropped := LiveNames(t, now) - room.Keys;
      hide Evicted;
      assert Lost(t, host, now, t') <= dropped;
      SubsetSize(Lost(t, host, now, t'), dropped);
    }
  }

  lemma LiveAreNames(t: Table, now: nat)
    ensures LiveNames(t, now) <= t.Keys
    ensures |LiveNames(t, now)| <= |t|
    ensures |LiveNames(t, now)| == |t| ==> LiveNames(t, now) == t.Keys
  {
    SubsetSize(LiveNames(t, now), t.Keys);
  }

  lemma EvictedDropsAtMostOne(t: Table, max: nat, now: nat, room: Table)
    requires 1 <= max == |t| && Evicted(t, max, now, room)
    ensures |room| < max
    ensures room.Keys <= t.Keys && forall n :: n in room ==> room[n] == t[n]
    ensures var dropped := LiveNames(t, now) - room.Keys;
      && |dropped| <= 1
      && (dropped != {} ==> LiveNames(t, now) == t.Keys)
      && forall n, k :: n in dropped && k in t ==> t[n].lastUsed <= t[k].lastUsed
  {
    hide LiveNames;
    LiveAreNames(t, now);
    var live := LiveNames(t, now);
    var dropped := live - room.Keys;
    assert |dropped| == |live| - |room.Keys|;
    if |live| < max {
      assert dropped == {};
    } else {
      SingletonEq(dropped);
      forall n, k | n in dropped && k in t ensures t[n].lastUsed <= t[k].lastUsed {
        assert k in room || k in dropped;
      }
    }
  }

  lemma SingletonEq<T>(s: set<T>)
    requires |s| == 1
    ensures forall x, y :: x in s && y in s ==> x == y
  {
    var x :| x in s;
    assert |s - {x}| == 0;
    assert s == {x};
  }

  /** When the table is full of live names, a store does lose one, unless the
      name it stores is itself the one that had to go. */
  lemma FullStoreLosesOne(t: Table, max: nat, host: string, e: Entry, now: nat, t': Table)
    requires 1 <= max == |t| && AllLive(t, now) && Stored(t, max, host, e, now, t')
    ensures Lost(t, host, now, t') != {}
            || (host in t && forall k :: k in t ==> t[host].lastUsed <= t[k].lastUsed)
  {
    hide LiveNames, Lost, AllLive;
    AllLiveIff(t, now);
    LostAre(t, host, now, t');
    var room :| Evicted(t, max, now, room) && t' == room[host := e];
    EvictedDropsAtMostOne(t, max, now, room);
    hide Evicted;
    InsertSize(room, host, e);
    var n := SomeDropped(t.Keys, room.Keys);
    assert n != host ==> n in Lost(t, host, now, t');
  }

  lemma SomeDropped(names: set<string>, kept: set<string>) returns (n: string)
    requires kept <= names && |kept| < |names|
    ensures n in names && n !in kept
  {
    if names <= kept {
      SubsetSize(names, kept);
    }
    n :| n in names && n !in kept;
  }

  datatype Store = Store(host: string, entry: Entry, now: nat)

  /** `tables` are the states a sequence of stores goes through. */
  ghost predicate StoreRun(max: nat, tables: seq<Table>, stores: seq<Store>) {
    && |tables| == |stores| + 1
    && tables[0] == map[]
    && forall i :: 0 <= i < |stores| ==>
         Stored(tables[i], max, stores[i].host, stores[i].entry, stores[i].now, tables[i + 1])
  }

  /** Over every sequence of stores the table stays within its bound. */
  lemma {:induction false} TableBounded(max: nat, tables: seq<Table>, stores: seq<Store>)
    requires 1 <= max && StoreRun(max, tables, stores)
    ensures forall i :: 0 <= i < |tables| ==> |tables[i]| <= max
  {
    hide Stored;
    if stores != [] {
      var n := |stores| - 1;
      TableBounded(max, tables[..n + 1], stores[..n]);
      assert |tables[..n + 1][n]| <= max;
      StoreKeepsOthers(tables[n], max, stores[n].host, stores[n].entry, stores[n].now, tables[n + 1]);
    }
  }

  // -------------------------------------------------------------- in place

  /** `names` are the names of `t`, each once, the ones asked about longest ago first. */
  ghost predicate SortedByAge(t: Table, names: seq<string>) {
    && (forall n :: n in names <==> n in t)
    && (forall i, j :: 0 <= i < j < |names| ==> names[i] != names[j])
    && (forall i, j :: 0 <= i < j < |names| ==> t[names[i]].lastUsed <= t[names[j]].lastUsed)
  }

  lemma DropPrefixSize(t: Table, names: seq<string>, k: nat)
    requires SortedByAge(t, names) && k <= |names|
    ensures (t - Elements(names[..k])).Keys == t.Keys - Elements(names[..k])
    ensures |t - Elements(names[..k])| == |t| - k
  {
    var gone := Elements(names[..k]);
    DistinctSize(names[..k]);
    forall n | n in gone ensures n in t.Keys {
      assert n in names;
    }
    assert (t - gone).Keys == t.Keys - gone;
    assert |t.Keys - gone| == |t.Keys| - |gone|;
  }

  /** Dropping a prefix of the sorted names drops the oldest ones. */
  lemma DropPrefixIsOldest(t: Table, names: seq<string>, k: nat, n: string, m: string)
    requires SortedByAge(t, names) && k <= |names|
    requires n in t && n in Elements(names[..k]) && m in t && m !in Elements(names[..k])
    ensures t[n].lastUsed <= t[m].lastUsed
  {
    var i :| 0 <= i < k && names[i] == n;
    var j :| 0 <= j < |names| && names[j] == m;
    assert j < k ==> names[j] in names[..k];
  }

  lemma DropOneMore(t: Table, names: seq<string>, i: nat)
    requires i < |names|
    ensures t - Elements(names[..i]) - {names[i]} == t - Elements(names[..i + 1])
  {
    assert names[..i + 1] == names[..i] + [names[i]];
    assert Elements(names[..i + 1]) == Elements(names[..i]) + {names[i]};
  }

  lemma NothingDropped(t: Table, names: seq<string>)
    ensures t == t - Elements(names[..0])
  {
    assert Elements(names[..0]) == {};
  }

  lemma RetainEvicts(t: Table, max: nat, now: nat, t': Table)
    requires t'.Keys == LiveNames(t, now) && forall n :: n in t' ==> t'[n] == t[n]
    requires |t'| < max
    ensures Evicted(t, max, now, t')
  {
  }

  lemma DropPrefixEvicts(t: Table, max: nat, now: nat, live: Table, names: seq<string>)
    requires 1 <= max <= |live| == |names| && SortedByAge(live, names)
    requires live.Keys == LiveNames(t, now) && forall n :: n in live ==> live[n] == t[n]
    ensures Evicted(t, max, now, live - Elements(names[..|live| + 1 - max]))
  {
    hide SortedByAge, LiveNames;
    LiveAreNames(t, now);
    var k := |live| + 1 - max;
    DropPrefixSize(live, names, k);
    var r := live - Elements(names[..k]);
    forall n, m | n in live && n !in r && m in r ensures t[n].lastUsed <= t[m].lastUsed {
      DropPrefixIsOldest(live, names, k, n, m);
    }
  }

  class DnsCache {
    var entries: Table
    const positiveTtl: nat
    const negativeTtl: nat
    const maxEntries: nat

    constructor (positiveTtl: nat, negativeTtl: nat, maxEntries: nat)
      requires 1 <= maxEntries
      ensures entries == map[] && this.maxEntries == maxEntries
      ensures this.positiveTtl == positiveTtl && this.negativeTtl == negativeTtl
    {
      entries := map[];
      this.positiveTtl, this.negativeTtl, this.maxEntries := positiveTtl, negativeTtl, maxEntries;
    }

    method Lookup(host: string, now: nat) returns (r: Option<Outcome>)
      modifies this
      ensures r.Some? <==> Hit(old(entries), host, now)
      ensures r.Some? ==> r.value == old(entries)[host].answer
                          && entries == Touched(old(entries), host, now)
      ensures r.None? ==> entries == old(entries)
    {
      if host !in entries || entries[host].expiresAt <= now {
        return None;
      }
      r := Some(entries[host].answer);
      entries := entries[host := entries[host].(lastUsed := now)];
    }

    /** The names of `entries`, the ones asked about longest ago first. */
    method ByAge() returns (names: seq<string>)
      ensures SortedByAge(entries, names) && |names| == |entries|
    {
      names := [];
      var rest := entries.Keys;
      while rest != {}
        invariant rest <= entries.Keys
        invariant forall n :: n in names <==> n in entries && n !in rest
        invariant |names| + |rest| == |entries|
        invariant forall i, j :: 0 <= i < j < |names| ==> names[i] != names[j]
        invariant forall i, j :: 0 <= i < j < |names| ==>
                    entries[names[i]].lastUsed <= entries[names[j]].lastUsed
        invariant forall i, n :: 0 <= i < |names| && n in rest ==>
                    entries[names[i]].lastUsed <= entries[n].lastUsed
      {
        var oldest := Oldest(rest);
        names := names + [oldest];
        rest := rest - {oldest};
      }
    }

    method Oldest(among: set<string>) returns (oldest: string)
      requires among != {} && among <= entries.Keys
      ensures oldest in among
      ensures forall n :: n in among ==> entries[oldest].lastUsed <= entries[n].lastUsed
    {
      oldest :| oldest in among;
      var rest := among - {oldest};
      while rest != {}
        invariant rest <= among && oldest in among
        invariant forall n :: n in among - rest ==> entries[oldest].lastUsed <= entries[n].lastUsed
      {
        var n :| n in rest;
        if entries[n].lastUsed < entries[oldest].lastUsed {
          oldest := n;
        }
        rest := rest - {n};
      }
    }

    method Evict(now: nat)
      requires 1 <= maxEntries
      modifies this
      ensures Evicted(old(entries), maxEntries, now, entries)
    {
      hide SortedByAge, Evicted, LiveNames, Elements;
      Retain(now);
      if |entries| < maxEntries {
        RetainEvicts(old(entries), maxEntries, now, entries);
        return;
      }
      ghost var live := entries;
      var toDrop := |entries| + 1 - maxEntries;
      var byAge := ByAge();
      Drop(byAge, toDrop);
      DropPrefixEvicts(old(entries), maxEntries, now, live, byAge);
    }

    /** Removes the first `n` of `names`. */
    method Drop(names: seq<string>, n: nat)
      requires n <= |names|
      modifies this
      ensures entries == old(entries) - Elements(names[..n])
    {
      hide Elements;
      NothingDropped(entries, names);
      for i := 0 to n
        invariant entries == old(entries) - Elements(names[..i])
      {
        DropOneMore(old(entries), names, i);
        entries := entries - {names[i]};
      }
    }

    method Retain(now: nat)
      modifies this
      ensures entries.Keys == LiveNames(old(entries), now)
      ensures forall n :: n in entries ==> entries[n] == old(entries)[n]
    {
      entries := map n | n in entries && entries[n].expiresAt > now :: entries[n];
    }

    method StoreEntry(host: string, e: Entry, now: nat)
      requires 1 <= maxEntries
      modifies this
      ensures Stored(old(entries), maxEntries, host, e, now, entries)
    {
      if |entries| >= maxEntries {
        Evict(now);
      }
      entries := entries[host := e];
    }
  }
}
