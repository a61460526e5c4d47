/** Time-based expiry: the strategy's time index (src/include/Poco/ExpireStrategy.h) and the cache
    that drives it (src/include/Poco/AbstractCache.h). */
module ExpireCaching {
  import opened ListNodes

  /** The clock behind `Timestamp`: every reading is at least the one before it. */
  class Clock {
    var time: int

    method Now() returns (now: int)
      modifies this
      ensures now == time >= old(time)
    {
      var passed: int := *;
      if passed > 0 {
        time := time + passed;
      }
      now := time;
    }
  }

  /** A node of the time index; its payload is the time of the entry. */
  type Stamped<K> = Node<K, int>

  ghost predicate SortedByTime<K>(s: seq<Stamped<K>>) {
    forall i, j :: 0 <= i < j < |s| ==> s[i].payload <= s[j].payload
  }

  /** Where a multimap inserts a new time: behind all that are not later. */
  function UpperBound<K>(s: seq<Stamped<K>>, time: int): (p: nat)
    ensures p <= |s|
    ensures forall i :: 0 <= i < p ==> s[i].payload <= time
    ensures p < |s| ==> time < s[p].payload
  {
    if s == [] || time < s[0].payload then 0 else 1 + UpperBound(s[1..], time)
  }

  lemma {:induction false} UpperBoundIsEnd<K>(s: seq<Stamped<K>>, time: int)
    requires forall i :: 0 <= i < |s| ==> s[i].payload <= time
    ensures UpperBound(s, time) == |s|
  {
  }

  /** Index and key map describe the same keys, and the index is in time order up to `time`. */
  ghost predicate Indexed<K>(keyIndex: seq<Stamped<K>>, keys: map<K, Stamped<K>>, time: int) {
    && Consistent(keyIndex, keys)
    && SortedByTime(keyIndex)
    && forall i :: 0 <= i < |keyIndex| ==> keyIndex[i].payload <= time
  }

  lemma {:induction false} CutSorted<K>(s: seq<Stamped<K>>, p: nat, time: int)
    requires p < |s| && SortedByTime(s) && forall i :: 0 <= i < |s| ==> s[i].payload <= time
    ensures var rest := s[..p] + s[p + 1..];
            SortedByTime(rest) && forall i :: 0 <= i < |rest| ==> rest[i].payload <= time
  {
  }

  lemma {:induction false} UnlinkIndexed<K>(keyIndex: seq<Stamped<K>>, keys: map<K, Stamped<K>>, k: K, time: int)
    requires Indexed(keyIndex, keys, time) && k in keys
    ensures Indexed(Unlink(keyIndex, keys[k]), keys - {k}, time)
  {
    hide Consistent, Unlink, SortedByTime;
    var p := UnlinkConsistent(keyIndex, keys, k);
    CutSorted(keyIndex, p, time);
  }

  /** Adding a node with a current time for a key that is not in the index. */
  lemma {:induction false} AppendIndexed<K>(keyIndex: seq<Stamped<K>>, keys: map<K, Stamped<K>>, n: Stamped<K>,
          time: int)
    requires Indexed(keyIndex, keys, time) && n.key !in keys && time <= n.payload
    ensures Indexed(keyIndex + [n], keys[n.key := n], n.payload)
  {
  }

  lemma {:induction false} UnlinkAppended<K>(s: seq<Stamped<K>>, n: Stamped<K>, stale: Stamped<K>)
    requires stale in s
    ensures Unlink(s + [n], stale) == Unlink(s, stale) + [n]
  {
    assert (s + [n])[1..] == s[1..] + [n];
    if s[0] != stale {
      UnlinkAppended(s[1..], n, stale);
    }
  }

  ghost predicate IsExpired<K>(n: Stamped<K>, time: int, expireTime: int) {
    time - n.payload >= expireTime
  }

  /** A set with every key that is expired at the start and with only keys that are expired at the end. */
  ghost predicate Purges<K>(keys: map<K, Stamped<K>>, gone: set<K>, start: int, end: int, expireTime: int) {
    && (forall k :: k in keys && IsExpired(keys[k], start, expireTime) ==> k in gone)
    && (forall k :: k in gone ==> k in keys && IsExpired(keys[k], end, expireTime))
  }

  /** Which keys a purge takes, in the times themselves. */
  lemma PurgesByTime<K>(keys: map<K, Stamped<K>>, gone: set<K>, start: int, end: int, expireTime: int)
    ensures Purges(keys, gone, start, end, expireTime) <==>
              && (forall k :: k in keys && keys[k].payload + expireTime <= start ==> k in gone)
              && (forall k :: k in gone ==> k in keys && keys[k].payload + expireTime <= end)
  {
  }

  /** What the writing of an entry leaves of the others, in the times of their entries. */
  lemma LeftByTime<K, V>(before: map<K, V>, after: map<K, V>, keys: map<K, Stamped<K>>, key: K, val: V, gone: set<K>,
                         start: int, end: int, expireTime: int)
    requires before.Keys == keys.Keys && after == before[key := val] - gone
    requires Purges(keys - {key}, gone - {key}, start, end, expireTime)
    ensures forall k | k in before && k != key :: start - keys[k].payload >= expireTime ==> k !in after
    ensures forall k | k in before && k != key :: end - keys[k].payload < expireTime ==> k in after
  {
    forall k | k in before && k != key && start - keys[k].payload >= expireTime ensures k !in after {
      assert k in keys - {key} && k in gone - {key};
    }
    forall k | k in before && k != key && end - keys[k].payload < expireTime ensures k in after {
      assert k !in gone - {key};
    }
  }

  /** In a sorted index the keys expired at a time are among those before the first that is not. */
  lemma {:induction false} PrefixHoldsExpired<K>(keyIndex: seq<Stamped<K>>, keys: map<K, Stamped<K>>, found: set<K>,
                                                 it: nat, start: int, end: int, expireTime: int)
    requires Consistent(keyIndex, keys) && SortedByTime(keyIndex) && it <= |keyIndex|
    requires forall i :: 0 <= i < it ==> keyIndex[i].key in found
    requires it < |keyIndex| ==> !IsExpired(keyIndex[it], start, expireTime)
    requires forall k :: k in found ==> k in keys && IsExpired(keys[k], end, expireTime)
    ensures Purges(keys, found, start, end, expireTime)
  {
    forall k | k in keys && IsExpired(keys[k], start, expireTime) ensures k in found {
      var i :| 0 <= i < |keyIndex| && keyIndex[i] == keys[k];
      assert i < it;
    }
  }

  /** A replacement that follows the writing of one entry, seen by the others and by that entry. */
  lemma PurgesOthers<K>(keys: map<K, Stamped<K>>, k: K, n: Stamped<K>, gone: set<K>, start: int, written: int, end: int,
                        expireTime: int)
    requires Purges(keys[k := n], gone, written, end, expireTime) && start <= written && start <= n.payload
    ensures Purges(keys - {k}, gone - {k}, start, end, expireTime)
    ensures k in gone ==> end - start >= expireTime
  {
  }

  lemma NothingDropped<K, V>(m: map<K, V>)
    ensures m - {} == m
  {
  }

  lemma OneMoreDropped<K, V>(m: map<K, V>, done: set<K>, k: K)
    ensures (m - done) - {k} == m - (done + {k})
  {
  }

  lemma WrittenOver<K, V>(m: map<K, V>, k: K, v: V)
    ensures (m - {k})[k := v] == m[k := v]
  {
  }

  class ExpireStrategy<K(==)> {
    const expireTime: int
    const clock: Clock
    var keyIndex: seq<Stamped<K>>
    var keys: map<K, Stamped<K>>

    ghost predicate Valid()
      reads this, clock
    {
      expireTime >= 25000 && Indexed(keyIndex, keys, clock.time)
    }

    /** When the entry of a key was written. */
    ghost function TimeOf(k: K): int
      requires k in keys
      reads this
    {
      keys[k].payload
    }

    /** Whether an entry is expired at a given time. */
    ghost predicate Expired(n: Stamped<K>, time: int) {
      IsExpired(n, time, expireTime)
    }

    /** The source takes milliseconds and throws for less than 25 of them. */
    constructor (expireTime: int, clock: Clock)
      requires expireTime >= 25000
      ensures Valid() && this.expireTime == expireTime && this.clock == clock && keys == map[]
    {
      this.expireTime, this.clock, keyIndex, keys := expireTime, clock, [], map[];
    }

    method IsElapsed(n: Stamped<K>) returns (elapsed: bool)
      modifies clock
      ensures clock.time >= old(clock.time)
      ensures elapsed <==> Expired(n, clock.time)
      ensures elapsed <==> clock.time - n.payload >= expireTime
    {
      var now := clock.Now();
      elapsed := now - n.payload >= expireTime;
    }

    /** Enters the key with the current time. An entry that is already there is replaced, so unlike
        the recency strategy this one stays consistent for any key. */
    method OnAdd(key: K)
      requires Valid()
      modifies this, clock
      ensures Valid() && clock.time >= old(clock.time)
      ensures key in keys && old(clock.time) <= TimeOf(key) <= clock.time
      ensures keys == old(keys)[key := keys[key]]
    {
      hide Consistent, SortedByTime, Unlink;
      var now := clock.Now();
      var n: Stamped<K> := new Node(key, now);
      UpperBoundIsEnd(keyIndex, now);
      var p := UpperBound(keyIndex, now);
      if key !in keys {
        AppendIndexed(keyIndex, keys, n, old(clock.time));
        keyIndex := keyIndex[..p] + [n] + keyIndex[p..];
        keys := keys[key := n];
        assert keyIndex == old(keyIndex) + [n];
      } else {
        UnlinkIndexed(keyIndex, keys, key, old(clock.time));
        AppendIndexed(Unlink(keyIndex, keys[key]), keys - {key}, n, old(clock.time));
        IndexHolds(keyIndex, keys, key);
        UnlinkAppended(keyIndex, n, keys[key]);
        keyIndex := keyIndex[..p] + [n] + keyIndex[p..];
        assert keyIndex == old(keyIndex) + [n];
        keyIndex := Unlink(keyIndex, keys[key]);
        assert (keys - {key})[key := n] == keys[key := n];
        keys := keys[key := n];
      }
    }

    method OnRemove(key: K)
      requires Valid()
      modifies this
      ensures Valid() && keys == old(keys) - {key}
    {
      if key in keys {
        UnlinkIndexed(keyIndex, keys, key, clock.time);
        keyIndex := Unlink(keyIndex, keys[key]);
        keys := keys - {key};
      } else {
        assert keys - {key} == keys;
      }
    }

    /** The default of AbstractStrategy: remove, then add, which gives the entry a new time. */
    method OnUpdate(key: K)
      requires Valid()
      modifies this, clock
      ensures Valid() && clock.time >= old(clock.time)
      ensures key in keys && old(clock.time) <= TimeOf(key) <= clock.time
      ensures keys == old(keys)[key := keys[key]]
    {
      OnRemove(key);
      OnAdd(key);
      assert (old(keys) - {key})[key := keys[key]] == old(keys)[key := keys[key]];
    }

    method OnClear()
      requires Valid()
      modifies this
      ensures Valid() && keys == map[]
    {
      keys, keyIndex := map[], [];
    }

    method OnIsValid(key: K) returns (valid: bool)
      requires Valid()
      modifies clock
      ensures Valid() && clock.time >= old(clock.time)
      ensures valid <==> key in keys && !Expired(keys[key], clock.time)
      ensures valid <==> key in keys && clock.time - keys[key].payload < expireTime
    {
      valid := false;
      if key in keys {
        var elapsed := IsElapsed(keys[key]);
        valid := !elapsed;
      }
    }

    /** The scan over the front of the time index, with a fresh clock reading at each entry. It names
        every entry that was expired when it started, and only expired ones. */
    method OnReplace() returns (elemsToRemove: set<K>)
      requires Valid()
      modifies clock
      ensures Valid() && clock.time >= old(clock.time)
      ensures Purges(keys, elemsToRemove, old(clock.time), clock.time, expireTime)
      ensures forall k :: k in keys && old(clock.time) - TimeOf(k) >= expireTime ==> k in elemsToRemove
      ensures forall k :: k in elemsToRemove ==> k in keys && clock.time - TimeOf(k) >= expireTime
    {
      hide SortedByTime;
      elemsToRemove := {};
      var it, stop := 0, false;
      while !stop && it != |keyIndex|
        invariant Valid() && clock.time >= old(clock.time) && it <= |keyIndex|
        invariant forall k :: k in elemsToRemove ==> k in keys && Expired(keys[k], clock.time)
        invariant forall i :: 0 <= i < it ==> keyIndex[i].key in elemsToRemove
        invariant stop ==> it < |keyIndex| && !Expired(keyIndex[it], old(clock.time))
        decreases !stop, |keyIndex| - it
      {
        var elapsed := IsElapsed(keyIndex[it]);
        if elapsed {
          elemsToRemove := elemsToRemove + {keyIndex[it].key};
          it := it + 1;
        } else {
          stop := true;
        }
      }
      PrefixHoldsExpired(keyIndex, keys, elemsToRemove, it, old(clock.time), clock.time, expireTime);
      PurgesByTime(keys, elemsToRemove, old(clock.time), clock.time, expireTime);
    }
  }

  lemma IndexHolds<K>(keyIndex: seq<Stamped<K>>, keys: map<K, Stamped<K>>, k: K)
    requires Consistent(keyIndex, keys) && k in keys
    ensures keys[k] in keyIndex
  {
  }

  class ExpireCache<K(==), V> {
    const strategy: ExpireStrategy<K>
    var data: map<K, V>

    ghost predicate Valid()
      reads this, strategy, strategy.clock
    {
      strategy.Valid() && data.Keys == strategy.keys.Keys
    }

    constructor (expireTime: int, clock: Clock)
      requires expireTime >= 25000
      ensures Valid() && fresh(strategy) && strategy.clock == clock && strategy.expireTime == expireTime
          && data == map[]
    {
      strategy := new ExpireStrategy(expireTime, clock);
      data := map[];
    }

    method DoRemove(key: K)
      requires Valid()
      modifies this, strategy
      ensures Valid() && data == old(data) - {key} && strategy.keys == old(strategy.keys) - {key}
    {
      if key in data {
        strategy.OnRemove(key);
        data := data - {key};
      } else {
        assert data - {key} == data && strategy.keys - {key} == strategy.keys;
      }
    }

    /** Drops a set of entries: every one that was expired when the replacement started, and only
        expired ones. */
    method DoReplace() returns (ghost gone: set<K>)
      requires Valid()
      modifies this, strategy, strategy.clock
      ensures Valid() && strategy.clock.time >= old(strategy.clock.time)
      ensures data == old(data) - gone && strategy.keys == old(strategy.keys) - gone
      ensures Purges(old(strategy.keys), gone, old(strategy.clock.time), strategy.clock.time, strategy.expireTime)
    {
      hide Indexed, Purges;
      var delMe := strategy.OnReplace();
      gone := delMe;
      ghost var done, time := {}, strategy.clock.time;
      NothingDropped(data);
      NothingDropped(strategy.keys);
      while delMe != {}
        invariant Valid() && strategy.clock.time == time
        invariant done + delMe == gone
        invariant data == old(data) - done && strategy.keys == old(strategy.keys) - done
        decreases delMe
      {
        var key :| key in delMe;
        delMe := delMe - {key};
        OneMoreDropped(old(data), done, key);
        OneMoreDropped(old(strategy.keys), done, key);
        DoRemove(key);
        done := done + {key};
      }
      assert done == gone;
    }

    /** What writing an entry leaves: it has a time between the start and the end of the call and stays
        unless it has expired by the end; no other entry that was expired before the call is left, none is
        dropped that is not expired, and none is renewed. */
    twostate predicate Written(key: K, val: V, new gone: set<K>)
      reads this, strategy, strategy.clock
    {
      var start, end := old(strategy.clock.time), strategy.clock.time;
      && start <= end
      && data == old(data)[key := val] - gone
      && Purges(old(strategy.keys) - {key}, gone - {key}, start, end, strategy.expireTime)
      && (key in gone ==> end - start >= strategy.expireTime)
      && (forall k :: k in data && k != key ==>
            k in strategy.keys && k in old(strategy.keys) && strategy.keys[k] == old(strategy.keys)[k])
      && (key in data ==> key in strategy.keys && start <= strategy.keys[key].payload <= end)
    }

    method Add(key: K, val: V) returns (ghost gone: set<K>)
      requires Valid()
      modifies this, strategy, strategy.clock
      ensures Valid() && Written(key, val, gone)
      ensures strategy.clock.time - old(strategy.clock.time) < strategy.expireTime ==> key in data
      ensures key in data ==> data[key] == val
      ensures forall k | k in old(data) && k != key ::
                old(strategy.clock.time) - old(strategy.TimeOf(k)) >= strategy.expireTime ==> k !in data
      ensures forall k | k in old(data) && k != key ::
                strategy.clock.time - old(strategy.TimeOf(k)) < strategy.expireTime ==> k in data
      ensures forall k :: k in data && k != key ==> k in old(data) && data[k] == old(data)[k]
    {
      hide Indexed, Purges;
      DoRemove(key);
      strategy.OnAdd(key);
      ghost var n, time := strategy.keys[key], strategy.clock.time;
      data := data[key := val];
      WrittenOver(old(data), key, val);
      WrittenOver(old(strategy.keys), key, n);
      gone := DoReplace();
      PurgesOthers(old(strategy.keys), key, n, gone, old(strategy.clock.time), time, strategy.clock.time,
                   strategy.expireTime);
      LeftByTime(old(data), data, old(strategy.keys), key, val, gone, old(strategy.clock.time),
                 strategy.clock.time, strategy.expireTime);
    }

    method Update(key: K, val: V) returns (ghost gone: set<K>)
      requires Valid()
      modifies this, strategy, strategy.clock
      ensures Valid() && Written(key, val, gone)
      ensures strategy.clock.time - old(strategy.clock.time) < strategy.expireTime ==> key in data
      ensures key in data ==> data[key] == val
      ensures forall k | k in old(data) && k != key ::
                old(strategy.clock.time) - old(strategy.TimeOf(k)) >= strategy.expireTime ==> k !in data
      ensures forall k | k in old(data) && k != key ::
                strategy.clock.time - old(strategy.TimeOf(k)) < strategy.expireTime ==> k in data
      ensures forall k :: k in data && k != key ==> k in old(data) && data[k] == old(data)[k]
    {
      hide Indexed, Purges;
      if key !in data {
        strategy.OnAdd(key);
        data := data[key := val];
      } else {
        strategy.OnUpdate(key);
        data := data[key := val];
      }
      ghost var n, time := strategy.keys[key], strategy.clock.time;
      gone := DoReplace();
      PurgesOthers(old(strategy.keys), key, n, gone, old(strategy.clock.time), time, strategy.clock.time,
                   strategy.expireTime);
      LeftByTime(old(data), data, old(strategy.keys), key, val, gone, old(strategy.clock.time),
                 strategy.clock.time, strategy.expireTime);
    }

    method Remove(key: K)
      requires Valid()
      modifies this, strategy
      ensures Valid() && data == old(data) - {key} && strategy.keys == old(strategy.keys) - {key}
    {
      DoRemove(key);
    }

    /** Returns the value exactly when there is an entry that has not expired at the time of the call,
        and does not renew it; an expired entry is removed. */
    method Get(key: K) returns (result: Shared<V>)
      requires Valid()
      modifies this, strategy, strategy.clock
      ensures Valid() && strategy.clock.time >= old(strategy.clock.time)
      ensures var valid := key in old(data) && !strategy.Expired(old(strategy.keys)[key], strategy.clock.time);
              && result == (if valid then Pointer(old(data)[key]) else Null)
              && data == (if valid then old(data) else old(data) - {key})
              && strategy.keys == (if valid then old(strategy.keys) else old(strategy.keys) - {key})
      ensures result.Pointer? <==>
                key in old(data) && strategy.clock.time - old(strategy.TimeOf(key)) < strategy.expireTime
    {
      result := Null;
      if key in data {
        var valid := strategy.OnIsValid(key);
        if !valid {
          DoRemove(key);
        } else {
          result := Pointer(data[key]);
        }
      } else {
        assert data - {key} == data && strategy.keys - {key} == strategy.keys;
      }
    }

    /** Answers as Get does, and changes nothing. */
    method Has(key: K) returns (result: bool)
      requires Valid()
      modifies strategy.clock
      ensures Valid() && strategy.clock.time >= old(strategy.clock.time)
      ensures result <==> key in data && !strategy.Expired(strategy.keys[key], strategy.clock.time)
      ensures result <==> key in data && strategy.clock.time - strategy.TimeOf(key) < strategy.expireTime
    {
      result := false;
      if key in data {
        result := strategy.OnIsValid(key);
      }
    }

    method Clear()
      requires Valid()
      modifies this, strategy
      ensures Valid() && data == map[]
    {
      strategy.OnClear();
      data := map[];
    }

    /** The keys that a replacement leaves: none that was expired when the call began. */
    method GetAllKeys() returns (keys: set<K>)
      requires Valid()
      modifies this, strategy, strategy.clock
      ensures Valid() && keys == data.Keys <= old(data).Keys
      ensures Purges(old(strategy.keys), old(data).Keys - keys, old(strategy.clock.time), strategy.clock.time,
                     strategy.expireTime)
      ensures forall k :: k in keys ==>
                k in old(data) && old(strategy.clock.time) - old(strategy.TimeOf(k)) < strategy.expireTime
      ensures forall k :: k in old(data) && strategy.clock.time - old(strategy.TimeOf(k)) < strategy.expireTime ==>
                k in keys
    {
      ghost var gone := DoReplace();
      keys := data.Keys;
      assert gone == old(data).Keys - keys;
      PurgesByTime(old(strategy.keys), gone, old(strategy.clock.time), strategy.clock.time, strategy.expireTime);
    }
  }
}
