/** The recency list a least-recently-used cache stands for: the simple model that the linked
    list, the index and the data map of the real cache refine. */
module Recency {

  datatype Entry<K, V> = Entry(key: K, value: V)

  /** Entries of a cache, most recently used first. */
  type Recent<K, V> = seq<Entry<K, V>>

  ghost predicate Distinct<K, V>(s: Recent<K, V>) {
    forall i, j :: 0 <= i < j < |s| ==> s[i].key != s[j].key
  }

  ghost function KeysOf<K, V>(s: Recent<K, V>): set<K> {
    set i | 0 <= i < |s| :: s[i].key
  }

  /** The entries whose key is in `ks`, in order. */
  ghost function Keep<K, V>(s: Recent<K, V>, ks: set<K>): (r: Recent<K, V>)
    ensures |r| <= |s|
  {
    if s == [] then [] else (if s[0].key in ks then [s[0]] else []) + Keep(s[1..], ks)
  }

  ghost function Without<K, V>(s: Recent<K, V>, k: K): Recent<K, V> {
    Keep(s, KeysOf(s) - {k})
  }

  ghost function Truncate<K, V>(capacity: nat, s: Recent<K, V>): Recent<K, V> {
    if |s| <= capacity then s else s[..capacity]
  }

  ghost function PositionOf<K, V>(s: Recent<K, V>, k: K): (i: nat)
    requires k in KeysOf(s)
    ensures i < |s| && s[i].key == k
  {
    if s[0].key == k then 0
    else
      assert k in KeysOf(s[1..]) by {
        var i :| 0 <= i < |s| && s[i].key == k;
        assert s[1..][i - 1].key == k;
      }
      1 + PositionOf(s[1..], k)
  }

  datatype Op<K, V> = Add(k: K, v: V) | Update(k: K, v: V) | Get(k: K) | Remove(k: K) | Clear

  ghost function Step<K, V>(capacity: nat, s: Recent<K, V>, op: Op<K, V>): Recent<K, V> {
    match op
    case Add(k, v) => Truncate(capacity, [Entry(k, v)] + Without(s, k))
    case Update(k, v) => Truncate(capacity, [Entry(k, v)] + Without(s, k))
    case Get(k) => if k in KeysOf(s) then [s[PositionOf(s, k)]] + Without(s, k) else s
    case Remove(k) => Without(s, k)
    case Clear => []
  }

  /** What a run of operations leaves in a cache of the given capacity. */
  ghost function Run<K, V>(capacity: nat, ops: seq<Op<K, V>>): Recent<K, V> {
    if ops == [] then [] else Step(capacity, Run(capacity, ops[..|ops| - 1]), ops[|ops| - 1])
  }

  // ----- Keeping a set of keys

  lemma {:induction false} KeepAll<K, V>(s: Recent<K, V>, ks: set<K>)
    requires KeysOf(s) <= ks
    ensures Keep(s, ks) == s
  {
    if s == [] {
    } else {
      assert s[0].key in KeysOf(s);
      KeysOfTail(s);
      KeepAll(s[1..], ks);
    }
  }

  lemma {:induction false} KeysOfTail<K, V>(s: Recent<K, V>)
    requires s != []
    ensures KeysOf(s) == {s[0].key} + KeysOf(s[1..])
  {
  }

  lemma {:induction false} KeepKeys<K, V>(s: Recent<K, V>, ks: set<K>)
    ensures KeysOf(Keep(s, ks)) == KeysOf(s) * ks
  {
    if s == [] {
    } else {
      KeepKeys(s[1..], ks);
      KeysOfTail(s);
      var rest := Keep(s[1..], ks);
      if s[0].key in ks {
        KeysOfTail([s[0]] + rest);
        assert ([s[0]] + rest)[1..] == rest;
      } else {
        assert Keep(s, ks) == rest;
      }
    }
  }

  lemma {:induction false} KeepKeep<K, V>(s: Recent<K, V>, x: set<K>, y: set<K>)
    ensures Keep(Keep(s, x), y) == Keep(s, x * y)
  {
    if s == [] {
    } else {
      KeepKeep(s[1..], x, y);
      var rest := Keep(s[1..], x);
      assert ([s[0]] + rest)[1..] == rest && [] + rest == rest;
    }
  }

  /** Only the keys that occur matter. */
  lemma {:induction false} KeepOccurring<K, V>(s: Recent<K, V>, x: set<K>, y: set<K>)
    requires KeysOf(s) * x == KeysOf(s) * y
    ensures Keep(s, x) == Keep(s, y)
  {
    KeepAll(s, KeysOf(s));
    KeepKeep(s, KeysOf(s), x);
    KeepKeep(s, KeysOf(s), y);
  }

  lemma {:induction false} KeepConcat<K, V>(a: Recent<K, V>, b: Recent<K, V>, ks: set<K>)
    ensures Keep(a + b, ks) == Keep(a, ks) + Keep(b, ks)
  {
    if a == [] {
      assert a + b == b;
    } else {
      var head, x, y := if a[0].key in ks then [a[0]] else [], Keep(a[1..], ks), Keep(b, ks);
      assert Keep(a + b, ks) == head + (x + y) by {
        assert (a + b)[1..] == a[1..] + b;
        KeepConcat(a[1..], b, ks);
      }
      assert Keep(a, ks) == head + x;
      hide Keep;
      assert head + (x + y) == (head + x) + y;
    }
  }

  lemma {:induction false} KeepDistinct<K, V>(s: Recent<K, V>, ks: set<K>)
    requires Distinct(s)
    ensures Distinct(Keep(s, ks))
  {
    if s == [] {
    } else {
      KeepDistinct(s[1..], ks);
      KeepKeys(s[1..], ks);
      forall i | 0 <= i < |Keep(s[1..], ks)| ensures Keep(s[1..], ks)[i].key != s[0].key {
        assert Keep(s[1..], ks)[i].key in KeysOf(Keep(s[1..], ks));
      }
    }
  }

  /** Removing a key shortens a duplicate-free list by one exactly when the key occurs. */
  lemma {:induction false} WithoutLength<K, V>(s: Recent<K, V>, k: K)
    requires Distinct(s)
    ensures |Without(s, k)| == if k in KeysOf(s) then |s| - 1 else |s|
  {
    if s == [] {
    } else {
      KeysOfTail(s);
      WithoutLength(s[1..], k);
      KeepOccurring(s[1..], KeysOf(s) - {k}, KeysOf(s[1..]) - {k});
      assert s[0].key !in KeysOf(s[1..]);
    }
  }

  /** A prefix of a duplicate-free list is what its own keys keep. */
  lemma {:induction false} KeepPrefix<K, V>(s: Recent<K, V>, n: nat)
    requires Distinct(s) && n <= |s|
    ensures Keep(s, KeysOf(s[..n])) == s[..n]
  {
    assert s == s[..n] + s[n..];
    KeepConcat(s[..n], s[n..], KeysOf(s[..n]));
    KeepAll(s[..n], KeysOf(s[..n]));
    assert KeysOf(s[n..]) * KeysOf(s[..n]) == {};
    KeepOccurring(s[n..], KeysOf(s[..n]), {});
    KeepNone(s[n..]);
  }

  lemma {:induction false} KeepNone<K, V>(s: Recent<K, V>)
    ensures Keep(s, {}) == []
  {
    if s != [] {
      KeepNone(s[1..]);
    }
  }

  // ----- Inclusion

  /** `s` is `b` restricted to the keys of `s`, and `b` has at most `slack` further entries. */
  ghost predicate Nested<K, V>(s: Recent<K, V>, b: Recent<K, V>, slack: nat) {
    Distinct(b) && s == Keep(b, KeysOf(s)) && |b| <= |s| + slack
  }

  lemma {:induction false} NestedFacts<K, V>(s: Recent<K, V>, b: Recent<K, V>, slack: nat)
    requires Nested(s, b, slack)
    ensures Distinct(s) && KeysOf(s) <= KeysOf(b)
  {
    KeepKeys(b, KeysOf(s));
    KeepDistinct(b, KeysOf(s));
  }

  lemma {:induction false} NestedWithout<K, V>(s: Recent<K, V>, b: Recent<K, V>, slack: nat, k: K)
    requires Nested(s, b, slack)
    ensures Nested(Without(s, k), Without(b, k), slack)
    ensures k in KeysOf(b) && k !in KeysOf(s) ==> |Without(b, k)| + 1 <= |Without(s, k)| + slack
  {
    NestedFacts(s, b, slack);
    var S, B := KeysOf(s), KeysOf(b);
    KeepKeys(s, S - {k});
    assert S * (S - {k}) == S - {k};
    KeepKeep(b, S, S - {k});
    KeepKeep(b, B - {k}, S - {k});
    assert (B - {k}) * (S - {k}) == S - {k};
    KeepDistinct(b, B - {k});
    WithoutLength(s, k);
    WithoutLength(b, k);
  }

  lemma {:induction false} NestedPush<K, V>(s: Recent<K, V>, b: Recent<K, V>, slack: nat, e: Entry<K, V>)
    requires Nested(s, b, slack) && e.key !in KeysOf(b)
    ensures Nested([e] + s, [e] + b, slack)
    ensures |b| + 1 <= |s| + slack ==> Nested(s, [e] + b, slack)
  {
    NestedFacts(s, b, slack);
    var S := KeysOf(s);
    KeysOfTail([e] + s);
    assert ([e] + s)[1..] == s && ([e] + b)[1..] == b;
    KeepOccurring(b, S, {e.key} + S);
    forall i | 0 <= i < |b| ensures b[i].key != e.key {
      assert b[i].key in KeysOf(b);
    }
  }

  /** The last entry is the only one a truncation by one can drop. */
  lemma {:induction false} NestedDropLast<K, V>(s: Recent<K, V>, b: Recent<K, V>, slack: nat)
    requires Nested(s, b, slack) && s != []
    ensures |b| <= |s| - 1 + slack ==> Nested(s[..|s| - 1], b, slack)
    ensures Nested(s[..|s| - 1], b[..|b| - 1], slack)
  {
    NestedFacts(s, b, slack);
    var s', b', last := s[..|s| - 1], b[..|b| - 1], b[|b| - 1];
    KeepPrefix(s, |s| - 1);
    assert KeysOf(s') <= KeysOf(s);
    KeepKeep(b, KeysOf(s), KeysOf(s'));
    assert KeysOf(s) * KeysOf(s') == KeysOf(s');
    assert s' == Keep(b, KeysOf(s'));
    assert b == b' + [last];
    KeepConcat(b', [last], KeysOf(s'));
    KeepConcat(b', [last], KeysOf(s));
    if last.key in KeysOf(s) {
      assert s[|s| - 1] == last;
    }
    assert last.key !in KeysOf(s');
  }

  lemma {:induction false} NestedTruncate<K, V>(n: nat, m: nat, s: Recent<K, V>, b: Recent<K, V>)
    requires n <= m && Nested(s, b, m - n) && |s| <= n + 1 && |b| <= m + 1
    ensures Nested(Truncate(n, s), Truncate(m, b), m - n)
  {
    if |s| == n + 1 {
      NestedDropLast(s, b, m - n);
    }
  }

  lemma {:induction false} WithoutLacks<K, V>(s: Recent<K, V>, k: K)
    ensures k !in KeysOf(Without(s, k))
  {
    KeepKeys(s, KeysOf(s) - {k});
  }

  lemma {:induction false} SameEntry<K, V>(s: Recent<K, V>, b: Recent<K, V>, slack: nat, k: K)
    requires Nested(s, b, slack) && k in KeysOf(s)
    ensures k in KeysOf(b) && s[PositionOf(s, k)] == b[PositionOf(b, k)]
  {
    NestedFacts(s, b, slack);
    KeptEntry(b, KeysOf(s), PositionOf(s, k));
  }

  lemma {:induction false} KeptEntry<K, V>(s: Recent<K, V>, ks: set<K>, i: nat)
    requires i < |Keep(s, ks)|
    ensures Keep(s, ks)[i] in s
  {
    var here := if s[0].key in ks then 1 else 0;
    if i >= here {
      KeptEntry(s[1..], ks, i - here);
    }
  }

  lemma {:induction false} StepNested<K, V>(n: nat, m: nat, s: Recent<K, V>, b: Recent<K, V>, op: Op<K, V>)
    requires n <= m && Nested(s, b, m - n) && |s| <= n && |b| <= m
    ensures Nested(Step(n, s, op), Step(m, b, op), m - n)
    ensures |Step(n, s, op)| <= n && |Step(m, b, op)| <= m
  {
    var slack := m - n;
    NestedFacts(s, b, slack);
    match op
    case Clear =>
    case Remove(k) => NestedWithout(s, b, slack, k);
    case Get(k) =>
      if k in KeysOf(b) {
        GetNested(n, m, s, b, k);
      }
    case Add(k, v) => PushNested(n, m, s, b, k, v);
    case Update(k, v) => PushNested(n, m, s, b, k, v);
  }

  lemma {:induction false} GetNested<K, V>(n: nat, m: nat, s: Recent<K, V>, b: Recent<K, V>, k: K)
    requires n <= m && Nested(s, b, m - n) && |s| <= n && |b| <= m && k in KeysOf(b)
    ensures Nested(Step(n, s, Get(k)), Step(m, b, Get(k)), m - n)
    ensures |Step(n, s, Get(k))| <= n && |Step(m, b, Get(k))| <= m
  {
    hide Keep;
    var slack := m - n;
    NestedFacts(s, b, slack);
    NestedWithout(s, b, slack, k);
    WithoutLacks(b, k);
    WithoutLength(s, k);
    WithoutLength(b, k);
    if k in KeysOf(s) {
      SameEntry(s, b, slack, k);
    } else {
      KeepAll(s, KeysOf(s) - {k});
    }
    NestedPush(Without(s, k), Without(b, k), slack, b[PositionOf(b, k)]);
  }

  lemma {:induction false} PushNested<K, V>(n: nat, m: nat, s: Recent<K, V>, b: Recent<K, V>, k: K, v: V)
    requires n <= m && Nested(s, b, m - n) && |s| <= n && |b| <= m
    ensures Nested(Truncate(n, [Entry(k, v)] + Without(s, k)), Truncate(m, [Entry(k, v)] + Without(b, k)), m - n)
  {
    NestedWithout(s, b, m - n, k);
    WithoutLacks(b, k);
    NestedPush(Without(s, k), Without(b, k), m - n, Entry(k, v));
    NestedTruncate(n, m, [Entry(k, v)] + Without(s, k), [Entry(k, v)] + Without(b, k));
  }

  lemma {:induction false} RunNested<K, V>(n: nat, m: nat, ops: seq<Op<K, V>>)
    requires n <= m
    ensures Nested(Run(n, ops), Run(m, ops), m - n) && |Run(n, ops)| <= n && |Run(m, ops)| <= m
  {
    if ops == [] {
    } else {
      var before := ops[..|ops| - 1];
      RunNested(n, m, before);
      StepNested(n, m, Run(n, before), Run(m, before), ops[|ops| - 1]);
    }
  }

  /** After the same run of operations, every entry of the smaller cache is, with the same value,
      an entry of the larger one. */
  lemma {:induction false} Inclusion<K, V>(n: nat, m: nat, ops: seq<Op<K, V>>, e: Entry<K, V>)
    requires n <= m && e in Run(n, ops)
    ensures e in Run(m, ops)
  {
    RunNested(n, m, ops);
    var i :| 0 <= i < |Run(n, ops)| && Run(n, ops)[i] == e;
    KeptEntry(Run(m, ops), KeysOf(Run(n, ops)), i);
  }

  /** Adding to a full cache drops exactly the least recently used key, never the added one;
      nothing is dropped when the key was present or room was left. */
  lemma {:induction false} EvictsLeastRecent<K, V>(capacity: nat, s: Recent<K, V>, k: K, v: V)
    requires Distinct(s) && 1 <= capacity && |s| <= capacity
    ensures var r := Step(capacity, s, Add(k, v));
            && r[0] == Entry(k, v)
            && KeysOf(r) == KeysOf(s) + {k} - (if k in KeysOf(s) || |s| < capacity then {} else {s[capacity - 1].key})
  {
    hide Distinct, Keep;
    var w := Without(s, k);
    WithoutLength(s, k);
    KeepKeys(s, KeysOf(s) - {k});
    KeysOfTail([Entry(k, v)] + w);
    assert ([Entry(k, v)] + w)[1..] == w;
    if k !in KeysOf(s) && |s| == capacity {
      KeepAll(s, KeysOf(s) - {k});
      var front := s[..capacity - 1];
      assert Truncate(capacity, [Entry(k, v)] + w) == [Entry(k, v)] + front;
      KeysOfTail([Entry(k, v)] + front);
      assert ([Entry(k, v)] + front)[1..] == front;
      KeysOfSnoc(s);
    }
  }

  lemma KeysBeside<K, V>(s: Recent<K, V>, p: nat)
    requires Distinct(s) && p < |s|
    ensures var ks := KeysOf(s) - {s[p].key};
            KeysOf(s[..p]) <= ks && KeysOf(s[p + 1..]) <= ks && Keep([s[p]], ks) == []
  {
  }

  lemma {:induction false} WithoutAt<K, V>(s: Recent<K, V>, p: nat)
    requires Distinct(s) && p < |s|
    ensures Without(s, s[p].key) == s[..p] + s[p + 1..]
  {
    hide KeysOf, Keep, Distinct;
    KeysBeside(s, p);
    var ks, a, b := KeysOf(s) - {s[p].key}, s[..p], s[p + 1..];
    KeepAll(a, ks);
    KeepAll(b, ks);
    assert s == a + ([s[p]] + b);
    KeepConcat(a, [s[p]] + b, ks);
    KeepConcat([s[p]], b, ks);
    assert [] + b == b;
  }

  // ----- What each operation does to the list, entry by entry

  /** The list after a write, and the one before. The new entry is first; of a known key the old entry
      goes; a new key in a full cache drops the last entry; all other entries keep value and order. */
  ghost predicate PutFirst<K, V>(capacity: nat, s: Recent<K, V>, k: K, v: V, r: Recent<K, V>) {
    && (forall p :: 0 <= p < |s| && s[p].key == k ==> r == [Entry(k, v)] + s[..p] + s[p + 1..])
    && ((forall p :: 0 <= p < |s| ==> s[p].key != k) ==>
          r == [Entry(k, v)] + if s == [] || |s| < capacity then s else s[..|s| - 1])
  }

  /** The list after a read: the entry of a known key is first, the others keep their order. */
  ghost predicate MovedFirst<K, V>(s: Recent<K, V>, k: K, r: Recent<K, V>) {
    && (forall p :: 0 <= p < |s| && s[p].key == k ==> r == [s[p]] + s[..p] + s[p + 1..])
    && ((forall p :: 0 <= p < |s| ==> s[p].key != k) ==> r == s)
  }

  /** The list after a removal: the entry of a known key is gone, the others keep their order. */
  ghost predicate TakenOut<K, V>(s: Recent<K, V>, k: K, r: Recent<K, V>) {
    && (forall p :: 0 <= p < |s| && s[p].key == k ==> r == s[..p] + s[p + 1..])
    && ((forall p :: 0 <= p < |s| ==> s[p].key != k) ==> r == s)
  }

  lemma {:induction false} WritingPutsFirst<K, V>(capacity: nat, s: Recent<K, V>, k: K, v: V)
    requires Distinct(s) && 1 <= capacity && |s| <= capacity
    ensures PutFirst(capacity, s, k, v, Step(capacity, s, Add(k, v)))
    ensures PutFirst(capacity, s, k, v, Step(capacity, s, Update(k, v)))
  {
    hide KeysOf, Keep, Distinct, Without;
    if p :| 0 <= p < |s| && s[p].key == k {
      WithoutAt(s, p);
      OnlyAt(s, p);
    } else {
      WithoutMissing(s, k);
    }
  }

  lemma {:induction false} ReadingMovesFirst<K, V>(capacity: nat, s: Recent<K, V>, k: K)
    requires Distinct(s)
    ensures MovedFirst(s, k, Step(capacity, s, Get(k)))
  {
    hide Keep, Distinct, Without;
    if p :| 0 <= p < |s| && s[p].key == k {
      WithoutAt(s, p);
      PositionUnique(s, p);
      OnlyAt(s, p);
    }
  }

  lemma {:induction false} RemovingTakesOut<K, V>(capacity: nat, s: Recent<K, V>, k: K)
    requires Distinct(s)
    ensures TakenOut(s, k, Step(capacity, s, Remove(k)))
    ensures Step(capacity, s, Clear) == []
  {
    hide KeysOf, Keep, Distinct, Without;
    if p :| 0 <= p < |s| && s[p].key == k {
      WithoutAt(s, p);
      OnlyAt(s, p);
    } else {
      WithoutMissing(s, k);
    }
  }

  lemma OnlyAt<K, V>(s: Recent<K, V>, p: nat)
    requires Distinct(s) && p < |s|
    ensures forall q :: 0 <= q < |s| && s[q].key == s[p].key ==> q == p
  {
  }

  lemma WithoutMissing<K, V>(s: Recent<K, V>, k: K)
    requires forall p :: 0 <= p < |s| ==> s[p].key != k
    ensures Without(s, k) == s
  {
    KeepAll(s, KeysOf(s) - {k});
  }

  /** The list holds the entries of the map, each once. */
  ghost predicate Lists<K, V>(s: Recent<K, V>, m: map<K, V>) {
    && Distinct(s) && |s| == |m|
    && (forall e :: e in s ==> e.key in m && m[e.key] == e.value)
    && (forall k :: k in m ==> Entry(k, m[k]) in s)
  }

  /** The map after a write: the key has the value, a new key in a full cache costs the last key of the
      list, and nothing else changes. */
  ghost predicate PutInto<K, V>(capacity: nat, s: Recent<K, V>, m: map<K, V>, k: K, v: V, after: map<K, V>) {
    && (k in m || |m| < capacity ==> after == m[k := v])
    && (k !in m && |m| == capacity ==> s != [] && after == (m - {s[|s| - 1].key})[k := v])
  }

  /** A list determines the map whose entries it holds. */
  lemma ListsDetermine<K, V>(r: Recent<K, V>, m: map<K, V>, after: map<K, V>)
    requires Lists(r, after)
    requires forall e :: e in r ==> e.key in m && m[e.key] == e.value
    requires forall k :: k in m ==> Entry(k, m[k]) in r
    ensures after == m
  {
    assert forall k :: k in m ==> Entry(k, m[k]).key in after && after[k] == m[k];
    assert forall k :: k in after ==> Entry(k, after[k]).key in m;
  }

  lemma AllButOne<K, V>(s: Recent<K, V>, p: nat)
    requires Distinct(s) && p < |s|
    ensures forall e :: e in s[..p] + s[p + 1..] ==> e in s && e.key != s[p].key
    ensures forall e :: e in s && e.key != s[p].key ==> e in s[..p] + s[p + 1..]
  {
    var rest := s[..p] + s[p + 1..];
    assert forall i :: 0 <= i < |rest| ==> rest[i] == s[if i < p then i else i + 1];
    forall e | e in s && e.key != s[p].key ensures e in rest {
      var i :| 0 <= i < |s| && s[i] == e;
      assert rest[if i < p then i else i - 1] == e;
    }
  }

  /** A write that puts an entry in front of what is kept of the list. */
  lemma PutBefore<K, V>(s: Recent<K, V>, m: map<K, V>, kept: Recent<K, V>, gone: set<K>, k: K, v: V, r: Recent<K, V>,
                        after: map<K, V>)
    requires Lists(s, m) && Lists(r, after) && r == [Entry(k, v)] + kept
    requires forall e :: e in kept ==> e in s && e.key !in gone && e.key != k
    requires forall e :: e in s && e.key !in gone && e.key != k ==> e in kept
    ensures after == (m - gone)[k := v]
  {
    hide Distinct;
    var n := (m - gone)[k := v];
    forall q | q in n ensures Entry(q, n[q]) in r {
      if q == k {
        assert r[0] == Entry(k, v);
      } else {
        assert Entry(q, m[q]) in s && Entry(q, m[q]) in kept;
      }
    }
    ListsDetermine(r, n, after);
  }

  lemma PutKnown<K, V>(s: Recent<K, V>, m: map<K, V>, p: nat, v: V, r: Recent<K, V>, after: map<K, V>)
    requires Lists(s, m) && Lists(r, after) && p < |s| && r == [Entry(s[p].key, v)] + s[..p] + s[p + 1..]
    ensures s[p].key in m && after == m[s[p].key := v]
  {
    hide Distinct;
    AllButOne(s, p);
    var kept := s[..p] + s[p + 1..];
    assert r == [Entry(s[p].key, v)] + kept;
    assert m - {} == m && s[p] in s;
    PutBefore(s, m, kept, {}, s[p].key, v, r, after);
  }

  lemma PutNew<K, V>(s: Recent<K, V>, m: map<K, V>, k: K, v: V, r: Recent<K, V>, after: map<K, V>)
    requires Lists(s, m) && Lists(r, after) && k !in m && r == [Entry(k, v)] + s
    ensures after == m[k := v]
  {
    hide Distinct;
    assert m - {} == m;
    PutBefore(s, m, s, {}, k, v, r, after);
  }

  lemma PutFull<K, V>(s: Recent<K, V>, m: map<K, V>, k: K, v: V, r: Recent<K, V>, after: map<K, V>)
    requires Lists(s, m) && Lists(r, after) && k !in m && s != [] && r == [Entry(k, v)] + s[..|s| - 1]
    ensures after == (m - {s[|s| - 1].key})[k := v]
  {
    hide Distinct;
    AllButOne(s, |s| - 1);
    assert s[..|s| - 1] + s[|s|..] == s[..|s| - 1];
    PutBefore(s, m, s[..|s| - 1], {s[|s| - 1].key}, k, v, r, after);
  }

  lemma {:induction false} PutFirstPutsInto<K, V>(capacity: nat, s: Recent<K, V>, m: map<K, V>, k: K, v: V,
                                                  r: Recent<K, V>, after: map<K, V>)
    requires Lists(s, m) && Lists(r, after) && PutFirst(capacity, s, k, v, r) && 1 <= capacity && |s| <= capacity
    ensures PutInto(capacity, s, m, k, v, after)
  {
    if k in m {
      assert Entry(k, m[k]) in s;
      var p :| 0 <= p < |s| && s[p] == Entry(k, m[k]);
      hide Lists;
      PutKnown(s, m, p, v, r, after);
    } else {
      assert forall p :: 0 <= p < |s| ==> s[p] in s && s[p].key != k;
      assert |s| == |m|;
      hide Lists;
      if |s| < capacity {
        PutNew(s, m, k, v, r, after);
      } else {
        PutFull(s, m, k, v, r, after);
      }
    }
  }

  ghost function Min(a: nat, b: nat): nat {
    if a <= b then a else b
  }

  lemma {:induction false} WithoutKept<K, V>(s: Recent<K, V>, done: set<K>, k: K)
    ensures Without(Keep(s, KeysOf(s) - done), k) == Keep(s, KeysOf(s) - (done + {k}))
  {
    var a := KeysOf(s) - done;
    KeepKeys(s, a);
    KeepKeep(s, a, KeysOf(s) * a - {k});
    assert a * (KeysOf(s) * a - {k}) == KeysOf(s) - (done + {k});
  }

  /** Keeping all but the keys behind position `n` is truncating to `n`. */
  lemma {:induction false} KeepTruncated<K, V>(n: nat, s: Recent<K, V>)
    requires Distinct(s)
    ensures Keep(s, KeysOf(s) - KeysOf(s[Min(n, |s|)..])) == Truncate(n, s)
  {
    hide Keep, KeysOf, Distinct, Truncate;
    var m := Min(n, |s|);
    KeepPrefix(s, m);
    KeysOfCut(s, m);
    TruncateCuts(n, s);
    KeepOccurring(s, KeysOf(s) - KeysOf(s[m..]), KeysOf(s[..m]));
  }

  lemma TruncateCuts<K, V>(n: nat, s: Recent<K, V>)
    ensures Truncate(n, s) == s[..Min(n, |s|)]
  {
  }

  /** A cut through a duplicate-free list divides its keys. */
  lemma KeysOfCut<K, V>(s: Recent<K, V>, m: nat)
    requires Distinct(s) && m <= |s|
    ensures KeysOf(s) - KeysOf(s[m..]) == KeysOf(s[..m]) <= KeysOf(s)
  {
    forall k | k in KeysOf(s) ensures k in KeysOf(s[..m]) || k in KeysOf(s[m..]) {
      var i :| 0 <= i < |s| && s[i].key == k;
      assert if i < m then s[..m][i].key == k else s[m..][i - m].key == k;
    }
  }

  lemma {:induction false} PositionUnique<K, V>(s: Recent<K, V>, p: nat)
    requires Distinct(s) && p < |s|
    ensures s[p].key in KeysOf(s) && PositionOf(s, s[p].key) == p
  {
  }

  lemma {:induction false} KeysOfSnoc<K, V>(s: Recent<K, V>)
    requires Distinct(s) && s != []
    ensures KeysOf(s[..|s| - 1]) == KeysOf(s) - {s[|s| - 1].key}
  {
  }
}

/** The strategy's list and index (src/include/Poco/LRUStrategy.h, AbstractStrategy.h) and the
    cache that drives it by events (src/include/Poco/AbstractCache.h). */
module LruCaching {
  import opened ListNodes
  import R = Recency

  /** The recency list: each key of the strategy with the value the cache holds for it. */
  ghost function Listing<K, V>(keys: seq<Node<K, ()>>, data: map<K, V>): R.Recent<K, V>
    requires forall i :: 0 <= i < |keys| ==> keys[i].key in data
  {
    seq(|keys|, i requires 0 <= i < |keys| => R.Entry(keys[i].key, data[keys[i].key]))
  }

  class LruStrategy<K(==)> {
    const size: nat
    var keys: seq<Node<K, ()>>
    var keyIndex: map<K, Node<K, ()>>

    ghost predicate Valid()
      reads this
    {
      1 <= size && Consistent(keys, keyIndex)
    }

    /** The source throws for a size below one. */
    constructor (size: nat)
      requires 1 <= size
      ensures Valid() && this.size == size && keys == [] && keyIndex == map[]
    {
      this.size := size;
      keys, keyIndex := [], map[];
    }

    /** Pushes a new node; an index entry that is already there is redirected, which leaves its
        old node behind in the list. So the strategy stays consistent exactly when the key is new. */
    method OnAdd(key: K)
      requires Valid()
      modifies this
      ensures exists n: Node<K, ()> ::
        n.key == key && n !in old(keys) && keys == [n] + old(keys) && keyIndex == old(keyIndex)[key := n]
      ensures Valid() <==> key !in old(keyIndex)
    {
      var n := new Node(key, ());
      keys := [n] + keys;
      keyIndex := keyIndex[key := n];
      assert key in old(keyIndex) ==> keys[1..] == old(keys) && old(keyIndex)[key] in keys[1..];
    }

    method OnRemove(key: K)
      requires Valid()
      modifies this
      ensures Valid()
      ensures keyIndex == old(keyIndex) - {key}
      ensures keys == if key in old(keyIndex) then Unlink(old(keys), old(keyIndex)[key]) else old(keys)
    {
      if key in keyIndex {
        ghost var p := UnlinkConsistent(keys, keyIndex, key);
        keys := Unlink(keys, keyIndex[key]);
        keyIndex := keyIndex - {key};
      } else {
        assert keyIndex - {key} == keyIndex;
      }
    }

    /** Moves the node of a key that is present to the front of the list. */
    method OnGet(key: K)
      requires Valid()
      modifies this
      ensures Valid() && keyIndex == old(keyIndex)
      ensures keys == if key in keyIndex then [keyIndex[key]] + Unlink(old(keys), keyIndex[key]) else old(keys)
    {
      if key in keyIndex {
        ghost var p := UnlinkConsistent(keys, keyIndex, key);
        keys := [keyIndex[key]] + Unlink(keys, keyIndex[key]);
      }
    }

    /** The default of AbstractStrategy: remove, then add. */
    method OnUpdate(key: K)
      requires Valid()
      modifies this
      ensures Valid()
      ensures exists n: Node<K, ()> :: n.key == key && keyIndex == old(keyIndex)[key := n] &&
                keys == [n] + (if key in old(keyIndex) then Unlink(old(keys), old(keyIndex)[key]) else old(keys))
    {
      OnRemove(key);
      OnAdd(key);
      var n: Node<K, ()> := keys[0];
      assert keyIndex == old(keyIndex)[key := n];
    }

    method OnClear()
      modifies this
      requires Valid()
      ensures Valid() && keys == [] && keyIndex == map[]
    {
      keys, keyIndex := [], map[];
    }

    method OnIsValid(key: K) returns (valid: bool)
      ensures valid <==> key in keyIndex
    {
      valid := key in keyIndex;
    }

    /** Names the keys from position `size` of the list on, walking it from the back. */
    method OnReplace() returns (elemsToRemove: set<K>)
      requires Valid()
      ensures forall k :: k in elemsToRemove <==> exists i :: size <= i < |keys| && keys[i].key == k
    {
      ConsistentSize(keys, keyIndex);
      elemsToRemove := {};
      var curSize := |keyIndex|;
      if curSize < size {
        return;
      }
      var diff := curSize - size;
      var it := |keys| - 1;
      var i := 0;
      while i < diff
        invariant 0 <= i <= diff
        invariant it == |keys| - 1 - i
        invariant forall k :: k in elemsToRemove <==> exists j :: |keys| - i <= j < |keys| && keys[j].key == k
      {
        i := i + 1;
        elemsToRemove := elemsToRemove + {keys[it].key};
        if it != 0 {
          it := it - 1;
        }
      }
    }
  }

  // ----- What the strategy's steps mean for the recency list

  ghost predicate Matches<K, V>(keys: seq<Node<K, ()>>, keyIndex: map<K, Node<K, ()>>, data: map<K, V>) {
    Consistent(keys, keyIndex) && data.Keys == keyIndex.Keys
  }

  lemma {:induction false} ListingFacts<K, V>(keys: seq<Node<K, ()>>, keyIndex: map<K, Node<K, ()>>, data: map<K, V>)
    requires Matches(keys, keyIndex, data)
    ensures R.Distinct(Listing(keys, data)) && R.KeysOf(Listing(keys, data)) == data.Keys
    ensures |data| == |keys| == |Listing(keys, data)|
  {
    var s := Listing(keys, data);
    forall k | k in data ensures k in R.KeysOf(s) {
      var i :| 0 <= i < |keys| && keys[i] == keyIndex[k];
      assert s[i].key == k;
    }
    ConsistentSize(keys, keyIndex);
    assert |data.Keys| == |data| && |keyIndex.Keys| == |keyIndex|;
  }

  lemma {:induction false} ListingCut<K, V>(keys: seq<Node<K, ()>>, keyIndex: map<K, Node<K, ()>>, data: map<K, V>,
          k: K) returns (p: nat)
    requires Matches(keys, keyIndex, data) && k in data
    ensures var s, rest := Listing(keys, data), Unlink(keys, keyIndex[k]);
            && p < |s| && s[p].key == k
            && Matches(rest, keyIndex - {k}, data - {k})
            && Listing(rest, data - {k}) == s[..p] + s[p + 1..]
            && Matches([keyIndex[k]] + rest, keyIndex, data)
            && Listing([keyIndex[k]] + rest, data) == [s[p]] + (s[..p] + s[p + 1..])
  {
    p := UnlinkConsistent(keys, keyIndex, k);
    assert forall i :: 0 <= i < |keys| ==> keys[i].key in data && (i != p ==> keys[i].key != keys[p].key);
    hide Consistent, Unlink, Listing;
    ListingPieces(keys, data, p);
  }

  lemma ListingPieces<K, V>(keys: seq<Node<K, ()>>, data: map<K, V>, p: nat)
    requires p < |keys| && forall i :: 0 <= i < |keys| ==> keys[i].key in data
    requires forall i :: 0 <= i < |keys| && i != p ==> keys[i].key != keys[p].key
    ensures var s, rest, k := Listing(keys, data), keys[..p] + keys[p + 1..], keys[p].key;
            && (forall i :: 0 <= i < |rest| ==> rest[i].key in data - {k})
            && Listing(rest, data - {k}) == s[..p] + s[p + 1..]
            && Listing([keys[p]] + rest, data) == [s[p]] + (s[..p] + s[p + 1..])
  {
  }

  lemma {:induction false} ListingUnlink<K, V>(keys: seq<Node<K, ()>>, keyIndex: map<K, Node<K, ()>>,
          data: map<K, V>, k: K)
    requires Matches(keys, keyIndex, data) && k in data
    ensures var rest := Unlink(keys, keyIndex[k]);
            && Matches(rest, keyIndex - {k}, data - {k})
            && Listing(rest, data - {k}) == R.Without(Listing(keys, data), k)
            && Matches([keyIndex[k]] + rest, keyIndex, data)
            && Listing([keyIndex[k]] + rest, data) == R.Step(|keys|, Listing(keys, data), R.Get(k))
  {
    ListingFacts(keys, keyIndex, data);
    var p := ListingCut(keys, keyIndex, data, k);
    hide R.Keep, R.KeysOf, R.PositionOf, R.Without, R.Distinct, Matches, Listing, Unlink;
    R.WithoutAt(Listing(keys, data), p);
    R.PositionUnique(Listing(keys, data), p);
  }

  /** The keys the strategy names are those behind position `size`. */
  lemma ListingTail<K, V>(keys: seq<Node<K, ()>>, keyIndex: map<K, Node<K, ()>>, data: map<K, V>, size: nat,
          names: set<K>)
    requires Matches(keys, keyIndex, data)
    requires forall k :: k in names <==> exists i :: size <= i < |keys| && keys[i].key == k
    ensures names == R.KeysOf(Listing(keys, data)[R.Min(size, |keys|)..])
  {
    var tail := Listing(keys, data)[R.Min(size, |keys|)..];
    forall k | k in names ensures k in R.KeysOf(tail) {
      var i :| size <= i < |keys| && keys[i].key == k;
      assert tail[i - size].key == k;
    }
  }

  lemma {:induction false} ListingPush<K, V>(n: Node<K, ()>, keys: seq<Node<K, ()>>, keyIndex: map<K, Node<K, ()>>,
          data: map<K, V>, v: V)
    requires Matches(keys, keyIndex, data) && n.key !in data
    ensures Matches([n] + keys, keyIndex[n.key := n], data[n.key := v])
    ensures Listing([n] + keys, data[n.key := v]) == [R.Entry(n.key, v)] + Listing(keys, data)
  {
  }

  lemma RemovalShrinks<K, V>(m: map<K, V>, k: K)
    ensures |m - {k}| <= |m|
  {
    assert m.Keys == (m - {k}).Keys + (m.Keys * {k});
  }

  /** The cache: a data map and a strategy that hear of each other only through events. */
  class LruCache<K(==), V> {
    const strategy: LruStrategy<K>
    var data: map<K, V>

    ghost predicate Linked()
      reads this, strategy
    {
      strategy.Valid() && Matches(strategy.keys, strategy.keyIndex, data)
    }

    /** What holds between public calls. */
    ghost predicate Valid()
      reads this, strategy
    {
      Linked() && |data| <= strategy.size
    }

    ghost function Entries(): R.Recent<K, V>
      requires Linked()
      reads this, strategy
    {
      Listing(strategy.keys, data)
    }

    constructor (size: nat)
      requires 1 <= size
      ensures Valid() && fresh(strategy) && strategy.size == size && Entries() == []
    {
      strategy := new LruStrategy(size);
      data := map[];
    }

    /** The list names exactly the keys of the data, once each, with their values. */
    lemma EntriesListData()
      requires Linked()
      ensures R.Distinct(Entries()) && |Entries()| == |data| && R.Lists(Entries(), data)
    {
      hide Consistent, R.Distinct;
      ListingFacts(strategy.keys, strategy.keyIndex, data);
      forall k | k in data ensures R.Entry(k, data[k]) in Entries() {
        assert k in R.KeysOf(Entries());
        var i :| 0 <= i < |Entries()| && Entries()[i].key == k;
      }
    }

    /** Removes the entry of a key, if there is one. */
    method DoRemove(key: K)
      requires Linked()
      modifies this`data, strategy
      ensures Linked() && Entries() == R.Without(old(Entries()), key) && data == old(data) - {key}
    {
      hide Consistent, Listing, Unlink, R.Keep, R.KeysOf, R.Distinct;
      ListingFacts(strategy.keys, strategy.keyIndex, data);
      if key in data {
        ListingUnlink(strategy.keys, strategy.keyIndex, data, key);
        strategy.OnRemove(key);
        data := data - {key};
      } else {
        R.KeepAll(Entries(), R.KeysOf(Entries()) - {key});
        assert data - {key} == data;
      }
    }

    /** Asks the strategy what to drop and drops it. */
    method DoReplace()
      requires Linked()
      modifies this`data, strategy
      ensures Valid() && Entries() == R.Truncate(strategy.size, old(Entries()))
    {
      hide Consistent, Listing, Unlink, R.Keep, R.KeysOf, R.Distinct, R.Without;
      ghost var all := Entries();
      ListingFacts(strategy.keys, strategy.keyIndex, data);
      var delMe := strategy.OnReplace();
      ghost var done, cut := {}, R.KeysOf(all[R.Min(strategy.size, |all|)..]);
      ListingTail(strategy.keys, strategy.keyIndex, data, strategy.size, delMe);
      R.KeepAll(all, R.KeysOf(all) - done);
      while delMe != {}
        invariant Linked() && delMe + done == cut
        invariant Entries() == R.Keep(all, R.KeysOf(all) - done)
        decreases delMe
      {
        var key :| key in delMe;
        delMe := delMe - {key};
        R.WithoutKept(all, done, key);
        DoRemove(key);
        done := done + {key};
      }
      R.KeepTruncated(strategy.size, all);
      ListingFacts(strategy.keys, strategy.keyIndex, data);
    }

    /** Puts the entry first; the least recent one may have to go. */
    method Add(key: K, val: V)
      requires Valid()
      modifies this, strategy
      ensures Valid() && Entries() == R.Step(strategy.size, old(Entries()), R.Add(key, val))
      ensures R.PutFirst(strategy.size, old(Entries()), key, val, Entries())
      ensures R.PutInto(strategy.size, old(Entries()), old(data), key, val, data)
    {
      hide Consistent, Listing, Unlink, R.Keep, R.KeysOf, R.Distinct, R.Without, R.PutFirst, R.PutInto, R.Lists;
      EntriesListData();
      R.WritingPutsFirst(strategy.size, Entries(), key, val);
      DoRemove(key);
      ghost var keys, keyIndex, before := strategy.keys, strategy.keyIndex, data;
      strategy.OnAdd(key);
      data := data[key := val];
      ListingPush(strategy.keys[0], keys, keyIndex, before, val);
      DoReplace();
      EntriesListData();
      R.PutFirstPutsInto(strategy.size, old(Entries()), old(data), key, val, Entries(), data);
    }

    /** Leaves what adding leaves, without removing first. */
    method Update(key: K, val: V)
      requires Valid()
      modifies this, strategy
      ensures Valid() && Entries() == R.Step(strategy.size, old(Entries()), R.Update(key, val))
      ensures R.PutFirst(strategy.size, old(Entries()), key, val, Entries())
      ensures R.PutInto(strategy.size, old(Entries()), old(data), key, val, data)
    {
      hide Consistent, Listing, Unlink, R.Keep, R.KeysOf, R.Distinct, R.PutFirst, R.PutInto, R.Lists;
      EntriesListData();
      R.WritingPutsFirst(strategy.size, Entries(), key, val);
      ghost var keys, keyIndex, before := strategy.keys, strategy.keyIndex, data;
      ListingFacts(keys, keyIndex, data);
      if key !in data {
        R.KeepAll(Entries(), R.KeysOf(Entries()) - {key});
        strategy.OnAdd(key);
        data := data[key := val];
        ListingPush(strategy.keys[0], keys, keyIndex, before, val);
      } else {
        ListingUnlink(keys, keyIndex, data, key);
        strategy.OnUpdate(key);
        data := data[key := val];
        ghost var n := strategy.keys[0];
        ListingPush(n, Unlink(keys, keyIndex[key]), keyIndex - {key}, before - {key}, val);
        assert (before - {key})[key := val] == data;
        assert (keyIndex - {key})[key := n] == keyIndex[key := n];
      }
      DoReplace();
      EntriesListData();
      R.PutFirstPutsInto(strategy.size, old(Entries()), old(data), key, val, Entries(), data);
    }

    method Remove(key: K)
      requires Valid()
      modifies this, strategy
      ensures Valid() && Entries() == R.Step(strategy.size, old(Entries()), R.Remove(key))
      ensures R.TakenOut(old(Entries()), key, Entries()) && data == old(data) - {key}
    {
      hide Consistent, Listing, Unlink, Matches, R.Keep, R.KeysOf, R.Distinct, R.Without, R.TakenOut, R.Lists;
      EntriesListData();
      R.RemovingTakesOut(strategy.size, Entries(), key);
      RemovalShrinks(data, key);
      DoRemove(key);
    }

    /** A hit becomes the most recent entry; a miss changes nothing. */
    method Get(key: K) returns (result: Shared<V>)
      requires Valid()
      modifies this, strategy
      ensures Valid() && data == old(data)
      ensures Entries() == R.Step(strategy.size, old(Entries()), R.Get(key))
      ensures R.MovedFirst(old(Entries()), key, Entries())
      ensures result == if key in data then Pointer(data[key]) else Null
    {
      hide Consistent, Listing, Unlink, R.Distinct, R.KeysOf, R.MovedFirst, R.Lists;
      EntriesListData();
      R.ReadingMovesFirst(strategy.size, Entries(), key);
      ListingFacts(strategy.keys, strategy.keyIndex, data);
      result := Null;
      if key in data {
        ListingUnlink(strategy.keys, strategy.keyIndex, data, key);
        strategy.OnGet(key);
        var valid := strategy.OnIsValid(key);
        if valid {
          result := Pointer(data[key]);
        } else {
          // The removal of an invalid entry: this strategy knows every key of the cache.
          assert false;
        }
      }
    }

    method Has(key: K) returns (result: bool)
      requires Valid()
      ensures result <==> key in data
    {
      result := false;
      if key in data {
        result := strategy.OnIsValid(key);
      }
    }

    method Clear()
      requires Valid()
      modifies this, strategy
      ensures Valid() && Entries() == R.Step(strategy.size, old(Entries()), R.Clear)
      ensures data == map[] && Entries() == []
    {
      strategy.OnClear();
      data := map[];
    }

    /** Replaces first; between public calls there is nothing to replace. */
    method Size() returns (n: nat)
      requires Valid()
      modifies this, strategy
      ensures Valid() && Entries() == old(Entries()) && n == |Entries()|
    {
      ListingFacts(strategy.keys, strategy.keyIndex, data);
      DoReplace();
      ListingFacts(strategy.keys, strategy.keyIndex, data);
      n := |data|;
    }
  }
}
