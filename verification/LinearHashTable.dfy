/** Litwin linear hashing (src/include/Poco/LinearHashTable.h): the address arithmetic, the
    split and merge of buckets, and the refinement of a finite map. */
module LinearHashing {
  import opened Basics

  /** A key together with the value the table's hash function gives it. */
  datatype Key<K> = Key(value: K, hash: nat)

  /** What a table stores. Entries compare and hash by their key alone; a plain set is a
      table whose entries carry no value. */
  datatype Entry<K, V> = Entry(first: Key<K>, second: V)

  type Bucket<K, V> = seq<Entry<K, V>>

  /** The state of a table: its fields, as a value. */
  datatype Table<K, V> = Table(buckets: seq<Bucket<K, V>>, split: nat, front: nat, size: nat)

  // ----- Address arithmetic

  /** The remainder `h % n`, by repeated subtraction. */
  function Residue(h: nat, n: nat): (r: nat)
    requires n > 0
    ensures r < n
  {
    if h < n then h else Residue(h - n, n)
  }

  lemma MultipleWithin(a: int, n: int)
    requires -n < a * n < n
    ensures a == 0
  {
  }

  lemma StepRemainder(h: nat, n: nat)
    requires 0 < n <= h
    ensures (h - n) % n == h % n
  {
    var a, b := h / n, (h - n) / n;
    assert a * n + h % n == b * n + (h - n) % n + n;
    assert (a - 1 - b) * n == (h - n) % n - h % n;
    MultipleWithin(a - 1 - b, n);
  }

  lemma {:induction false} ResidueIsRemainder(h: nat, n: nat)
    requires n > 0
    ensures Residue(h, n) == h % n
  {
    if h < n {
    } else {
      ResidueIsRemainder(h - n, n);
      StepRemainder(h, n);
    }
  }

  lemma {:induction false} ResidueDouble(h: nat, n: nat)
    requires n > 0
    ensures Residue(h, 2 * n) == Residue(h, n) || Residue(h, 2 * n) == Residue(h, n) + n
  {
    if h < 2 * n {
    } else {
      ResidueDouble(h - 2 * n, n);
      assert Residue(h, n) == Residue(h - n, n) == Residue(h - n - n, n);
    }
  }

  /** The bucket of a hash: the residue by twice the front for the buckets already split in
      this round, by the front for the others. */
  function Address(h: nat, front: nat, split: nat): (a: nat)
    requires 0 < front && split <= front
    ensures a < front + split
  {
    ResidueDouble(h, front);
    if Residue(h, front) >= split then Residue(h, front) else Residue(h, 2 * front)
  }

  /** The address, by the remainder operator. */
  lemma {:induction false} AddressIsRemainder(h: nat, front: nat, split: nat)
    requires 0 < front && split <= front
    ensures Address(h, front, split) == if h % front >= split then h % front else h % (2 * front)
  {
    ResidueIsRemainder(h, front);
    ResidueIsRemainder(h, 2 * front);
  }

  /** Moving the split pointer past bucket `s` re-addresses only what bucket `s` held,
      and sends it to `s` or to the new bucket `s + front`; nothing else goes there. */
  lemma {:induction false} AdvanceSplit(h: nat, front: nat, s: nat)
    requires s < front
    ensures Address(h, front, s) != s ==> Address(h, front, s + 1) == Address(h, front, s)
    ensures Address(h, front, s) == s <==> Address(h, front, s + 1) in {s, s + front}
  {
    ResidueDouble(h, front);
  }

  /** A complete round of splits is the same addressing with a doubled front. */
  lemma {:induction false} Renormalize(h: nat, front: nat)
    requires front > 0
    ensures Address(h, front, front) == Address(h, 2 * front, 0)
  {
  }

  ghost predicate PowerOfTwo(n: nat) {
    exists e: nat :: n == Pow2(e)
  }

  // ----- Filing entries into buckets

  /** The fields fit together: one bucket for each address. */
  predicate Fits<K, V>(buckets: seq<Bucket<K, V>>, front: nat, split: nat) {
    0 < front && split <= front && |buckets| == front + split
  }

  /** Appends each entry of `rest`, in order, to the bucket it is addressed to. */
  function Scatter<K, V>(buckets: seq<Bucket<K, V>>, front: nat, split: nat, rest: Bucket<K, V>): (r: seq<Bucket<K, V>>)
    requires Fits(buckets, front, split)
    ensures |r| == |buckets|
    decreases |rest|
  {
    if rest == [] then buckets
    else
      var a := Address(rest[0].first.hash, front, split);
      Scatter(buckets[a := buckets[a] + [rest[0]]], front, split, rest[1..])
  }

  /** The entries of `rest` that are addressed to bucket `a`, in order. */
  function Select<K, V>(front: nat, split: nat, rest: Bucket<K, V>, a: nat): Bucket<K, V>
    requires 0 < front && split <= front
  {
    if rest == [] then []
    else (if Address(rest[0].first.hash, front, split) == a then [rest[0]] else []) + Select(front, split, rest[1..], a)
  }

  lemma {:induction false} ScatterAppendsSelection<K, V>(buckets: seq<Bucket<K, V>>, front: nat, split: nat,
          rest: Bucket<K, V>, a: nat)
    requires Fits(buckets, front, split) && a < |buckets|
    ensures Scatter(buckets, front, split, rest)[a] == buckets[a] + Select(front, split, rest, a)
    decreases |rest|
  {
    if rest == [] {
    } else {
      var b := Address(rest[0].first.hash, front, split);
      ScatterAppendsSelection(buckets[b := buckets[b] + [rest[0]]], front, split, rest[1..], a);
    }
  }

  lemma {:induction false} SelectUniform<K, V>(front: nat, split: nat, rest: Bucket<K, V>, a: nat, all: bool)
    requires 0 < front && split <= front
    requires forall i :: 0 <= i < |rest| ==> (Address(rest[i].first.hash, front, split) == a <==> all)
    ensures Select(front, split, rest, a) == if all then rest else []
  {
    if rest == [] {
    } else {
      SelectUniform(front, split, rest[1..], a, all);
    }
  }

  ghost predicate Distinct<T>(s: seq<T>) {
    forall i, j :: 0 <= i < j < |s| ==> s[i] != s[j]
  }

  /** `x` is what `m` binds its key to. */
  ghost predicate Bound<K, V>(m: map<Key<K>, V>, x: Entry<K, V>) {
    x.first in m && m[x.first] == x.second
  }

  /** `buckets` together with the not yet filed `rest` hold the entries of `m`, each once,
      and everything in `buckets` is in the bucket its hash addresses. */
  ghost predicate Holds<K, V>(buckets: seq<Bucket<K, V>>, front: nat, split: nat, rest: Bucket<K, V>,
          m: map<Key<K>, V>) {
    && Fits(buckets, front, split)
    && (forall b, i :: 0 <= b < |buckets| && 0 <= i < |buckets[b]| ==>
          Bound(m, buckets[b][i]) && Address(buckets[b][i].first.hash, front, split) == b)
    && (forall b :: 0 <= b < |buckets| ==> Distinct(buckets[b]))
    && Distinct(rest)
    && (forall k :: k in m ==>
          Entry(k, m[k]) in buckets[Address(k.hash, front, split)] || Entry(k, m[k]) in rest)
    && (forall i :: 0 <= i < |rest| ==>
          Bound(m, rest[i]) && rest[i] !in buckets[Address(rest[i].first.hash, front, split)])
  }

  lemma {:induction false} ScatterHolds<K, V>(buckets: seq<Bucket<K, V>>, front: nat, split: nat, rest: Bucket<K, V>,
          m: map<Key<K>, V>)
    requires Holds(buckets, front, split, rest, m)
    ensures Holds(Scatter(buckets, front, split, rest), front, split, [], m)
    decreases |rest|
  {
    hide Address;
    if rest == [] {
    } else {
      var a := Address(rest[0].first.hash, front, split);
      FileOneHolds(buckets, front, split, rest, m);
      ScatterHolds(buckets[a := buckets[a] + [rest[0]]], front, split, rest[1..], m);
    }
  }

  lemma {:induction false} FileOneHolds<K, V>(buckets: seq<Bucket<K, V>>, front: nat, split: nat, rest: Bucket<K, V>,
                                              m: map<Key<K>, V>)
    requires Holds(buckets, front, split, rest, m) && rest != []
    ensures var a := Address(rest[0].first.hash, front, split);
            Holds(buckets[a := buckets[a] + [rest[0]]], front, split, rest[1..], m)
  {
    hide Address, Bound;
    var a := Address(rest[0].first.hash, front, split);
    var next := buckets[a := buckets[a] + [rest[0]]];
    assert rest == [rest[0]] + rest[1..];
    forall c, j | 0 <= c < |next| && 0 <= j < |next[c]|
      ensures Bound(m, next[c][j]) && Address(next[c][j].first.hash, front, split) == c
    {
      assert next[c][j] == if j < |buckets[c]| then buckets[c][j] else rest[0];
    }
    forall k | k in m ensures Entry(k, m[k]) in next[Address(k.hash, front, split)] || Entry(k, m[k]) in rest[1..] {
      if Entry(k, m[k]) in rest && Entry(k, m[k]) !in rest[1..] {
        assert Entry(k, m[k]) == rest[0];
      }
    }
  }

  /** Emptying bucket `s` and adding a bucket behind the others, as a split does. */
  lemma {:induction false} DetachHolds<K, V>(buckets: seq<Bucket<K, V>>, front: nat, s: nat, m: map<Key<K>, V>)
    requires s < front && Holds(buckets, front, s, [], m)
    ensures Holds((buckets + [[]])[s := []], front, s + 1, buckets[s], m)
  {
  }

  /** Taking off the last bucket, as a merge does. */
  lemma {:induction false} DropLastHolds<K, V>(buckets: seq<Bucket<K, V>>, front: nat, s: nat, m: map<Key<K>, V>)
    requires s < front && Holds(buckets, front, s + 1, [], m)
    ensures var last := |buckets| - 1; Holds(buckets[..last], front, s, buckets[last], m)
  {
    var last := |buckets| - 1;
    forall h: nat
      ensures Address(h, front, s + 1) == last ==> Address(h, front, s) == s
      ensures Address(h, front, s + 1) != last ==> Address(h, front, s) == Address(h, front, s + 1)
    {
      AdvanceSplit(h, front, s);
    }
    forall i | 0 <= i < |buckets[last]|
      ensures Bound(m, buckets[last][i])
          && buckets[last][i] !in buckets[..last][Address(buckets[last][i].first.hash, front, s)]
    {
      assert Address(buckets[last][i].first.hash, front, s + 1) == last;
    }
  }

  lemma {:induction false} AppendHolds<K, V>(buckets: seq<Bucket<K, V>>, front: nat, split: nat, m: map<Key<K>, V>,
          x: Entry<K, V>)
    requires Holds(buckets, front, split, [], m) && x.first !in m
    ensures var a := Address(x.first.hash, front, split);
            Holds(buckets[a := buckets[a] + [x]], front, split, [], m[x.first := x.second])
  {
  }

  function WithoutAt<T>(s: seq<T>, i: nat): seq<T>
    requires i < |s|
  {
    s[..i] + s[i + 1..]
  }

  /** What stands behind a position moves up by one; nothing else moves. */
  lemma WithoutAtKeepsOrder<T>(s: seq<T>, i: nat, j: nat)
    requires i < |s| && j < |s| - 1
    ensures |WithoutAt(s, i)| == |s| - 1 && WithoutAt(s, i)[j] == if j < i then s[j] else s[j + 1]
  {
  }

  lemma WithoutAtFacts<T>(s: seq<T>, i: nat)
    requires i < |s| && Distinct(s)
    ensures Distinct(WithoutAt(s, i))
    ensures forall x :: x in WithoutAt(s, i) ==> x in s && x != s[i]
    ensures forall x :: x in s && x != s[i] ==> x in WithoutAt(s, i)
  {
    var r := WithoutAt(s, i);
    assert forall j :: 0 <= j < |r| ==> r[j] == s[if j < i then j else j + 1];
    forall x | x in s && x != s[i] ensures x in r {
      var j :| 0 <= j < |s| && s[j] == x;
      assert r[if j < i then j else j - 1] == x;
    }
  }

  lemma {:induction false} RemoveHolds<K, V>(buckets: seq<Bucket<K, V>>, front: nat, split: nat, m: map<Key<K>, V>,
                                             a: nat, i: nat)
    requires Holds(buckets, front, split, [], m) && a < |buckets| && i < |buckets[a]|
    ensures Holds(buckets[a := WithoutAt(buckets[a], i)], front, split, [], m - {buckets[a][i].first})
  {
    hide Address, WithoutAt;
    var gone := buckets[a][i];
    WithoutAtFacts(buckets[a], i);
    var next, m' := buckets[a := WithoutAt(buckets[a], i)], m - {gone.first};
    assert Bound(m, gone);
    forall c, j | 0 <= c < |next| && 0 <= j < |next[c]|
      ensures Bound(m', next[c][j]) && Address(next[c][j].first.hash, front, split) == c
    {
      var x := next[c][j];
      if c == a {
        assert x in WithoutAt(buckets[a], i);
      } else {
        assert x == buckets[c][j];
      }
      assert x in buckets[c] && (c == a ==> x != gone);
      var j' :| 0 <= j' < |buckets[c]| && buckets[c][j'] == x;
      assert Bound(m, x) && Address(x.first.hash, front, split) == c;
    }
    forall k | k in m' ensures Entry(k, m'[k]) in next[Address(k.hash, front, split)] {
      assert Entry(k, m[k]) in buckets[Address(k.hash, front, split)];
    }
  }

  // ----- The operations

  predicate Addressable<K, V>(t: Table<K, V>) {
    Fits(t.buckets, t.front, t.split)
  }

  function HomeOf<K, V>(t: Table<K, V>, k: Key<K>): (a: nat)
    requires Addressable(t)
    ensures a < |t.buckets|
  {
    Address(k.hash, t.front, t.split)
  }

  /** A finished round of splits starts the next one: the split pointer wraps, the front doubles. */
  function BeforeSplit<K, V>(t: Table<K, V>): (r: Table<K, V>)
    requires Addressable(t)
    ensures Addressable(r) && r.split < r.front && r.buckets == t.buckets && r.size == t.size
  {
    if t.split == t.front then t.(split := 0, front := 2 * t.front) else t
  }

  /** The inverse renaming, made before a merge. */
  function BeforeMerge<K, V>(t: Table<K, V>): (r: Table<K, V>)
    requires Addressable(t) && (t.split == 0 ==> t.front % 2 == 0)
    ensures Addressable(r) && r.split > 0 && r.buckets == t.buckets && r.size == t.size
  {
    if t.split == 0 then t.(front := t.front / 2, split := t.front / 2) else t
  }

  function Split<K, V>(t: Table<K, V>): (r: Table<K, V>)
    requires Addressable(t)
    ensures Addressable(r) && r.size == t.size && |r.buckets| == |t.buckets| + 1
  {
    var u := BeforeSplit(t);
    var s := u.split;
    u.(buckets := Scatter((u.buckets + [[]])[s := []], u.front, s + 1, u.buckets[s]), split := s + 1)
  }

  function Merge<K, V>(t: Table<K, V>): (r: Table<K, V>)
    requires Addressable(t) && (t.split == 0 ==> t.front % 2 == 0)
    ensures Addressable(r) && r.size == t.size && |r.buckets| == |t.buckets| - 1
  {
    var u := BeforeMerge(t);
    var last, s := |u.buckets| - 1, u.split - 1;
    u.(buckets := Scatter(u.buckets[..last], u.front, s, u.buckets[last]), split := s)
  }

  /** Index of the first entry of `bucket` with key `k`, or `|bucket|`. */
  function IndexOf<K(==), V>(bucket: Bucket<K, V>, k: Key<K>): (i: nat)
    ensures i <= |bucket|
    ensures i < |bucket| ==> bucket[i].first == k
    ensures forall j :: 0 <= j < i ==> bucket[j].first != k
  {
    if bucket == [] then 0
    else if bucket[0].first == k then 0
    else 1 + IndexOf(bucket[1..], k)
  }

  predicate Member<K(==), V>(t: Table<K, V>, k: Key<K>)
    requires Addressable(t)
  {
    var b := t.buckets[HomeOf(t, k)];
    IndexOf(b, k) < |b|
  }

  function Insert<K(==), V>(t: Table<K, V>, x: Entry<K, V>): (r: Table<K, V>)
    requires Addressable(t)
    ensures Addressable(r)
  {
    if Member(t, x.first) then t
    else
      var u := Split(t);
      var a := HomeOf(u, x.first);
      u.(buckets := u.buckets[a := u.buckets[a] + [x]], size := t.size + 1)
  }

  function RemoveFrom<K, V>(t: Table<K, V>, a: nat, i: nat): (r: Table<K, V>)
    requires Addressable(t) && a < |t.buckets| && i < |t.buckets[a]| && t.size > 0
    ensures Addressable(r)
  {
    t.(buckets := t.buckets[a := WithoutAt(t.buckets[a], i)], size := t.size - 1)
  }

  function Erase<K(==), V>(t: Table<K, V>, k: Key<K>): (r: Table<K, V>)
    requires Addressable(t)
    requires Member(t, k) ==> t.size > 0 && (t.split == 0 ==> t.front % 2 == 0)
    ensures Addressable(r)
  {
    if !Member(t, k) then t
    else
      var a := HomeOf(t, k);
      Merge(RemoveFrom(t, a, IndexOf(t.buckets[a], k)))
  }

  /** The table the constructor builds. */
  predicate IsInitial<K, V>(t: Table<K, V>) {
    |t.buckets| == 1 && |t.buckets[0]| == 0 && t.split == 0 && t.front == 1 && t.size == 0
  }

  // ----- What a table represents

  /** The shape every reachable table has. */
  ghost predicate Geometry<K, V>(t: Table<K, V>) {
    Addressable(t) && PowerOfTwo(t.front) && |t.buckets| == t.size + 1
  }

  ghost predicate Filed<K, V>(t: Table<K, V>, m: map<Key<K>, V>) {
    Holds(t.buckets, t.front, t.split, [], m)
  }

  /** The table is well formed and its content is exactly the finite map `m`. */
  ghost predicate Represents<K, V>(t: Table<K, V>, m: map<Key<K>, V>) {
    Geometry(t) && Filed(t, m) && |m| == t.size
  }

  lemma {:induction false} RenamingHolds<K, V>(t: Table<K, V>, m: map<Key<K>, V>)
    requires Addressable(t) && Filed(t, m)
    ensures Filed(BeforeSplit(t), m)
    ensures (t.split == 0 ==> t.front % 2 == 0) ==> Filed(BeforeMerge(t), m)
  {
  }

  lemma {:induction false} SplitHolds<K, V>(t: Table<K, V>, m: map<Key<K>, V>)
    requires Addressable(t) && Filed(t, m)
    ensures Filed(Split(t), m)
  {
    hide Holds;
    RenamingHolds(t, m);
    var u := BeforeSplit(t);
    DetachHolds(u.buckets, u.front, u.split, m);
    ScatterHolds((u.buckets + [[]])[u.split := []], u.front, u.split + 1, u.buckets[u.split], m);
  }

  lemma {:induction false} MergeHolds<K, V>(t: Table<K, V>, m: map<Key<K>, V>)
    requires Addressable(t) && (t.split == 0 ==> t.front % 2 == 0) && Filed(t, m)
    ensures Filed(Merge(t), m)
  {
    hide Holds;
    RenamingHolds(t, m);
    var u := BeforeMerge(t);
    var last, s := |u.buckets| - 1, u.split - 1;
    DropLastHolds(u.buckets, u.front, s, m);
    ScatterHolds(u.buckets[..last], u.front, s, u.buckets[last], m);
  }

  /** Splitting keeps the front a power of two. */
  lemma {:induction false} SplitGeometry<K, V>(t: Table<K, V>)
    requires Addressable(t) && PowerOfTwo(t.front)
    ensures PowerOfTwo(Split(t).front)
  {
    var e: nat :| t.front == Pow2(e);
    assert Pow2(e + 1) == 2 * t.front;
  }

  /** Merging is possible while more than one bucket remains, and keeps the front a power of two,
      hence above zero, and at least one bucket. */
  lemma {:induction false} MergeGeometry<K, V>(t: Table<K, V>)
    requires Addressable(t) && PowerOfTwo(t.front) && |t.buckets| > 1
    ensures t.split == 0 ==> t.front % 2 == 0
    ensures PowerOfTwo(Merge(t).front) && |Merge(t).buckets| >= 1
  {
    var e: nat :| t.front == Pow2(e);
    if t.split == 0 {
      assert t.front == 2 * Pow2(e - 1);
    }
  }

  /** A lookup succeeds exactly for the keys of the represented map, and finds their entries. */
  lemma {:induction false} MemberIffInMap<K, V>(t: Table<K, V>, m: map<Key<K>, V>, k: Key<K>)
    requires Represents(t, m)
    ensures Member(t, k) <==> k in m
    ensures k in m ==> var b := t.buckets[HomeOf(t, k)]; b[IndexOf(b, k)] == Entry(k, m[k])
  {
  }

  lemma {:induction false} InsertRefines<K, V>(t: Table<K, V>, m: map<Key<K>, V>, x: Entry<K, V>)
    requires Represents(t, m)
    ensures Represents(Insert(t, x), if x.first in m then m else m[x.first := x.second])
  {
    hide Holds;
    MemberIffInMap(t, m, x.first);
    if x.first !in m {
      SplitHolds(t, m);
      SplitGeometry(t);
      var u := Split(t);
      AppendHolds(u.buckets, u.front, u.split, m, x);
    }
  }

  lemma SizeWithout<K, V>(m: map<K, V>, k: K)
    ensures |m - {k}| == if k in m then |m| - 1 else |m|
    ensures k in m ==> |m| > 0
  {
  }

  lemma {:induction false} EraseRefines<K, V>(t: Table<K, V>, m: map<Key<K>, V>, k: Key<K>)
    requires Represents(t, m)
    ensures Member(t, k) ==> t.size > 0 && (t.split == 0 ==> t.front % 2 == 0)
    ensures Represents(Erase(t, k), m - {k})
  {
    hide Holds;
    MemberIffInMap(t, m, k);
    SizeWithout(m, k);
    if k in m {
      var a := HomeOf(t, k);
      var i := IndexOf(t.buckets[a], k);
      RemoveHolds(t.buckets, t.front, t.split, m, a, i);
      var u := RemoveFrom(t, a, i);
      MergeGeometry(u);
      MergeHolds(u, m - {k});
    } else {
      assert m - {k} == m;
    }
  }

  lemma InitialRepresents<K, V>(t: Table<K, V>)
    requires IsInitial(t)
    ensures Represents(t, map[])
  {
    assert Pow2(0) == 1;
  }

  // ----- Whole runs

  datatype Op<K, V> = InsertOp(x: Entry<K, V>) | EraseOp(k: Key<K>) | ClearOp

  function RunMap<K(==), V>(ops: seq<Op<K, V>>): map<Key<K>, V> {
    if ops == [] then map[]
    else
      var m := RunMap(ops[..|ops| - 1]);
      match ops[|ops| - 1]
      case InsertOp(x) => if x.first in m then m else m[x.first := x.second]
      case EraseOp(k) => m - {k}
      case ClearOp => map[]
  }

  /** After any run of inserts, erases and clears from an initial table, the table is well formed
      and represents the map that the same run builds. */
  function Run<K(==), V>(initial: Table<K, V>, ops: seq<Op<K, V>>): (t: Table<K, V>)
    requires IsInitial(initial)
    ensures Represents(t, RunMap(ops))
  {
    InitialRepresents(initial);
    if ops == [] then initial
    else
      var before := ops[..|ops| - 1];
      var u := Run(initial, before);
      match ops[|ops| - 1]
      case InsertOp(x) => InsertRefines(u, RunMap(before), x); Insert(u, x)
      case EraseOp(k) => EraseRefines(u, RunMap(before), k); Erase(u, k)
      case ClearOp => initial
  }

  // ----- Where splits and merges send entries

  /** A split divides bucket `s` between `s` and the new last bucket, both in the old order,
      and leaves every other bucket as it was. */
  lemma {:induction false} SplitDividesOneBucket<K, V>(t: Table<K, V>, m: map<Key<K>, V>, b: nat)
    requires Addressable(t) && Filed(t, m) && b <= |t.buckets|
    ensures var u, r := BeforeSplit(t), Split(t);
            && u.split + u.front == |t.buckets|
            && r.buckets[b] == if b == u.split || b == u.split + u.front
                               then Select(u.front, u.split + 1, t.buckets[u.split], b)
                               else t.buckets[b]
  {
    hide Holds, Address, Scatter, Select;
    var u := BeforeSplit(t);
    var s := u.split;
    var start := (u.buckets + [[]])[s := []];
    ScatterAppendsSelection(start, u.front, s + 1, u.buckets[s], b);
    if b != s && b != s + u.front {
      RenamingHolds(t, m);
      NoneGoElsewhere(u.buckets, u.front, s, m, b);
      assert start[b] == t.buckets[b];
    } else {
      assert start[b] == [];
    }
  }

  lemma {:induction false} NoneGoElsewhere<K, V>(buckets: seq<Bucket<K, V>>, front: nat, s: nat, m: map<Key<K>, V>,
                                                 b: nat)
    requires s < front && Holds(buckets, front, s, [], m) && b != s && b != s + front
    ensures Select(front, s + 1, buckets[s], b) == []
  {
    hide Address;
    forall i | 0 <= i < |buckets[s]| ensures Address(buckets[s][i].first.hash, front, s + 1) != b {
      assert Address(buckets[s][i].first.hash, front, s) == s;
      AdvanceSplit(buckets[s][i].first.hash, front, s);
    }
    SelectUniform(front, s + 1, buckets[s], b, false);
  }

  lemma {:induction false} LastBucketGoesHome<K, V>(buckets: seq<Bucket<K, V>>, front: nat, s: nat,
          m: map<Key<K>, V>, b: nat)
    requires s < front && Holds(buckets, front, s + 1, [], m)
    ensures var last := buckets[|buckets| - 1]; Select(front, s, last, b) == if b == s then last else []
  {
    var last := |buckets| - 1;
    forall i | 0 <= i < |buckets[last]| ensures Address(buckets[last][i].first.hash, front, s) == s {
      AdvanceSplit(buckets[last][i].first.hash, front, s);
    }
    SelectUniform(front, s, buckets[last], b, b == s);
  }

  /** A merge appends the whole last bucket to bucket `s` and touches no other. */
  lemma {:induction false} MergeAppendsLastBucket<K, V>(t: Table<K, V>, m: map<Key<K>, V>, b: nat)
    requires Addressable(t) && (t.split == 0 ==> t.front % 2 == 0) && b < |t.buckets| - 1
    requires Filed(t, m)
    ensures var r := Merge(t);
            r.buckets[b] == if b == r.split then t.buckets[b] + t.buckets[|t.buckets| - 1] else t.buckets[b]
  {
    hide Holds;
    RenamingHolds(t, m);
    var u := BeforeMerge(t);
    var last, s := |u.buckets| - 1, u.split - 1;
    LastBucketGoesHome(u.buckets, u.front, s, m, b);
    ScatterAppendsSelection(u.buckets[..last], u.front, s, u.buckets[last], b);
  }

  // ----- Iteration

  /** A position of an iterator: a bucket and an index in it; `vec == |buckets|` is the end. */
  datatype Pos = Pos(vec: nat, buck: nat)

  predicate ValidPos<T>(buckets: seq<seq<T>>, p: Pos) {
    p.vec == |buckets| || (p.vec < |buckets| && p.buck < |buckets[p.vec]|)
  }

  /** The first non-empty bucket at or after `vec`. */
  function SkipEmpty<T>(buckets: seq<seq<T>>, vec: nat): (r: nat)
    requires vec <= |buckets|
    ensures vec <= r <= |buckets|
    ensures r < |buckets| ==> buckets[r] != []
    decreases |buckets| - vec
  {
    if vec == |buckets| || |buckets[vec]| > 0 then vec else SkipEmpty(buckets, vec + 1)
  }

  function Begin<T>(buckets: seq<seq<T>>): (p: Pos)
    ensures ValidPos(buckets, p)
  {
    Pos(SkipEmpty(buckets, 0), 0)
  }

  function Next<T>(buckets: seq<seq<T>>, p: Pos): (r: Pos)
    requires ValidPos(buckets, p)
    ensures ValidPos(buckets, r)
  {
    if p.vec == |buckets| then p
    else if p.buck + 1 < |buckets[p.vec]| then p.(buck := p.buck + 1)
    else Pos(SkipEmpty(buckets, p.vec + 1), 0)
  }

  /** What a loop from `p` to the end dereferences. */
  function Visit<T>(buckets: seq<seq<T>>, p: Pos): seq<T>
    requires ValidPos(buckets, p)
    decreases |buckets| - p.vec, if p.vec < |buckets| then |buckets[p.vec]| - p.buck else 0
  {
    if p.vec == |buckets| then [] else [buckets[p.vec][p.buck]] + Visit(buckets, Next(buckets, p))
  }

  /** The buckets from index `from` on, laid end to end. */
  function Flatten<T>(buckets: seq<seq<T>>, from: nat): seq<T>
    requires from <= |buckets|
    decreases |buckets| - from
  {
    if from == |buckets| then [] else buckets[from] + Flatten(buckets, from + 1)
  }

  lemma {:induction false} FlattenSkipsEmpty<T>(buckets: seq<seq<T>>, from: nat)
    requires from <= |buckets|
    ensures Flatten(buckets, from) == Flatten(buckets, SkipEmpty(buckets, from))
    decreases |buckets| - from
  {
    if from == |buckets| || |buckets[from]| > 0 {
    } else {
      FlattenSkipsEmpty(buckets, from + 1);
    }
  }

  /** What remains to be visited from position `p` on. */
  function Remainder<T>(buckets: seq<seq<T>>, p: Pos): seq<T>
    requires ValidPos(buckets, p)
  {
    if p.vec == |buckets| then [] else buckets[p.vec][p.buck..] + Flatten(buckets, p.vec + 1)
  }

  lemma RemainderOfBuckets<T>(buckets: seq<seq<T>>, p: Pos)
    requires ValidPos(buckets, p) && p.buck == 0
    ensures Remainder(buckets, p) == Flatten(buckets, p.vec)
  {
  }

  lemma Uncons<T>(s: seq<T>, i: nat, rest: seq<T>)
    requires i < |s|
    ensures s[i..] + rest == [s[i]] + (s[i + 1..] + rest)
    ensures i + 1 == |s| ==> s[i + 1..] + rest == rest
  {
  }

  lemma {:induction false} RemainderStep<T>(buckets: seq<seq<T>>, p: Pos)
    requires ValidPos(buckets, p) && p.vec < |buckets|
    ensures Remainder(buckets, p) == [buckets[p.vec][p.buck]] + Remainder(buckets, Next(buckets, p))
  {
    hide Flatten;
    Uncons(buckets[p.vec], p.buck, Flatten(buckets, p.vec + 1));
    if p.buck + 1 == |buckets[p.vec]| {
      FlattenSkipsEmpty(buckets, p.vec + 1);
      RemainderOfBuckets(buckets, Next(buckets, p));
    }
  }

  lemma {:induction false} VisitIsRemainder<T>(buckets: seq<seq<T>>, p: Pos)
    requires ValidPos(buckets, p)
    ensures Visit(buckets, p) == Remainder(buckets, p)
    decreases |buckets| - p.vec, if p.vec < |buckets| then |buckets[p.vec]| - p.buck else 0
  {
    if p.vec == |buckets| {
    } else {
      RemainderStep(buckets, p);
      VisitIsRemainder(buckets, Next(buckets, p));
    }
  }

  lemma {:induction false} FlattenIsDuplicateFree<K, V>(t: Table<K, V>, m: map<Key<K>, V>, from: nat)
    requires Addressable(t) && Filed(t, m) && from <= |t.buckets|
    ensures var e := Flatten(t.buckets, from);
            && Distinct(e)
            && (forall i :: 0 <= i < |e| ==> Bound(m, e[i]) && HomeOf(t, e[i].first) >= from)
            && (forall k :: k in m && HomeOf(t, k) >= from ==> Entry(k, m[k]) in e)
    decreases |t.buckets| - from
  {
    if from == |t.buckets| {
    } else {
      FlattenIsDuplicateFree(t, m, from + 1);
    }
  }

  lemma {:induction false} DistinctEntriesCount<K, V>(e: Bucket<K, V>, m: map<Key<K>, V>)
    requires Distinct(e)
    requires forall i :: 0 <= i < |e| ==> Bound(m, e[i])
    requires forall k :: k in m ==> Entry(k, m[k]) in e
    ensures |e| == |m|
  {
    if e == [] {
      assert m.Keys == {};
    } else {
      var k := e[0].first;
      assert Bound(m, e[0]);
      forall i | 0 <= i < |e[1..]| ensures Bound(m - {k}, e[1..][i]) {
        assert Bound(m, e[i + 1]) && e[i + 1] != e[0];
      }
      DistinctEntriesCount(e[1..], m - {k});
      SizeWithout(m, k);
    }
  }

  /** A loop from `begin()` to `end()` visits each entry of the map exactly once and nothing else. */
  lemma {:induction false} IterationVisitsEachOnce<K, V>(t: Table<K, V>, m: map<Key<K>, V>)
    requires Represents(t, m)
    ensures var v := Visit(t.buckets, Begin(t.buckets));
            && Distinct(v) && |v| == t.size
            && (forall i :: 0 <= i < |v| ==> Bound(m, v[i]))
            && (forall k :: k in m ==> Entry(k, m[k]) in v)
  {
    var v := Visit(t.buckets, Begin(t.buckets));
    VisitIsRemainder(t.buckets, Begin(t.buckets));
    FlattenSkipsEmpty(t.buckets, 0);
    assert v == Flatten(t.buckets, 0);
    FlattenIsDuplicateFree(t, m, 0);
    DistinctEntriesCount(v, m);
  }

  /** A position that can be dereferenced is the one a lookup of its key finds. */
  lemma {:induction false} PositionIsAddressed<K, V>(t: Table<K, V>, m: map<Key<K>, V>, p: Pos)
    requires Represents(t, m) && p.vec < |t.buckets| && p.buck < |t.buckets[p.vec]|
    ensures var k := t.buckets[p.vec][p.buck].first;
            k in m && HomeOf(t, k) == p.vec && IndexOf(t.buckets[p.vec], k) == p.buck
  {
  }

  // ----- The table object

  class LinearHashTable<K(==), V> {
    var buckets: seq<Bucket<K, V>>
    var split: nat
    var front: nat
    var size: nat
    /** The finite map the table stands for. */
    ghost var model: map<Key<K>, V>

    function View(): Table<K, V>
      reads this
    {
      Table(buckets, split, front, size)
    }

    ghost predicate Valid()
      reads this
    {
      Represents(View(), model)
    }

    constructor ()
      ensures Valid() && model == map[] && IsInitial(View())
    {
      buckets, split, front, size := [[]], 0, 1, 0;
      model := map[];
      new;
      InitialRepresents(View());
    }

    method Clear()
      modifies this
      ensures Valid() && model == map[] && IsInitial(View())
    {
      var emptyTable := new LinearHashTable<K, V>();
      buckets, split, front, size := emptyTable.buckets, emptyTable.split, emptyTable.front, emptyTable.size;
      model := emptyTable.model;
    }

    function BucketAddress(k: Key<K>): (a: nat)
      requires Addressable(View())
      reads this
      ensures a == HomeOf(View(), k)
    {
      ResidueIsRemainder(k.hash, front);
      ResidueIsRemainder(k.hash, 2 * front);
      if k.hash % front >= split then k.hash % front else k.hash % (2 * front)
    }

    method Find(k: Key<K>) returns (p: Pos)
      requires Valid()
      ensures ValidPos(buckets, p)
      ensures p.vec == |buckets| <==> k !in model
      ensures k in model ==> buckets[p.vec][p.buck] == Entry(k, model[k])
    {
      MemberIffInMap(View(), model, k);
      var addr := BucketAddress(k);
      var i := IndexOf(buckets[addr], k);
      p := if i < |buckets[addr]| then Pos(addr, i) else Pos(|buckets|, 0);
    }

    /** The loop at the end of both `split()` and `merge()`: files the entries of `tmp`. */
    method Refile(tmp: Bucket<K, V>)
      requires Addressable(View())
      modifies this`buckets
      ensures Addressable(View())
      ensures buckets == Scatter(old(buckets), front, split, tmp)
    {
      var i := 0;
      while i < |tmp|
        invariant i <= |tmp| && Addressable(View())
        invariant Scatter(buckets, front, split, tmp[i..]) == Scatter(old(buckets), front, split, tmp)
      {
        var addr := BucketAddress(tmp[i].first);
        buckets := buckets[addr := buckets[addr] + [tmp[i]]];
        i := i + 1;
      }
    }

    method SplitBucket()
      requires Addressable(View())
      modifies this`buckets, this`split, this`front
      ensures View() == Split(old(View()))
    {
      hide Scatter, Address;
      if split == front {
        split := 0;
        front := front * 2;
      }
      var tmp := buckets[split];
      buckets := buckets + [[]];
      buckets := buckets[split := []];
      split := split + 1;
      Refile(tmp);
    }

    method MergeBucket()
      requires Addressable(View()) && (split == 0 ==> front % 2 == 0)
      modifies this`buckets, this`split, this`front
      ensures View() == Merge(old(View()))
    {
      hide Scatter, Address;
      if split == 0 {
        front := front / 2;
        split := front;
      }
      split := split - 1;
      var tmp := buckets[|buckets| - 1];
      buckets := buckets[..|buckets| - 1];
      Refile(tmp);
    }

    method Add(x: Entry<K, V>) returns (p: Pos, inserted: bool)
      requires Valid()
      modifies this
      ensures Valid() && View() == Insert(old(View()), x)
      ensures inserted <==> x.first !in old(model)
      ensures model == if inserted then old(model)[x.first := x.second] else old(model)
      ensures p.vec < |buckets| && p.buck < |buckets[p.vec]|
      ensures buckets[p.vec][p.buck] == Entry(x.first, model[x.first])
      ensures inserted ==> p.vec == BucketAddress(x.first) && p.buck == |buckets[p.vec]| - 1
      ensures inserted ==> size == old(size) + 1 && |buckets| == |old(buckets)| + 1
      ensures !inserted ==> View() == old(View())
    {
      hide Holds;
      InsertRefines(View(), model, x);
      MemberIffInMap(View(), model, x.first);
      var addr := BucketAddress(x.first);
      var i := IndexOf(buckets[addr], x.first);
      if i == |buckets[addr]| {
        SplitBucket();
        addr := BucketAddress(x.first);
        buckets := buckets[addr := buckets[addr] + [x]];
        size := size + 1;
        model := model[x.first := x.second];
        p, inserted := Pos(addr, |buckets[addr]| - 1), true;
      } else {
        p, inserted := Pos(addr, i), false;
      }
    }

    method RemoveAt(p: Pos)
      requires Valid() && ValidPos(buckets, p)
      modifies this
      ensures Valid()
      ensures p.vec == |old(buckets)| ==> View() == old(View()) && model == old(model)
      ensures p.vec < |old(buckets)| ==> model == old(model) - {old(buckets)[p.vec][p.buck].first}
      ensures p.vec < |old(buckets)| ==> old(size) > 0 && (old(split) == 0 ==> old(front) % 2 == 0)
      ensures p.vec < |old(buckets)| ==> View() == Merge(RemoveFrom(old(View()), p.vec, p.buck))
    {
      hide Holds;
      if p.vec != |buckets| {
        ghost var k := buckets[p.vec][p.buck].first;
        PositionIsAddressed(View(), model, p);
        MemberIffInMap(View(), model, k);
        EraseRefines(View(), model, k);
        buckets := buckets[p.vec := buckets[p.vec][..p.buck] + buckets[p.vec][p.buck + 1..]];
        size := size - 1;
        assert View() == RemoveFrom(old(View()), p.vec, p.buck);
        MergeBucket();
        model := model - {k};
      }
    }

    method Remove(k: Key<K>)
      requires Valid()
      modifies this
      ensures Valid() && model == old(model) - {k}
    {
      var p := Find(k);
      RemoveAt(p);
      assert k !in old(model) ==> old(model) - {k} == old(model);
    }

    /** `begin()`: the loop over leading empty buckets. */
    method First() returns (p: Pos)
      ensures p == Begin(buckets)
    {
      var it := 0;
      while it < |buckets| && |buckets[it]| == 0
        invariant it <= |buckets| && SkipEmpty(buckets, it) == SkipEmpty(buckets, 0)
      {
        it := it + 1;
      }
      p := Pos(it, 0);
    }

    /** Prefix `operator ++`. */
    method Advance(p: Pos) returns (r: Pos)
      requires ValidPos(buckets, p)
      ensures r == Next(buckets, p)
    {
      r := p;
      if p.vec != |buckets| {
        var vec, buck := p.vec, p.buck + 1;
        while vec != |buckets| && buck == |buckets[vec]|
          invariant vec <= |buckets| && (vec < |buckets| ==> buck <= |buckets[vec]|)
          invariant vec >= p.vec && (vec == p.vec ==> buck == p.buck + 1)
          invariant vec > p.vec ==> buck == 0 && p.buck + 1 == |buckets[p.vec]|
          invariant vec > p.vec ==> SkipEmpty(buckets, vec) == SkipEmpty(buckets, p.vec + 1)
          decreases |buckets| - vec
        {
          vec, buck := vec + 1, 0;
        }
        r := Pos(vec, buck);
      }
    }
  }
}

/** A map over the linear hash table (src/include/Poco/HashMap.h). */
module HashMapping {
  import opened LinearHashing

  datatype Lookup<V> = Found(value: V) | NotFoundException

  class HashMap<K(==), V> {
    const table: LinearHashTable<K, V>

    ghost predicate Valid()
      reads this, table
    {
      table.Valid()
    }

    constructor ()
      ensures Valid() && fresh(table) && table.model == map[]
    {
      table := new LinearHashTable();
    }

    /** Keeps the entry that is already there, and returns its position or that of the new one. */
    method Insert(key: Key<K>, value: V) returns (p: Pos, inserted: bool)
      requires Valid()
      modifies table
      ensures Valid()
      ensures inserted <==> key !in old(table.model)
      ensures table.model == if inserted then old(table.model)[key := value] else old(table.model)
      ensures p.vec < |table.buckets| && p.buck < |table.buckets[p.vec]|
      ensures table.buckets[p.vec][p.buck] == Entry(key, table.model[key])
    {
      p, inserted := table.Add(Entry(key, value));
    }

    method Erase(key: Key<K>)
      requires Valid()
      modifies table
      ensures Valid() && table.model == old(table.model) - {key}
    {
      table.Remove(key);
    }

    /** The `const` subscript: throws when the key is missing. */
    method At(key: Key<K>) returns (r: Lookup<V>)
      requires Valid()
      ensures r == if key in table.model then Found(table.model[key]) else NotFoundException
    {
      var p := table.Find(key);
      r := if p.vec == |table.buckets| then NotFoundException else Found(table.buckets[p.vec][p.buck].second);
    }

    /** The other subscript: inserts a default value first when the key is missing. */
    method Subscript(key: Key<K>, defaultValue: V) returns (v: V)
      requires Valid()
      modifies table
      ensures Valid() && key in table.model && v == table.model[key]
      ensures table.model == if key in old(table.model) then old(table.model) else old(table.model)[key := defaultValue]
    {
      var p, inserted := table.Add(Entry(key, defaultValue));
      v := table.buckets[p.vec][p.buck].second;
    }
  }
}
