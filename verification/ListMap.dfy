/** The grouped multimap over a list (src/include/Poco/ListMap.h): the entries of a key are kept next to
    each other, in the order in which they came. */
module GroupedLists {

  datatype Entry<V> = Entry(key: string, value: V)

  function Lower(c: char): char {
    if 'A' <= c <= 'Z' then c - 'A' + 'a' else c
  }

  /** What of a key counts: all of it, or all but the case of its ASCII letters. */
  function Fold(caseSensitive: bool, s: string): (r: string)
    ensures |r| == |s|
  {
    if caseSensitive then s else seq(|s|, i requires 0 <= i < |s| => Lower(s[i]))
  }

  predicate Same(caseSensitive: bool, a: string, b: string) {
    Fold(caseSensitive, a) == Fold(caseSensitive, b)
  }

  /** Two letters of the ASCII alphabet that differ in their case alone. */
  predicate CasePair(a: char, b: char) {
    ('A' <= a <= 'Z' && b as int == a as int + 32) || ('A' <= b <= 'Z' && a as int == b as int + 32)
  }

  /** When two keys are the same, in their characters. */
  lemma {:induction false} SameIff(a: string, b: string)
    ensures Same(true, a, b) <==> a == b
    ensures Same(false, a, b) <==> |a| == |b| && forall i :: 0 <= i < |a| ==> a[i] == b[i] || CasePair(a[i], b[i])
  {
    hide CasePair;
    LowerIff();
    if Same(false, a, b) {
      forall i | 0 <= i < |a| ensures a[i] == b[i] || CasePair(a[i], b[i]) {
        assert Fold(false, a)[i] == Fold(false, b)[i];
      }
    }
    if |a| == |b| && forall i :: 0 <= i < |a| ==> a[i] == b[i] || CasePair(a[i], b[i]) {
      assert Fold(false, a) == Fold(false, b);
    }
  }

  lemma LowerIff()
    ensures forall c, d :: Lower(c) == Lower(d) <==> c == d || CasePair(c, d)
  {
  }

  ghost predicate Absent<V>(cs: bool, list: seq<Entry<V>>, key: string) {
    forall e :: e in list ==> !Same(cs, e.key, key)
  }

  predicate Starts<V>(cs: bool, list: seq<Entry<V>>, key: string) {
    list != [] && Same(cs, list[0].key, key)
  }

  /** First position of the key, or the end of the list. */
  function Find<V>(cs: bool, list: seq<Entry<V>>, key: string): (i: nat)
    ensures i <= |list|
    ensures i < |list| ==> Same(cs, list[i].key, key)
    ensures forall j :: 0 <= j < i ==> !Same(cs, list[j].key, key)
  {
    if list == [] || Starts(cs, list, key) then 0 else 1 + Find(cs, list[1..], key)
  }

  /** The list with an entry added at the end of the first block of its key, or at the end of the list. */
  function Inserted<V>(cs: bool, list: seq<Entry<V>>, e: Entry<V>): (r: seq<Entry<V>>)
    ensures forall x :: x in r ==> x in list || x == e
    ensures list != [] ==> r != [] && r[0] == list[0]
  {
    if list == [] then [e]
    else if Starts(cs, list, e.key) && !Starts(cs, list[1..], e.key) then [list[0], e] + list[1..]
    else [list[0]] + Inserted(cs, list[1..], e)
  }

  function WithoutLeading<V>(cs: bool, list: seq<Entry<V>>, key: string): (r: seq<Entry<V>>)
    ensures |r| <= |list|
  {
    if Starts(cs, list, key) then WithoutLeading(cs, list[1..], key) else list
  }

  function Cut<V>(list: seq<Entry<V>>, f: nat, b: nat): (r: seq<Entry<V>>)
    requires f <= b <= |list|
    ensures |r| == |list| - (b - f)
  {
    list[..f] + list[b..]
  }

  lemma CutStep<V>(list: seq<Entry<V>>, f: nat, b: nat)
    requires f <= b < |list|
    ensures Cut(list, f, b)[f] == list[b]
    ensures Cut(list, f, b)[..f] + Cut(list, f, b)[f + 1..] == Cut(list, f, b + 1)
  {
  }

  lemma CutNone<V>(list: seq<Entry<V>>, f: nat)
    requires f <= |list|
    ensures Cut(list, f, f) == list
  {
  }

  /** The list without the first block of the key. */
  function Erased<V>(cs: bool, list: seq<Entry<V>>, key: string): (r: seq<Entry<V>>)
    ensures |r| <= |list|
  {
    if list == [] || Starts(cs, list, key) then WithoutLeading(cs, list, key)
    else [list[0]] + Erased(cs, list[1..], key)
  }

  function Removed<V>(list: seq<Entry<V>>, i: nat): seq<Entry<V>> {
    if i < |list| then list[..i] + list[i + 1..] else list
  }

  /** The entries of the key, in list order. */
  function Select<V>(cs: bool, list: seq<Entry<V>>, key: string): seq<Entry<V>> {
    if list == [] then []
    else if Starts(cs, list, key) then [list[0]] + Select(cs, list[1..], key)
    else Select(cs, list[1..], key)
  }

  /** The entries of all other keys, in list order. */
  function Others<V>(cs: bool, list: seq<Entry<V>>, key: string): (r: seq<Entry<V>>)
    ensures forall x :: x in r ==> x in list
  {
    if list == [] then []
    else if Starts(cs, list, key) then Others(cs, list[1..], key)
    else [list[0]] + Others(cs, list[1..], key)
  }

  /** Every entry is followed by one of its key or by none of its key at all. */
  ghost predicate Grouped<V>(cs: bool, list: seq<Entry<V>>) {
    list == [] ||
    (Grouped(cs, list[1..]) && (Starts(cs, list[1..], list[0].key) || Absent(cs, list[1..], list[0].key)))
  }

  /** Grouped means that between two entries of a key there are only entries of that key. */
  lemma {:induction false} GroupedIsContiguous<V>(cs: bool, list: seq<Entry<V>>, i: nat, j: nat, k: nat)
    requires Grouped(cs, list) && i <= j <= k < |list| && Same(cs, list[i].key, list[k].key)
    ensures Same(cs, list[i].key, list[j].key)
  {
    hide Fold;
    if i > 0 {
      GroupedIsContiguous(cs, list[1..], i - 1, j - 1, k - 1);
    } else if j > 0 {
      assert list[k] in list[1..];
      GroupedIsContiguous(cs, list[1..], 0, j - 1, k - 1);
    }
  }

  lemma {:induction false} SelectConcat<V>(cs: bool, a: seq<Entry<V>>, b: seq<Entry<V>>, key: string)
    ensures Select(cs, a + b, key) == Select(cs, a, key) + Select(cs, b, key)
  {
    hide Same;
    if a == [] {
      assert a + b == b;
    } else {
      assert (a + b)[1..] == a[1..] + b;
      SelectConcat(cs, a[1..], b, key);
    }
  }

  lemma {:induction false} AbsentSelectsNone<V>(cs: bool, list: seq<Entry<V>>, key: string)
    requires Absent(cs, list, key)
    ensures Select(cs, list, key) == [] && Others(cs, list, key) == list
  {
    hide Same;
    if list != [] {
      AbsentSelectsNone(cs, list[1..], key);
    }
  }

  lemma {:induction false} InsertKeepsGrouped<V>(cs: bool, list: seq<Entry<V>>, e: Entry<V>)
    requires Grouped(cs, list)
    ensures Grouped(cs, Inserted(cs, list, e))
  {
    hide Fold;
    var now := Inserted(cs, list, e);
    if list == [] {
    } else if Starts(cs, list, e.key) && !Starts(cs, list[1..], e.key) {
      assert now[1..] == [e] + list[1..];
      assert now[1..][1..] == list[1..];
      assert Absent(cs, list[1..], e.key);
    } else {
      assert now[1..] == Inserted(cs, list[1..], e);
      InsertKeepsGrouped(cs, list[1..], e);
    }
  }

  /** Inserting puts the entry behind those of its key and leaves the other keys' entries in their order. */
  lemma {:induction false} InsertAppendsToKey<V>(cs: bool, list: seq<Entry<V>>, e: Entry<V>, key: string)
    requires Grouped(cs, list)
    ensures Select(cs, Inserted(cs, list, e), key)
         == Select(cs, list, key) + if Same(cs, e.key, key) then [e] else []
    ensures Others(cs, Inserted(cs, list, e), e.key) == Others(cs, list, e.key)
  {
    hide Fold, Select, Others, Absent;
    if list == [] {
      SelectOne(cs, e, key);
      SelectOne(cs, e, e.key);
    } else {
      var x, rest := list[0], list[1..];
      assert list == [x] + rest;
      if Starts(cs, list, e.key) && !Starts(cs, rest, e.key) {
        AbsentSame(cs, rest, x.key, e.key);
        InsertBehind(cs, x, rest, e, key);
      } else {
        InsertAppendsToKey(cs, rest, e, key);
        SelectCons(cs, x, rest, key);
        SelectCons(cs, x, rest, e.key);
        SelectCons(cs, x, Inserted(cs, rest, e), key);
        SelectCons(cs, x, Inserted(cs, rest, e), e.key);
      }
    }
  }

  lemma SelectCons<V>(cs: bool, x: Entry<V>, list: seq<Entry<V>>, key: string)
    ensures Select(cs, [x] + list, key) == (if Same(cs, x.key, key) then [x] else []) + Select(cs, list, key)
    ensures Others(cs, [x] + list, key) == (if Same(cs, x.key, key) then [] else [x]) + Others(cs, list, key)
  {
    assert ([x] + list)[1..] == list;
  }

  lemma SelectOne<V>(cs: bool, x: Entry<V>, key: string)
    ensures Select(cs, [x], key) == if Same(cs, x.key, key) then [x] else []
    ensures Others(cs, [x], key) == if Same(cs, x.key, key) then [] else [x]
    ensures Select<V>(cs, [], key) == [] && Others<V>(cs, [], key) == []
  {
  }

  lemma AbsentSame<V>(cs: bool, list: seq<Entry<V>>, k: string, key: string)
    requires Same(cs, k, key)
    ensures Absent(cs, list, k) <==> Absent(cs, list, key)
  {
  }

  /** Inserting behind the last entry of a key, of which nothing follows. */
  lemma InsertBehind<V>(cs: bool, x: Entry<V>, rest: seq<Entry<V>>, e: Entry<V>, key: string)
    requires Same(cs, x.key, e.key) && Absent(cs, rest, e.key)
    ensures Select(cs, [x, e] + rest, key)
         == Select(cs, [x] + rest, key) + if Same(cs, e.key, key) then [e] else []
    ensures Others(cs, [x, e] + rest, e.key) == Others(cs, [x] + rest, e.key)
  {
    hide Fold, Select, Others, Absent;
    assert [x, e] + rest == [x] + ([e] + rest);
    SelectCons(cs, x, [e] + rest, key);
    SelectCons(cs, x, rest, key);
    SelectCons(cs, e, rest, key);
    SelectCons(cs, x, [e] + rest, e.key);
    SelectCons(cs, x, rest, e.key);
    SelectCons(cs, e, rest, e.key);
    if Same(cs, e.key, key) {
      AbsentSame(cs, rest, e.key, key);
      AbsentSelectsNone(cs, rest, key);
    }
  }

  lemma {:induction false} LeadingIsAll<V>(cs: bool, list: seq<Entry<V>>, key: string)
    requires Grouped(cs, list) && Starts(cs, list, key)
    ensures WithoutLeading(cs, list, key) == Others(cs, list, key)
    ensures |Select(cs, list, key)| == |list| - |WithoutLeading(cs, list, key)|
  {
    hide Fold;
    if Starts(cs, list[1..], key) {
      LeadingIsAll(cs, list[1..], key);
    } else {
      assert Absent(cs, list[1..], key);
      AbsentSelectsNone(cs, list[1..], key);
    }
  }

  /** Erasing a key stops at the end of its first block; in a grouped list that removes every entry of the
      key, and nothing else, and the number of entries removed is the number there were. */
  lemma {:induction false} EraseRemovesKey<V>(cs: bool, list: seq<Entry<V>>, key: string)
    requires Grouped(cs, list)
    ensures Erased(cs, list, key) == Others(cs, list, key)
    ensures |list| - |Erased(cs, list, key)| == |Select(cs, list, key)|
  {
    if Starts(cs, list, key) {
      LeadingIsAll(cs, list, key);
    } else if list != [] {
      EraseRemovesKey(cs, list[1..], key);
    }
  }

  lemma {:induction false} OthersKeepGrouped<V>(cs: bool, list: seq<Entry<V>>, key: string)
    requires Grouped(cs, list)
    ensures Grouped(cs, Others(cs, list, key))
  {
    hide Fold;
    if list != [] {
      OthersKeepGrouped(cs, list[1..], key);
      if !Starts(cs, list, key) {
        assert Others(cs, list, key)[1..] == Others(cs, list[1..], key);
      }
    }
  }

  lemma {:induction false} OthersOfOthers<V>(cs: bool, list: seq<Entry<V>>, gone: string, key: string)
    ensures Select(cs, Others(cs, list, gone), key)
         == if Same(cs, gone, key) then [] else Select(cs, list, key)
  {
    hide Fold;
    if list != [] {
      OthersOfOthers(cs, list[1..], gone, key);
      if !Starts(cs, list, gone) {
        assert Others(cs, list, gone)[1..] == Others(cs, list[1..], gone);
      }
    }
  }

  lemma RemovedBehind<V>(list: seq<Entry<V>>, p: nat)
    requires 0 < p < |list|
    ensures Removed(list, p) == [list[0]] + Removed(list[1..], p - 1)
    ensures forall x :: x in Removed(list[1..], p - 1) ==> x in list[1..]
    ensures p > 1 ==> Removed(list[1..], p - 1) != [] && Removed(list[1..], p - 1)[0] == list[1]
  {
  }

  lemma {:induction false} RemovedKeepsGrouped<V>(cs: bool, list: seq<Entry<V>>, p: nat)
    requires Grouped(cs, list) && p < |list|
    ensures Grouped(cs, Removed(list, p))
  {
    hide Fold, Removed;
    if p == 0 {
      FirstRemoved(list);
    } else {
      RemovedKeepsGrouped(cs, list[1..], p - 1);
      RemovedBehind(list, p);
      assert Removed(list, p)[1..] == Removed(list[1..], p - 1);
      if p == 1 {
        FirstRemoved(list[1..]);
      }
    }
  }

  lemma FirstRemoved<V>(list: seq<Entry<V>>)
    requires list != []
    ensures Removed(list, 0) == list[1..]
  {
  }

  /** How many entries of its key come before a position. */
  function Rank<V>(cs: bool, list: seq<Entry<V>>, p: nat): nat
    requires p < |list|
  {
    |Select(cs, list[..p], list[p].key)|
  }

  lemma {:induction false} RemovedSelects<V>(cs: bool, list: seq<Entry<V>>, p: nat, key: string)
    requires p < |list|
    ensures Select(cs, Removed(list, p), key)
         == if Same(cs, list[p].key, key) then Removed(Select(cs, list, key), Rank(cs, list, p))
            else Select(cs, list, key)
  {
    hide Fold, Select;
    var a, x, b := list[..p], list[p], list[p + 1..];
    assert list == a + ([x] + b);
    SelectConcat(cs, a, b, key);
    SelectConcat(cs, a, [x] + b, key);
    SelectCons(cs, x, b, key);
    if Same(cs, x.key, key) {
      SelectSame(cs, a, x.key, key);
      CutMiddle(Select(cs, a, key), x, Select(cs, b, key));
    }
  }

  lemma CutMiddle<V>(a: seq<Entry<V>>, x: Entry<V>, b: seq<Entry<V>>)
    ensures Removed(a + ([x] + b), |a|) == a + b
  {
  }

  lemma {:induction false} SelectSame<V>(cs: bool, list: seq<Entry<V>>, k: string, key: string)
    requires Same(cs, k, key)
    ensures Select(cs, list, k) == Select(cs, list, key)
  {
    hide Fold;
    if list != [] {
      SelectSame(cs, list[1..], k, key);
    }
  }

  /** The operations that change the map; reading a key adds a default value where there is none. */
  datatype Op<V> =
    | Insert(entry: Entry<V>)
    | EraseKey(key: string)
    | EraseAt(position: nat)
    | Subscript(key: string, default_: V)
    | Clear

  function Step<V>(cs: bool, list: seq<Entry<V>>, op: Op<V>): seq<Entry<V>> {
    match op
    case Insert(e) => Inserted(cs, list, e)
    case EraseKey(k) => Erased(cs, list, k)
    case EraseAt(p) => Removed(list, p)
    case Subscript(k, d) => if Find(cs, list, k) < |list| then list else Inserted(cs, list, Entry(k, d))
    case Clear => []
  }

  function Run<V>(cs: bool, ops: seq<Op<V>>): seq<Entry<V>> {
    if ops == [] then [] else Step(cs, Run(cs, ops[..|ops| - 1]), ops[|ops| - 1])
  }

  /** What a key alone sees: its own values, the oldest first. Of the rest of the list it needs to know only
      which entry a position means. */
  function KeyStep<V>(cs: bool, list: seq<Entry<V>>, mine: seq<Entry<V>>, op: Op<V>, key: string): seq<Entry<V>> {
    match op
    case Insert(e) => if Same(cs, e.key, key) then mine + [e] else mine
    case EraseKey(k) => if Same(cs, k, key) then [] else mine
    case EraseAt(p) =>
      if p < |list| && Same(cs, list[p].key, key) then Removed(mine, Rank(cs, list, p)) else mine
    case Subscript(k, d) => if Same(cs, k, key) && mine == [] then [Entry(k, d)] else mine
    case Clear => []
  }

  function KeyRun<V>(cs: bool, ops: seq<Op<V>>, key: string): seq<Entry<V>> {
    if ops == [] then []
    else
      var n := |ops| - 1;
      KeyStep(cs, Run(cs, ops[..n]), KeyRun(cs, ops[..n], key), ops[n], key)
  }

  lemma StepKeepsGrouped<V>(cs: bool, list: seq<Entry<V>>, op: Op<V>)
    requires Grouped(cs, list)
    ensures Grouped(cs, Step(cs, list, op))
  {
    hide Same, Grouped, Inserted, Erased, Others;
    match op
    case Insert(e) => InsertKeepsGrouped(cs, list, e);
    case EraseKey(k) =>
      EraseRemovesKey(cs, list, k);
      OthersKeepGrouped(cs, list, k);
    case EraseAt(p) =>
      if p < |list| {
        RemovedKeepsGrouped(cs, list, p);
      }
    case Subscript(k, d) => InsertKeepsGrouped(cs, list, Entry(k, d));
    case Clear => EmptyGrouped<V>(cs);
  }

  lemma EmptyGrouped<V>(cs: bool)
    ensures Grouped<V>(cs, [])
  {
  }

  /** However the map was built, the entries of a key stand together. */
  lemma {:induction false} RunIsGrouped<V>(cs: bool, ops: seq<Op<V>>)
    ensures Grouped(cs, Run(cs, ops))
  {
    if ops != [] {
      var n := |ops| - 1;
      RunIsGrouped(cs, ops[..n]);
      StepKeepsGrouped(cs, Run(cs, ops[..n]), ops[n]);
    }
  }

  lemma {:induction false} FindDecides<V>(cs: bool, list: seq<Entry<V>>, k: string, key: string)
    requires Same(cs, k, key)
    ensures Find(cs, list, k) < |list| <==> Select(cs, list, key) != []
  {
    hide Fold;
    if list != [] && !Starts(cs, list, k) {
      FindDecides(cs, list[1..], k, key);
    }
  }

  lemma StepSeenByKey<V>(cs: bool, list: seq<Entry<V>>, op: Op<V>, key: string)
    requires Grouped(cs, list)
    ensures Select(cs, Step(cs, list, op), key) == KeyStep(cs, list, Select(cs, list, key), op, key)
  {
    hide Same, Grouped, Inserted, Erased, Others, Removed;
    match op
    case Insert(e) => InsertAppendsToKey(cs, list, e, key);
    case EraseKey(k) =>
      EraseRemovesKey(cs, list, k);
      OthersOfOthers(cs, list, k, key);
    case EraseAt(p) =>
      if p < |list| {
        RemovedSelects(cs, list, p, key);
      } else {
        NothingRemoved(list, p);
      }
    case Subscript(k, d) =>
      InsertAppendsToKey(cs, list, Entry(k, d), key);
      if Same(cs, k, key) {
        FindDecides(cs, list, k, key);
      }
    case Clear =>
  }

  lemma NothingRemoved<V>(list: seq<Entry<V>>, p: nat)
    requires p >= |list|
    ensures Removed(list, p) == list
  {
  }

  /** Over any run every key has its own list of values, first in first out of the other keys' reach. */
  lemma {:induction false} RunSeenByKey<V>(cs: bool, ops: seq<Op<V>>, key: string)
    ensures Select(cs, Run(cs, ops), key) == KeyRun(cs, ops, key)
  {
    if ops != [] {
      var n := |ops| - 1;
      RunSeenByKey(cs, ops[..n], key);
      RunIsGrouped(cs, ops[..n]);
      StepSeenByKey(cs, Run(cs, ops[..n]), ops[n], key);
    }
  }

  function Spliced<V>(list: seq<Entry<V>>, e: Entry<V>, p: nat): seq<Entry<V>>
    requires p <= |list|
  {
    list[..p] + [e] + list[p..]
  }

  lemma SplicedBehind<V>(list: seq<Entry<V>>, e: Entry<V>, p: nat)
    requires p <= |list|
    ensures p == |list| == 0 ==> Spliced(list, e, p) == [e]
    ensures p == 1 ==> Spliced(list, e, p) == [list[0], e] + list[1..]
    ensures p > 0 ==> Spliced(list, e, p) == [list[0]] + Spliced(list[1..], e, p - 1)
  {
  }

  /** Where the new entry goes: behind the block from f to p, or at the end. */
  lemma {:induction false} InsertedAt<V>(cs: bool, list: seq<Entry<V>>, e: Entry<V>, f: nat, p: nat)
    requires f <= p <= |list|
    requires forall j :: 0 <= j < f ==> !Same(cs, list[j].key, e.key)
    requires forall j :: f <= j < p ==> Same(cs, list[j].key, e.key)
    requires p < |list| ==> f < p && !Same(cs, list[p].key, e.key)
    ensures Inserted(cs, list, e) == Spliced(list, e, p)
  {
    hide Same, Spliced;
    SplicedBehind(list, e, p);
    if list != [] {
      if Starts(cs, list, e.key) && !Starts(cs, list[1..], e.key) {
        assert p == 1;
      } else {
        assert p > 0;
        InsertedAt(cs, list[1..], e, if f == 0 then 0 else f - 1, p - 1);
      }
    }
  }

  lemma {:induction false} ErasedAt<V>(cs: bool, list: seq<Entry<V>>, key: string, f: nat, b: nat)
    requires f <= b <= |list|
    requires forall j :: 0 <= j < f ==> !Same(cs, list[j].key, key)
    requires forall j :: f <= j < b ==> Same(cs, list[j].key, key)
    requires b < |list| ==> f < b && !Same(cs, list[b].key, key)
    ensures Erased(cs, list, key) == Cut(list, f, b)
  {
    hide Same;
    if list == [] {
    } else if f == 0 {
      WithoutLeadingAt(cs, list, key, b);
    } else {
      ErasedAt(cs, list[1..], key, f - 1, b - 1);
      assert list[..f] == [list[0]] + list[1..][..f - 1];
      assert list[b..] == list[1..][b - 1..];
    }
  }

  /** A list lacks what another has from f to f + count: the entries of the key there, up to one of another
      key or the end. */
  ghost predicate IsFirstBlock<V>(cs: bool, list: seq<Entry<V>>, now: seq<Entry<V>>, key: string, f: nat, count: nat) {
    && f + count <= |list|
    && now == list[..f] + list[f + count..]
    && (forall j :: f <= j < f + count ==> Same(cs, list[j].key, key))
    && (f + count < |list| ==> !Same(cs, list[f + count].key, key))
  }

  lemma EraseEnds<V>(cs: bool, list: seq<Entry<V>>, key: string, f: nat, count: nat)
    requires f + count <= |list|
    requires forall j :: 0 <= j < f ==> !Same(cs, list[j].key, key)
    requires forall j :: f <= j < f + count ==> Same(cs, list[j].key, key)
    requires f + count < |list| ==> count > 0 && !Same(cs, list[f + count].key, key)
    ensures Erased(cs, list, key) == Cut(list, f, f + count)
    ensures IsFirstBlock(cs, list, Cut(list, f, f + count), key, f, count)
  {
    hide Same;
    ErasedAt(cs, list, key, f, f + count);
  }

  lemma {:induction false} WithoutLeadingAt<V>(cs: bool, list: seq<Entry<V>>, key: string, b: nat)
    requires b <= |list|
    requires forall j :: 0 <= j < b ==> Same(cs, list[j].key, key)
    requires b < |list| ==> !Same(cs, list[b].key, key)
    ensures WithoutLeading(cs, list, key) == list[b..]
  {
    hide Same;
    if b > 0 {
      WithoutLeadingAt(cs, list[1..], key, b - 1);
      assert list[b..] == list[1..][b - 1..];
    }
  }

  /** What a lookup finds is the oldest entry of the key. */
  lemma {:induction false} FindsOldest<V>(cs: bool, list: seq<Entry<V>>, key: string)
    requires Find(cs, list, key) < |list|
    ensures Select(cs, list, key) != [] && Select(cs, list, key)[0] == list[Find(cs, list, key)]
  {
    hide Same;
    if !Starts(cs, list, key) {
      FindsOldest(cs, list[1..], key);
    }
  }

  lemma {:induction false} FindIs<V>(cs: bool, list: seq<Entry<V>>, key: string, i: nat)
    requires i <= |list|
    requires forall j :: 0 <= j < i ==> !Same(cs, list[j].key, key)
    requires i < |list| ==> Same(cs, list[i].key, key)
    ensures Find(cs, list, key) == i
  {
  }
}

/** The map as an object. */
module ListMaps {
  import opened Basics
  import opened G = GroupedLists

  /** One text comes before another: it is a beginning of it, or is less where they first differ. */
  ghost predicate Before(a: string, b: string) {
    exists k: nat :: Splits(a, b, k) && (k == |a| < |b| || (k < |a| && k < |b| && a[k] < b[k]))
  }

  ghost predicate Splits(a: string, b: string, k: nat) {
    k <= |a| && k <= |b| && a[..k] == b[..k]
  }

  /** Compares two strings without regard to the case of ASCII letters: their order, and 0 for no difference. */
  method ICompare(s1: string, s2: string) returns (r: int)
    ensures r in {-1, 0, 1}
    ensures r == 0 <==> Same(false, s1, s2)
    ensures r == 0 <==> |s1| == |s2| && forall i :: 0 <= i < |s1| ==> s1[i] == s2[i] || CasePair(s1[i], s2[i])
    ensures r == -1 ==> Before(Fold(false, s1), Fold(false, s2))
    ensures r == 1 ==> Before(Fold(false, s2), Fold(false, s1))
  {
    hide CasePair;
    SameIff(s1, s2);
    var i := 0;
    while i < |s1| && i < |s2|
      invariant 0 <= i <= |s1| && i <= |s2|
      invariant forall j :: 0 <= j < i ==> Lower(s1[j]) == Lower(s2[j])
    {
      var c1, c2 := Lower(s1[i]), Lower(s2[i]);
      if c1 != c2 {
        assert Fold(false, s1)[i] == c1 && Fold(false, s2)[i] == c2;
        assert Splits(Fold(false, s1), Fold(false, s2), i);
        assert Splits(Fold(false, s2), Fold(false, s1), i);
        return if c1 < c2 then -1 else 1;
      }
      i := i + 1;
    }
    if i == |s1| {
      r := if i == |s2| then 0 else -1;
      assert r == 0 ==> Fold(false, s1) == Fold(false, s2);
    } else {
      r := 1;
    }
    assert |Fold(false, s1)| == |s1| && |Fold(false, s2)| == |s2|;
    assert Splits(Fold(false, s1), Fold(false, s2), i);
    assert Splits(Fold(false, s2), Fold(false, s1), i);
  }

  class ListMap<V> {
    const caseSensitive: bool
    var list: seq<Entry<V>>

    constructor (caseSensitive: bool)
      ensures this.caseSensitive == caseSensitive && list == []
    {
      this.caseSensitive := caseSensitive;
      list := [];
    }

    method Find(key: string) returns (i: nat)
      ensures i == G.Find(caseSensitive, list, key) <= |list|
      ensures i < |list| ==> Same(caseSensitive, list[i].key, key)
      ensures forall j :: 0 <= j < i ==> !Same(caseSensitive, list[j].key, key)
    {
      i := 0;
      while i < |list|
        invariant i <= |list|
        invariant forall j :: 0 <= j < i ==> !Same(caseSensitive, list[j].key, key)
      {
        if Same(caseSensitive, list[i].key, key) {
          break;
        }
        i := i + 1;
      }
      FindIs(caseSensitive, list, key, i);
    }

    method Insert(val: Entry<V>) returns (at: nat)
      modifies this
      ensures list == Inserted(caseSensitive, old(list), val)
      ensures at < |list| && list[at] == val
      ensures at <= |old(list)| && list == old(list)[..at] + [val] + old(list)[at..]
      ensures at < |old(list)| ==> at > 0 && Same(caseSensitive, old(list)[at - 1].key, val.key)
      ensures at < |old(list)| ==> !Same(caseSensitive, old(list)[at].key, val.key)
      ensures forall i, j :: 0 <= i <= j < at && Same(caseSensitive, old(list)[i].key, val.key) ==>
                Same(caseSensitive, old(list)[j].key, val.key)
    {
      hide Same;
      var f := Find(val.key);
      at := f;
      while at < |list| && Same(caseSensitive, list[at].key, val.key)
        invariant f <= at <= |list|
        invariant f < |list| ==> Same(caseSensitive, list[f].key, val.key)
        invariant forall j :: f <= j < at ==> Same(caseSensitive, list[j].key, val.key)
      {
        at := at + 1;
      }
      InsertedAt(caseSensitive, list, val, f, at);
      list := list[..at] + [val] + list[at..];
    }

    method EraseAt(it: nat)
      requires it < |list|
      modifies this
      ensures list == Removed(old(list), it)
      ensures list == old(list)[..it] + old(list)[it + 1..]
    {
      list := list[..it] + list[it + 1..];
    }

    method Erase(key: string) returns (count: nat)
      modifies this
      ensures list == Erased(caseSensitive, old(list), key)
      ensures count == |old(list)| - |list|
      ensures IsFirstBlock(caseSensitive, old(list), list, key, G.Find(caseSensitive, old(list), key), count)
    {
      hide Same, Erased, WithoutLeading, Cut, IsFirstBlock;
      count := 0;
      var it := Find(key);
      ghost var f, before := it, list;
      var removed := false;
      CutNone(list, it);
      while it < |list|
        invariant it == f && f + count <= |before|
        invariant list == Cut(before, f, f + count)
        invariant f < |before| ==> Same(caseSensitive, before[f].key, key)
        invariant forall j :: f <= j < f + count ==> Same(caseSensitive, before[j].key, key)
        invariant removed <==> count > 0
        decreases |list|
      {
        CutStep(before, f, f + count);
        if Same(caseSensitive, list[it].key, key) {
          count := count + 1;
          list := list[..it] + list[it + 1..];
          removed := true;
        } else {
          if removed {
            break;
          }
          it := it + 1;
        }
      }
      EraseEnds(caseSensitive, before, key, f, count);
    }

    method Clear()
      modifies this
      ensures list == []
    {
      list := [];
    }

    /** The value of the first entry of the key; the original throws when there is none. */
    method At(key: string) returns (r: Option<V>)
      ensures r == var mine := Select(caseSensitive, list, key);
        if mine == [] then None else Some(mine[0].value)
      ensures var i := G.Find(caseSensitive, list, key);
              r == if i == |list| then None else Some(list[i].value)
    {
      hide Fold;
      var it := Find(key);
      FindDecides(caseSensitive, list, key, key);
      if it < |list| {
        FindsOldest(caseSensitive, list, key);
        return Some(list[it].value);
      }
      r := None;
    }

    /** Position of the first entry of the key, which a default entry becomes when there is none. */
    method Subscript(key: string, default_: V) returns (at: nat)
      modifies this
      ensures list == Step(caseSensitive, old(list), Op.Subscript(key, default_))
      ensures at == G.Find(caseSensitive, old(list), key)
      ensures at < |list| && Same(caseSensitive, list[at].key, key)
      ensures list == old(list) + (if at == |old(list)| then [Entry(key, default_)] else [])
    {
      at := Find(key);
      if at < |list| {
        return;
      }
      at := Insert(Entry(key, default_));
    }
  }
}
