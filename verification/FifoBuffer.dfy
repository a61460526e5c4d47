/** The first-in first-out stream a FIFO buffer stands for: what it accepts, what it gives back and
    what its observers are told. */
module FifoStream {

  datatype Event = Readable(flag: bool) | Writable(flag: bool)

  /** The events for a change in the number of elements. */
  function Edges(usedBefore: nat, used: nat, size: nat): seq<Event> {
    (if usedBefore == 0 && used > 0 then [Readable(true)]
     else if usedBefore > 0 && used == 0 then [Readable(false)] else []) +
    (if usedBefore == size && used < size then [Writable(true)]
     else if usedBefore < size && used == size then [Writable(false)] else [])
  }

  function Min(a: nat, b: nat): nat {
    if a <= b then a else b
  }

  datatype Op<T> =
    | Write(data: seq<T>)
    | Read(length: nat)
    | Drain(length: nat)
    | Copy(data: seq<T>)
    | Grow(delta: nat, keep: bool)

  /** Contents and capacity, with the history of what went in, what came out and what was announced. */
  datatype Stream<T> = Stream(contents: seq<T>, size: nat, accepted: seq<T>, removed: seq<T>, events: seq<Event>)

  function Put<T>(s: Stream<T>, data: seq<T>): Stream<T> {
    s.(contents := s.contents + data, accepted := s.accepted + data,
       events := s.events + Edges(|s.contents|, |s.contents| + |data|, s.size))
  }

  function Take<T>(s: Stream<T>, n: nat): Stream<T>
    requires n <= |s.contents|
  {
    s.(contents := s.contents[n..], removed := s.removed + s.contents[..n],
       events := s.events + Edges(|s.contents|, |s.contents| - n, s.size))
  }

  /** A new size; contents that are not kept count as removed. The edges are those of the old count
      against the new size. */
  function Resized<T>(s: Stream<T>, newSize: nat, keep: bool): Stream<T>
    requires keep ==> |s.contents| <= newSize
  {
    var kept := if keep then s.contents else [];
    Stream(kept, newSize, s.accepted, if keep then s.removed else s.removed + s.contents,
           s.events + Edges(|s.contents|, |kept|, newSize))
  }

  /** A write takes what fits, a copy all or nothing; a read takes at most what is there, and a drain
      of length zero takes everything. */
  function Step<T>(s: Stream<T>, op: Op<T>): (t: Stream<T>)
    requires |s.contents| <= s.size
    ensures |t.contents| <= t.size
  {
    match op
    case Write(data) => Put(s, data[..Min(|data|, s.size - |s.contents|)])
    case Read(length) => Take(s, Min(length, |s.contents|))
    case Drain(length) => Take(s, if length == 0 then |s.contents| else Min(length, |s.contents|))
    case Copy(data) => if |data| <= s.size - |s.contents| then Put(s, data) else s
    case Grow(delta, keep) => Resized(s, s.size + delta, keep)
  }

  function Run<T>(size: nat, ops: seq<Op<T>>): (s: Stream<T>)
    ensures |s.contents| <= s.size
  {
    if ops == [] then Stream([], size, [], [], [])
    else
      hide Step;
      Step(Run(size, ops[..|ops| - 1]), ops[|ops| - 1])
  }

  /** Nothing is lost, duplicated or reordered: what was accepted is what was removed, followed by what
      is there. */
  lemma {:induction false} RunConserves<T>(size: nat, ops: seq<Op<T>>)
    ensures var s := Run(size, ops); s.accepted == s.removed + s.contents
  {
    if ops == [] {
    } else {
      RunConserves(size, ops[..|ops| - 1]);
      StepConserves(Run(size, ops[..|ops| - 1]), ops[|ops| - 1]);
    }
  }

  lemma {:induction false} StepConserves<T>(s: Stream<T>, op: Op<T>)
    requires |s.contents| <= s.size && s.accepted == s.removed + s.contents
    ensures var t := Step(s, op); t.accepted == t.removed + t.contents
  {
  }

  lemma Cut<T>(a: seq<T>, b: seq<T>, n: nat)
    requires n <= |b|
    ensures a + b == (a + b[..n]) + b[n..]
  {
  }

  /** What an observer believes that starts from an empty buffer and follows the events. */
  datatype Belief = Belief(readable: bool, writable: bool)

  function Follow(b: Belief, e: Event): Belief {
    match e
    case Readable(flag) => b.(readable := flag)
    case Writable(flag) => b.(writable := flag)
  }

  function FollowAll(b: Belief, events: seq<Event>): Belief {
    if events == [] then b else Follow(FollowAll(b, events[..|events| - 1]), events[|events| - 1])
  }

  /** No event is redundant: each one changes what its observer believes. */
  ghost predicate EachTells(b: Belief, events: seq<Event>) {
    forall i :: 0 <= i < |events| ==> Follow(FollowAll(b, events[..i]), events[i]) != FollowAll(b, events[..i])
  }

  function Truth<T>(s: Stream<T>): Belief {
    Belief(s.contents != [], |s.contents| < s.size)
  }

  predicate Full<T>(s: Stream<T>) {
    |s.contents| == s.size
  }

  /** A full buffer has grown and has not been full since: nobody has been told that it is writable. */
  ghost predicate Missed<T>(size: nat, ops: seq<Op<T>>) {
    ops != [] &&
    var before, op := ops[..|ops| - 1], ops[|ops| - 1];
    !Full(Run(size, ops)) && (Missed(size, before) || (op.Grow? && op.delta > 0 && Full(Run(size, before))))
  }

  /** Somebody has been told that the buffer is full who believed so already. */
  ghost predicate Repeated<T>(size: nat, ops: seq<Op<T>>) {
    ops != [] &&
    var before := ops[..|ops| - 1];
    Repeated(size, before) || (Missed(size, before) && Full(Run(size, ops)))
  }

  lemma {:induction false} FollowOne(b: Belief, events: seq<Event>, e: Event)
    ensures EachTells(b, events + [e]) <==>
            EachTells(b, events) && Follow(FollowAll(b, events), e) != FollowAll(b, events)
    ensures FollowAll(b, events + [e]) == Follow(FollowAll(b, events), e)
  {
    var all := events + [e];
    assert all[..|events|] == events;
    assert forall i :: 0 <= i < |events| ==> all[..i] == events[..i] && all[i] == events[i];
  }

  /** What a change tells an observer who knows whether there is something to read. */
  lemma {:induction false} FollowEdges(b: Belief, events: seq<Event>, usedBefore: nat, used: nat, size: nat)
    requires FollowAll(b, events).readable == (usedBefore > 0)
    ensures var w, n := FollowAll(b, events).writable, FollowAll(b, events + Edges(usedBefore, used, size));
            && n == Belief(used > 0, if usedBefore == size > used then true
                                     else if usedBefore < size == used then false else w)
            && (EachTells(b, events + Edges(usedBefore, used, size)) <==>
                 EachTells(b, events) && (usedBefore == size > used ==> !w) && (usedBefore < size == used ==> w))
  {
    var first := if (usedBefore == 0) != (used == 0) then events + [Readable(used > 0)] else events;
    var writable := (usedBefore == size && used < size) || (usedBefore < size && used == size);
    var second := if writable then first + [Writable(used < size)] else first;
    assert second == events + Edges(usedBefore, used, size);
    hide EachTells, FollowAll, Edges;
    if (usedBefore == 0) != (used == 0) {
      FollowOne(b, events, Readable(used > 0));
    }
    if writable {
      FollowOne(b, first, Writable(used < size));
    }
  }

  ghost function Told<T>(size: nat, ops: seq<Op<T>>): Belief {
    FollowAll(Belief(false, size > 0), Run(size, ops).events)
  }

  /** After any run an observer of the events knows whether the buffer is empty. He takes it for full if
      it is, or if it was when it grew and has not been filled again. Every event is news to him, except
      that one which says that such a buffer is full again. */
  lemma {:induction false} WhatObserversBelieve<T>(size: nat, ops: seq<Op<T>>)
    ensures Told(size, ops) == Belief(Run(size, ops).contents != [], !Full(Run(size, ops)) && !Missed(size, ops))
    ensures EachTells(Belief(false, size > 0), Run(size, ops).events) <==> !Repeated(size, ops)
  {
    if ops == [] {
    } else {
      var prefix, op := ops[..|ops| - 1], ops[|ops| - 1];
      var before, after := Run(size, prefix), Run(size, ops);
      WhatObserversBelieve(size, prefix);
      StepEvents(before, op);
      MissedNeverFull(size, prefix);
      hide EachTells, FollowAll, Edges, Step, Run;
      FollowEdges(Belief(false, size > 0), before.events, |before.contents|, |after.contents|, after.size);
    }
  }

  lemma MissedNeverFull<T>(size: nat, ops: seq<Op<T>>)
    ensures Missed(size, ops) ==> !Full(Run(size, ops))
  {
  }

  /** The announced state is the true one after a run if and only if no buffer was full when it grew and
      has stayed below its new size since. */
  lemma {:induction false} BeliefIsTruthIff<T>(size: nat, ops: seq<Op<T>>)
    ensures Told(size, ops) == Truth(Run(size, ops)) <==> !Missed(size, ops)
  {
    WhatObserversBelieve(size, ops);
    MissedNeverFull(size, ops);
  }

  lemma {:induction false} NothingMissed<T>(size: nat, ops: seq<Op<T>>)
    requires forall i :: 0 <= i < |ops| ==> !ops[i].Grow?
    ensures !Missed(size, ops) && !Repeated(size, ops)
  {
    if ops != [] {
      NothingMissed(size, ops[..|ops| - 1]);
    }
  }

  /** Without growth an observer of the events knows after any run whether the buffer is empty and whether
      it is full, and every event was news: the edges are announced exactly. */
  lemma {:induction false} EventsAreExact<T>(size: nat, ops: seq<Op<T>>)
    requires forall i :: 0 <= i < |ops| ==> !ops[i].Grow?
    ensures Told(size, ops) == Truth(Run(size, ops))
    ensures EachTells(Belief(false, size > 0), Run(size, ops).events)
  {
    NothingMissed(size, ops);
    BeliefIsTruthIff(size, ops);
    WhatObserversBelieve(size, ops);
  }

  /** A full buffer grows, and its observers still take it for full. */
  lemma GrowthIsMissed<T>(x: T)
    ensures Run(1, [Write([x]), Grow(1, true)]).contents == [x] && Run(1, [Write([x]), Grow(1, true)]).size == 2
    ensures Missed(1, [Write([x]), Grow(1, true)])
    ensures Told(1, [Write([x]), Grow(1, true)]) == Belief(true, false)
  {
    var ops := [Write([x]), Grow(1, true)];
    var one := ops[..1];
    assert one == [Write([x])] && one[..0] == [] && [x][..1] == [x];
    assert Run(1, one) == Step(Run(1, one[..0]), one[0]);
    assert Run(1, one).contents == [x] && Run(1, one).size == 1;
    WhatObserversBelieve(1, ops);
  }

  lemma NothingPut<T>(s: Stream<T>)
    ensures Put(s, []) == s
  {
  }

  lemma ResizedIs<T>(s: Stream<T>, newSize: nat, keep: bool)
    requires keep ==> |s.contents| <= newSize
    ensures var kept := if keep then s.contents else [];
            Resized(s, newSize, keep) ==
              Stream(kept, newSize, s.accepted, if keep then s.removed else s.removed + s.contents,
                     s.events + Edges(|s.contents|, |kept|, newSize))
  {
  }

  lemma NoEdges(used: nat, size: nat)
    ensures Edges(used, used, size) == []
  {
  }

  lemma NothingTaken<T>(s: Stream<T>)
    ensures Take(s, 0) == s
  {
  }

  lemma StepEvents<T>(s: Stream<T>, op: Op<T>)
    requires |s.contents| <= s.size
    ensures var t := Step(s, op);
            && t.events == s.events + Edges(|s.contents|, |t.contents|, t.size)
            && t.size == s.size + (if op.Grow? then op.delta else 0)
  {
  }
}

/** The memory (src/include/Poco/Buffer.h) and the FIFO over it (src/include/Poco/FIFOBuffer.h). */
module FifoBuffers {
  import opened Basics
  import opened FifoStream

  /** Owned memory: `ptr.Length` is the capacity, `used` the size. */
  class Buffer<T(0)> {
    var ptr: array<T>
    var used: nat

    ghost predicate Valid()
      reads this
    {
      used <= ptr.Length
    }

    constructor (length: nat)
      ensures Valid() && fresh(ptr) && used == ptr.Length == length
    {
      ptr := new T[length];
      used := length;
    }

    /** Grows the memory if it must, never shrinks it, and sets the size in any case. */
    method Resize(newCapacity: nat, preserveContent: bool)
      requires Valid()
      modifies this
      ensures Valid() && used == newCapacity
      ensures ptr == old(ptr) || fresh(ptr)
      ensures newCapacity <= old(ptr.Length) ==> ptr == old(ptr)
      ensures preserveContent ==> old(used) <= ptr.Length && ptr[..old(used)] == old(ptr[..used])
    {
      if newCapacity > ptr.Length {
        var memory := new T[newCapacity];
        if preserveContent {
          forall i | 0 <= i < used {
            memory[i] := ptr[i];
          }
        }
        ptr := memory;
      }
      used := newCapacity;
    }
  }

  lemma SameSlice<T>(a: seq<T>, b: seq<T>, i: nat, j: nat)
    requires a == b && i <= j <= |a|
    ensures a[i..j] == b[i..j]
  {
  }

  class FifoBuffer<T(0)> {
    const buffer: Buffer<T>
    var start: nat
    var used: nat
    var notify: bool
    var eof: bool
    var error: bool
    /** What the observers of `readable` and `writable` have been told. */
    var announced: seq<Event>
    ghost var accepted: seq<T>
    ghost var removed: seq<T>

    /** The live elements lie within the buffer. */
    ghost predicate InRange()
      reads this, buffer
    {
      buffer.Valid() && start + used <= buffer.used
    }

    ghost function Contents(): (r: seq<T>)
      requires InRange()
      reads this, buffer, buffer.ptr
      ensures |r| == used
    {
      buffer.ptr[start..start + used]
    }

    /** The stream law: what was accepted is what was removed, followed by the contents. */
    ghost predicate Valid()
      reads this, buffer, buffer.ptr
    {
      InRange() && accepted == removed + Contents()
    }

    ghost function View(): Stream<T>
      requires InRange()
      reads this, buffer, buffer.ptr
    {
      Stream(Contents(), buffer.used, accepted, removed, announced)
    }

    /** The outcome of an operation, announced only if notifications are on. */
    ghost function Announced(before: Stream<T>, after: Stream<T>): Stream<T>
      reads this
    {
      if notify then after else after.(events := before.events)
    }

    constructor (bufferSize: nat, bufferNotify: bool)
      ensures Valid() && fresh(buffer) && fresh(buffer.ptr) && start == 0
      ensures View() == Stream([], bufferSize, [], [], []) && notify == bufferNotify && !eof && !error
    {
      buffer := new Buffer(bufferSize);
      start, used, notify, eof, error := 0, 0, bufferNotify, false, false;
      announced, accepted, removed := [], [], [];
    }

    predicate IsReadable()
      reads this
    {
      used != 0 && !error
    }

    predicate IsWritable()
      reads this, buffer
    {
      buffer.used != used && !error && !eof
    }

    method Notify(usedBefore: nat)
      modifies this`announced
      ensures announced == old(announced) + Edges(usedBefore, used, buffer.used)
      ensures |announced| >= |old(announced)|
      ensures forall flag :: Readable(flag) in announced[|old(announced)|..] <==>
        (usedBefore == 0) != (used == 0) && flag == (used > 0)
      ensures usedBefore <= buffer.used && used <= buffer.used ==>
                forall flag :: Writable(flag) in announced[|old(announced)|..] <==>
                  (usedBefore == buffer.used) != (used == buffer.used) && flag == (used < buffer.used)
    {
      if usedBefore == 0 && used > 0 {
        announced := announced + [Readable(true)];
      } else if usedBefore > 0 && 0 == used {
        announced := announced + [Readable(false)];
      }
      if usedBefore == buffer.used && used < buffer.used {
        announced := announced + [Writable(true)];
      } else if usedBefore < buffer.used && used == buffer.used {
        announced := announced + [Writable(false)];
      }
    }

    /** Notifies if notifications are on. */
    method Tell(usedBefore: nat)
      modifies this`announced
      ensures announced == old(announced) + if notify then Edges(usedBefore, used, buffer.used) else []
      ensures InRange() == old(InRange()) && Valid() == old(Valid())
      ensures InRange() ==> View() == old(View()).(events := announced)
    {
      hide Edges;
      if notify {
        Notify(usedBefore);
      }
    }

    /** `begin()`: moves the data to the start of the buffer, so that the pointer it returns and the
        one behind the data fit together. */
    method Compact()
      requires InRange()
      modifies this`start, buffer.ptr
      ensures InRange() && start == 0 && Contents() == old(Contents())
    {
      if start != 0 {
        var memory := buffer.ptr;
        forall i | 0 <= i < used {
          memory[i] := memory[start + i];
        }
        start := 0;
      }
    }

    /** Copies `data` behind the contents of a compact buffer. */
    method Append(data: seq<T>)
      requires InRange() && start == 0 && used + |data| <= buffer.used
      modifies buffer.ptr
      ensures InRange() && Contents() == old(Contents())
      ensures buffer.ptr[used..used + |data|] == data
    {
      var memory := buffer.ptr;
      forall i | 0 <= i < |data| {
        memory[used + i] := data[i];
      }
    }

    /** Copies `data` behind the contents. */
    method Store(data: seq<T>)
      requires Valid() && used + |data| <= buffer.used
      modifies this`start, this`used, this`accepted, buffer.ptr
      ensures Valid() && used == old(used) + |data| && start == 0
      ensures Contents() == old(Contents()) + data && accepted == old(accepted) + data
    {
      Compact();
      Append(data);
      assert buffer.ptr[..used + |data|] == buffer.ptr[..used] + buffer.ptr[used..used + |data|];
      used := used + |data|;
      accepted := accepted + data;
      Assoc(removed, old(Contents()), data);
    }

    /** Stores and announces. */
    method Extend(data: seq<T>)
      requires Valid() && used + |data| <= buffer.used
      modifies this`start, this`used, this`accepted, this`announced, buffer.ptr
      ensures Valid() && View() == Announced(old(View()), Put(old(View()), data))
      ensures used == old(used) + |data| && start == 0
      ensures Contents() == old(Contents()) + data && accepted == old(accepted) + data
      ensures announced == old(announced) + if notify then Edges(old(used), used, buffer.used) else []
    {
      hide Edges;
      var usedBefore := used;
      Store(data);
      Tell(usedBefore);
    }

    method Write(data: seq<T>) returns (written: nat)
      requires Valid()
      modifies this`start, this`used, this`accepted, this`announced, buffer.ptr
      ensures Valid()
      ensures !old(IsWritable()) ==> written == 0 && View() == old(View())
      ensures old(IsWritable()) ==> View() == Announced(old(View()), Step(old(View()), FifoStream.Write(data)))
      ensures written == if old(error || eof) then 0
                         else if |data| <= buffer.used - old(used) then |data| else buffer.used - old(used)
      ensures Contents() == old(Contents()) + data[..written] && accepted == old(accepted) + data[..written]
      ensures announced == old(announced) + if notify then Edges(old(used), used, buffer.used) else []
      ensures start == if written > 0 then 0 else old(start)
    {
      hide Put, Take, Resized, Edges, Contents;
      NoEdges(used, buffer.used);
      assert data[..0] == [];
      if |data| == 0 {
        NothingPut(View());
        return 0;
      }
      if !IsWritable() {
        return 0;
      }
      if buffer.used - (start + used) < |data| {
        Compact();
      }
      assert View() == old(View());
      var availableBefore := buffer.used - used - start;
      var len := if |data| > availableBefore then availableBefore else |data|;
      assert len == Min(|data|, buffer.used - used);
      Extend(data[..len]);
      written := len;
    }

    /** `copy`: all or nothing; otherwise it throws. */
    method Copy(data: seq<T>) returns (ok: bool)
      requires Valid()
      modifies this`start, this`used, this`accepted, this`announced, buffer.ptr
      ensures Valid()
      ensures ok <==> data == [] || (|data| <= old(buffer.used - used) && !old(error || eof))
      ensures Contents() == old(Contents()) + (if ok then data else [])
      ensures accepted == old(accepted) + (if ok then data else [])
      ensures announced == old(announced) + if notify then Edges(old(used), used, buffer.used) else []
      ensures ok ==> View() == Announced(old(View()), Step(old(View()), FifoStream.Copy(data)))
      ensures !ok ==> View() == old(View())
      ensures start == if ok && data != [] then 0 else old(start)
    {
      hide Put, Take, Resized, Edges, Contents;
      NoEdges(used, buffer.used);
      if |data| == 0 {
        NothingPut(View());
        return true;
      }
      if |data| > buffer.used - used || !IsWritable() {
        return false;
      }
      Extend(data);
      ok := true;
    }

    method Peek(length: nat) returns (data: seq<T>)
      requires InRange()
      ensures data == if used == 0 || error then [] else Contents()[..if length <= used then length else used]
    {
      if length == 0 || !IsReadable() {
        return [];
      }
      var n := if length > used then used else length;
      data := buffer.ptr[start..start + n];
    }

    /** Removes elements from the front; `advance` is how far the start moves unless all are gone. */
    method Discard(n: nat, advance: nat)
      requires Valid() && n <= used && (n < used ==> advance == n)
      modifies this`start, this`used, this`removed
      ensures Valid() && used == old(used) - n && start == if used == 0 then 0 else old(start) + n
      ensures View() == old(View().(contents := Contents()[n..], removed := removed + Contents()[..n]))
    {
      Cut(removed, Contents(), n);
      removed := removed + Contents()[..n];
      used := used - n;
      if 0 == used {
        start := 0;
      } else {
        start := start + advance;
      }
    }

    method Shorten(n: nat, advance: nat)
      requires Valid() && n <= used && (n < used ==> advance == n)
      modifies this`start, this`used, this`removed, this`announced
      ensures Valid() && View() == Announced(old(View()), Take(old(View()), n))
      ensures used == old(used) - n && start == if used == 0 then 0 else old(start) + n
      ensures Contents() == old(Contents()[n..]) && removed == old(removed + Contents()[..n])
      ensures announced == old(announced) + if notify then Edges(old(used), used, buffer.used) else []
    {
      hide Edges, Contents;
      var usedBefore := used;
      Discard(n, advance);
      Tell(usedBefore);
    }

    /** `read` into memory of at least `length` elements. The source advances by the length asked for,
        which is right because a longer one empties the buffer. */
    method Read(length: nat) returns (data: seq<T>)
      requires Valid()
      modifies this`start, this`used, this`removed, this`announced
      ensures Valid()
      ensures start == if used == 0 && |data| > 0 then 0 else old(start) + |data|
      ensures !old(IsReadable()) ==> data == [] && View() == old(View())
      ensures |data| == if old(error) then 0 else if length <= old(used) then length else old(used)
      ensures data + Contents() == old(Contents()) && removed == old(removed) + data
      ensures announced == old(announced) + if notify then Edges(old(used), used, buffer.used) else []
      ensures old(IsReadable()) ==> View() == Announced(old(View()), Step(old(View()), FifoStream.Read(length)))
    {
      hide Put, Take, Resized, Edges, Contents;
      NoEdges(used, buffer.used);
      if length == 0 || !IsReadable() {
        NothingTaken(View());
        return [];
      }
      data := Peek(length);
      Shorten(|data|, length);
    }

    method Drain(length: nat)
      requires Valid()
      modifies this`start, this`used, this`removed, this`announced
      ensures Valid() && View() == Announced(old(View()), Step(old(View()), FifoStream.Drain(length)))
      ensures length == 0 || length >= old(used) ==> Contents() == [] && removed == old(removed + Contents())
      ensures 0 < length < old(used) ==>
                Contents() == old(Contents())[length..] && removed == old(removed) + old(Contents())[..length]
      ensures announced == old(announced) + if notify then Edges(old(used), used, buffer.used) else []
      ensures start == if used == 0 then 0 else old(start) + length
    {
      hide Put, Take, Resized, Edges, Contents;
      var n := if length == 0 || length >= used then used else length;
      Shorten(n, n);
    }

    /** The memory's part of a resize. */
    method SetSize(newSize: nat, preserveContent: bool)
      requires InRange() && (preserveContent ==> used <= newSize)
      modifies this`used, this`removed, buffer
      ensures buffer.Valid() && buffer.used == newSize && used == if preserveContent then old(used) else 0
      ensures removed == if preserveContent then old(removed) else old(removed + Contents())
      ensures InRange() ==> Contents() == if preserveContent then old(Contents()) else []
    {
      ghost var memory, size := buffer.ptr, buffer.used;
      removed := removed + if preserveContent then [] else Contents();
      buffer.Resize(newSize, preserveContent);
      if preserveContent {
        SameSlice(buffer.ptr[..size], old(memory[..size]), start, start + used);
      } else {
        used := 0;
      }
    }

    /** Sets the size without compacting. The live elements stay within the buffer, and are then what
        they were, if and only if they end before the new size; so growing is always safe, and
        shrinking a buffer whose start has moved may not be. Refused, with nothing changed, when the
        elements to preserve do not fit at all. */
    method Resize(newSize: nat, preserveContent: bool) returns (ok: bool)
      requires Valid()
      modifies this`used, this`removed, this`announced, buffer
      ensures ok <==> !(preserveContent && newSize < old(used))
      ensures !ok ==> Valid() && View() == old(View())
      ensures ok ==> buffer.used == newSize && used == if preserveContent then old(used) else 0
      ensures ok ==> removed == if preserveContent then old(removed) else old(removed + Contents())
      ensures ok ==> announced == old(announced) + if notify then Edges(old(used), used, newSize) else []
      ensures ok ==> (InRange() <==> start + used <= newSize)
      ensures ok && InRange() ==>
                Valid() && View() == Announced(old(View()), Resized(old(View()), newSize, preserveContent))
      ensures ok && newSize >= old(buffer.used) ==> InRange()
    {
      hide Edges, Resized, Contents;
      if preserveContent && newSize < used {
        return false;
      }
      var usedBefore := used;
      SetSize(newSize, preserveContent);
      Tell(usedBefore);
      ok := true;
      ResizedIs(old(View()), newSize, preserveContent);
    }

    /** A resize that does not shrink is the step of the stream. */
    method Grow(delta: nat, preserveContent: bool) returns (ok: bool)
      requires Valid()
      modifies this`used, this`removed, this`announced, buffer
      ensures ok && Valid()
      ensures View() == Announced(old(View()), Step(old(View()), FifoStream.Grow(delta, preserveContent)))
      ensures buffer.used == old(buffer.used) + delta
      ensures Contents() == (if preserveContent then old(Contents()) else [])
      ensures removed == old(removed + if preserveContent then [] else Contents())
    {
      ok := Resize(buffer.used + delta, preserveContent);
    }
  }

  /** Shrinking can leave an element outside: a buffer of three that has given back one of three elements
      holds the others at its end, and a resize to two is not refused. */
  method ShrinkingLeavesElementsOutside<T(0)>(a: T, b: T, c: T) returns (fifo: FifoBuffer<T>, ok: bool)
    ensures ok && fifo.used == fifo.buffer.used == 2 && fifo.start == 1 && !fifo.InRange()
  {
    hide Edges, Resized, FifoBuffer.Contents;
    fifo := new FifoBuffer(3, false);
    var written := fifo.Write([a, b, c]);
    assert fifo.used == |fifo.View().contents| == 3;
    fifo.Drain(1);
    assert fifo.used == |fifo.View().contents| == 2;
    ok := fifo.Resize(2, true);
  }
}
