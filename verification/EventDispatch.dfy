/** Re-entrant event dispatch, on values: the shared delegates, the event's list of them, and what a
    round of notifications does (src/include/Poco/AbstractEvent.h, DefaultStrategy.h, Delegate.h). */
module Dispatch {

  /** What a delegate calls: a method of an object. */
  datatype Target = Target(receiver: int, method_: int)

  /** A delegate object; disabling it takes its receiver away for good. */
  datatype Cell = Cell(target: Target, enabled: bool)

  /** All delegate objects created so far, by creation order; the event's list refers to them, and so do
      the copies of the list that notifications work on. */
  datatype World = World(cells: seq<Cell>, registered: seq<nat>, enabled: bool)

  /** What a callback may do to the event, a nested notification included. */
  datatype Action =
    | Add(target: Target)
    | Remove(target: Target)
    | RemoveHandle(handle: nat)
    | Clear
    | SetEnabled(flag: bool)
    | Notify(scripts: seq<Script>)

  /** What one invocation of a callback does. A round takes one script for each delegate it invokes, so
      that all sequences of scripts are all behaviours of all callbacks. */
  datatype Script = Script(actions: seq<Action>)

  function Added(w: World, t: Target): World {
    w.(cells := w.cells + [Cell(t, true)], registered := w.registered + [|w.cells|])
  }

  predicate Enabled(w: World, d: nat) {
    d < |w.cells| && w.cells[d].enabled
  }

  function Disabled(w: World, d: nat): World {
    if d < |w.cells| then w.(cells := w.cells[d := w.cells[d].(enabled := false)]) else w
  }

  /** Whether a live delegate with this target is meant. */
  predicate Matches(w: World, d: nat, t: Target) {
    Enabled(w, d) && w.cells[d].target == t
  }

  /** Position of the first registered delegate that equals the given one, or the end of the list. */
  function FirstMatch(w: World, registered: seq<nat>, t: Target): (i: nat)
    ensures i <= |registered|
    ensures i < |registered| ==> Matches(w, registered[i], t)
    ensures forall j :: 0 <= j < i ==> !Matches(w, registered[j], t)
  {
    if registered == [] || Matches(w, registered[0], t) then 0 else 1 + FirstMatch(w, registered[1..], t)
  }

  function FirstHandle(registered: seq<nat>, h: nat): (i: nat)
    ensures i <= |registered|
    ensures i < |registered| ==> registered[i] == h
    ensures forall j :: 0 <= j < i ==> registered[j] != h
  {
    if registered == [] || registered[0] == h then 0 else 1 + FirstHandle(registered[1..], h)
  }

  lemma FirstMatchIs(w: World, registered: seq<nat>, t: Target, i: nat)
    requires i <= |registered|
    requires i < |registered| ==> Matches(w, registered[i], t)
    requires forall j :: 0 <= j < i ==> !Matches(w, registered[j], t)
    ensures FirstMatch(w, registered, t) == i
  {
  }

  lemma FirstHandleIs(registered: seq<nat>, h: nat, i: nat)
    requires i <= |registered|
    requires i < |registered| ==> registered[i] == h
    requires forall j :: 0 <= j < i ==> registered[j] != h
    ensures FirstHandle(registered, h) == i
  {
  }

  /** Disables the delegate at a position of the list and takes it off. */
  function Unregistered(w: World, i: nat): World {
    if i < |w.registered|
    then Disabled(w, w.registered[i]).(registered := w.registered[..i] + w.registered[i + 1..])
    else w
  }

  lemma NothingThere(w: World, i: nat)
    requires i == |w.registered|
    ensures Unregistered(w, i) == w
  {
  }

  function AllDisabled(cells: seq<Cell>, which: seq<nat>): (r: seq<Cell>)
    ensures |r| == |cells|
    ensures forall d :: 0 <= d < |r| ==> r[d] == if d in which then cells[d].(enabled := false) else cells[d]
  {
    seq(|cells|, d requires 0 <= d < |cells| => if d in which then cells[d].(enabled := false) else cells[d])
  }

  function Cleared(w: World): World {
    w.(cells := AllDisabled(w.cells, w.registered), registered := [])
  }

  function Do(w: World, action: Action): World
    decreases action, 1
  {
    match action
    case Add(t) => Added(w, t)
    case Remove(t) => Unregistered(w, FirstMatch(w, w.registered, t))
    case RemoveHandle(h) => Unregistered(w, FirstHandle(w.registered, h))
    case Clear => Cleared(w)
    case SetEnabled(flag) => w.(enabled := flag)
    case Notify(scripts) => if w.enabled then Round(w, w.registered, scripts).world else w
  }

  function Perform(w: World, actions: seq<Action>): World
    decreases actions, 0
  {
    if actions == [] then w else Perform(Do(w, actions[0]), actions[1..])
  }

  /** The world after a round, the delegates it invoked, in order, and the scripts it has not used. */
  datatype Outcome = Outcome(world: World, invoked: seq<nat>, rest: seq<Script>)

  /** Walks a snapshot of the list and invokes each delegate that is not disabled. */
  function Round(w: World, snapshot: seq<nat>, scripts: seq<Script>): Outcome
    decreases scripts, |snapshot|
  {
    if snapshot == [] then Outcome(w, [], scripts)
    else
      var d := snapshot[0];
      if !Enabled(w, d) then Round(w, snapshot[1..], scripts)
      else
        var next := if scripts == [] then w else Perform(w, scripts[0].actions);
        var o := Round(next, snapshot[1..], if scripts == [] then [] else scripts[1..]);
        o.(invoked := [d] + o.invoked)
  }

  /** The event's list holds exactly the delegates that are not disabled, each once. */
  ghost predicate Linked(w: World) {
    && (forall i :: 0 <= i < |w.registered| ==> w.registered[i] < |w.cells|)
    && (forall i, j :: 0 <= i < j < |w.registered| ==> w.registered[i] != w.registered[j])
    && (forall d :: 0 <= d < |w.cells| ==> (w.cells[d].enabled <==> d in w.registered))
  }

  /** Delegates never go away or change their target, and a disabled one stays disabled. */
  ghost predicate Evolves(v: World, w: World) {
    && |v.cells| <= |w.cells|
    && (forall d :: 0 <= d < |v.cells| ==> w.cells[d].target == v.cells[d].target)
    && (forall d :: 0 <= d < |v.cells| && w.cells[d].enabled ==> v.cells[d].enabled)
  }

  lemma UnregisteredLinked(w: World, i: nat)
    requires Linked(w) && i < |w.registered|
    ensures w.registered[i] < |w.cells|
    ensures Linked(Unregistered(w, i)) && Evolves(w, Unregistered(w, i))
    ensures w.registered[i] !in Unregistered(w, i).registered
  {
  }

  lemma {:induction false} DoLinked(w: World, action: Action)
    requires Linked(w)
    ensures Linked(Do(w, action)) && Evolves(w, Do(w, action))
    decreases action, 1
  {
    match action
    case Add(t) =>
    case Remove(t) =>
      if FirstMatch(w, w.registered, t) < |w.registered| {
        UnregisteredLinked(w, FirstMatch(w, w.registered, t));
      }
    case RemoveHandle(h) =>
      if FirstHandle(w.registered, h) < |w.registered| {
        UnregisteredLinked(w, FirstHandle(w.registered, h));
      }
    case Clear =>
    case SetEnabled(flag) =>
    case Notify(scripts) =>
      RoundLinked(w, w.registered, scripts);
  }

  lemma {:induction false} PerformLinked(w: World, actions: seq<Action>)
    requires Linked(w)
    ensures Linked(Perform(w, actions)) && Evolves(w, Perform(w, actions))
    decreases actions, 0
  {
    if actions != [] {
      DoLinked(w, actions[0]);
      PerformLinked(Do(w, actions[0]), actions[1..]);
    }
  }

  /** Whatever the callbacks do, a round leaves the list and the disabled flags in step. */
  lemma {:induction false} RoundLinked(w: World, snapshot: seq<nat>, scripts: seq<Script>)
    requires Linked(w)
    ensures Linked(Round(w, snapshot, scripts).world)
    ensures Evolves(w, Round(w, snapshot, scripts).world)
    decreases scripts, |snapshot|
  {
    if snapshot != [] {
      if !Enabled(w, snapshot[0]) {
        RoundLinked(w, snapshot[1..], scripts);
      } else if scripts == [] {
        RoundLinked(w, snapshot[1..], []);
      } else {
        PerformLinked(w, scripts[0].actions);
        RoundLinked(Perform(w, scripts[0].actions), snapshot[1..], scripts[1..]);
      }
    }
  }

  // ----- What each action does, delegate by delegate

  /** The delegate at a position is disabled and off the list; the others keep their order and flags. */
  ghost predicate TakenOff(w: World, i: nat, r: World)
    requires i < |w.registered|
  {
    && r.registered == w.registered[..i] + w.registered[i + 1..]
    && r.enabled == w.enabled && |r.cells| == |w.cells|
    && forall d :: 0 <= d < |w.cells| ==>
         r.cells[d].target == w.cells[d].target && r.cells[d].enabled == (w.cells[d].enabled && d != w.registered[i])
  }

  ghost predicate Aims(w: World, d: nat, t: Target) {
    d < |w.cells| && w.cells[d].enabled && w.cells[d].target == t
  }

  lemma AddingRegisters(w: World, t: Target)
    ensures Do(w, Add(t)) == World(w.cells + [Cell(t, true)], w.registered + [|w.cells|], w.enabled)
  {
  }

  lemma {:induction false} UnregisteredTakesOff(w: World, i: nat)
    requires Linked(w) && i < |w.registered|
    ensures TakenOff(w, i, Unregistered(w, i))
  {
  }

  /** Removing by target takes off the first listed delegate that is enabled and has it. */
  lemma RemovingTakesFirst(w: World, t: Target, i: nat)
    requires Linked(w) && i <= |w.registered|
    requires i < |w.registered| ==> Aims(w, w.registered[i], t)
    requires forall j :: 0 <= j < i ==> !Aims(w, w.registered[j], t)
    ensures i == |w.registered| ==> Do(w, Remove(t)) == w
    ensures i < |w.registered| ==> TakenOff(w, i, Do(w, Remove(t)))
  {
    hide Linked, TakenOff, Unregistered, Round, Perform, FirstMatch;
    FirstMatchIs(w, w.registered, t, i);
    if i == |w.registered| {
      NothingThere(w, i);
    } else {
      UnregisteredTakesOff(w, i);
    }
  }

  lemma RemovingByHandle(w: World, h: nat, i: nat)
    requires Linked(w) && i <= |w.registered|
    requires i < |w.registered| ==> w.registered[i] == h
    requires forall j :: 0 <= j < i ==> w.registered[j] != h
    ensures i == |w.registered| ==> Do(w, RemoveHandle(h)) == w
    ensures i < |w.registered| ==> TakenOff(w, i, Do(w, RemoveHandle(h)))
  {
    hide Linked, TakenOff, Unregistered, Round, Perform, FirstHandle;
    FirstHandleIs(w.registered, h, i);
    if i == |w.registered| {
      NothingThere(w, i);
    } else {
      UnregisteredTakesOff(w, i);
    }
  }

  /** Clearing disables the listed delegates, and no other, and empties the list. */
  lemma ClearingDisablesListed(w: World)
    ensures var r := Do(w, Clear);
      && r.registered == [] && r.enabled == w.enabled && |r.cells| == |w.cells|
      && forall d :: 0 <= d < |w.cells| ==>
           r.cells[d] == Cell(w.cells[d].target, w.cells[d].enabled && d !in w.registered)
  {
    hide Round, Perform, AllDisabled;
  }

  lemma SwitchingKeepsList(w: World, flag: bool)
    ensures Do(w, SetEnabled(flag)) == World(w.cells, w.registered, flag)
  {
  }

  /** Actions happen one after the other. */
  lemma {:induction false} PerformInOrder(w: World, actions: seq<Action>, action: Action)
    ensures Perform(w, []) == w
    ensures Perform(w, actions + [action]) == Do(Perform(w, actions), action)
    decreases |actions|
  {
    hide Do;
    if actions == [] {
      assert [action][1..] == [] && actions + [action] == [action];
    } else {
      assert (actions + [action])[1..] == actions[1..] + [action];
      PerformInOrder(Do(w, actions[0]), actions[1..], action);
    }
  }

  /** Whole scripts, one after the other. */
  ghost function PerformEach(w: World, scripts: seq<Script>): World {
    if scripts == [] then w
    else Perform(PerformEach(w, scripts[..|scripts| - 1]), scripts[|scripts| - 1].actions)
  }

  lemma {:induction false} PerformEachFromFirst(w: World, scripts: seq<Script>)
    requires scripts != []
    ensures PerformEach(w, scripts) == PerformEach(Perform(w, scripts[0].actions), scripts[1..])
  {
    var n := |scripts| - 1;
    if n == 0 {
      assert scripts[..0] == [] && scripts[1..] == [];
    } else {
      PerformEachFromFirst(w, scripts[..n]);
      assert scripts[..n][1..] == scripts[1..][..n - 1];
    }
  }

  lemma NoneToPerform(w: World)
    ensures PerformEach(w, []) == w
  {
  }

  lemma RoundHead(w: World, snapshot: seq<nat>, scripts: seq<Script>)
    requires snapshot != []
    ensures var o := Round(w, snapshot, scripts);
      if !Enabled(w, snapshot[0]) then o == Round(w, snapshot[1..], scripts)
      else
        var p := if scripts == [] then Round(w, snapshot[1..], [])
                 else Round(Perform(w, scripts[0].actions), snapshot[1..], scripts[1..]);
        o == p.(invoked := [snapshot[0]] + p.invoked)
  {
  }

  /** A round changes the world by the scripts of the delegates it invokes, in their order, and by nothing
      else; it takes one script for each as long as there are any. */
  lemma {:induction false} RoundPerforms(w: World, snapshot: seq<nat>, scripts: seq<Script>)
    ensures var o := Round(w, snapshot, scripts);
      var n := if |o.invoked| < |scripts| then |o.invoked| else |scripts|;
      o.rest == scripts[n..] && o.world == PerformEach(w, scripts[..n])
    decreases scripts, |snapshot|
  {
    hide Perform, PerformEach, Round;
    if snapshot == [] {
      RoundOver(w, snapshot, scripts, []);
      NoneToPerform(w);
    } else {
      RoundHead(w, snapshot, scripts);
      if !Enabled(w, snapshot[0]) {
        RoundPerforms(w, snapshot[1..], scripts);
      } else if scripts == [] {
        RoundPerforms(w, snapshot[1..], []);
      } else {
        var next := Perform(w, scripts[0].actions);
        RoundPerforms(next, snapshot[1..], scripts[1..]);
        var m := |Round(next, snapshot[1..], scripts[1..]).invoked|;
        var n := if m + 1 < |scripts| then m + 1 else |scripts|;
        assert scripts[..n][1..] == scripts[1..][..n - 1];
        PerformEachFromFirst(w, scripts[..n]);
      }
    }
  }

  /** A nested notification is a round of its own over the list of its moment, unless the event is off. */
  lemma NotifyingRunsARound(w: World, scripts: seq<Script>)
    ensures Do(w, Notify(scripts)) == if w.enabled then Round(w, w.registered, scripts).world else w
  {
  }

  /** A round over a list is a round over its first part and then one over the rest. */
  lemma {:induction false} RoundSplits(w: World, a: seq<nat>, b: seq<nat>, scripts: seq<Script>)
    ensures
      var first := Round(w, a, scripts);
      var second := Round(first.world, b, first.rest);
      Round(w, a + b, scripts) == Outcome(second.world, first.invoked + second.invoked, second.rest)
    decreases scripts, |a|
  {
    if a == [] {
      assert a + b == b;
    } else {
      assert (a + b)[1..] == a[1..] + b;
      if !Enabled(w, a[0]) {
        RoundSplits(w, a[1..], b, scripts);
      } else {
        var next := if scripts == [] then w else Perform(w, scripts[0].actions);
        var left := if scripts == [] then [] else scripts[1..];
        RoundSplits(next, a[1..], b, left);
        Prepended(a[0], Round(next, a[1..], left).invoked,
                  Round(Round(next, a[1..], left).world, b, Round(next, a[1..], left).rest).invoked);
      }
    }
  }

  lemma Prepended(d: nat, a: seq<nat>, b: seq<nat>)
    ensures [d] + (a + b) == ([d] + a) + b
  {
  }

  /** One turn of a round that has come to a position of the snapshot and used some of the scripts. */
  lemma RoundTurn(w: World, snapshot: seq<nat>, i: nat, scripts: seq<Script>, used: nat, done: seq<nat>)
    requires i < |snapshot| && used <= |scripts|
    ensures
      var o := Round(w, snapshot[i..], scripts[used..]);
      var left := if Enabled(w, snapshot[i]) && used < |scripts| then used + 1 else used;
      var next := if left == used then w else Perform(w, scripts[used].actions);
      var p := Round(next, snapshot[i + 1..], scripts[left..]);
      var now := if Enabled(w, snapshot[i]) then done + [snapshot[i]] else done;
      o.world == p.world && o.rest == p.rest && done + o.invoked == now + p.invoked
  {
  }

  lemma RoundOver(w: World, snapshot: seq<nat>, scripts: seq<Script>, done: seq<nat>)
    requires snapshot == []
    ensures Round(w, snapshot, scripts) == Outcome(w, [], scripts) && done + [] == done
  {
  }

  /** The elements of a that b keeps are in b in the order of a. */
  ghost predicate Within(b: seq<nat>, a: seq<nat>) {
    if b == [] then true
    else if a == [] then false
    else if b[0] == a[0] then Within(b[1..], a[1..])
    else Within(b, a[1..])
  }

  lemma {:induction false} WithinMembers(b: seq<nat>, a: seq<nat>)
    requires Within(b, a)
    ensures forall d :: d in b ==> d in a
    decreases |a|
  {
    if b != [] {
      WithinMembers(if b[0] == a[0] then b[1..] else b, a[1..]);
      forall d | d in b ensures d in a {
        assert d == b[0] || d in b[1..];
      }
    }
  }

  /** Skipping an element of a that starts b as well is still possible for a shorter b. */
  lemma {:induction false} WithinSkip(b: seq<nat>, a: seq<nat>)
    requires a != [] && Within(b, a[1..])
    ensures Within(b, a)
    decreases |a|, 0
  {
    if b != [] && b[0] == a[0] {
      WithinTail(b, a[1..]);
    }
  }

  lemma {:induction false} WithinTail(b: seq<nat>, a: seq<nat>)
    requires b != [] && Within(b, a)
    ensures Within(b[1..], a)
    decreases |a|, 1
  {
    if b[0] == a[0] {
      WithinSkip(b[1..], a);
    } else {
      WithinTail(b, a[1..]);
      WithinSkip(b[1..], a);
    }
  }

  /** Delegates are invoked in the order of their registration, and none that joined after the snapshot. */
  lemma {:induction false} InvokedInOrder(w: World, snapshot: seq<nat>, scripts: seq<Script>)
    ensures Within(Round(w, snapshot, scripts).invoked, snapshot)
    decreases scripts, |snapshot|
  {
    if snapshot != [] {
      if !Enabled(w, snapshot[0]) {
        InvokedInOrder(w, snapshot[1..], scripts);
        WithinSkip(Round(w, snapshot, scripts).invoked, snapshot);
      } else {
        var next := if scripts == [] then w else Perform(w, scripts[0].actions);
        InvokedInOrder(next, snapshot[1..], if scripts == [] then [] else scripts[1..]);
      }
    }
  }

  /** The world a delegate of the snapshot finds when its turn comes. */
  function AtTurn(w: World, i: nat, scripts: seq<Script>): World
    requires i < |w.registered|
  {
    Round(w, w.registered[..i], scripts).world
  }

  /** Whatever the callbacks add, remove, clear or notify meanwhile: a delegate of the snapshot is invoked
      exactly if it is still registered when its turn comes. */
  lemma {:induction false} InvokedIffRegisteredAtTurn(w: World, i: nat, scripts: seq<Script>)
    requires Linked(w) && i < |w.registered|
    ensures w.registered[i] in Round(w, w.registered, scripts).invoked
       <==> w.registered[i] in AtTurn(w, i, scripts).registered
  {
    var snapshot := w.registered;
    var d := snapshot[i];
    var before := Round(w, snapshot[..i], scripts);
    var from := Round(before.world, snapshot[i..], before.rest);
    assert snapshot == snapshot[..i] + snapshot[i..];
    RoundSplits(w, snapshot[..i], snapshot[i..], scripts);
    InvokedInOrder(w, snapshot[..i], scripts);
    WithinMembers(before.invoked, snapshot[..i]);
    assert d !in before.invoked;
    RoundLinked(w, snapshot[..i], scripts);
    HeadInvoked(before.world, snapshot[i..], before.rest);
  }

  lemma HeadInvoked(w: World, snapshot: seq<nat>, scripts: seq<Script>)
    requires snapshot != [] && snapshot[0] !in snapshot[1..]
    ensures snapshot[0] in Round(w, snapshot, scripts).invoked <==> Enabled(w, snapshot[0])
  {
    if !Enabled(w, snapshot[0]) {
      InvokedInOrder(w, snapshot[1..], scripts);
      WithinMembers(Round(w, snapshot[1..], scripts).invoked, snapshot[1..]);
    }
  }

  /** A delegate that nobody removed during the round has been invoked. */
  lemma {:induction false} SurvivorsAreInvoked(w: World, i: nat, scripts: seq<Script>)
    requires Linked(w) && i < |w.registered|
    requires w.registered[i] in Round(w, w.registered, scripts).world.registered
    ensures w.registered[i] in Round(w, w.registered, scripts).invoked
  {
    var snapshot := w.registered;
    var before := Round(w, snapshot[..i], scripts);
    assert snapshot == snapshot[..i] + snapshot[i..];
    RoundSplits(w, snapshot[..i], snapshot[i..], scripts);
    RoundLinked(w, snapshot[..i], scripts);
    RoundLinked(before.world, snapshot[i..], before.rest);
    RoundLinked(w, snapshot, scripts);
    InvokedIffRegisteredAtTurn(w, i, scripts);
  }

  /** Switching the event off inside a callback does not stop the round that is under way: a snapshot of
      which nobody is removed is invoked in full. */
  lemma {:induction false} QuietRound(w: World, scripts: seq<Script>)
    requires Linked(w)
    requires forall d :: d in w.registered ==> d in Round(w, w.registered, scripts).world.registered
    ensures Round(w, w.registered, scripts).invoked == w.registered
  {
    InvokedInOrder(w, w.registered, scripts);
    forall i | 0 <= i < |w.registered|
      ensures w.registered[i] in Round(w, w.registered, scripts).invoked
    {
      SurvivorsAreInvoked(w, i, scripts);
    }
    WithinAll(Round(w, w.registered, scripts).invoked, w.registered);
  }

  lemma {:induction false} WithinAll(b: seq<nat>, a: seq<nat>)
    requires Within(b, a)
    requires forall i, j :: 0 <= i < j < |a| ==> a[i] != a[j]
    requires forall d :: d in a ==> d in b
    ensures b == a
  {
    if a != [] {
      assert a[0] in b;
      if b[0] != a[0] {
        WithinMembers(b, a[1..]);
        assert false;
      }
      WithinMembers(b[1..], a[1..]);
      forall d | d in a[1..] ensures d in b[1..] {
        assert d in a;
      }
      WithinAll(b[1..], a[1..]);
    }
  }
}

/** The event and its delegates as objects. */
module Events {
  import opened Dispatch

  /** A delegate; its handle stands for the address by which the event knows it. */
  class Delegate {
    const handle: nat
    const target: Target
    var enabled: bool

    constructor (handle: nat, target: Target)
      ensures this.handle == handle && this.target == target && enabled
    {
      this.handle := handle;
      this.target := target;
      enabled := true;
    }

    method Disable()
      modifies this
      ensures !enabled
    {
      enabled := false;
    }
  }

  function Cells(all: seq<Delegate>): (r: seq<Cell>)
    reads all
    ensures |r| == |all|
    ensures forall i :: 0 <= i < |r| ==> r[i] == Cell(all[i].target, all[i].enabled)
  {
    seq(|all|, i requires 0 <= i < |all| reads all => Cell(all[i].target, all[i].enabled))
  }

  function Handles(delegates: seq<Delegate>): (r: seq<nat>)
    ensures |r| == |delegates|
    ensures forall i :: 0 <= i < |r| ==> r[i] == delegates[i].handle
  {
    seq(|delegates|, i requires 0 <= i < |delegates| => delegates[i].handle)
  }

  /** The delegate is the one that its handle names. */
  ghost predicate Registered(all: seq<Delegate>, d: Delegate) {
    d.handle < |all| && all[d.handle] == d
  }

  /** Handles are given out in the order of creation, and the list knows only delegates created here. */
  ghost predicate Registry(all: seq<Delegate>, delegates: seq<Delegate>) {
    && (forall i :: 0 <= i < |all| ==> all[i].handle == i)
    && (forall i :: 0 <= i < |delegates| ==> Registered(all, delegates[i]))
  }

  lemma RegistryGrows(all: seq<Delegate>, delegates: seq<Delegate>, d: Delegate)
    requires Registry(all, delegates) && d.handle == |all|
    ensures Registry(all + [d], delegates + [d]) && Registered(all + [d], d)
  {
  }

  class Event {
    var delegates: seq<Delegate>
    var enabled: bool
    var created: nat
    ghost var all: seq<Delegate>

    ghost predicate Known(d: Delegate)
      reads this
    {
      Registered(all, d)
    }

    ghost predicate Valid()
      reads this, all
    {
      && created == |all|
      && Registry(all, delegates)
      && Linked(View())
    }

    ghost function View(): World
      reads this, all
    {
      World(Cells(all), Handles(delegates), enabled)
    }

    /** What every operation leaves alone: the delegates there were, and every object outside. */
    twostate predicate Extends()
      reads this, all
    {
      old(all) <= all && forall i :: |old(all)| <= i < |all| ==> fresh(all[i])
    }

    constructor ()
      ensures Valid() && View() == World([], [], true)
    {
      delegates, enabled, created := [], true, 0;
      all := [];
    }

    method Add(target: Target) returns (handle: nat)
      requires Valid()
      modifies this
      ensures Valid() && Extends()
      ensures View() == Added(old(View()), target)
      ensures handle == |old(all)| && Known(all[handle])
      ensures |delegates| == |old(delegates)| + 1 && delegates[..|old(delegates)|] == old(delegates)
      ensures var d := delegates[|old(delegates)|];
        fresh(d) && d.target == target && d.enabled && d.handle == handle
      ensures enabled == old(enabled)
    {
      hide Round, Perform, Linked, Cells, Handles, Registry, Registered;
      var d := new Delegate(created, target);
      RegistryGrows(all, delegates, d);
      delegates := delegates + [d];
      all := all + [d];
      created := created + 1;
      handle := d.handle;
      assert Cells(all) == old(Cells(all)) + [Cell(target, true)];
      assert Handles(delegates) == old(Handles(delegates)) + [handle];
      DoLinked(old(View()), Action.Add(target));
    }

    /** The delegate at a position is disabled and off the list, and nothing else has changed. */
    twostate predicate TakesOff(i: nat)
      requires i < old(|delegates|) && all == old(all)
      reads this, all
    {
      && delegates == old(delegates)[..i] + old(delegates)[i + 1..]
      && (forall d :: d in all ==> d.enabled == (old(d.enabled) && d != old(delegates)[i]))
      && enabled == old(enabled)
    }

    twostate predicate Untouched()
      requires all == old(all)
      reads this, all
    {
      delegates == old(delegates) && enabled == old(enabled) && forall d :: d in all ==> d.enabled == old(d.enabled)
    }

    predicate HasTarget(i: nat, target: Target)
      requires i < |delegates|
      reads this, delegates
    {
      delegates[i].enabled && delegates[i].target == target
    }

    /** Disables the delegate at a position of the list and takes it off. */
    method RemoveAt(i: nat)
      requires Valid() && i < |delegates|
      modifies this, all
      ensures Valid() && all == old(all)
      ensures View() == Unregistered(old(View()), i)
      ensures TakesOff(i)
    {
      hide Round, Perform, Linked;
      delegates[i].Disable();
      delegates := delegates[..i] + delegates[i + 1..];
      assert View() == Unregistered(old(View()), i);
      UnregisteredLinked(old(View()), i);
    }

    /** Takes off the first listed delegate that is enabled and has the target; `at` is its position, or the
        end of the list if there is none. */
    method Remove(target: Target) returns (ghost at: nat)
      requires Valid()
      modifies this, all
      ensures Valid() && all == old(all)
      ensures View() == Do(old(View()), Action.Remove(target))
      ensures at <= |old(delegates)| && forall j :: 0 <= j < at ==> !old(HasTarget(j, target))
      ensures at < |old(delegates)| ==> old(HasTarget(at, target)) && TakesOff(at)
      ensures at == |old(delegates)| ==> Untouched()
    {
      hide Round, Perform, Linked, FirstMatch, FirstHandle, Unregistered, Cells, Handles;
      var i := 0;
      while i < |delegates| && !(delegates[i].enabled && delegates[i].target == target)
        invariant 0 <= i <= |delegates|
        invariant forall j :: 0 <= j < i ==> !HasTarget(j, target)
        invariant forall j :: 0 <= j < i ==> !Matches(View(), Handles(delegates)[j], target)
      {
        i := i + 1;
      }
      at := i;
      FirstMatchIs(View(), Handles(delegates), target, i);
      if i < |delegates| {
        RemoveAt(i);
      } else {
        NothingThere(View(), i);
      }
    }

    /** The same for the delegate of a handle. */
    method RemoveHandle(handle: nat) returns (ghost at: nat)
      requires Valid()
      modifies this, all
      ensures Valid() && all == old(all)
      ensures View() == Do(old(View()), Action.RemoveHandle(handle))
      ensures at <= |old(delegates)| && forall j :: 0 <= j < at ==> old(delegates)[j].handle != handle
      ensures at < |old(delegates)| ==> old(delegates)[at].handle == handle && TakesOff(at)
      ensures at == |old(delegates)| ==> Untouched()
    {
      hide Round, Perform, Linked, FirstMatch, FirstHandle, Unregistered, Cells, Handles;
      var i := 0;
      while i < |delegates| && delegates[i].handle != handle
        invariant 0 <= i <= |delegates|
        invariant forall j :: 0 <= j < i ==> delegates[j].handle != handle
      {
        i := i + 1;
      }
      at := i;
      FirstHandleIs(Handles(delegates), handle, i);
      if i < |delegates| {
        RemoveAt(i);
      } else {
        NothingThere(View(), i);
      }
    }

    method Clear()
      requires Valid()
      modifies this, all
      ensures Valid() && all == old(all)
      ensures View() == Cleared(old(View()))
      ensures delegates == [] && enabled == old(enabled)
      ensures forall d :: d in all ==> d.enabled == (old(d.enabled) && d !in old(delegates))
    {
      hide Round, Perform, Linked;
      var i := 0;
      while i < |delegates|
        invariant 0 <= i <= |delegates|
        invariant unchanged(this)
        invariant forall k :: 0 <= k < |all| ==>
          all[k].enabled == (old(all[k].enabled) && k !in Handles(delegates)[..i])
      {
        delegates[i].Disable();
        i := i + 1;
      }
      delegates := [];
      assert View() == Cleared(old(View()));
      DoLinked(old(View()), Action.Clear);
    }

    /** `enable()` and `disable()` */
    method SetEnabled(flag: bool)
      requires Valid()
      modifies this`enabled
      ensures Valid() && View() == Do(old(View()), Action.SetEnabled(flag))
      ensures enabled == flag
    {
      enabled := flag;
    }

    /** Runs what a callback does to the event. */
    method Execute(action: Action)
      requires Valid()
      modifies this, all
      ensures Valid() && Extends()
      ensures View() == Do(old(View()), action)
      decreases action, 1
    {
      match action
      case Add(t) =>
        var _ := Add(t);
      case Remove(t) =>
        ghost var _ := Remove(t);
      case RemoveHandle(h) =>
        ghost var _ := RemoveHandle(h);
      case Clear =>
        Clear();
      case SetEnabled(flag) =>
        SetEnabled(flag);
      case Notify(scripts) =>
        var _, _ := Notify(scripts);
    }

    method Run(actions: seq<Action>)
      requires Valid()
      modifies this, all
      ensures Valid() && Extends()
      ensures View() == Perform(old(View()), actions)
      decreases actions, 0
    {
      if actions != [] {
        Execute(actions[0]);
        Run(actions[1..]);
      }
    }

    /** Copies the list, then invokes the delegates of the copy one after the other. */
    method Notify(scripts: seq<Script>) returns (invoked: seq<nat>, used: nat)
      requires Valid()
      modifies this, all
      ensures Valid() && Extends()
      ensures used <= |scripts|
      ensures var v := old(View());
        if v.enabled
        then Outcome(View(), invoked, scripts[used..]) == Round(v, v.registered, scripts)
        else View() == v && invoked == []
      decreases scripts, 0
    {
      hide Round, Perform, Linked, Cells, Handles;
      invoked, used := [], 0;
      if !enabled {
        return;
      }
      var copy := delegates;
      ghost var v, snapshot := View(), Handles(delegates);
      var i := 0;
      while i < |copy|
        invariant 0 <= i <= |copy| == |snapshot| && used <= |scripts|
        invariant Valid() && Extends()
        invariant forall j :: 0 <= j < |copy| ==> Known(copy[j]) && snapshot[j] == copy[j].handle
        invariant
          var o := Round(View(), snapshot[i..], scripts[used..]);
          Round(v, snapshot, scripts) == Outcome(o.world, invoked + o.invoked, o.rest)
        decreases |copy| - i
      {
        RoundTurn(View(), snapshot, i, scripts, used, invoked);
        if copy[i].enabled {
          invoked := invoked + [copy[i].handle];
          if used < |scripts| {
            Run(scripts[used].actions);
            used := used + 1;
          }
        }
        i := i + 1;
      }
      RoundOver(View(), snapshot[i..], scripts[used..], invoked);
    }
  }
}
