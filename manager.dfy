/** The capability manager: the per-actor owner of an ordered list of
    capabilities, the list of those currently active (the fast path for
    ticking), the throttle for activation sweeps and the guard that defers a
    sweep requested while the active list is being iterated. */
module CapabilityManager {
  import opened Activation
  import opened Capabilities
  import opened Ordering
  import opened Sequences

  /** What one evaluation does to `c` now. An invalid (destroyed) capability is
      skipped and so remains as it is. */
  function Evaluation(c: Capability): Transition
    reads c`valid, c`active, c`beActiveGate, c`activateGate, c`deactivateGate
  {
    if c.valid then Decide(c.active, c.ShouldBeActive(), c.ShouldActivate(), c.ShouldDeactivate())
    else Remain
  }

  /** An evaluation activates exactly a valid, inactive capability whose
      be-active and activate gates are true, and deactivates exactly a valid,
      active one whose be-active gate is false or deactivate gate true. */
  lemma EvaluationDecides(c: Capability)
    ensures Evaluation(c) == BecomeActive <==> c.valid && !c.active && c.ShouldBeActive() && c.ShouldActivate()
    ensures Evaluation(c) == BecomeInactive <==> c.valid && c.active && (!c.ShouldBeActive() || c.ShouldDeactivate())
  {
  }

  /** A valid capability that keeps the base class's gates is activated by an
      evaluation while inactive and left active by every later one. */
  lemma BaseDefaultsEvaluation(c: Capability)
    requires c.valid
    requires c.ShouldBeActive() == BaseDefaults.shouldBeActive && c.ShouldActivate() == BaseDefaults.shouldActivate
    requires c.ShouldDeactivate() == BaseDefaults.shouldDeactivate
    ensures Evaluation(c) == (if c.active then Remain else BecomeActive)
  {
  }

  /** The decision recorded for `x` in `ev`; `Remain` when none is. */
  function Recorded(ev: map<Capability, Transition>, x: Capability): Transition {
    if x in ev then ev[x] else Remain
  }

  /** The capabilities of `s` recorded in `ev` as activated, in the order of `s`. */
  function Arrived(s: seq<Capability>, ev: map<Capability, Transition>): (r: seq<Capability>)
    ensures forall x | x in r :: x in s && Recorded(ev, x) == BecomeActive
  {
    if s == [] then []
    else
      var init, last := s[..|s| - 1], s[|s| - 1];
      Arrived(init, ev) + (if Recorded(ev, last) == BecomeActive then [last] else [])
  }

  /** Every member of `s` recorded as activated is among the arrivals. */
  lemma {:induction false} ArrivedIncludes(s: seq<Capability>, ev: map<Capability, Transition>, x: Capability)
    requires x in s && Recorded(ev, x) == BecomeActive
    ensures x in Arrived(s, ev)
  {
    var init, last := s[..|s| - 1], s[|s| - 1];
    assert s == init + [last];
    if x != last {
      ArrivedIncludes(init, ev, x);
    }
  }

  /** The capabilities of `s` recorded in `ev` as deactivated. */
  function Departed(s: seq<Capability>, ev: map<Capability, Transition>): set<Capability> {
    set x | x in s && Recorded(ev, x) == BecomeInactive
  }

  /** The active list after one evaluation of `c` decided `t`: an activated
      capability is appended, a deactivated one removed. */
  function ActiveAfter(active: seq<Capability>, c: Capability, t: Transition): seq<Capability> {
    match t
    case BecomeActive => active + [c]
    case BecomeInactive => Without(active, {c})
    case Remain => active
  }

  /** The active list left by evaluating the members of `s` one after the
      other, with the decisions `ev`, starting from the active list `a0`. */
  function Swept(a0: seq<Capability>, s: seq<Capability>, ev: map<Capability, Transition>): seq<Capability> {
    if s == [] then a0
    else
      var init, last := s[..|s| - 1], s[|s| - 1];
      ActiveAfter(Swept(a0, init, ev), last, Recorded(ev, last))
  }

  lemma ArrivedSnoc(p: seq<Capability>, c: Capability, ev: map<Capability, Transition>)
    ensures Arrived(p + [c], ev) == Arrived(p, ev) + (if Recorded(ev, c) == BecomeActive then [c] else [])
  {
    assert (p + [c])[..|p|] == p;
  }

  lemma DepartedSnoc(p: seq<Capability>, c: Capability, ev: map<Capability, Transition>)
    ensures Departed(p + [c], ev) == Departed(p, ev) + (if Recorded(ev, c) == BecomeInactive then {c} else {})
  {
  }

  /** A sweep over a duplicate-free list removes the departed capabilities and
      then appends the arrived ones in list order. */
  lemma {:induction false} SweptRemovesThenAppends(a0: seq<Capability>, s: seq<Capability>, ev: map<Capability, Transition>)
    requires NoDuplicates(s)
    ensures Swept(a0, s, ev) == Without(a0, Departed(s, ev)) + Arrived(s, ev)
  {
    if s == [] {
      assert Departed([], ev) == {};
      WithoutAbsent(a0, {});
    } else {
      var p, c := s[..|s| - 1], s[|s| - 1];
      assert s == p + [c];
      LastIsNew(s);
      SweptRemovesThenAppends(a0, p, ev);
      ArrivedSnoc(p, c, ev);
      DepartedSnoc(p, c, ev);
      var t := Recorded(ev, c);
      var kept, arrived := Without(a0, Departed(p, ev)), Arrived(p, ev);
      if t == BecomeActive {
        assert Departed(p, ev) + {} == Departed(p, ev);
        assert kept + (arrived + [c]) == (kept + arrived) + [c];
      } else if t == BecomeInactive {
        assert c !in arrived;
        RemoveFromRemainder(a0, Departed(p, ev), arrived, c);
      } else {
        assert Departed(p, ev) + {} == Departed(p, ev);
        assert arrived + [] == arrived;
      }
    }
  }

  /** A sweep's active list holds every member recorded as activated. */
  lemma SweptAdds(a0: seq<Capability>, s: seq<Capability>, ev: map<Capability, Transition>, x: Capability)
    requires NoDuplicates(s) && x in s && Recorded(ev, x) == BecomeActive
    ensures x in Swept(a0, s, ev)
  {
    SweptRemovesThenAppends(a0, s, ev);
    ArrivedIncludes(s, ev, x);
  }

  /** A sweep's active list keeps every previously listed capability that was
      not recorded as deactivated. */
  lemma SweptKeeps(a0: seq<Capability>, s: seq<Capability>, ev: map<Capability, Transition>, x: Capability)
    requires NoDuplicates(s) && x in a0 && Recorded(ev, x) != BecomeInactive
    ensures x in Swept(a0, s, ev)
  {
    SweptRemovesThenAppends(a0, s, ev);
    assert x !in Departed(s, ev);
    assert x in Without(a0, Departed(s, ev));
  }

  /** The query test: a live capability whose class is `cls` or derives from it. */
  predicate Matches(c: Capability, cls: ClassPath)
    reads c`valid
  {
    c.valid && IsA(c.classPath, cls)
  }

  /** The members of `s` that match `cls`, in the order of `s`. With `cls == []`
      (the base class) these are the valid members of `s`. */
  function MatchesOf(s: seq<Capability>, cls: ClassPath): (r: seq<Capability>)
    reads (set x | x in s)`valid
    ensures forall x | x in r :: x in s && Matches(x, cls)
  {
    if s == [] then []
    else
      var init, last := s[..|s| - 1], s[|s| - 1];
      MatchesOf(init, cls) + (if Matches(last, cls) then [last] else [])
  }

  /** Every matching member occurs in the result as often as in `s`, and
      nothing else does. */
  lemma {:induction false} MatchesOfCount(s: seq<Capability>, cls: ClassPath, x: Capability)
    ensures multiset(MatchesOf(s, cls))[x] == if Matches(x, cls) then multiset(s)[x] else 0
  {
    if s != [] {
      var init, last := s[..|s| - 1], s[|s| - 1];
      assert s == init + [last];
      MatchesOfCount(init, cls, x);
    }
  }

  /** The result keeps the order of `s`. */
  lemma {:induction false} MatchesOfInOrder(s: seq<Capability>, cls: ClassPath)
    ensures IsSubsequence(MatchesOf(s, cls), s)
  {
    if s != [] {
      var init, last := s[..|s| - 1], s[|s| - 1];
      MatchesOfInOrder(init, cls);
      var m := MatchesOf(init, cls);
      assert s == init + [last];
      if Matches(last, cls) {
        assert MatchesOf(s, cls) == m + [last];
        assert (m + [last])[..|m|] == m;
      } else {
        assert MatchesOf(s, cls) == m;
      }
    }
  }

  /** A component of the owning actor, as passed to `RemoveActorComponent`. */
  datatype ActorComponent =
    | NullComponent
    | CapabilityComponent(capability: Capability)
    | OtherComponent(component: DataComponent)
  {
    function Capabilities(): set<Capability> {
      if CapabilityComponent? then {capability} else {}
    }
    function Others(): set<DataComponent> {
      if OtherComponent? then {component} else {}
    }
  }

  class Manager {
    /** The actor this manager belongs to. */
    const owner: ActorId

    var capabilities: seq<Capability>
    var activeCapabilities: seq<Capability>
    var updateFrequency: real
    var autoTick: bool
    var lastUpdateTime: real
    var isTicking: bool
    var updateRequested: bool
    var canEverTick: bool
    var startWithTickEnabled: bool

    var tickEnabled: bool

    /** Number of activation sweeps run so far. */
    ghost var sweeps: nat

    /** Every capability ticked so far, in the order of the calls. */
    ghost var ticked: seq<Capability>

    /** The invariant every manager operation keeps: neither list holds a
        capability twice, and every listed active capability is a member and
        is active. */
    ghost predicate Valid()
      reads this`capabilities, this`activeCapabilities, (set x | x in capabilities)`active
    {
      && NoDuplicates(capabilities)
      && NoDuplicates(activeCapabilities)
      && forall x | x in activeCapabilities :: x in capabilities && x.active
    }

    /** The active list is exactly the active members, as a set. Every
        operation keeps it except adding an instance that is already active. */
    ghost predicate Consistent()
      reads this`capabilities, this`activeCapabilities, (set x | x in capabilities)`active
    {
      && Valid()
      && forall x | x in capabilities && x.active :: x in activeCapabilities
    }

    /** A new manager of actor `owner`: no capabilities, sweeps at most every
        0.1 seconds, never ticked by the engine. */
    constructor (owner: ActorId)
      ensures this.owner == owner
      ensures capabilities == [] && activeCapabilities == []
      ensures updateFrequency == 0.1 && lastUpdateTime == 0.0 && autoTick
      ensures !isTicking && !updateRequested
      ensures !canEverTick && !startWithTickEnabled
      ensures !tickEnabled && sweeps == 0 && ticked == [] && Consistent()
    {
      this.owner := owner;
      capabilities := [];
      activeCapabilities := [];
      updateFrequency := 0.1;
      autoTick := true;
      lastUpdateTime := 0.0;
      isTicking := false;
      updateRequested := false;
      canEverTick := false;
      startWithTickEnabled := false;
      tickEnabled := false;
      sweeps := 0;
      ticked := [];
    }

    function GetAllCapabilities(): (r: seq<Capability>)
      reads this
      ensures r == capabilities
    {
      capabilities
    }

    function GetActiveCapabilities(): (r: seq<Capability>)
      reads this
      ensures r == activeCapabilities
    {
      activeCapabilities
    }

    /** What one evaluation decides now for each member. */
    ghost function Decisions(): (ev: map<Capability, Transition>)
      reads this`capabilities, (set x | x in capabilities)`valid, (set x | x in capabilities)`active,
            (set x | x in capabilities)`beActiveGate, (set x | x in capabilities)`activateGate,
            (set x | x in capabilities)`deactivateGate
      ensures forall x | x in capabilities :: x in ev && ev[x] == Evaluation(x)
    {
      map x | x in capabilities :: Evaluation(x)
    }

    /** Whether `AddCapabilityInstance(c)` inserts `c`. */
    predicate Admits(c: Capability?)
      reads this, c
    {
      c != null && c.valid && c !in capabilities
    }

    method RequestCapabilityStateUpdate()
      modifies this`updateRequested
      ensures updateRequested
    {
      updateRequested := true;
    }

    /** Activates an inactive valid member and appends it to the active list;
        anything else is left alone. */
    method ActivateCapability(c: Capability)
      requires Valid() && c in capabilities
      modifies this`activeCapabilities, c`active, c`activatedCallbacks
      ensures Valid() && (old(Consistent()) ==> Consistent())
      ensures old(c.valid && !c.active) ==>
                c.active && c.activatedCallbacks == old(c.activatedCallbacks) + 1 &&
                activeCapabilities == old(activeCapabilities) + [c]
      ensures !old(c.valid && !c.active) ==> unchanged(c) && activeCapabilities == old(activeCapabilities)
    {
      if !c.valid || c.active {
        return;
      }
      c.Activate();
      if c !in activeCapabilities {
        AppendNoDuplicates(activeCapabilities, c);
        activeCapabilities := activeCapabilities + [c];
      }
    }

    /** Deactivates a valid capability (the deactivated callback fires even if
        it was inactive) and removes it from the active list. */
    method DeactivateCapability(c: Capability)
      requires Valid()
      modifies this`activeCapabilities, c`active, c`deactivatedCallbacks
      ensures Valid() && (old(Consistent()) ==> Consistent())
      ensures old(c.valid) ==>
                !c.active && c.deactivatedCallbacks == old(c.deactivatedCallbacks) + 1 &&
                activeCapabilities == Without(old(activeCapabilities), {c})
      ensures !old(c.valid) ==> unchanged(c) && activeCapabilities == old(activeCapabilities)
    {
      if !c.valid {
        return;
      }
      c.Deactivate();
      WithoutNoDuplicates(activeCapabilities, {c});
      activeCapabilities := Without(activeCapabilities, {c});
    }

    /** One evaluation of the activation state machine for member `c`.
        `consulted` records the gates it asked, in order: the coarse gate
        of a valid capability always, then the state's own gate only when the
        coarse one says be active (the source's `||` and `&&` short-circuit). */
    method UpdateCapabilityActivation(c: Capability) returns (ghost consulted: Consultation)
      requires Valid() && c in capabilities
      modifies this`activeCapabilities, c`active, c`activatedCallbacks, c`deactivatedCallbacks
      ensures Valid() && (old(Consistent()) ==> Consistent())
      ensures Evaluated(c, old(Evaluation(c)))
      ensures c.active == After(old(c.active), old(Evaluation(c)))
      ensures c.activatedCallbacks == old(c.activatedCallbacks) + (if old(Evaluation(c)) == BecomeActive then 1 else 0)
      ensures c.deactivatedCallbacks == old(c.deactivatedCallbacks) + (if old(Evaluation(c)) == BecomeInactive then 1 else 0)
      ensures activeCapabilities == ActiveAfter(old(activeCapabilities), c, old(Evaluation(c)))
      ensures consulted == Consulted(old(c.valid), old(c.active), c.ShouldBeActive())
    {
      consulted := AskedNone;
      if !c.valid {
        return;
      }
      var isActive := c.active;
      var shouldBeActive := c.ShouldBeActive();
      consulted := AskedCoarse;
      if isActive {
        if shouldBeActive {
          consulted := AskedCoarseThen(Deactivate);
        }
        if !shouldBeActive || c.ShouldDeactivate() {
          DeactivateCapability(c);
        }
      } else {
        if shouldBeActive {
          consulted := AskedCoarseThen(Activate);
        }
        if shouldBeActive && c.ShouldActivate() {
          ActivateCapability(c);
        }
      }
    }

    /** The activation sweep. While the active list is being ticked it only
        records the request and touches no capability. Otherwise it evaluates
        every member of a snapshot of the capability list once, in list order,
        each deciding as `ev` records (what one evaluation decides for it
        now): the deactivated ones leave the active list and the activated
        ones are appended to it, in list order. */
    method UpdateCapabilityStates(ghost ev: map<Capability, Transition>)
      requires Valid()
      requires forall x | x in capabilities :: x in ev && ev[x] == Evaluation(x)
      modifies this`updateRequested, this`activeCapabilities, this`sweeps
      modifies (if isTicking then {} else set x | x in capabilities)`active,
               (if isTicking then {} else set x | x in capabilities)`activatedCallbacks,
               (if isTicking then {} else set x | x in capabilities)`deactivatedCallbacks
      ensures Valid() && (old(Consistent()) ==> Consistent())
      ensures old(isTicking) ==>
                && updateRequested
                && activeCapabilities == old(activeCapabilities)
                && sweeps == old(sweeps)
      ensures !old(isTicking) ==> updateRequested == old(updateRequested) && sweeps == old(sweeps) + 1
      ensures !old(isTicking) ==>
                activeCapabilities == Swept(old(activeCapabilities), capabilities, ev)
      ensures !old(isTicking) ==> forall x | x in capabilities :: Evaluated(x, ev[x])
    {
      if isTicking {
        updateRequested := true;
      } else {
        Sweep(ev);
      }
    }

    /** The sweep proper, outside a tick. */
    method Sweep(ghost ev: map<Capability, Transition>)
      requires Valid() && !isTicking
      requires forall x | x in capabilities :: x in ev && ev[x] == Evaluation(x)
      modifies this`activeCapabilities, this`sweeps
      modifies (set x | x in capabilities)`active, (set x | x in capabilities)`activatedCallbacks,
               (set x | x in capabilities)`deactivatedCallbacks
      ensures Valid() && (old(Consistent()) ==> Consistent())
      ensures sweeps == old(sweeps) + 1
      ensures activeCapabilities == Swept(old(activeCapabilities), capabilities, ev)
      ensures forall x | x in capabilities :: Evaluated(x, ev[x])
    {
      ghost var active0 := activeCapabilities;
      EvaluateMembers(capabilities, ev);
      sweeps := sweeps + 1;
      if old(Consistent()) {
        forall x | x in capabilities && x.active ensures x in activeCapabilities {
          if ev[x] == BecomeActive {
            SweptAdds(active0, capabilities, ev, x);
          } else {
            SweptKeeps(active0, capabilities, ev, x);
          }
        }
      }
    }

    /** The loop of the sweep: one activation update per member of
        `snapshot`, in order, each deciding as recorded in `ev`. */
    method EvaluateMembers(snapshot: seq<Capability>, ghost ev: map<Capability, Transition>)
      requires Valid() && snapshot == capabilities
      requires forall x | x in snapshot :: x in ev && ev[x] == Evaluation(x)
      modifies this`activeCapabilities
      modifies (set x | x in snapshot)`active, (set x | x in snapshot)`activatedCallbacks,
               (set x | x in snapshot)`deactivatedCallbacks
      ensures Valid()
      ensures activeCapabilities == Swept(old(activeCapabilities), snapshot, ev)
      ensures forall x | x in snapshot :: Evaluated(x, ev[x])
    {
      ghost var active0 := activeCapabilities;
      ghost var done: set<Capability> := {};
      DistinctIndices(snapshot);
      var i := 0;
      while i < |snapshot|
        invariant 0 <= i <= |snapshot| && snapshot == capabilities
        invariant Valid()
        invariant forall j | 0 <= j < i :: snapshot[j] in done
        invariant forall j | i <= j < |snapshot| :: snapshot[j] !in done
        invariant forall x | x in done :: x in ev && Evaluated(x, ev[x])
        invariant forall x | x in snapshot && x !in done :: unchanged(x)
        invariant activeCapabilities == Swept(active0, snapshot[..i], ev)
      {
        EvaluateAt(snapshot, i, snapshot[i], active0, ev);
        done := done + {snapshot[i]};
        i := i + 1;
      }
      assert snapshot[..i] == snapshot;
    }

    /** One step of that loop: the activation update of `c`, the member at
        position `i`, if it is still valid. */
    method EvaluateAt(snapshot: seq<Capability>, i: nat, c: Capability,
                      ghost active0: seq<Capability>, ghost ev: map<Capability, Transition>)
      requires Valid() && snapshot == capabilities && i < |snapshot| && c == snapshot[i]
      requires c in ev && ev[c] == Evaluation(c)
      requires activeCapabilities == Swept(active0, snapshot[..i], ev)
      modifies this`activeCapabilities, c`active, c`activatedCallbacks, c`deactivatedCallbacks
      ensures Valid()
      ensures Evaluated(c, ev[c])
      ensures activeCapabilities == Swept(active0, snapshot[..i + 1], ev)
    {
      assert snapshot[..i + 1][..i] == snapshot[..i];
      if c.valid {
        ghost var consulted := UpdateCapabilityActivation(c);
      }
    }

    /** Inserts a valid capability that is not yet a member: moves it to this
        manager's actor, registers it, re-sorts the list by priority and
        evaluates it once. Anything else is ignored. An instance that arrives
        already active and stays active is not put on the active list. */
    method AddCapabilityInstance(c: Capability?)
      requires Valid()
      modifies this`capabilities, this`activeCapabilities
      modifies {c}`owner, {c}`registered, {c}`active, {c}`activatedCallbacks, {c}`deactivatedCallbacks
      ensures Valid()
      ensures !old(Admits(c)) ==> unchanged(this) && (c != null ==> unchanged(c))
      ensures old(Admits(c)) ==>
                && multiset(capabilities) == multiset(old(capabilities)) + multiset{c}
                && SortedByPriority(capabilities)
                && c.owner == owner && c.registered
                && Evaluated(c, old(Evaluation(c)))
                && activeCapabilities == ActiveAfter(old(activeCapabilities), c, old(Evaluation(c)))
      ensures old(Admits(c)) && old(Consistent()) ==>
                (Consistent() <==> !(old(c.active) && old(Evaluation(c)) == Remain))
    {
      if c == null || !c.valid || c in capabilities {
        return;
      }
      Admit(c);
    }

    /** Adding the same instance twice leaves one copy of it in the list (none
        if it was neither valid nor already a member): the second call finds
        it there and does nothing. */
    method AddInstanceTwice(c: Capability)
      requires Valid()
      modifies this`capabilities, this`activeCapabilities
      modifies c`owner, c`registered, c`active, c`activatedCallbacks, c`deactivatedCallbacks
      ensures Valid()
      ensures multiset(capabilities)[c] == if old(c.valid) || c in old(capabilities) then 1 else 0
    {
      AddCapabilityInstance(c);
      AddCapabilityInstance(c);
    }

    /** `AddCapabilityInstance` past its guard. */
    method Admit(c: Capability)
      requires Valid() && c.valid && c !in capabilities
      modifies this`capabilities, this`activeCapabilities
      modifies c`owner, c`registered, c`active, c`activatedCallbacks, c`deactivatedCallbacks
      ensures Valid()
      ensures multiset(capabilities) == multiset(old(capabilities)) + multiset{c}
      ensures SortedByPriority(capabilities)
      ensures c.owner == owner && c.registered
      ensures Evaluated(c, old(Evaluation(c)))
      ensures activeCapabilities == ActiveAfter(old(activeCapabilities), c, old(Evaluation(c)))
      ensures old(Consistent()) ==> (Consistent() <==> !(old(c.active) && old(Evaluation(c)) == Remain))
    {
      ghost var consistent, t, wasActive := Consistent(), Evaluation(c), c.active;
      Adopt(c);
      InsertMember(c);
      ghost var listed, members := activeCapabilities, capabilities;
      ghost var consulted := UpdateCapabilityActivation(c);
      assert capabilities == members;
      if consistent {
        if wasActive && t == Remain {
          assert c in capabilities && c.active && c !in activeCapabilities;
        } else {
          forall x | x in capabilities && x.active ensures x in activeCapabilities {
            if x != c {
              assert x in multiset(old(capabilities));
              assert x in listed;
            } else {
              assert t == BecomeActive;
            }
          }
        }
      }
    }

    /** Moves `c` to this manager's actor and registers it. */
    method Adopt(c: Capability)
      modifies c`owner, c`registered
      ensures c.owner == owner && c.registered
    {
      if c.owner != owner {
        c.Rename(owner);
      }
      if !c.registered {
        c.RegisterComponent();
      }
    }

    /** Appends a new member and re-sorts the list by priority. */
    method InsertMember(c: Capability)
      requires Valid() && c !in capabilities
      modifies this`capabilities
      ensures Valid()
      ensures c in capabilities
      ensures multiset(capabilities) == multiset(old(capabilities)) + multiset{c}
      ensures SortedByPriority(capabilities)
      ensures forall x | x in capabilities && x != c :: x in old(capabilities)
    {
      AppendNoDuplicates(capabilities, c);
      capabilities := capabilities + [c];
      ghost var listed := capabilities;
      capabilities := SortByPriority(capabilities);
      PermutationNoDuplicates(listed, capabilities);
      assert forall x | x in listed :: x in capabilities;
    }

    /** Creates a capability of class `cls` inside this manager's actor and
        adds it; a null class creates nothing. */
    method AddCapability(cls: ClassRef, defaults: ClassDefaults) returns (c: Capability?)
      requires Valid()
      modifies this`capabilities, this`activeCapabilities
      ensures Valid() && (old(Consistent()) ==> Consistent())
      ensures cls.NoClass? ==> c == null && unchanged(this)
      ensures cls.Class? ==>
                && c != null && fresh(c) && c.classPath == cls.path
                && c.priority == defaults.priority
                && c.valid && c.ShouldBeActive() == defaults.shouldBeActive
                && c.ShouldActivate() == defaults.shouldActivate
                && c.ShouldDeactivate() == defaults.shouldDeactivate && c.tickCall == defaults.tickCall
                && c.owner == owner && c.registered
                && multiset(capabilities) == multiset(old(capabilities)) + multiset{c}
                && SortedByPriority(capabilities)
                && c.active == (defaults.shouldBeActive && defaults.shouldActivate)
                && c.activatedCallbacks == (if c.active then 1 else 0) && c.deactivatedCallbacks == 0
                && activeCapabilities == old(activeCapabilities) + (if c.active then [c] else [])
    {
      if cls.NoClass? {
        return null;
      }
      c := new Capability(cls.path, defaults, owner);
      AddCapabilityInstance(c);
    }

    /** A capability of a class that keeps the base class's defaults is
        active as soon as it is added, listed active last, and listed ahead
        of every member of negative priority. */
    method AddBaseCapability(cls: ClassPath) returns (c: Capability)
      requires Valid()
      modifies this`capabilities, this`activeCapabilities
      ensures Valid() && (old(Consistent()) ==> Consistent())
      ensures c.active && c.activatedCallbacks == 1 && c.priority == 0
      ensures activeCapabilities == old(activeCapabilities) + [c]
      ensures forall x | x in capabilities && x.priority < 0 ::
                exists i, j :: 0 <= i < j < |capabilities| && capabilities[i] == c && capabilities[j] == x
    {
      var added := AddCapability(Class(cls), BaseDefaults);
      c := added;
      assert c in multiset(capabilities);
      forall x | x in capabilities && x.priority < 0
        ensures exists i, j :: 0 <= i < j < |capabilities| && capabilities[i] == c && capabilities[j] == x
      {
        HigherPriorityFirst(capabilities, c, x);
      }
    }

    /** Removes a valid capability: deactivates it if it is on the active
        list, drops it from the member list and destroys it. An invalid one is
        ignored. */
    method RemoveCapability(c: Capability?)
      requires Valid()
      modifies this`capabilities, this`activeCapabilities
      modifies {c}`active, {c}`deactivatedCallbacks, {c}`valid, {c}`registered
      ensures Valid() && (old(Consistent()) ==> Consistent())
      ensures c == null || !old(c.valid) ==> unchanged(this) && (c != null ==> unchanged(c))
      ensures c != null && old(c.valid) ==>
                var gone: set<Capability> := {c};
                && capabilities == Without(old(capabilities), gone)
                && activeCapabilities == Without(old(activeCapabilities), gone)
                && c !in capabilities && c !in activeCapabilities
                && !c.valid && !c.registered
                && c.active == (old(c.active) && c !in old(activeCapabilities))
                && c.deactivatedCallbacks == old(c.deactivatedCallbacks) + (if c in old(activeCapabilities) then 1 else 0)
    {
      if c == null || !c.valid {
        return;
      }
      Discard(c);
    }

    /** `RemoveCapability` past its guard. */
    method Discard(c: Capability)
      requires Valid() && c.valid
      modifies this`capabilities, this`activeCapabilities
      modifies c`active, c`deactivatedCallbacks, c`valid, c`registered
      ensures Valid() && (old(Consistent()) ==> Consistent())
      ensures capabilities == Without(old(capabilities), {c})
      ensures activeCapabilities == Without(old(activeCapabilities), {c})
      ensures c !in capabilities && c !in activeCapabilities
      ensures !c.valid && !c.registered
      ensures c.active == (old(c.active) && c !in old(activeCapabilities))
      ensures c.deactivatedCallbacks == old(c.deactivatedCallbacks) + (if c in old(activeCapabilities) then 1 else 0)
    {
      ghost var consistent := Consistent();
      if c in activeCapabilities {
        DeactivateCapability(c);
      } else {
        WithoutAbsent(activeCapabilities, {c});
      }
      DropMember(c);
      ghost var active := c.active;
      c.DestroyComponent();
      assert c.active == active;
      assert consistent ==> Consistent();
    }

    /** Takes `c`, which is not on the active list, off the member list. */
    method DropMember(c: Capability)
      requires Valid() && c !in activeCapabilities
      modifies this`capabilities
      ensures Valid() && (old(Consistent()) ==> Consistent())
      ensures capabilities == Without(old(capabilities), {c})
    {
      WithoutNoDuplicates(capabilities, {c});
      capabilities := Without(capabilities, {c});
    }

    /** Removes a component of the owning actor: a capability goes through
        `RemoveCapability`, any other valid component is destroyed. */
    method RemoveActorComponent(component: ActorComponent)
      requires Valid()
      modifies this`capabilities, this`activeCapabilities
      modifies component.Capabilities()`active, component.Capabilities()`deactivatedCallbacks,
               component.Capabilities()`valid, component.Capabilities()`registered
      modifies component.Others()`valid
      ensures Valid() && (old(Consistent()) ==> Consistent())
      ensures component.NullComponent? ==> unchanged(this)
      ensures component.OtherComponent? ==> unchanged(this) && !component.component.valid
      ensures component.CapabilityComponent? ==>
                var c := component.capability;
                && (!old(c.valid) ==> unchanged(this) && unchanged(c))
                && (old(c.valid) ==>
                      && capabilities == Without(old(capabilities), {c})
                      && activeCapabilities == Without(old(activeCapabilities), {c})
                      && !c.valid && !c.registered
                      && c.active == (old(c.active) && c !in old(activeCapabilities))
                      && c.deactivatedCallbacks ==
                           old(c.deactivatedCallbacks) + (if c in old(activeCapabilities) then 1 else 0))
    {
      match component
      case NullComponent =>
      case CapabilityComponent(c) =>
        if c.valid {
          RemoveCapability(c);
        }
      case OtherComponent(d) =>
        if d.valid {
          d.DestroyComponent();
        }
    }

    /** The first valid member of class `cls`, in list order; null when there
        is none or `cls` is null. */
    method GetCapability(cls: ClassRef) returns (r: Capability?)
      ensures cls.NoClass? ==> r == null
      ensures cls.Class? ==>
                var found := MatchesOf(capabilities, cls.path);
                if found == [] then r == null else r == found[0]
    {
      if cls.NoClass? {
        return null;
      }
      var i := 0;
      while i < |capabilities|
        invariant 0 <= i <= |capabilities|
        invariant MatchesOf(capabilities[..i], cls.path) == []
      {
        var c := capabilities[i];
        FirstMatchAt(capabilities, cls.path, i);
        if c.valid && IsA(c.classPath, cls.path) {
          return c;
        }
        i := i + 1;
      }
      assert capabilities[..i] == capabilities;
      return null;
    }

    /** Every valid member of class `cls`, in list order; empty when `cls` is
        null. */
    method GetCapabilities(cls: ClassRef) returns (r: seq<Capability>)
      ensures cls.NoClass? ==> r == []
      ensures cls.Class? ==> r == MatchesOf(capabilities, cls.path)
    {
      r := [];
      if cls.NoClass? {
        return;
      }
      for i := 0 to |capabilities|
        invariant r == MatchesOf(capabilities[..i], cls.path)
      {
        var c := capabilities[i];
        assert capabilities[..i + 1][..i] == capabilities[..i];
        if c.valid && IsA(c.classPath, cls.path) {
          r := r + [c];
        }
      }
      assert capabilities[..|capabilities|] == capabilities;
    }

    /** Start of play: one activation sweep (only requested if a tick pass is
        under way), then the engine tick is switched off. `decided` is what
        one evaluation decides for each member at the start. */
    method BeginPlay() returns (ghost decided: map<Capability, Transition>)
      requires Valid()
      modifies this`updateRequested, this`activeCapabilities, this`sweeps, this`tickEnabled
      modifies (set x | x in capabilities)`active, (set x | x in capabilities)`activatedCallbacks,
               (set x | x in capabilities)`deactivatedCallbacks
      ensures Valid() && (old(Consistent()) ==> Consistent())
      ensures !tickEnabled
      ensures forall x | x in capabilities :: x in decided && decided[x] == old(Evaluation(x))
      ensures old(isTicking) ==>
                && updateRequested
                && activeCapabilities == old(activeCapabilities)
                && sweeps == old(sweeps)
                && forall x | x in capabilities :: Evaluated(x, Remain)
      ensures !old(isTicking) ==> updateRequested == old(updateRequested) && sweeps == old(sweeps) + 1
      ensures !old(isTicking) ==>
                activeCapabilities == Swept(old(activeCapabilities), capabilities, decided)
      ensures !old(isTicking) ==> forall x | x in capabilities :: Evaluated(x, decided[x])
    {
      decided := Decisions();
      UpdateCapabilityStates(decided);
      tickEnabled := false;
    }

    /** One manual frame at world time `now`: a throttled sweep when at least
        `updateFrequency` seconds have passed since the last one, a sweep for a
        pending request, then the tick pass over the active list, then a sweep
        for any request made during the pass. `decided` is what one evaluation
        decides for each member at the start of the frame, `pass` the active
        list as the tick pass found it, `live` its valid entries and `calling`
        those whose tick hook calls back into the manager. */
    method ManualTick(deltaTime: real, now: real)
      returns (ghost decided: map<Capability, Transition>, ghost pass: seq<Capability>,
               ghost live: set<Capability>, ghost calling: set<Capability>)
      requires Valid() && !isTicking
      modifies this`lastUpdateTime, this`updateRequested, this`isTicking, this`activeCapabilities,
               this`sweeps, this`ticked
      modifies (set x | x in capabilities)`active, (set x | x in capabilities)`activatedCallbacks,
               (set x | x in capabilities)`deactivatedCallbacks
      ensures Valid() && (old(Consistent()) ==> Consistent())
      ensures !isTicking && !updateRequested
      ensures forall x | x in capabilities :: x in decided && decided[x] == old(Evaluation(x))
      ensures lastUpdateTime == if now - old(lastUpdateTime) >= updateFrequency then now else old(lastUpdateTime)
      ensures forall x | x in pass :: x in capabilities
      ensures forall x | x in pass :: (x in live <==> x.valid) && (x in calling <==> x.valid && x.tickCall != NoCall)
      ensures ticked == old(ticked) + Live(pass, live)
      ensures sweeps == old(sweeps) + (if now - old(lastUpdateTime) >= updateFrequency then 1 else 0)
                                    + (if old(updateRequested) then 1 else 0)
                                    + (if Calling(pass, calling) then 1 else 0)
      // no sweep before the pass
      ensures now - old(lastUpdateTime) < updateFrequency && !old(updateRequested) ==>
                pass == old(activeCapabilities)
      ensures now - old(lastUpdateTime) < updateFrequency && !old(updateRequested) && !Calling(pass, calling) ==>
                forall x | x in capabilities :: Evaluated(x, Remain)
      // exactly one sweep before the pass
      ensures (now - old(lastUpdateTime) >= updateFrequency) != old(updateRequested) ==>
                pass == Swept(old(activeCapabilities), capabilities, decided)
      ensures (now - old(lastUpdateTime) >= updateFrequency) != old(updateRequested) && !Calling(pass, calling) ==>
                forall x | x in capabilities :: Evaluated(x, decided[x])
      ensures !Calling(pass, calling) ==> activeCapabilities == pass
      // no sweep before the pass, a flush sweep after it
      ensures now - old(lastUpdateTime) < updateFrequency && !old(updateRequested) && Calling(pass, calling) ==>
                activeCapabilities == Swept(old(activeCapabilities), capabilities, decided)
      ensures now - old(lastUpdateTime) < updateFrequency && !old(updateRequested) && Calling(pass, calling) ==>
                forall x | x in capabilities :: Evaluated(x, decided[x])
    {
      decided := Decisions();
      SweepsBeforePass(now, decided);
      label swept:
      pass := activeCapabilities;
      ghost var next := Decisions();
      assert now - old(lastUpdateTime) < updateFrequency && !old(updateRequested) ==> next == decided;
      live, calling := TickAndFlush(deltaTime, next);
      if !Calling(pass, calling) {
        assert forall x | x in capabilities :: ProgressOf(x) == old@swept(ProgressOf(x));
      }
    }

    /** The start of a frame: the throttled sweep, then the sweep for a pending
        request. When exactly one of the two runs, it decides as recorded in
        `ev`. */
    method SweepsBeforePass(now: real, ghost ev: map<Capability, Transition>)
      requires Valid() && !isTicking
      requires forall x | x in capabilities :: x in ev && ev[x] == Evaluation(x)
      modifies this`lastUpdateTime, this`updateRequested, this`activeCapabilities, this`sweeps
      modifies (set x | x in capabilities)`active, (set x | x in capabilities)`activatedCallbacks,
               (set x | x in capabilities)`deactivatedCallbacks
      ensures Valid() && (old(Consistent()) ==> Consistent())
      ensures !updateRequested
      ensures lastUpdateTime == if now - old(lastUpdateTime) >= updateFrequency then now else old(lastUpdateTime)
      ensures sweeps == old(sweeps) + (if now - old(lastUpdateTime) >= updateFrequency then 1 else 0)
                                    + (if old(updateRequested) then 1 else 0)
      ensures now - old(lastUpdateTime) < updateFrequency && !old(updateRequested) ==>
                activeCapabilities == old(activeCapabilities) && forall x | x in capabilities :: Evaluated(x, Remain)
      ensures now - old(lastUpdateTime) < updateFrequency && !old(updateRequested) ==>
                unchanged(set x | x in capabilities)
      ensures (now - old(lastUpdateTime) >= updateFrequency) != old(updateRequested) ==>
                activeCapabilities == Swept(old(activeCapabilities), capabilities, ev)
      ensures (now - old(lastUpdateTime) >= updateFrequency) != old(updateRequested) ==>
                forall x | x in capabilities :: Evaluated(x, ev[x])
    {
      var due := now - lastUpdateTime >= updateFrequency;
      ThrottledSweep(now, ev);
      ghost var next := if due then Decisions() else ev;
      PendingSweep(next);
    }

    /** The end of a frame: the tick pass, then a sweep, deciding as recorded
        in `ev`, exactly when a valid entry's tick hook called back into the
        manager. */
    method TickAndFlush(deltaTime: real, ghost ev: map<Capability, Transition>)
      returns (ghost live: set<Capability>, ghost calling: set<Capability>)
      requires Valid() && !isTicking && !updateRequested
      requires forall x | x in capabilities :: x in ev && ev[x] == Evaluation(x)
      modifies this`updateRequested, this`isTicking, this`activeCapabilities, this`sweeps, this`ticked
      modifies (set x | x in capabilities)`active, (set x | x in capabilities)`activatedCallbacks,
               (set x | x in capabilities)`deactivatedCallbacks
      ensures Valid() && (old(Consistent()) ==> Consistent())
      ensures !isTicking && !updateRequested
      ensures forall x | x in old(activeCapabilities) ::
                (x in live <==> x.valid) && (x in calling <==> x.valid && x.tickCall != NoCall)
      ensures ticked == old(ticked) + Live(old(activeCapabilities), live)
      ensures sweeps == old(sweeps) + (if Calling(old(activeCapabilities), calling) then 1 else 0)
      ensures activeCapabilities == if Calling(old(activeCapabilities), calling)
                                    then Swept(old(activeCapabilities), capabilities, ev)
                                    else old(activeCapabilities)
      ensures forall x | x in capabilities ::
                Evaluated(x, if Calling(old(activeCapabilities), calling) then ev[x] else Remain)
      ensures !Calling(old(activeCapabilities), calling) ==> unchanged(set x | x in capabilities)
    {
      live, calling := TickActive(deltaTime);
      RequestedSweep(ev);
    }

    /** The first step of a frame: a sweep, deciding as recorded in `ev`, when
        `updateFrequency` seconds have passed since the last one, which then
        becomes `now`; otherwise nothing changes. */
    method ThrottledSweep(now: real, ghost ev: map<Capability, Transition>)
      requires Valid() && !isTicking
      requires forall x | x in capabilities :: x in ev && ev[x] == Evaluation(x)
      modifies this`lastUpdateTime, this`updateRequested, this`activeCapabilities, this`sweeps
      modifies (set x | x in capabilities)`active, (set x | x in capabilities)`activatedCallbacks,
               (set x | x in capabilities)`deactivatedCallbacks
      ensures Valid() && (old(Consistent()) ==> Consistent())
      ensures updateRequested == old(updateRequested)
      ensures lastUpdateTime == if now - old(lastUpdateTime) >= updateFrequency then now else old(lastUpdateTime)
      ensures sweeps == old(sweeps) + if now - old(lastUpdateTime) >= updateFrequency then 1 else 0
      ensures activeCapabilities == if now - old(lastUpdateTime) >= updateFrequency
                                    then Swept(old(activeCapabilities), capabilities, ev)
                                    else old(activeCapabilities)
      ensures forall x | x in capabilities ::
                Evaluated(x, if now - old(lastUpdateTime) >= updateFrequency then ev[x] else Remain)
      ensures now - old(lastUpdateTime) < updateFrequency ==> unchanged(this) && unchanged(set x | x in capabilities)
    {
      if now - lastUpdateTime >= updateFrequency {
        UpdateCapabilityStates(ev);
        lastUpdateTime := now;
      }
    }

    /** The second step of a frame: a sweep, deciding as recorded in `ev`, for
        a request still pending; otherwise nothing changes. */
    method PendingSweep(ghost ev: map<Capability, Transition>)
      requires Valid() && !isTicking
      requires forall x | x in capabilities :: x in ev && ev[x] == Evaluation(x)
      modifies this`updateRequested, this`activeCapabilities, this`sweeps
      modifies (set x | x in capabilities)`active, (set x | x in capabilities)`activatedCallbacks,
               (set x | x in capabilities)`deactivatedCallbacks
      ensures Valid() && (old(Consistent()) ==> Consistent())
      ensures !updateRequested
      ensures sweeps == old(sweeps) + (if old(updateRequested) then 1 else 0)
      ensures activeCapabilities == if old(updateRequested)
                                    then Swept(old(activeCapabilities), capabilities, ev)
                                    else old(activeCapabilities)
      ensures forall x | x in capabilities :: Evaluated(x, if old(updateRequested) then ev[x] else Remain)
      ensures !old(updateRequested) ==> unchanged(this) && unchanged(set x | x in capabilities)
    {
      if updateRequested && !isTicking {
        UpdateCapabilityStates(ev);
        updateRequested := false;
      }
    }

    /** The last step of a frame: a sweep, deciding as recorded in `ev`, for a
        request made during the tick pass; otherwise nothing changes. */
    method RequestedSweep(ghost ev: map<Capability, Transition>)
      requires Valid() && !isTicking
      requires forall x | x in capabilities :: x in ev && ev[x] == Evaluation(x)
      modifies this`updateRequested, this`activeCapabilities, this`sweeps
      modifies (set x | x in capabilities)`active, (set x | x in capabilities)`activatedCallbacks,
               (set x | x in capabilities)`deactivatedCallbacks
      ensures Valid() && (old(Consistent()) ==> Consistent())
      ensures !updateRequested
      ensures sweeps == old(sweeps) + (if old(updateRequested) then 1 else 0)
      ensures activeCapabilities == if old(updateRequested)
                                    then Swept(old(activeCapabilities), capabilities, ev)
                                    else old(activeCapabilities)
      ensures forall x | x in capabilities :: Evaluated(x, if old(updateRequested) then ev[x] else Remain)
      ensures !old(updateRequested) ==> unchanged(this) && unchanged(set x | x in capabilities)
    {
      if updateRequested {
        UpdateCapabilityStates(ev);
        updateRequested := false;
      }
    }

    /** The tick pass, run with the ticking flag raised: every valid entry of
        the active list is ticked once, in list order, and the call its tick
        hook makes back into the manager is carried out. A sweep asked for
        during the pass is only recorded, so neither list changes. */
    method TickActive(deltaTime: real) returns (ghost live: set<Capability>, ghost calling: set<Capability>)
      requires Valid() && !isTicking
      modifies this`updateRequested, this`isTicking, this`activeCapabilities, this`sweeps, this`ticked
      ensures Valid() && (old(Consistent()) ==> Consistent())
      ensures !isTicking
      ensures activeCapabilities == old(activeCapabilities) && sweeps == old(sweeps)
      ensures forall x | x in activeCapabilities ::
                (x in live <==> x.valid) && (x in calling <==> x.valid && x.tickCall != NoCall)
      ensures ticked == old(ticked) + Live(activeCapabilities, live)
      ensures updateRequested == (old(updateRequested) || Calling(activeCapabilities, calling))
    {
      live := set x | x in activeCapabilities && x.valid;
      calling := set x | x in activeCapabilities && x.valid && x.tickCall != NoCall;
      isTicking := true;
      TickEach(deltaTime, live, calling);
      isTicking := false;
    }

    /** The loop of the tick pass, over decisions fixed beforehand: `live` are
        the valid entries, `calling` those whose hook calls back. */
    method TickEach(deltaTime: real, ghost live: set<Capability>, ghost calling: set<Capability>)
      requires Valid() && isTicking
      requires forall x | x in activeCapabilities :: (x in live <==> x.valid) && (x in calling <==> x.valid && x.tickCall != NoCall)
      modifies this`updateRequested, this`activeCapabilities, this`sweeps, this`ticked
      ensures Valid()
      ensures activeCapabilities == old(activeCapabilities) && sweeps == old(sweeps)
      ensures ticked == old(ticked) + Live(activeCapabilities, live)
      ensures updateRequested == (old(updateRequested) || Calling(activeCapabilities, calling))
    {
      var i := 0;
      while i < |activeCapabilities|
        invariant 0 <= i <= |activeCapabilities|
        invariant Valid() && isTicking
        invariant activeCapabilities == old(activeCapabilities) && sweeps == old(sweeps)
        invariant ticked == old(ticked) + Live(activeCapabilities[..i], live)
        invariant updateRequested == (old(updateRequested) || Calling(activeCapabilities[..i], calling))
      {
        assert activeCapabilities[..i + 1][..i] == activeCapabilities[..i];
        TickAt(i, activeCapabilities[i], deltaTime, live, calling);
        i := i + 1;
      }
      assert activeCapabilities[..i] == activeCapabilities;
    }

    /** One step of the tick pass: entry `i` of the active list. */
    method TickAt(i: nat, c: Capability, deltaTime: real, ghost live: set<Capability>, ghost calling: set<Capability>)
      requires Valid() && isTicking && i < |activeCapabilities| && c == activeCapabilities[i]
      requires (c in live <==> c.valid) && (c in calling <==> c.valid && c.tickCall != NoCall)
      modifies this`updateRequested, this`activeCapabilities, this`sweeps, this`ticked
      ensures Valid()
      ensures activeCapabilities == old(activeCapabilities) && sweeps == old(sweeps)
      ensures ticked == old(ticked) + (if c in live then [c] else [])
      ensures updateRequested == (old(updateRequested) || c in calling)
    {
      if c.valid {
        var call := c.TickCapability(deltaTime);
        ticked := ticked + [c];
        if call == CallsUpdateCapabilityStates {
          UpdateCapabilityStates(Decisions());
        } else if call == CallsRequestCapabilityStateUpdate {
          RequestCapabilityStateUpdate();
        }
      }
    }
  }

  /** Changing the priority of a capability leaves every manager's lists as
      they are: the member list is re-sorted only on the next insertion. */
  method Reprioritize(m: Manager, c: Capability, p: int32)
    modifies c`priority
    ensures c.GetPriority() == p
    ensures m.capabilities == old(m.capabilities) && m.activeCapabilities == old(m.activeCapabilities)
  {
    c.SetPriority(p);
  }

  /** On a fresh manager the first frame sweeps exactly when world time has
      reached the default update frequency of 0.1 seconds; with no members,
      nothing is ticked and nothing becomes active. */
  method FirstFrame(owner: ActorId, deltaTime: real, now: real) returns (m: Manager)
    ensures m.sweeps == if now >= 0.1 then 1 else 0
    ensures m.lastUpdateTime == if now >= 0.1 then now else 0.0
    ensures m.ticked == [] && m.activeCapabilities == [] && m.Consistent()
  {
    m := new Manager(owner);
    ghost var decided, pass, live, calling := m.ManualTick(deltaTime, now);
    assert pass == [];
  }

  /** A frame that is due for the throttled sweep, with no request pending and
      no tick hook that calls back, ticks every valid member that the sweep
      activates. */
  method DueFrameTicksArrival(m: Manager, x: Capability, deltaTime: real, now: real)
    requires m.Valid() && !m.isTicking && !m.updateRequested
    requires now - m.lastUpdateTime >= m.updateFrequency
    requires forall y | y in m.capabilities :: y.tickCall == NoCall
    requires x in m.capabilities && x.valid && !x.active && x.ShouldBeActive() && x.ShouldActivate()
    modifies m`lastUpdateTime, m`updateRequested, m`isTicking, m`activeCapabilities, m`sweeps, m`ticked
    modifies (set y | y in m.capabilities)`active, (set y | y in m.capabilities)`activatedCallbacks,
             (set y | y in m.capabilities)`deactivatedCallbacks
    ensures x.active && x in m.ticked
  {
    ghost var active0 := m.activeCapabilities;
    ghost var decided, pass, live, calling := m.ManualTick(deltaTime, now);
    CallingHas(pass, calling);
    SweptAdds(active0, m.capabilities, decided, x);
    LiveHas(pass, live, x);
  }

  /** A capability just added for class `cls` is found again by a query for
      that class, with the gates and hook its class sets up. */
  method AddThenQuery(m: Manager, cls: ClassPath, defaults: ClassDefaults) returns (c: Capability?, found: seq<Capability>)
    requires m.Valid()
    modifies m`capabilities, m`activeCapabilities
    ensures c != null && c in found
    ensures c.ShouldBeActive() == defaults.shouldBeActive && c.ShouldActivate() == defaults.shouldActivate
    ensures c.ShouldDeactivate() == defaults.shouldDeactivate && c.tickCall == defaults.tickCall
  {
    c := m.AddCapability(Class(cls), defaults);
    found := m.GetCapabilities(Class(cls));
    assert c in multiset(m.capabilities);
    MatchesOfCount(m.capabilities, cls, c);
    assert c in multiset(found);
  }

  /** Whether some valid capability of `s` calls back into the manager from
      its tick hook. */
  predicate Requesting(s: seq<Capability>)
    reads (set x | x in s)`valid, (set x | x in s)`tickCall
  {
    if s == [] then false
    else
      var init, last := s[..|s| - 1], s[|s| - 1];
      Requesting(init) || (last.valid && last.tickCall != NoCall)
  }

  /** `MatchesOf(s, [])` over validity recorded in `live`. */
  function Live(s: seq<Capability>, live: set<Capability>): seq<Capability> {
    if s == [] then []
    else
      var init, last := s[..|s| - 1], s[|s| - 1];
      Live(init, live) + (if last in live then [last] else [])
  }

  /** A capability is ticked by a pass over `s` exactly when it is listed and
      recorded as live. */
  lemma {:induction false} LiveHas(s: seq<Capability>, live: set<Capability>, x: Capability)
    ensures x in Live(s, live) <==> x in s && x in live
  {
    if s != [] {
      var init, last := s[..|s| - 1], s[|s| - 1];
      assert s == init + [last];
      LiveHas(init, live, x);
    }
  }

  /** `Requesting(s)` over the callers recorded in `calling`. */
  predicate Calling(s: seq<Capability>, calling: set<Capability>) {
    if s == [] then false
    else
      var init, last := s[..|s| - 1], s[|s| - 1];
      Calling(init, calling) || last in calling
  }

  /** A pass over `s` calls back exactly when a listed capability is a caller. */
  lemma {:induction false} CallingHas(s: seq<Capability>, calling: set<Capability>)
    ensures Calling(s, calling) <==> exists x | x in s :: x in calling
  {
    if s != [] {
      var init, last := s[..|s| - 1], s[|s| - 1];
      assert s == init + [last];
      CallingHas(init, calling);
      if last in calling {
        assert last in s;
      }
    }
  }

  /** Recorded validity and callers that agree with the heap give the same
      filter and the same answer. */
  lemma {:induction false} LiveAndCalling(s: seq<Capability>, live: set<Capability>, calling: set<Capability>)
    requires forall x | x in s :: (x in live <==> x.valid) && (x in calling <==> x.valid && x.tickCall != NoCall)
    ensures Live(s, live) == MatchesOf(s, [])
    ensures Calling(s, calling) == Requesting(s)
  {
    if s != [] {
      var init := s[..|s| - 1];
      assert forall x | x in init :: x in s;
      LiveAndCalling(init, live, calling);
    }
  }

  /** The matches of a prefix extended by one element. */
  lemma FirstMatchAt(s: seq<Capability>, cls: ClassPath, i: nat)
    requires i < |s| && MatchesOf(s[..i], cls) == []
    ensures MatchesOf(s[..i + 1], cls) == if Matches(s[i], cls) then [s[i]] else []
    ensures Matches(s[i], cls) ==> MatchesOf(s, cls) != [] && MatchesOf(s, cls)[0] == s[i]
  {
    assert s[..i + 1][..i] == s[..i];
    if Matches(s[i], cls) {
      MatchesOfPrefix(s, cls, i + 1);
    }
  }

  /** The matches of a prefix are a prefix of the matches. */
  lemma {:induction false} MatchesOfPrefix(s: seq<Capability>, cls: ClassPath, k: nat)
    requires k <= |s|
    ensures MatchesOf(s[..k], cls) <= MatchesOf(s, cls)
    decreases |s|
  {
    if k < |s| {
      var init := s[..|s| - 1];
      assert init[..k] == s[..k];
      MatchesOfPrefix(init, cls, k);
    } else {
      assert s[..k] == s;
    }
  }

  /** What one evaluation changes on a capability: its active flag and how
      often each of its two activation callbacks has run. */
  datatype Progress = Progress(active: bool, activated: nat, deactivated: nat)

  function ProgressOf(x: Capability): Progress
    reads x`active, x`activatedCallbacks, x`deactivatedCallbacks
  {
    Progress(x.active, x.activatedCallbacks, x.deactivatedCallbacks)
  }

  /** The progress after an evaluation that decided `t`: the flag follows the
      transition and the matching callback has run once more. */
  function Advance(p: Progress, t: Transition): Progress {
    Progress(After(p.active, t),
             p.activated + (if t == BecomeActive then 1 else 0),
             p.deactivated + (if t == BecomeInactive then 1 else 0))
  }

  /** Between the earlier state and this one, `x` went through exactly one
      evaluation that decided `t` (for `Remain`: nothing changed). */
  twostate predicate Evaluated(x: Capability, t: Transition)
    reads x`active, x`activatedCallbacks, x`deactivatedCallbacks
  {
    ProgressOf(x) == Advance(old(ProgressOf(x)), t)
  }
}
