/** The base capability: a component with an active flag, a priority, three
    overridable activation gates and a per-frame hook that only its owner's
    manager calls. Engine state the manager relies on (validity, owner,
    registration, tick flags) is kept as plain fields. */
module Capabilities {

  /** A capability class, written as its chain of derivations below the base
      capability class: `[]` is the base class itself, `[3]` a direct subclass,
      `[3, 1]` a subclass of that one. */
  type ClassPath = seq<nat>

  /** The run-time class test (`IsA`): `t` is `cls` or derives from it. */
  predicate IsA(t: ClassPath, cls: ClassPath) {
    cls <= t
  }

  /** A class reference that may be null (`TSubclassOf`). */
  datatype ClassRef = NoClass | Class(path: ClassPath)

  /** The owning actor, by identity. */
  type ActorId = nat

  /** The engine's 32-bit signed integer, the type of a priority. */
  newtype int32 = x: int | -0x8000_0000 <= x < 0x8000_0000

  /** What a capability's tick hook asks of its manager. The model admits only
      these two calls back into the manager from inside a tick. */
  datatype TickCall = NoCall | CallsUpdateCapabilityStates | CallsRequestCapabilityStateUpdate

  /** What a capability class sets up for its instances: its default
      priority, what its three overridable gates answer and the call its tick
      hook makes. */
  datatype ClassDefaults = ClassDefaults(priority: int32, shouldBeActive: bool, shouldActivate: bool,
                                         shouldDeactivate: bool, tickCall: TickCall)

  /** The base capability class's own defaults: priority 0, be active,
      activate, never deactivate, and a tick that does nothing. */
  const BaseDefaults := ClassDefaults(0, true, true, false, NoCall)

  class Capability {
    /** The concrete class of the object; never changes. */
    const classPath: ClassPath

    // Engine component state.
    var owner: ActorId
    var registered: bool
    var valid: bool            // false once destroyed
    var active: bool
    var autoActivate: bool
    var canEverTick: bool
    var startWithTickEnabled: bool
    var tickInEditor: bool
    var tickEnabled: bool

    // Capability settings.
    var priority: int32
    var startActive: bool

    // What the overridable hooks of a concrete capability answer or do.
    var beActiveGate: bool
    var activateGate: bool
    var deactivateGate: bool
    var tickCall: TickCall

    // How often each activation callback has been invoked.
    var activatedCallbacks: nat
    var deactivatedCallbacks: nat

    /** A new capability of class `cls`, set up as `defaults` says, created
        inside actor `outer`: never ticked by the engine, not started active. */
    constructor (cls: ClassPath, defaults: ClassDefaults, outer: ActorId)
      ensures classPath == cls && owner == outer
      ensures valid && !registered && !active
      ensures priority == defaults.priority && !startActive && autoActivate == startActive
      ensures !canEverTick && !startWithTickEnabled && !tickInEditor && !tickEnabled
      ensures ShouldBeActive() == defaults.shouldBeActive && ShouldActivate() == defaults.shouldActivate
      ensures ShouldDeactivate() == defaults.shouldDeactivate && tickCall == defaults.tickCall
      ensures activatedCallbacks == 0 && deactivatedCallbacks == 0
    {
      classPath := cls;
      owner := outer;
      registered := false;
      valid := true;
      active := false;
      priority := defaults.priority;
      startActive := false;
      canEverTick := false;
      startWithTickEnabled := false;
      tickInEditor := false;
      tickEnabled := false;
      autoActivate := startActive;
      beActiveGate := defaults.shouldBeActive;
      activateGate := defaults.shouldActivate;
      deactivateGate := defaults.shouldDeactivate;
      tickCall := defaults.tickCall;
      activatedCallbacks := 0;
      deactivatedCallbacks := 0;
    }

    /** Coarse gate; the base class answers true. */
    function ShouldBeActive(): bool
      reads this`beActiveGate
    {
      beActiveGate
    }

    /** Gate consulted before activating; the base class answers true. */
    function ShouldActivate(): bool
      reads this`activateGate
    {
      activateGate
    }

    /** Gate consulted while active; the base class answers false. */
    function ShouldDeactivate(): bool
      reads this`deactivateGate
    {
      deactivateGate
    }

    /** Engine start of play: switches the engine tick off again. */
    method BeginPlay()
      modifies this`tickEnabled
      ensures !tickEnabled
    {
      tickEnabled := false;
    }

    /** Base activation, then the activated callback, once per call. */
    method Activate()
      modifies this`active, this`activatedCallbacks
      ensures active
      ensures activatedCallbacks == old(activatedCallbacks) + 1
    {
      active := true;
      activatedCallbacks := activatedCallbacks + 1;
    }

    /** Base deactivation, then the deactivated callback, once per call. */
    method Deactivate()
      modifies this`active, this`deactivatedCallbacks
      ensures !active
      ensures deactivatedCallbacks == old(deactivatedCallbacks) + 1
    {
      active := false;
      deactivatedCallbacks := deactivatedCallbacks + 1;
    }

    /** The per-frame hook, called by the owning manager while active. Its
        own effects are the concrete class's business; what the model keeps
        is the call it makes back into the manager, if any. */
    method TickCapability(deltaTime: real) returns (call: TickCall)
      requires active
      ensures call == tickCall
    {
      call := tickCall;
    }

    function GetPriority(): (p: int32)
      reads this`priority
      ensures p == priority
    {
      priority
    }

    method SetPriority(newPriority: int32)
      modifies this`priority
      ensures GetPriority() == newPriority
    {
      priority := newPriority;
    }

    // Engine operations the manager calls, reduced to their effect on the
    // fields above.

    /** Moves the object to a new outer actor. */
    method Rename(newOwner: ActorId)
      modifies this`owner
      ensures owner == newOwner
    {
      owner := newOwner;
    }

    method RegisterComponent()
      modifies this`registered
      ensures registered
    {
      registered := true;
    }

    /** Destroys the component: it is unregistered and no longer valid. */
    method DestroyComponent()
      modifies this`valid, this`registered
      ensures !valid && !registered
    {
      registered := false;
      valid := false;
    }
  }

  /** A component of the owning actor that is not a capability. */
  class DataComponent {
    var valid: bool

    constructor ()
      ensures valid
    {
      valid := true;
    }

    method DestroyComponent()
      modifies this`valid
      ensures !valid
    {
      valid := false;
    }
  }
}
