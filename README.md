# Capability manager model

A Dafny model of the capability system of the CreativeGame Unreal project:
the per-actor capability manager component and the base capability it
drives.

A **capability** (`Capabilities.Capability`) is a component with an active
flag, a 32-bit priority and three overridable activation gates
(`ShouldBeActive`, `ShouldActivate`, `ShouldDeactivate`). It also has a
per-frame hook, `TickCapability`, that only its owner's manager calls.
Engine state the manager relies on is kept as plain fields:

- validity, standing in for `IsValid` and destruction;
- the owning actor;
- registration;
- the engine tick flags;
- the class, a chain of derivations with `IsA` as the prefix test.

What a concrete class sets up is given at construction as a `ClassDefaults`
value: its default priority, what its three gates answer and the call its
tick hook makes. The base class's own are `BaseDefaults`. Two counters
record how often the activated and deactivated callbacks have fired.

The **manager** (`CapabilityManager.Manager`) owns:

- `capabilities`, the member list, re-sorted by priority (highest first)
  after every insertion;
- `activeCapabilities`, the fast-path list the tick pass walks. It is kept
  in activation order, not priority order;
- the throttle timestamp `lastUpdateTime` and the frequency
  `updateFrequency` (0.1 seconds);
- the two flags `isTicking` and `updateRequested`. They defer a sweep that
  is asked for while the active list is being walked.

An **activation sweep** (`UpdateCapabilityStates`) evaluates every valid
member of a snapshot of the member list, once each and in list order. Each
evaluation runs the two-state machine of `Activation.Decide`:

- an active capability is deactivated exactly when it should not be active
  or should deactivate;
- an inactive one is activated exactly when it should be active and should
  activate.

`Evaluation(c)` is what one evaluation decides for `c` in the current state.
The sweep contracts take these decisions as a ghost map `ev`, whose
precondition pins `ev[x]` to `Evaluation(x)` when the sweep starts.
`Swept(a0, s, ev)` is the active list left by evaluating the members of `s`
one after the other, starting from the active list `a0`. The lemma
`SweptRemovesThenAppends` proves that it is `a0` without the deactivated
members, followed by the activated ones in list order.

A **frame** (`ManualTick`) runs these steps in order:

1. a throttled sweep;
2. a sweep for a request still pending;
3. the tick pass over the valid entries of the active list;
4. a sweep for any request made during the pass.

Two ghost fields make the behaviour observable to contracts:

- `sweeps` counts activation sweeps;
- `ticked` logs every capability ticked, in call order.

The model has two invariants:

- `Valid()` says that neither list holds a duplicate and that every listed
  active capability is an active member. Every operation keeps it.
- `Consistent()` adds that every active member is listed active. Every
  operation keeps it except one case of `AddCapabilityInstance`.

That case is an instance that is already active when added and stays
active. The source never appends it to the active list, so it is never
ticked. The contract of `AddCapabilityInstance` states this case exactly,
as an if-and-only-if.

The source runs a few steps under names the model does not keep. The model
gives each of those steps its own method, such as `Admit`, `Discard`,
`SweepsBeforePass`, `ThrottledSweep` and `TickAt`. Each such method carries the part of the
contract that its step proves.

The member and active lists of a manager are fields of the manager. The
source keeps them private (CapabilityManagerComponent.h:61-71); the model
does not enforce that, since any Dafny method may name them in a
`modifies` clause. Within this project they are changed only through the
manager's methods; the module-level methods that name them do so only by
calling those methods.
`SetPriority` may change only the capability's priority, so it never
re-sorts a manager's list (`Reprioritize`).

## Model

| member | source | states |
|---|---|---|
| Activation.Decide | Source/CreativeGame/Components/CapabilityManagerComponent.cpp:215-233 | An active capability is deactivated iff it should not be active or should deactivate. An inactive one is activated iff it should be active and should activate. In every other case nothing happens, and an active capability is never re-activated. |
| Activation.DecisionChangesState | Source/CreativeGame/Components/CapabilityManagerComponent.cpp:215-233 | Every transition chosen changes the active state, and `Remain` is the only choice that keeps it. |
| Activation.SecondEvaluationSettles | Source/CreativeGame/Components/CapabilityManagerComponent.cpp:199-233 | With unchanged gates, a second evaluation changes something only if the first one did and all three gates are true. |
| Activation.DefaultGatesStayActive | Source/CreativeGame/Capabilities/BaseCapability.cpp:55-71 | Under the default gates an inactive capability is activated by its first evaluation and stays active on every later one. |
| Activation.DecideReadsOnlyConsulted | Source/CreativeGame/Components/CapabilityManagerComponent.cpp:216-232 | A gate that an evaluation does not ask (per `Consulted`) cannot change its decision: answers that agree on the coarse gate and the asked second gate give the same transition. |
| Capabilities.Capability.constructor | Source/CreativeGame/Capabilities/BaseCapability.cpp:3-12 | A new capability never ticks through the engine. It does not start active, and it auto-activates exactly when it starts active. Its priority, its gates and its tick hook are those its class sets up (priority 0 for the base class), and no callback has fired yet. |
| Capabilities.Capability.BeginPlay | Source/CreativeGame/Capabilities/BaseCapability.cpp:14-23 | Start of play switches the engine tick off again. |
| Capabilities.Capability.ShouldBeActive | Source/CreativeGame/Capabilities/BaseCapability.h:26-27 | The coarse gate a class overrides; it answers what the capability's class set up (the constructor's contract), true for the base class (BaseCapability.cpp:55-59). |
| Capabilities.Capability.ShouldActivate | Source/CreativeGame/Capabilities/BaseCapability.h:32-33 | The gate consulted before activating; it answers what the class set up, true for the base class (BaseCapability.cpp:67-71). |
| Capabilities.Capability.ShouldDeactivate | Source/CreativeGame/Capabilities/BaseCapability.h:29-30 | The gate consulted while active; it answers what the class set up, false for the base class (BaseCapability.cpp:61-65). |
| Capabilities.Capability.Activate | Source/CreativeGame/Capabilities/BaseCapability.cpp:33-39 | The capability becomes active and the activated callback fires exactly once per call. |
| Capabilities.Capability.Deactivate | Source/CreativeGame/Capabilities/BaseCapability.cpp:41-47 | The capability becomes inactive and the deactivated callback fires exactly once per call. |
| Capabilities.Capability.TickCapability | Source/CreativeGame/Capabilities/BaseCapability.cpp:49-53 | May only be called on an active capability. It changes no state of the capability and makes the call back into the manager that its class's hook makes (none for the base class). |
| Capabilities.Capability.GetPriority | Source/CreativeGame/Capabilities/BaseCapability.h:45 | Returns the stored priority. |
| Capabilities.Capability.SetPriority | Source/CreativeGame/Capabilities/BaseCapability.h:48 | After the call `GetPriority` returns the new priority, and nothing but the priority changes. |
| Ordering.InsertByPriority | Source/CreativeGame/Components/CapabilityManagerComponent.cpp:106-111 | Inserting into a list sorted by non-increasing priority gives a sorted permutation of the list plus the new element. |
| Ordering.SortByPriority | Source/CreativeGame/Components/CapabilityManagerComponent.cpp:109-111 | The result is a permutation of the input in non-increasing priority order. The order among equal priorities is left open. |
| Ordering.HigherPriorityFirst | Source/CreativeGame/Components/CapabilityManagerComponent.cpp:109-111 | In a sorted list, a capability of strictly higher priority stands before one of lower priority. |
| CapabilityManager.Manager.constructor | Source/CreativeGame/Components/CapabilityManagerComponent.cpp:7-12 | A new manager has no members and no active capabilities. It sweeps at most every 0.1 seconds from time 0 and never ticks through the engine. Both flags are clear and it is consistent. |
| CapabilityManager.FirstFrame | Source/CreativeGame/Components/CapabilityManagerComponent.h:75-80 | On a fresh manager the first frame sweeps exactly when `now >= 0.1`, and then records `now` as the last update time. It ticks nothing and activates nothing. |
| CapabilityManager.Manager.GetAllCapabilities | Source/CreativeGame/Components/CapabilityManagerComponent.h:44 | Returns exactly the member list and changes nothing. |
| CapabilityManager.Manager.GetActiveCapabilities | Source/CreativeGame/Components/CapabilityManagerComponent.h:47 | Returns exactly the active list and changes nothing. |
| CapabilityManager.Manager.RequestCapabilityStateUpdate | Source/CreativeGame/Components/CapabilityManagerComponent.cpp:267-271 | Sets the request flag and changes nothing else. |
| CapabilityManager.Manager.ActivateCapability | Source/CreativeGame/Components/CapabilityManagerComponent.cpp:236-251 | On an invalid or already active capability, nothing changes. Otherwise the capability becomes active, the activated callback fires once and the capability is appended to the active list. Both invariants are kept. |
| CapabilityManager.Manager.DeactivateCapability | Source/CreativeGame/Components/CapabilityManagerComponent.cpp:253-265 | On an invalid capability, nothing changes. Otherwise the capability becomes inactive, the deactivated callback fires once and every occurrence is removed from the active list. Both invariants are kept. |
| CapabilityManager.Manager.UpdateCapabilityActivation | Source/CreativeGame/Components/CapabilityManagerComponent.cpp:208-234 | One evaluation: the active flag follows the transition `Decide` chooses, and exactly the matching callback fires once. The active list gains the capability at the end or loses it, as the transition says. `consulted` records the gates asked, in order: nothing for an invalid capability, otherwise `ShouldBeActive`, then `ShouldDeactivate` (if active) or `ShouldActivate` (if inactive) only when `ShouldBeActive` said true. |
| CapabilityManager.Manager.UpdateCapabilityStates | Source/CreativeGame/Components/CapabilityManagerComponent.cpp:187-206 | While ticking, it only sets the request flag: neither list changes and its frame names no capability. Otherwise it runs one sweep: every member goes through exactly the evaluation `ev` records for it, which is the one decided on the state before the sweep, and the new active list is `Swept` of the old one (by `SweptRemovesThenAppends`: the old list without the deactivated members, followed by the activated members in list order). Both invariants are kept. |
| CapabilityManager.Manager.Sweep | Source/CreativeGame/Components/CapabilityManagerComponent.cpp:196-205 | The non-ticking sweep: the same per-member evaluations and the same new active list, counted as one sweep. |
| CapabilityManager.Manager.EvaluateMembers | Source/CreativeGame/Components/CapabilityManagerComponent.cpp:199-205 | The loop over the snapshot: each member goes through its recorded evaluation once. The active list ends as the evaluations applied one after the other in list order. |
| CapabilityManager.Manager.EvaluateAt | Source/CreativeGame/Components/CapabilityManagerComponent.cpp:201-204 | One loop step: the member's recorded evaluation, which the validity guard skips for an invalid member since that evaluation is `Remain`. |
| CapabilityManager.SweptRemovesThenAppends | Source/CreativeGame/Components/CapabilityManagerComponent.cpp:196-205 | Applying the evaluations one by one over a duplicate-free list equals removing the deactivated capabilities, then appending the activated ones in list order. |
| CapabilityManager.Manager.AddCapabilityInstance | Source/CreativeGame/Components/CapabilityManagerComponent.cpp:87-115 | A null, invalid or already listed instance changes nothing. Otherwise the member list becomes a priority-sorted permutation of the old list plus the instance, which is moved to the owner and registered and then evaluated once. The new active list follows that evaluation. Consistency survives iff the instance was not already active and left active. |
| CapabilityManager.Manager.AddInstanceTwice | Source/CreativeGame/Components/CapabilityManagerComponent.cpp:89-92 | Adding the same instance twice leaves exactly one copy when it was valid or already listed, and none otherwise. |
| CapabilityManager.Manager.Admit | Source/CreativeGame/Components/CapabilityManagerComponent.cpp:94-114 | The body of `AddCapabilityInstance` past its guard, with the same effects. |
| CapabilityManager.Manager.Adopt | Source/CreativeGame/Components/CapabilityManagerComponent.cpp:94-104 | The instance ends owned by the manager's actor and registered. |
| CapabilityManager.Manager.InsertMember | Source/CreativeGame/Components/CapabilityManagerComponent.cpp:106-111 | Append then re-sort: the member list becomes a priority-sorted permutation of the old list plus the instance, and stays duplicate-free. |
| CapabilityManager.Manager.AddCapability | Source/CreativeGame/Components/CapabilityManagerComponent.cpp:70-85 | A null class creates nothing and returns null. Otherwise a new, valid capability of that class is created in the owner and registered. Its priority, its three gates and its tick hook are those its class sets up. It is listed in priority order. It is active exactly when its class's gates say be active and activate; it is then appended to the active list and its activated callback has fired once. Both invariants are kept. |
| CapabilityManager.AddThenQuery | Source/CreativeGame/Components/CapabilityManagerComponent.cpp:70-85 | A capability just added for a class is returned by a query for that class (cpp:168-185), and answers the gates and makes the call its class sets up. |
| CapabilityManager.Manager.AddBaseCapability | Source/CreativeGame/Capabilities/BaseCapability.h:61-62 | A capability of a class that keeps the base class's defaults gets priority 0, is activated on creation (one activated callback) and appended to the active list. In the member list it stands before every member of negative priority. |
| CapabilityManager.Manager.RemoveCapability | Source/CreativeGame/Components/CapabilityManagerComponent.cpp:117-132 | A null or invalid capability changes nothing. A valid one is removed from both lists and destroyed. It is deactivated (one deactivated callback) exactly when it was on the active list. Both invariants are kept. |
| CapabilityManager.Manager.Discard | Source/CreativeGame/Components/CapabilityManagerComponent.cpp:124-131 | The body of `RemoveCapability` past its guard, with the same effects. |
| CapabilityManager.Manager.DropMember | Source/CreativeGame/Components/CapabilityManagerComponent.cpp:130 | Removes every occurrence of the capability from the member list, keeping both invariants. |
| Sequences.WithoutIsSubsequence | Source/CreativeGame/Components/CapabilityManagerComponent.cpp:117-132 | Removing capabilities from a list keeps the relative order of the rest: the result is a subsequence of the list. |
| CapabilityManager.Manager.RemoveActorComponent | Source/CreativeGame/Components/CapabilityManagerComponent.cpp:134-149 | A null or invalid component changes nothing. A valid capability is removed from both lists, destroyed and unregistered; it ends inactive and its deactivated callback fires once exactly when it was on the active list. Any other component is destroyed without touching the lists. Both invariants are kept. |
| CapabilityManager.Manager.GetCapability | Source/CreativeGame/Components/CapabilityManagerComponent.cpp:151-166 | Returns the first valid member whose class is the given class or derives from it, or null. A null class gives null. |
| CapabilityManager.Manager.GetCapabilities | Source/CreativeGame/Components/CapabilityManagerComponent.cpp:168-185 | Returns every valid member of the given class or a derived one, in member-list order. A null class gives the empty list. |
| CapabilityManager.MatchesOfCount | Source/CreativeGame/Components/CapabilityManagerComponent.cpp:177-183 | The query result holds each matching member as often as the list does and nothing else. |
| CapabilityManager.MatchesOfInOrder | Source/CreativeGame/Components/CapabilityManagerComponent.cpp:177-183 | The query result is a subsequence of the member list. |
| CapabilityManager.Manager.BeginPlay | Source/CreativeGame/Components/CapabilityManagerComponent.cpp:14-23 | Start of play runs `UpdateCapabilityStates` with the decisions of the starting state, then switches the engine tick off. During a tick pass it only sets the request flag and changes neither list nor any capability; otherwise every member goes through its decided evaluation and the active list becomes `Swept` of the old one. Both invariants are kept. |
| CapabilityManager.Manager.ManualTick | Source/CreativeGame/Components/CapabilityManagerComponent.cpp:32-68 | A sweep runs, and `now` becomes the last update time, iff `now - lastUpdateTime >= updateFrequency`; one more runs if a request was pending, and one more if a valid entry of the tick pass called back. With no sweep before the pass, the pass walks the old active list; with exactly one, it walks `Swept` of the old list under the decisions of the starting state. Each valid entry of that list is ticked once, in order. Without a call back the active list stays as the pass found it, and every member has gone through the decided evaluation (with one sweep) or is unchanged (with none). With no sweep before the pass and a call back, the flush sweep decides as in the starting state: the final active list is `Swept` of the old one and every member has gone through its decided evaluation. Both flags end cleared and both invariants are kept. |
| CapabilityManager.DueFrameTicksArrival | Source/CreativeGame/Components/CapabilityManagerComponent.cpp:32-68 | In a frame due for the throttled sweep, with no request pending and no hook that calls back, every valid inactive member whose gates say be active and activate ends active and is ticked in that frame. |
| CapabilityManager.EvaluationDecides | Source/CreativeGame/Components/CapabilityManagerComponent.cpp:208-233 | One evaluation activates a capability exactly when it is valid, inactive and its be-active and activate gates are true; it deactivates one exactly when it is valid, active and its be-active gate is false or its deactivate gate is true; otherwise, and always for an invalid one, nothing happens. |
| CapabilityManager.BaseDefaultsEvaluation | Source/CreativeGame/Capabilities/BaseCapability.cpp:55-71 | Under the base class's defaults (`BaseDefaults`: priority 0, be active, activate, never deactivate, BaseCapability.h:61-62) a valid capability is activated while inactive and left active once active. |
| CapabilityManager.Manager.ThrottledSweep | Source/CreativeGame/Components/CapabilityManagerComponent.cpp:37-42 | When the throttle interval has passed, it runs one sweep with the decisions of its starting state (each member through its evaluation, the active list becomes `Swept` of the old one) and records `now`. Otherwise nothing changes: same active list, every member unchanged. |
| CapabilityManager.Manager.SweepsBeforePass | Source/CreativeGame/Components/CapabilityManagerComponent.cpp:37-49 | The throttled sweep then the pending one: the request ends cleared and each sweep that runs is counted. With neither, nothing changes; with exactly one, it decides as in the starting state and the active list becomes `Swept` of the old one. |
| CapabilityManager.Manager.PendingSweep | Source/CreativeGame/Components/CapabilityManagerComponent.cpp:44-49 | If a request is pending, it runs one sweep with the decisions of its starting state and clears the request. Otherwise nothing changes. |
| CapabilityManager.Manager.TickAndFlush | Source/CreativeGame/Components/CapabilityManagerComponent.cpp:51-67 | Ticks the valid entries of the active list in order. If one of them called back, it then runs exactly one sweep, with the decisions of its starting state, which the pass does not change. Otherwise the active list is unchanged and so is every member. Both flags end cleared. |
| CapabilityManager.Manager.TickActive | Source/CreativeGame/Components/CapabilityManagerComponent.cpp:51-60 | Raises the ticking flag for the pass and clears it after. During the pass neither list changes and no capability is touched. Each valid entry is ticked once, in order, and a call back from any of them only sets the request flag. |
| CapabilityManager.Manager.TickEach | Source/CreativeGame/Components/CapabilityManagerComponent.cpp:53-59 | The tick loop: the log grows by the valid entries in list order. The request flag is set iff a valid entry's hook calls back. |
| CapabilityManager.Manager.TickAt | Source/CreativeGame/Components/CapabilityManagerComponent.cpp:55-58 | One entry: ticked iff valid. Its call back into the manager, deferred or explicit, only sets the request flag. |
| CapabilityManager.Manager.RequestedSweep | Source/CreativeGame/Components/CapabilityManagerComponent.cpp:62-67 | If a request was made during the pass, it runs one sweep with the decisions of its starting state and clears the request. Otherwise nothing changes. |
| CapabilityManager.LiveAndCalling | Source/CreativeGame/Components/CapabilityManagerComponent.cpp:53-59 | The entries recorded as ticked are the valid entries of the pass in order, and a call back is recorded iff some valid entry's hook makes one. |
| CapabilityManager.LiveHas | Source/CreativeGame/Components/CapabilityManagerComponent.cpp:53-59 | A capability is ticked by a pass exactly when it is on the walked list and valid. |
| CapabilityManager.CallingHas | Source/CreativeGame/Components/CapabilityManagerComponent.cpp:53-59 | A pass calls back exactly when some entry on the walked list is a valid caller. |
| CapabilityManager.Reprioritize | Source/CreativeGame/Capabilities/BaseCapability.h:48 | Changing a capability's priority leaves every manager's member and active lists as they are. The list is re-sorted only on the next insertion. |

## Left out

- Engine glue is not part of this model: controller replacement, possession, pawn spawning, the "nearby" and "closest" spatial queries, and the per-entity wrappers that forward to the manager. None of them adds logic to the manager.
- `TickComponent` (CapabilityManagerComponent.cpp:25-30) only forwards to `ManualTick` and is not modelled separately. `autoTick` and the capability's `autoActivate` are kept as fields, but nothing in the core reads them.
- Engine internals are abstract fields: `IsValid`, `Rename`, `RegisterComponent`, `DestroyComponent`, `NewObject`, `SetActive` and `IsA`. `SetActive` is taken to call `Activate` and `Deactivate` unconditionally.
- World time and the update frequency are exact reals. The engine compares 32-bit floats, and `0.1f` is not exactly 0.1.
- ManualTick: reads world time through the engine, which the model takes as the parameter `now`. It also requires that no tick pass is under way, because a tick hook that re-enters `ManualTick` is not modelled.
- TickCapability: a tick hook's own effects are not modelled. The model keeps only the call it makes back into the manager: none, `UpdateCapabilityStates` or `RequestCapabilityStateUpdate`. Adding or removing capabilities from inside a tick hook, which would change the active list during the range-for loop, is left out.
- Ordering.SortByPriority: `TArray::Sort` is not stable, so the model fixes no order among equal priorities and proves none. Its insertion sort is one admissible sort.
- The two flags and `RequestCapabilityStateUpdate` are used in CapabilityManagerComponent.cpp but are not declared in CapabilityManagerComponent.h. The model follows the .cpp.
- ManualTick: when both the throttled and the pending sweep run before the tick pass, the list the pass walks is stated only through the sweep count and the invariants, not as a formula of the starting state. The same holds for the active list after a sweep that a tick hook asked for when a sweep also ran before the pass.
- SweepsBeforePass: when both of its sweeps run, only their count, the cleared request and the invariants are stated.
- Blueprint overrides of the callbacks are not modelled. Only the count of their invocations is kept.
- Manager: the privacy of the member list, the active list and the transition methods (CapabilityManagerComponent.h:61-71) is not enforced. Dafny fields are public, so code outside the manager could reassign the lists or a capability's active flag; no member of this model does.
- UpdateCapabilityActivation: the gates are modelled as reads without side effects. Which gates are asked, and in what order, is recorded by `consulted`, but what a Blueprint override does when asked is not modelled.
- Manager.Valid: the model assumes a member's active flag changes only through the manager, so every entry of the active list is active. A `SetActive` or `Deactivate` called on a capability from outside the manager is not modelled. In the source such a capability stays on the active list and is ticked while inactive, because the tick loop (CapabilityManagerComponent.cpp:53-58) checks only `IsValid`. The `Contains` guard of `ActivateCapability` (CapabilityManagerComponent.cpp:247) is kept in the model but never finds the capability listed.
- AddCapability: the class's defaults (priority, gates, tick hook) are passed in beside the class path, not looked up from it, so the model does not enforce that two capabilities of the same class share them.
