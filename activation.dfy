/** The activation state machine the manager runs for one capability on every
    evaluation (on insertion and in every sweep): two states, Active and
    Inactive, and the three gates a capability overrides. */
module Activation {

  /** What one evaluation does to a capability. */
  datatype Transition = BecomeActive | BecomeInactive | Remain

  /** The decision for a capability that is currently `isActive`, given its
      three gates as read at evaluation time.  An active capability only ever
      consults `shouldDeactivate`, an inactive one only `shouldActivate`; the
      coarse gate `shouldBeActive` is consulted in both states. */
  function Decide(isActive: bool, shouldBeActive: bool, shouldActivate: bool, shouldDeactivate: bool): (t: Transition)
    ensures t == BecomeInactive <==> isActive && (!shouldBeActive || shouldDeactivate)
    ensures t == BecomeActive <==> !isActive && shouldBeActive && shouldActivate
    ensures isActive ==> t != BecomeActive
    ensures !isActive ==> t != BecomeInactive
  {
    if isActive then
      if !shouldBeActive || shouldDeactivate then BecomeInactive else Remain
    else
      if shouldBeActive && shouldActivate then BecomeActive else Remain
  }

  /** The gate a capability is asked after the coarse one: the one of its
      current state. */
  datatype Gate = Activate | Deactivate

  /** Which gates an evaluation asks, in order: none (an invalid capability),
      only the coarse one, or the coarse one and then `second`. */
  datatype Consultation = AskedNone | AskedCoarse | AskedCoarseThen(second: Gate)

  /** What an evaluation asks of a capability that is `isValid` and
      `isActive` and whose coarse gate answers `shouldBeActive`: the state's
      own gate is asked only when the coarse one says be active. */
  function Consulted(isValid: bool, isActive: bool, shouldBeActive: bool): Consultation {
    if !isValid then AskedNone
    else if !shouldBeActive then AskedCoarse
    else AskedCoarseThen(if isActive then Deactivate else Activate)
  }

  /** A gate the evaluation does not ask cannot change its decision: two
      answer sets that agree on the coarse gate and on the second gate that
      `Consulted` names give the same decision, whatever the other gates say. */
  lemma DecideReadsOnlyConsulted(isActive: bool, shouldBeActive: bool,
                                 shouldActivate: bool, shouldDeactivate: bool,
                                 shouldActivate': bool, shouldDeactivate': bool)
    requires Consulted(true, isActive, shouldBeActive) == AskedCoarseThen(Activate) ==> shouldActivate == shouldActivate'
    requires Consulted(true, isActive, shouldBeActive) == AskedCoarseThen(Deactivate) ==> shouldDeactivate == shouldDeactivate'
    ensures Decide(isActive, shouldBeActive, shouldActivate, shouldDeactivate)
            == Decide(isActive, shouldBeActive, shouldActivate', shouldDeactivate')
  {
  }

  /** The activation state after a transition. */
  function After(isActive: bool, t: Transition): bool {
    match t
    case BecomeActive => true
    case BecomeInactive => false
    case Remain => isActive
  }

  /** Every transition the machine chooses changes the state, and `Remain`
      is the only choice that keeps it. */
  lemma DecisionChangesState(isActive: bool, shouldBeActive: bool, shouldActivate: bool, shouldDeactivate: bool)
    ensures var t := Decide(isActive, shouldBeActive, shouldActivate, shouldDeactivate);
            After(isActive, t) != isActive <==> t != Remain
  {
  }

  /** With the gates unchanged between two evaluations, the second one changes
      something only when the first one did and all three gates are true: a
      capability whose gates say "be active", "activate" and "deactivate" at
      once flips on every sweep; every other one settles after one. */
  lemma SecondEvaluationSettles(isActive: bool, shouldBeActive: bool, shouldActivate: bool, shouldDeactivate: bool)
    ensures var t1 := Decide(isActive, shouldBeActive, shouldActivate, shouldDeactivate);
            var t2 := Decide(After(isActive, t1), shouldBeActive, shouldActivate, shouldDeactivate);
            t2 != Remain <==> t1 != Remain && shouldBeActive && shouldActivate && shouldDeactivate
  {
  }

  /** Under the base capability's default gates (be active: true, activate:
      true, deactivate: false) an inactive capability is activated by its first
      evaluation and every later evaluation leaves it active. */
  lemma DefaultGatesStayActive(isActive: bool)
    ensures Decide(isActive, true, true, false) == (if isActive then Remain else BecomeActive)
    ensures After(isActive, Decide(isActive, true, true, false))
  {
  }
}
