/** The process image of one axis, and the start sequence that every mode of the server runs before it
    does anything else. */
module AxisControl {
  import opened Ds402

  /** The process data objects the tasks read and write. */
  class ProcessImage {
    var statusword: bv16
    var controlword: bv16
    var modesOfOperation: nat
    var targetPosition: int
    var profileVelocity: int
    var positionActual: int
    var velocityActual: int
  }

  /** The answer of the start sequence: 1 lets the task through, -1 is a state it cannot leave. */
  function StartAnswer(statusword: bv16): int {
    if statusword & 0x8 != 0 then 0
    else match GetAxleState(statusword)
      case NotReadyToSwitchOn | SwitchOnDisabled | ReadyToSwitchOn | SwitchedOn => 0
      case OperationEnabled => 1
      case QuickStopActive | FaultReactionActive | Fault => -1
  }

  /** The controlword it leaves behind. */
  function StartControl(statusword: bv16, controlword: bv16): bv16 {
    if statusword & 0x8 != 0 then 0x80
    else match GetAxleState(statusword)
      case NotReadyToSwitchOn | SwitchOnDisabled => Shutdown(0)
      case ReadyToSwitchOn => SwitchOn(0)
      case SwitchedOn => EnableOperation(0)
      case OperationEnabled | QuickStopActive | FaultReactionActive | Fault => controlword
  }

  predicate SetsMode(statusword: bv16) {
    statusword & 0x8 == 0 && GetAxleState(statusword) == SwitchedOn
  }

  method AxisStart(pdo: ProcessImage, mode: nat) returns (ret: int)
    modifies pdo`controlword, pdo`modesOfOperation
    ensures ret == StartAnswer(pdo.statusword)
    ensures pdo.controlword == StartControl(pdo.statusword, old(pdo.controlword))
    ensures pdo.modesOfOperation == if SetsMode(pdo.statusword) then mode else old(pdo.modesOfOperation)
  {
    ret := 0;
    if pdo.statusword & 0x8 != 0 {
      pdo.controlword := 0x80;
      return 0;
    }
    match GetAxleState(pdo.statusword) {
      case NotReadyToSwitchOn | SwitchOnDisabled =>
        pdo.controlword := Shutdown(0);
      case ReadyToSwitchOn =>
        pdo.controlword := SwitchOn(0);
      case SwitchedOn =>
        pdo.controlword := EnableOperation(0);
        pdo.modesOfOperation := mode;
      case OperationEnabled =>
        ret := 1;
      case QuickStopActive | FaultReactionActive | Fault =>
        ret := -1;
    }
  }

  /** The start sequence lets a task through exactly on the statuswords of an enabled drive, and refuses it
      exactly on those of one that stops quickly; in both it leaves the controlword alone. It never sets the
      new-set-point bit itself. */
  lemma LetsThroughIff(statusword: bv16, controlword: bv16)
    ensures StartAnswer(statusword) == 1 <==> Shows(OperationEnabled, statusword)
    ensures StartAnswer(statusword) == -1 <==> Shows(QuickStopActive, statusword)
    ensures StartAnswer(statusword) != 0 ==> StartControl(statusword, controlword) == controlword
    ensures controlword & 0x10 == 0 ==> StartControl(statusword, controlword) & 0x10 == 0
  {
    DecodeIsTable(OperationEnabled, statusword);
    DecodeIsTable(QuickStopActive, statusword);
    NoFaultBit(statusword);
    hide Shows;
  }

  lemma NoFaultBit(w: bv16)
    ensures w & 0x6F == 0x27 || w & 0x6F == 0x07 ==> w & 0x8 == 0
    ensures w & 0x8 == 0 ==> w & 0x4F != 0x0F && w & 0x4F != 0x08
  {
  }

  /** The mode of operation is set exactly in a cycle that sees the drive switched on. */
  lemma SetsModeIff(statusword: bv16)
    ensures SetsMode(statusword) <==> Shows(SwitchedOn, statusword)
  {
    DecodeIsTable(SwitchedOn, statusword);
    assert statusword & 0x6F == 0x23 ==> statusword & 0x8 == 0;
  }
}
