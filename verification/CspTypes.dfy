/** The records of the cyclic-synchronous-position (CSP) engine as values: one planned segment of a
    trajectory table, and everything an axis in CSP mode carries from one cycle to the next. */
module CspTypes {

  /** One entry of the trajectory table (`struct trajectory_planner_t`). Positions are in user units,
      times and point counts in cycles. A freshly allocated entry is `EMPTY_SEGMENT`. */
  datatype Segment = Segment(
    pointsNum: nat,
    currentPoint: nat,
    originPos: real,
    targetPos: real,
    uniformSpeed: real,
    accelPos: real,
    decelPos: real,
    pointAccelEnd: nat,
    pointDecelStart: nat,
    direction: int)

  const EMPTY_SEGMENT := Segment(0, 0, 0.0, 0.0, 0.0, 0.0, 0.0, 0, 0, 0)

  datatype CspStatus = Stop | Ready | Running | PreStop

  /** The limits the planner works with, and the other values a text can set. */
  datatype Settings = Settings(
    isCyclic: bool,
    scale: nat,
    bias: int,
    acceleration: real,
    deceleration: real,
    maxSpeed: real)

  /** `struct axis_status_t` together with the `struct axis_csp_status_t` it refers to. */
  datatype AxisState = AxisState(
    mode: nat,
    currentPosition: int,
    currentVelocity: int,
    settings: Settings,
    status: CspStatus,
    tpNum: nat,
    currentTp: nat,
    tp: seq<Segment>)

  /** The number of samples a segment delivers: a segment of no points still delivers one. */
  function Samples(s: Segment): (n: nat)
    ensures 1 <= n && s.pointsNum <= n
  {
    if s.pointsNum == 0 then 1 else s.pointsNum
  }

  function Abs(x: real): (r: real)
    ensures r >= 0.0 && (r == x || r == -x)
  {
    if x < 0.0 then -x else x
  }
}
