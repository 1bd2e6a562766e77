/** The point-mass integrator of lib/System.py: a ball under gravity, a
    constant wind force and quadratic drag, advanced with a fixed time step
    until a computed position falls below the ground plane z = 0, with a
    one-time latch recording the first step whose position overlaps the
    target sphere. */
module Ballistics {
  import opened Vectors

  /** `math.pi` as Python prints it. */
  const Pi: real := 3.141592653589793

  /** The constructor arguments that never change during a run. `sqrt` stands
      for `math.sqrt`, which Dafny's reals do not provide; the lemmas that
      depend on it being a square root say so with `IsSqrt`. */
  datatype Config = Config(
    radius: real,
    area: real,        // `self.area`, computed once from the radius by `Area`
    cd: real,
    rho: real,
    mass: real,
    g: real,
    deltaT: real,
    windForce: Vec3,
    targetCoordinate: Vec3,
    targetRadius: real,
    sqrt: real -> real)

  /** `sqrt` returns the non-negative square root of every non-negative real. */
  ghost predicate IsSqrt(sqrt: real -> real)
  {
    forall a :: 0.0 <= a ==> 0.0 <= sqrt(a) && sqrt(a) * sqrt(a) == a
  }

  datatype Option<T> = None | Some(value: T)

  /** How a run of the step loop ended. */
  datatype Outcome =
    | Landed           // a computed position had z < 0
    | FuelExhausted    // the step budget ran out while still airborne
    | DivisionByZero   // mass == 0: Python raises ZeroDivisionError in new_speed

  // ---------------------------------------------------------------------
  // Derived constants (computed once by the constructor)
  // ---------------------------------------------------------------------

  /** The drag reference area, half the disk area of the cross section. */
  function Area(radius: real): (a: real)
    ensures 0.0 <= a
  {
    SquareFacts(radius);
    PositiveProduct(Pi, radius * radius);
    Pi * (radius * radius) / 2.0
  }

  lemma PositiveProduct(p: real, q: real)
    ensures 0.0 < p && 0.0 <= q ==> 0.0 <= p * q
  {
  }

  function Weight(c: Config): Vec3
  {
    Vec3(0.0, 0.0, -c.mass * c.g)
  }

  /** The constant net force F: wind plus weight. */
  function NetForce(c: Config): (f: Vec3)
    ensures f.x == c.windForce.x && f.y == c.windForce.y
    ensures f.z == c.windForce.z - c.mass * c.g
    ensures c.windForce == Zero ==> f == Vec3(0.0, 0.0, -c.mass * c.g)
  {
    Add(c.windForce, Weight(c))
  }

  /** The scalar k of the drag force -k |v| v. */
  function DragCoefficient(c: Config): real
  {
    c.area * c.cd * c.rho * 0.5
  }

  // ---------------------------------------------------------------------
  // One step
  // ---------------------------------------------------------------------

  /** One axis of `new_speed`: the component v_a of the previous velocity,
      the component f_a of the net force and the previous speed magnitude.
      The factors are written in the order lib/System.py:99-104 multiplies
      them rather than through
      `DragCoefficient`; `AxisVectorForm` proves the two groupings equal. */
  function AxisUpdate(c: Config, va: real, fa: real, magnitude: real): real
    requires c.mass != 0.0
  {
    va + (fa - va * magnitude * c.area * c.cd * c.rho * 0.5) * c.deltaT / c.mass
  }

  /** `new_speed`: the previous speed magnitude drives the drag on all three
      axes. Python divides by the mass, so a zero mass has no new speed. */
  function NewSpeed(c: Config, prev: Vec3): Vec3
    requires c.mass != 0.0
  {
    var f := NetForce(c);
    var v := c.sqrt(NormSq(prev));
    Vec3(AxisUpdate(c, prev.x, f.x, v), AxisUpdate(c, prev.y, f.y, v), AxisUpdate(c, prev.z, f.z, v))
  }

  /** The position update with the new velocity. */
  function NewPosition(c: Config, position: Vec3, speed: Vec3): Vec3
  {
    Add(position, Scale(speed, c.deltaT))
  }

  /** `touching_target`: the distance to the target centre is strictly less
      than the sum of the two radii. */
  predicate TouchingTarget(c: Config, position: Vec3)
  {
    c.sqrt(NormSq(Sub(position, c.targetCoordinate))) < c.targetRadius + c.radius
  }

  /** The textbook explicit-Euler update of one velocity component under
      the force f_a and the drag factor k, with r = Δt / m. */
  function StepAxis(va: real, fa: real, k: real, r: real): real
  {
    va + (fa - va * k) * r
  }

  /** One axis in vector form: v_a + (f_a - v_a (|v| k)) (dt / m). */
  lemma AxisVectorForm(c: Config, va: real, fa: real, magnitude: real)
    requires c.mass != 0.0
    ensures AxisUpdate(c, va, fa, magnitude)
         == StepAxis(va, fa, magnitude * DragCoefficient(c), c.deltaT / c.mass)
  {
    var a, m := c.area, c.mass;
    assert va * magnitude * a * c.cd * c.rho * 0.5 == va * (magnitude * (a * c.cd * c.rho * 0.5));
    var e := fa - va * (magnitude * DragCoefficient(c));
    assert e * c.deltaT / m == e * (c.deltaT / m);
  }

  /** The per-axis code is the vector update v' = v + (F - k |v| v) dt / m:
      every axis uses the same drag factor k |v| of the previous velocity. */
  lemma NewSpeedVectorForm(c: Config, prev: Vec3)
    requires c.mass != 0.0
    ensures var f, k, r := NetForce(c), c.sqrt(NormSq(prev)) * DragCoefficient(c), c.deltaT / c.mass;
            var v := NewSpeed(c, prev);
            v.x == StepAxis(prev.x, f.x, k, r) &&
            v.y == StepAxis(prev.y, f.y, k, r) &&
            v.z == StepAxis(prev.z, f.z, k, r)
  {
    var f := NetForce(c);
    var v := c.sqrt(NormSq(prev));
    AxisVectorForm(c, prev.x, f.x, v);
    AxisVectorForm(c, prev.y, f.y, v);
    AxisVectorForm(c, prev.z, f.z, v);
  }

  /** Quadratic drag opposes motion: on every axis the new velocity differs
      from the drag-free update v_a + F_a Δt / m by exactly -(|v| k Δt / m) v_a,
      so the deviation is a multiple of the previous velocity itself. */
  lemma DragOpposesMotion(c: Config, prev: Vec3)
    requires c.mass != 0.0
    ensures var f, k, r := NetForce(c), c.sqrt(NormSq(prev)) * DragCoefficient(c), c.deltaT / c.mass;
            var v := NewSpeed(c, prev);
            v.x - (prev.x + f.x * r) == prev.x * -(k * r) &&
            v.y - (prev.y + f.y * r) == prev.y * -(k * r) &&
            v.z - (prev.z + f.z * r) == prev.z * -(k * r)
  {
    var f := NetForce(c);
    var v := c.sqrt(NormSq(prev));
    AxisDeviation(c, prev.x, f.x, v);
    AxisDeviation(c, prev.y, f.y, v);
    AxisDeviation(c, prev.z, f.z, v);
  }

  /** One axis of `DragOpposesMotion`. */
  lemma AxisDeviation(c: Config, va: real, fa: real, magnitude: real)
    requires c.mass != 0.0
    ensures var k, r := magnitude * DragCoefficient(c), c.deltaT / c.mass;
            AxisUpdate(c, va, fa, magnitude) - (va + fa * r) == va * -(k * r)
  {
    var k, r := magnitude * DragCoefficient(c), c.deltaT / c.mass;
    AxisVectorForm(c, va, fa, magnitude);
    assert (fa - va * k) * r == fa * r - va * k * r;
  }

  /** With a true square root and non-negative area, Cd, rho and Δt and a
      positive mass, the factor |v| k Δt / m of `DragOpposesMotion` is
      non-negative, so the drag deviation points against the previous
      velocity. */
  lemma DragSign(c: Config, prev: Vec3)
    requires IsSqrt(c.sqrt)
    requires 0.0 <= c.area && 0.0 <= c.cd && 0.0 <= c.rho && 0.0 <= c.deltaT && 0.0 < c.mass
    ensures 0.0 <= c.sqrt(NormSq(prev)) * DragCoefficient(c) * (c.deltaT / c.mass)
  {
    var s := c.sqrt(NormSq(prev));
    assert 0.0 <= s;
    assert 0.0 <= c.area * c.cd;
    assert 0.0 <= c.area * c.cd * c.rho;
    assert 0.0 <= DragCoefficient(c);
    assert 0.0 <= c.deltaT / c.mass;
    assert 0.0 <= s * DragCoefficient(c);
  }

  /** Without drag (Cd * rho * area = 0) a step adds F dt / m to each axis. */
  lemma ZeroDragStep(c: Config, prev: Vec3)
    requires c.mass != 0.0
    requires c.cd * c.rho * c.area == 0.0
    ensures NewSpeed(c, prev) == Add(prev, Scale(NetForce(c), c.deltaT / c.mass))
  {
    NewSpeedVectorForm(c, prev);
    assert DragCoefficient(c) == 0.0;
  }

  /** For a non-negative r, r < s exactly when s is positive and r^2 < s^2. */
  lemma StrictBelowBySquares(r: real, s: real)
    requires 0.0 <= r
    ensures r < s <==> 0.0 < s && r * r < s * s
  {
    if r < s {
      assert r * s - r * r == r * (s - r) >= 0.0;
      assert s * s - r * s == s * (s - r) > 0.0;
    } else if 0.0 < s {
      assert s * r - s * s == s * (r - s) >= 0.0;
      assert r * r - s * r == r * (r - s) >= 0.0;
    }
  }

  /** Capture is the sphere-overlap test without a square root: the radius
      sum is positive and the squared distance is below its square. */
  lemma CaptureIsStrictOverlap(c: Config, position: Vec3)
    requires IsSqrt(c.sqrt)
    ensures TouchingTarget(c, position)
        <==> var s := c.targetRadius + c.radius;
             0.0 < s && NormSq(Sub(position, c.targetCoordinate)) < s * s
  {
    var d := NormSq(Sub(position, c.targetCoordinate));
    var r := c.sqrt(d);
    assert 0.0 <= r && r * r == d;
    StrictBelowBySquares(r, c.targetRadius + c.radius);
  }

  /** At exactly the radius sum the ball is not captured. */
  lemma NotCapturedAtBoundary(c: Config, position: Vec3)
    requires IsSqrt(c.sqrt)
    requires NormSq(Sub(position, c.targetCoordinate)) == (c.targetRadius + c.radius) * (c.targetRadius + c.radius)
    ensures !TouchingTarget(c, position)
  {
    CaptureIsStrictOverlap(c, position);
  }

  // ---------------------------------------------------------------------
  // The flight: the k-th computed velocity and position of a run
  // ---------------------------------------------------------------------

  /** The velocity after k steps from v0. */
  function VelocityAt(c: Config, v0: Vec3, k: nat): Vec3
    requires k == 0 || c.mass != 0.0
  {
    if k == 0 then v0 else NewSpeed(c, VelocityAt(c, v0, k - 1))
  }

  /** The position after k steps from p0 with initial velocity v0. */
  function PositionAt(c: Config, v0: Vec3, p0: Vec3, k: nat): Vec3
    requires k == 0 || c.mass != 0.0
  {
    if k == 0 then p0 else NewPosition(c, PositionAt(c, v0, p0, k - 1), VelocityAt(c, v0, k))
  }

  /** The record of the first n computed positions (`trajectory`). */
  function Path(c: Config, v0: Vec3, p0: Vec3, n: nat): (ps: seq<Vec3>)
    requires n == 0 || c.mass != 0.0
    ensures |ps| == n
    ensures forall i :: 0 <= i < n ==> ps[i] == PositionAt(c, v0, p0, i + 1)
  {
    if n == 0 then [] else Path(c, v0, p0, n - 1) + [PositionAt(c, v0, p0, n)]
  }

  /** The record of the first n computed velocities (`speeds`). */
  function SpeedRecord(c: Config, v0: Vec3, n: nat): (vs: seq<Vec3>)
    requires n == 0 || c.mass != 0.0
    ensures |vs| == n
    ensures forall i :: 0 <= i < n ==> vs[i] == VelocityAt(c, v0, i + 1)
  {
    if n == 0 then [] else SpeedRecord(c, v0, n - 1) + [VelocityAt(c, v0, n)]
  }

  /** The index (1-based) of the first of the first m steps whose position
      touches the target, as the latch of the loop records it. */
  function FirstCapture(c: Config, v0: Vec3, p0: Vec3, m: nat): Option<nat>
    requires m == 0 || c.mass != 0.0
  {
    if m == 0 then None
    else
      var earlier := FirstCapture(c, v0, p0, m - 1);
      if earlier.Some? then earlier
      else if TouchingTarget(c, PositionAt(c, v0, p0, m)) then Some(m)
      else None
  }

  /** The latch holds the first capturing step, and exists exactly when one
      of the first m steps captures. */
  lemma {:induction false} FirstCaptureIsFirst(c: Config, v0: Vec3, p0: Vec3, m: nat)
    requires c.mass != 0.0
    ensures FirstCapture(c, v0, p0, m).Some?
        <==> exists k :: 1 <= k <= m && TouchingTarget(c, PositionAt(c, v0, p0, k))
    ensures FirstCapture(c, v0, p0, m).Some? ==>
              var k := FirstCapture(c, v0, p0, m).value;
              1 <= k <= m && TouchingTarget(c, PositionAt(c, v0, p0, k)) &&
              forall j :: 1 <= j < k ==> !TouchingTarget(c, PositionAt(c, v0, p0, j))
  {
    if m > 0 {
      FirstCaptureIsFirst(c, v0, p0, m - 1);
      if FirstCapture(c, v0, p0, m - 1).None? && TouchingTarget(c, PositionAt(c, v0, p0, m)) {
        assert 1 <= m <= m && TouchingTarget(c, PositionAt(c, v0, p0, m));
      }
      if FirstCapture(c, v0, p0, m - 1).None? && !TouchingTarget(c, PositionAt(c, v0, p0, m)) {
        forall k | 1 <= k <= m
          ensures !TouchingTarget(c, PositionAt(c, v0, p0, k))
        {
          if k < m {
            assert !(1 <= k <= m - 1 && TouchingTarget(c, PositionAt(c, v0, p0, k)));
          }
        }
      }
    }
  }

  /** Once set, later steps never change the latch. */
  lemma {:induction false} LatchSetOnce(c: Config, v0: Vec3, p0: Vec3, m: nat, m': nat)
    requires c.mass != 0.0
    requires m <= m'
    requires FirstCapture(c, v0, p0, m).Some?
    ensures FirstCapture(c, v0, p0, m') == FirstCapture(c, v0, p0, m)
  {
    if m < m' {
      LatchSetOnce(c, v0, p0, m, m' - 1);
    }
  }

  /** The records only grow: a shorter record is a prefix of a longer one. */
  lemma {:induction false} RecordsArePrefixes(c: Config, v0: Vec3, p0: Vec3, n: nat, n': nat)
    requires n == 0 || c.mass != 0.0
    requires n <= n'
    requires n' == 0 || c.mass != 0.0
    ensures Path(c, v0, p0, n) <= Path(c, v0, p0, n')
    ensures SpeedRecord(c, v0, n) <= SpeedRecord(c, v0, n')
  {
    if n < n' {
      RecordsArePrefixes(c, v0, p0, n, n' - 1);
    }
  }

  /** One more step extends the flight, the two records and the latch. */
  lemma StepExtends(c: Config, v0: Vec3, p0: Vec3, n: nat)
    requires c.mass != 0.0
    ensures VelocityAt(c, v0, n + 1) == NewSpeed(c, VelocityAt(c, v0, n))
    ensures PositionAt(c, v0, p0, n + 1)
         == NewPosition(c, PositionAt(c, v0, p0, n), VelocityAt(c, v0, n + 1))
    ensures Path(c, v0, p0, n + 1) == Path(c, v0, p0, n) + [PositionAt(c, v0, p0, n + 1)]
    ensures SpeedRecord(c, v0, n + 1) == SpeedRecord(c, v0, n) + [VelocityAt(c, v0, n + 1)]
    ensures FirstCapture(c, v0, p0, n + 1)
         == if FirstCapture(c, v0, p0, n).Some? then FirstCapture(c, v0, p0, n)
            else if TouchingTarget(c, PositionAt(c, v0, p0, n + 1)) then Some(n + 1)
            else None
  {
  }

  /** `time_in_air` after n committed steps: Δt added n times. */
  function Clock(dt: real, n: nat): real
  {
    if n == 0 then 0.0 else Clock(dt, n - 1) + dt
  }

  /** The clock reads n Δt. */
  lemma {:induction false} ClockIsStepsTimesDelta(dt: real, n: nat)
    ensures Clock(dt, n) == n as real * dt
  {
    if n > 0 {
      ClockIsStepsTimesDelta(dt, n - 1);
      assert (n - 1) as real * dt + dt == n as real * dt;
    }
  }

  lemma WeightStep(m: real, g: real, dt: real)
    requires m != 0.0
    ensures (0.0 - m * g) * (dt / m) == -(g * dt)
  {
    assert m * g * (dt / m) == g * dt * (m / m);
  }

  /** Zero drag and zero wind: one step keeps the horizontal velocity and
      lowers the vertical velocity by g Δt. */
  lemma FreeFallStep(c: Config, prev: Vec3)
    requires c.mass != 0.0
    requires c.cd * c.rho * c.area == 0.0
    requires c.windForce == Zero
    ensures NewSpeed(c, prev) == Vec3(prev.x, prev.y, prev.z - c.g * c.deltaT)
  {
    ZeroDragStep(c, prev);
    WeightStep(c.mass, c.g, c.deltaT);
    assert Scale(NetForce(c), c.deltaT / c.mass) == Vec3(0.0, 0.0, -(c.g * c.deltaT));
  }

  /** Zero drag and zero wind: horizontal velocity is constant and vertical
      velocity drops by g Δt per step. */
  lemma {:induction false} FreeFall(c: Config, v0: Vec3, n: nat)
    requires c.mass != 0.0
    requires c.cd * c.rho * c.area == 0.0
    requires c.windForce == Zero
    ensures VelocityAt(c, v0, n) == Vec3(v0.x, v0.y, v0.z - Clock(c.g * c.deltaT, n))
  {
    if n > 0 {
      FreeFall(c, v0, n - 1);
      FreeFallStep(c, VelocityAt(c, v0, n - 1));
    }
  }

  // ---------------------------------------------------------------------
  // The state of a run, stated on the values of the fields
  // ---------------------------------------------------------------------

  /** The records after n = |trajectory| committed steps: the two lists
      aligned with the flight, every recorded position on or above the
      ground, the clock at n Δt and the current position the last one
      committed. */
  ghost predicate RecordsAfter(c: Config, v0: Vec3, p0: Vec3, trajectory: seq<Vec3>,
                               speeds: seq<Vec3>, timeInAir: real, position: Vec3)
  {
    var n := |trajectory|;
    (n == 0 || c.mass != 0.0) &&
    trajectory == Path(c, v0, p0, n) &&
    speeds == SpeedRecord(c, v0, n) &&
    timeInAir == Clock(c.deltaT, n) &&
    (forall i :: 0 <= i < n ==> 0.0 <= trajectory[i].z) &&
    position == PositionAt(c, v0, p0, n)
  }

  /** What the records promise: the two lists have equal length, the clock
      reads n Δt, the current position is the last recorded one (or the
      initial one), and consecutive records are linked by one step of the
      integrator starting from the initial velocity and position. */
  lemma RecordsInvariant(c: Config, v0: Vec3, p0: Vec3, trajectory: seq<Vec3>,
                         speeds: seq<Vec3>, timeInAir: real, position: Vec3)
    requires RecordsAfter(c, v0, p0, trajectory, speeds, timeInAir, position)
    ensures |speeds| == |trajectory|
    ensures timeInAir == |trajectory| as real * c.deltaT
    ensures position == if trajectory == [] then p0 else trajectory[|trajectory| - 1]
    ensures 0 < |trajectory| ==>
              speeds[0] == NewSpeed(c, v0) && trajectory[0] == NewPosition(c, p0, speeds[0])
    ensures forall i :: 0 < i < |trajectory| ==>
              speeds[i] == NewSpeed(c, speeds[i - 1]) &&
              trajectory[i] == NewPosition(c, trajectory[i - 1], speeds[i])
  {
    var n := |trajectory|;
    ClockIsStepsTimesDelta(c.deltaT, n);
    if 0 < n {
      assert speeds[0] == NewSpeed(c, v0) && trajectory[0] == NewPosition(c, p0, speeds[0]) by {
        assert VelocityAt(c, v0, 0) == v0 && PositionAt(c, v0, p0, 0) == p0;
        assert speeds[0] == VelocityAt(c, v0, 1);
        assert trajectory[0] == PositionAt(c, v0, p0, 1);
      }
      assert trajectory[n - 1] == PositionAt(c, v0, p0, n);
    }
    forall i | 0 < i < n
      ensures speeds[i] == NewSpeed(c, speeds[i - 1])
      ensures trajectory[i] == NewPosition(c, trajectory[i - 1], speeds[i])
    {
      RecordLink(c, v0, p0, trajectory, speeds, timeInAir, position, i);
    }
  }

  /** Record i is one step of the integrator from record i - 1. */
  lemma RecordLink(c: Config, v0: Vec3, p0: Vec3, trajectory: seq<Vec3>,
                   speeds: seq<Vec3>, timeInAir: real, position: Vec3, i: nat)
    requires RecordsAfter(c, v0, p0, trajectory, speeds, timeInAir, position)
    requires 0 < i < |trajectory|
    ensures speeds[i] == NewSpeed(c, speeds[i - 1])
    ensures trajectory[i] == NewPosition(c, trajectory[i - 1], speeds[i])
  {
    assert speeds[i - 1] == VelocityAt(c, v0, i);
    assert trajectory[i - 1] == PositionAt(c, v0, p0, i);
    assert speeds[i] == VelocityAt(c, v0, i + 1);
    assert trajectory[i] == PositionAt(c, v0, p0, i + 1);
  }

  /** The latch fields agree with the first capture among the first m steps. */
  ghost predicate LatchAfter(c: Config, v0: Vec3, p0: Vec3, m: nat,
                             hitTarget: bool, hitSpeed: Vec3, hitTime: real)
    requires m == 0 || c.mass != 0.0
  {
    match FirstCapture(c, v0, p0, m)
    case None => !hitTarget && hitSpeed == Zero && hitTime == 0.0
    case Some(k) =>
      hitTarget && k >= 1 && hitSpeed == VelocityAt(c, v0, k) && hitTime == Clock(c.deltaT, k - 1)
  }

  /** What the latch promises after m steps: it is set exactly when one of
      them captured; unset, it still holds its initial values; set, it holds
      the velocity of the first capturing step and the clock before it. */
  lemma LatchMeaning(c: Config, v0: Vec3, p0: Vec3, m: nat,
                     hitTarget: bool, hitSpeed: Vec3, hitTime: real)
    requires c.mass != 0.0
    requires LatchAfter(c, v0, p0, m, hitTarget, hitSpeed, hitTime)
    ensures hitTarget <==> exists k :: 1 <= k <= m && TouchingTarget(c, PositionAt(c, v0, p0, k))
    ensures !hitTarget ==> hitSpeed == Zero && hitTime == 0.0
    ensures hitTarget ==>
              exists k :: 1 <= k <= m && TouchingTarget(c, PositionAt(c, v0, p0, k)) &&
                (forall j :: 1 <= j < k ==> !TouchingTarget(c, PositionAt(c, v0, p0, j))) &&
                hitSpeed == VelocityAt(c, v0, k) && hitTime == Clock(c.deltaT, k - 1)
  {
    FirstCaptureIsFirst(c, v0, p0, m);
    if hitTarget {
      var k := FirstCapture(c, v0, p0, m).value;
      assert 1 <= k <= m && TouchingTarget(c, PositionAt(c, v0, p0, k));
    }
  }

  /** Committing step n + 1 keeps the records in step with the flight. */
  lemma CommitStep(c: Config, v0: Vec3, p0: Vec3, trajectory: seq<Vec3>,
                   speeds: seq<Vec3>, timeInAir: real, position: Vec3)
    requires c.mass != 0.0
    requires RecordsAfter(c, v0, p0, trajectory, speeds, timeInAir, position)
    requires 0.0 <= PositionAt(c, v0, p0, |trajectory| + 1).z
    ensures var n := |trajectory|;
            RecordsAfter(c, v0, p0, trajectory + [PositionAt(c, v0, p0, n + 1)],
                         speeds + [VelocityAt(c, v0, n + 1)], timeInAir + c.deltaT,
                         PositionAt(c, v0, p0, n + 1))
  {
    StepExtends(c, v0, p0, |trajectory|);
  }

  /** The latch update of step n + 1, done only when step n + 1 captures and
      no earlier step did, leaves the latch agreeing with n + 1 steps. */
  lemma LatchStep(c: Config, v0: Vec3, p0: Vec3, n: nat,
                  hitTarget: bool, hitSpeed: Vec3, hitTime: real)
    requires c.mass != 0.0
    requires LatchAfter(c, v0, p0, n, hitTarget, hitSpeed, hitTime)
    ensures var latches := TouchingTarget(c, PositionAt(c, v0, p0, n + 1)) && !hitTarget;
            LatchAfter(c, v0, p0, n + 1,
                       if latches then true else hitTarget,
                       if latches then VelocityAt(c, v0, n + 1) else hitSpeed,
                       if latches then Clock(c.deltaT, n) else hitTime)
  {
    StepExtends(c, v0, p0, n);
  }

  /** The state at the head of the step loop, after n = |trajectory|
      committed steps: the current speed is the last committed one and the
      latch has seen exactly the committed steps. */
  ghost predicate InFlightState(c: Config, v0: Vec3, p0: Vec3, trajectory: seq<Vec3>,
                                speeds: seq<Vec3>, timeInAir: real, position: Vec3, speed: Vec3,
                                hitTarget: bool, hitSpeed: Vec3, hitTime: real)
  {
    RecordsAfter(c, v0, p0, trajectory, speeds, timeInAir, position) &&
    speed == VelocityAt(c, v0, |trajectory|) &&
    LatchAfter(c, v0, p0, |trajectory|, hitTarget, hitSpeed, hitTime)
  }

  /** The state after the break: step n + 1 went below ground and is not
      recorded, but its velocity is current and the latch has seen it. */
  ghost predicate OnGroundState(c: Config, v0: Vec3, p0: Vec3, trajectory: seq<Vec3>,
                                speeds: seq<Vec3>, timeInAir: real, position: Vec3, speed: Vec3,
                                hitTarget: bool, hitSpeed: Vec3, hitTime: real)
  {
    var n := |trajectory|;
    RecordsAfter(c, v0, p0, trajectory, speeds, timeInAir, position) && c.mass != 0.0 &&
    PositionAt(c, v0, p0, n + 1).z < 0.0 &&
    speed == VelocityAt(c, v0, n + 1) &&
    LatchAfter(c, v0, p0, n + 1, hitTarget, hitSpeed, hitTime)
  }

  /** The constructor's initial state is in flight with nothing recorded. */
  lemma StartInFlight(c: Config, v0: Vec3, p0: Vec3)
    ensures InFlightState(c, v0, p0, [], [], 0.0, p0, v0, false, Zero, 0.0)
  {
  }

  /** The initial position is never tested: after landing, nothing was
      recorded exactly when the first computed position is below ground,
      whatever the height of the initial position. */
  lemma FirstStepDecides(c: Config, v0: Vec3, p0: Vec3, trajectory: seq<Vec3>,
                         speeds: seq<Vec3>, timeInAir: real, position: Vec3, speed: Vec3,
                         hitTarget: bool, hitSpeed: Vec3, hitTime: real)
    requires OnGroundState(c, v0, p0, trajectory, speeds, timeInAir, position, speed,
                           hitTarget, hitSpeed, hitTime)
    ensures trajectory == [] <==> PositionAt(c, v0, p0, 1).z < 0.0
  {
    if trajectory != [] {
      assert trajectory[0] == PositionAt(c, v0, p0, 1);
    }
  }

  /** One pass of the loop body from a state in flight: with the new velocity
      v and position p, and the latch set if p is the first capture, the run
      is on the ground when p.z < 0 and otherwise in flight one step further. */
  lemma StepPreservesState(c: Config, v0: Vec3, p0: Vec3, trajectory: seq<Vec3>,
                           speeds: seq<Vec3>, timeInAir: real, position: Vec3, speed: Vec3,
                           hitTarget: bool, hitSpeed: Vec3, hitTime: real)
    requires c.mass != 0.0
    requires InFlightState(c, v0, p0, trajectory, speeds, timeInAir, position, speed,
                           hitTarget, hitSpeed, hitTime)
    ensures var v := NewSpeed(c, speed);
            var p := NewPosition(c, position, v);
            var latches := TouchingTarget(c, p) && !hitTarget;
            var hit, hs, ht := latches || hitTarget, (if latches then v else hitSpeed),
                               (if latches then timeInAir else hitTime);
            (p.z < 0.0 ==>
               OnGroundState(c, v0, p0, trajectory, speeds, timeInAir, position, v, hit, hs, ht)) &&
            (0.0 <= p.z ==>
               InFlightState(c, v0, p0, trajectory + [p], speeds + [v], timeInAir + c.deltaT, p, v,
                             hit, hs, ht))
  {
    var n := |trajectory|;
    StepExtends(c, v0, p0, n);
    LatchStep(c, v0, p0, n, hitTarget, hitSpeed, hitTime);
    if 0.0 <= PositionAt(c, v0, p0, n + 1).z {
      CommitStep(c, v0, p0, trajectory, speeds, timeInAir, position);
    }
  }

  // ---------------------------------------------------------------------
  // The System object
  // ---------------------------------------------------------------------

  class System {
    const cfg: Config
    const weightForce: Vec3
    const F: Vec3
    const initialVelocity: Vec3
    const initialPosition: Vec3

    var currentSpeed: Vec3
    var currentPosition: Vec3
    var timeInAir: real
    var trajectory: seq<Vec3>
    var speeds: seq<Vec3>
    var hitTarget: bool
    var hitSpeed: Vec3
    var hitTime: real
    var outcome: Outcome

    ghost predicate Recorded()
      reads this
    {
      RecordsAfter(cfg, initialVelocity, initialPosition, trajectory, speeds, timeInAir, currentPosition)
    }

    /** The state at the head of the step loop: the current speed is the
        last committed one and the latch has seen the committed steps. */
    ghost predicate InFlight()
      reads this
    {
      InFlightState(cfg, initialVelocity, initialPosition, trajectory, speeds, timeInAir,
                    currentPosition, currentSpeed, hitTarget, hitSpeed, hitTime)
    }

    ghost predicate OnGround()
      reads this
    {
      OnGroundState(cfg, initialVelocity, initialPosition, trajectory, speeds, timeInAir,
                    currentPosition, currentSpeed, hitTarget, hitSpeed, hitTime)
    }

    /** Sets up the fields and runs the step loop for at most maxSteps
        iterations, as the Python constructor does without a bound. */
    constructor (radius: real, cd: real, rho: real, mass: real,
                 initialVelocity: Vec3, initialPosition: Vec3, windForce: Vec3,
                 deltaT: real, g: real, targetCoordinate: Vec3, targetRadius: real,
                 sqrt: real -> real, maxSteps: nat)
      ensures cfg == Config(radius, Area(radius), cd, rho, mass, g, deltaT, windForce,
                            targetCoordinate, targetRadius, sqrt)
      ensures weightForce == Weight(cfg) && F == NetForce(cfg)
      ensures this.initialVelocity == initialVelocity && this.initialPosition == initialPosition
      ensures outcome == DivisionByZero <==> mass == 0.0 && 0 < maxSteps
      ensures outcome == DivisionByZero ==> InFlight() && trajectory == []
      ensures outcome == Landed ==> OnGround() && |trajectory| < maxSteps
      ensures outcome == FuelExhausted ==> InFlight() && |trajectory| == maxSteps
    {
      cfg := Config(radius, Area(radius), cd, rho, mass, g, deltaT, windForce,
                    targetCoordinate, targetRadius, sqrt);
      var weight := Vec3(0.0, 0.0, -mass * g);
      weightForce := weight;
      F := Add(windForce, weight);
      this.initialVelocity := initialVelocity;
      this.initialPosition := initialPosition;
      currentSpeed := initialVelocity;
      currentPosition := initialPosition;
      timeInAir := 0.0;
      trajectory := [];
      speeds := [];
      hitTarget := false;
      hitSpeed := Zero;
      hitTime := 0.0;
      outcome := FuelExhausted;
      new;
      assert InFlight() by {
        StartInFlight(cfg, initialVelocity, initialPosition);
      }
      outcome := FindTrajectory(maxSteps);
    }

    /** `find_trajectory`: repeat the step until a computed position is below
        ground, for at most maxSteps iterations. */
    method FindTrajectory(maxSteps: nat) returns (result: Outcome)
      requires InFlight()
      modifies this`currentSpeed, this`currentPosition, this`timeInAir, this`trajectory,
               this`speeds, this`hitTarget, this`hitSpeed, this`hitTime
      ensures old(trajectory) <= trajectory && old(speeds) <= speeds
      ensures result == DivisionByZero <==> cfg.mass == 0.0 && 0 < maxSteps
      ensures result == DivisionByZero ==> InFlight() && trajectory == old(trajectory)
      ensures result == Landed ==> OnGround() && |trajectory| < old(|trajectory|) + maxSteps
      ensures result == FuelExhausted ==> InFlight() && |trajectory| == old(|trajectory|) + maxSteps
      ensures old(hitTarget) ==> hitTarget && hitSpeed == old(hitSpeed) && hitTime == old(hitTime)
    {
      var steps := 0;
      while steps < maxSteps
        invariant 0 <= steps <= maxSteps
        invariant InFlight()
        invariant |trajectory| == old(|trajectory|) + steps
        invariant steps == 0 || cfg.mass != 0.0
        invariant old(trajectory) <= trajectory && old(speeds) <= speeds
        invariant old(hitTarget) ==> hitTarget && hitSpeed == old(hitSpeed) && hitTime == old(hitTime)
      {
        if cfg.mass == 0.0 {
          return DivisionByZero;
        }
        var landed := Step();
        if landed {
          return Landed;
        }
        steps := steps + 1;
      }
      return FuelExhausted;
    }

    /** One pass of the body of the loop in `find_trajectory`: compute the new
        velocity and position, latch the first capture, then either report the
        below-ground position or commit the step to the records. */
    method Step() returns (landed: bool)
      requires InFlight() && cfg.mass != 0.0
      modifies this`currentSpeed, this`currentPosition, this`timeInAir, this`trajectory,
               this`speeds, this`hitTarget, this`hitSpeed, this`hitTime
      ensures landed ==> OnGround() && trajectory == old(trajectory) && speeds == old(speeds)
      ensures !landed ==> InFlight()
      ensures !landed ==> trajectory == old(trajectory) + [currentPosition]
      ensures !landed ==> speeds == old(speeds) + [currentSpeed]
      ensures old(hitTarget) ==> hitTarget && hitSpeed == old(hitSpeed) && hitTime == old(hitTime)
    {
      StepPreservesState(cfg, initialVelocity, initialPosition, trajectory, speeds, timeInAir,
                         currentPosition, currentSpeed, hitTarget, hitSpeed, hitTime);
      var speed := NewSpeed(cfg, currentSpeed);
      var position := NewPosition(cfg, currentPosition, speed);

      currentSpeed := speed;

      if TouchingTarget(cfg, position) && !hitTarget {
        hitTarget := true;
        hitSpeed := speed;
        hitTime := timeInAir;
      }

      if position.z < 0.0 {
        return true;
      }

      currentSpeed := speed;
      currentPosition := position;
      trajectory := trajectory + [position];
      speeds := speeds + [speed];
      timeInAir := timeInAir + cfg.deltaT;
      return false;
    }

    /** `final_position`: the last committed position, never the discarded
        below-ground one. */
    function FinalPosition(): (p: Vec3)
      reads this
      requires Recorded()
      ensures p == if trajectory == [] then initialPosition else trajectory[|trajectory| - 1]
      ensures 0 < |trajectory| ==> 0.0 <= p.z
    {
      currentPosition
    }

    /** `final_speed`: after landing, the velocity of the unrecorded step
        that went below ground; in flight, the last committed velocity. */
    function FinalSpeed(): (v: Vec3)
      reads this
      requires InFlight() || OnGround()
      ensures InFlight() ==> v == if speeds == [] then initialVelocity else speeds[|speeds| - 1]
      ensures OnGround() ==>
                v == NewSpeed(cfg, if speeds == [] then initialVelocity else speeds[|speeds| - 1])
    {
      currentSpeed
    }
  }
}
