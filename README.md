# 3-D ball trajectory simulator: the `System` integrator in Dafny

`lib/System.py` simulates one ball as a point mass. The ball is acted on by gravity, a constant wind force and quadratic
drag. The constructor computes the drag reference area, the weight and the
net force `F`, and then runs `find_trajectory`. That loop repeats a
fixed-step update:
- compute the new velocity with `new_speed`, where drag uses the *previous*
  speed magnitude on all three axes;
- move the position by that velocity times Δt;
- latch the first step whose position touches the target sphere (`touching_target`);
- stop as soon as a computed position has z < 0;
- otherwise append the position and velocity to `trajectory` and `speeds`
  and advance `time_in_air`.

`final_position` and `final_speed` read the last state back.

The model has two modules:

- `Vectors` (`vectors.dfy`): `Vec3` triples over `real`, with componentwise add,
  subtract and scale, and the squared norm.
- `Ballistics` (`ballistics.dfy`):
  - `Config` holds the run's fixed parameters, including the stored
    `area` that `new_speed` reads; `math.sqrt` is the parameter `sqrt`, and
    `IsSqrt(sqrt)` says it is a true square root.
  - The one-step functions: `Area`, `NetForce`, `AxisUpdate`/`NewSpeed`,
    `NewPosition` and `TouchingTarget`.
  - The reference definitions of a whole run: `VelocityAt` and `PositionAt`
    give the k-th computed velocity and position; `Path` and `SpeedRecord`
    give the first n records; `FirstCapture` gives the first capturing
    step; `Clock` gives Δt summed n times.
  - The predicates on the state of the loop: `RecordsAfter`, `LatchAfter`,
    `InFlightState` and `OnGroundState`.
  - The class `System`, whose fields are the Python object's fields. Its
    constructor runs the loop, `FindTrajectory` is the `while True` loop,
    `Step` is one pass of its body, and `FinalPosition`/`FinalSpeed` are the
    two properties.

`FindTrajectory` takes a step budget `maxSteps`, since the Python loop has
no bound. It reports one of three outcomes:
- `Landed`: a computed position went below ground.
- `FuelExhausted`: the budget ran out while airborne. Only partial
  correctness is claimed.
- `DivisionByZero`: the mass is zero. Python raises `ZeroDivisionError`
  in `new_speed` on the first step. Nothing is changed.

## Model

| member | source | states |
|---|---|---|
| Vectors.NormSq | lib/System.py:88-92 | the squared distance or speed under the square root is non-negative, so the root is always taken of a non-negative number |
| Ballistics.Area | lib/System.py:20 | the drag reference area is non-negative |
| Ballistics.NetForce | lib/System.py:26-33 | F equals the wind on x and y and wind minus mass·g on z; with no wind it is the weight (0, 0, -mass·g) |
| Ballistics.DragOpposesMotion | lib/System.py:95-105 | the drag deviation is a multiple of the previous velocity: on every axis the new velocity differs from the drag-free update v + F·Δt/m by exactly -(‖v‖·k·Δt/m)·v, with k = area·Cd·rho/2 and ‖v‖ the previous speed magnitude; `DragSign` gives the sign of that multiple |
| Ballistics.DragSign | lib/System.py:98-104 | with a true square root, non-negative area, Cd, rho and Δt and a positive mass, the factor ‖v‖·k·Δt/m is non-negative, so together with `DragOpposesMotion` quadratic drag opposes motion |
| Ballistics.ZeroDragStep | lib/System.py:95-105 | when Cd·rho·area = 0, a step adds exactly F·Δt/m to the velocity |
| Ballistics.FreeFallStep | lib/System.py:95-105 | with zero drag and zero wind, a step keeps vx and vy and lowers vz by g·Δt |
| Ballistics.FreeFall | lib/System.py:95-105 | with zero drag and zero wind, after n steps vx and vy equal their initial values and vz has dropped by g·Δt n times |
| Ballistics.CaptureIsStrictOverlap | lib/System.py:85-93 | given a true square root, capture holds iff the radius sum is positive and the squared distance to the target centre is strictly below its square; so a non-positive radius sum never captures |
| Ballistics.NotCapturedAtBoundary | lib/System.py:85-93 | at a distance exactly equal to target_radius + radius the ball is not captured |
| Ballistics.Path | lib/System.py:73 | the position record after n steps has length n, and entry i is the position computed in step i + 1 |
| Ballistics.SpeedRecord | lib/System.py:74 | the velocity record after n steps has length n, and entry i is the velocity computed in step i + 1 |
| Ballistics.FirstCaptureIsFirst | lib/System.py:63-66 | the latch over the first m steps is set iff one of them captures, and when set it names a capturing step with no capture before it |
| Ballistics.LatchSetOnce | lib/System.py:63-66 | once the latch is set, later steps leave it unchanged |
| Ballistics.RecordsArePrefixes | lib/System.py:73-74 | the records only grow: the records after n steps are prefixes of those after n' >= n steps |
| Ballistics.ClockIsStepsTimesDelta | lib/System.py:75 | adding Δt once per committed step gives n·Δt after n steps |
| Ballistics.RecordsInvariant | lib/System.py:37-42 | on any recorded state: `trajectory` and `speeds` have equal length; `time_in_air` is that length times Δt; the current position is the last recorded one, or the initial one; the first record is one step from the initial velocity and position; each later record is one step from the one before |
| Ballistics.RecordLink | lib/System.py:54-59 | on a recorded state, record i is new_speed of record i - 1, and position i is position i - 1 plus velocity i times Δt |
| Ballistics.LatchMeaning | lib/System.py:46-48 | after m steps, hit_target is set iff some step captured; unset, hit_speed and hit_time keep their initial zero values; set, hit_speed is the first capturing step's new velocity and hit_time is time_in_air before that step |
| Ballistics.CommitStep | lib/System.py:71-75 | committing a step whose position has z >= 0 keeps the records, the clock and the current position aligned with the run |
| Ballistics.LatchStep | lib/System.py:63-66 | the code's latch update in step n + 1 keeps the latch fields equal to the first capture among n + 1 steps |
| Ballistics.StartInFlight | lib/System.py:37-48 | the constructor's initial field values form a valid in-flight state with nothing recorded and the latch clear |
| Ballistics.FirstStepDecides | lib/System.py:52-69 | the initial position is never tested: after landing, nothing was recorded iff the first computed position has z < 0, whatever the initial height |
| Ballistics.StepPreservesState | lib/System.py:54-75 | one pass of the loop body from an in-flight state either lands (z < 0, the step not recorded, its velocity current, the latch having seen it) or stays in flight with one more record |
| Ballistics.System.constructor | lib/System.py:5-50 | stores the parameters, area, weight and F. Mass 0 with a positive budget gives DivisionByZero and nothing recorded. Landing gives the on-ground state after at most maxSteps steps, with fewer than maxSteps records. Running out of budget gives the in-flight state after exactly maxSteps records |
| Ballistics.System.FindTrajectory | lib/System.py:52-75 | the records only grow; DivisionByZero exactly when mass is 0 and a step is due; landing is in the on-ground state; an exhausted budget is in the in-flight state with exactly maxSteps more records; a latch already set is never changed |
| Ballistics.System.Step | lib/System.py:54-75 | on landing the records are unchanged and the state is on the ground; otherwise the new position and velocity are appended and the state is in flight; a set latch keeps its values |
| Ballistics.System.FinalPosition | lib/System.py:77-79 | the final position is the last element of `trajectory`, or the initial position when it is empty, and is never below ground once something was recorded |
| Ballistics.System.FinalSpeed | lib/System.py:81-83 | in flight, the final speed is the last recorded velocity (or the initial one); after landing, it is new_speed of that velocity, i.e. the velocity of the unrecorded below-ground step |

## Left out

- Plotting, the 3-D scatter setup, writing the trajectory to a text file and point decimation for display (`one_ball.py`, `multiple_balls.py`): user interface and I/O.
- The driver scripts' parameter values and side-by-side runs: configuration only; the balls never interact.
- Floating-point behaviour (rounding, step-size sensitivity, accuracy): the model computes over exact reals.
- `math.sqrt`: Dafny's reals have no square root, so it is the parameter `sqrt` of `Config`. The lemmas that need it to be a true root require `IsSqrt`. The velocity update treats the magnitude as whatever `sqrt` returns.
- `math.pi` is the decimal literal `3.141592653589793`, the value Python prints for it.
- Ballistics.Area: the contract states only that the area is non-negative, not its value π·r²/2; the value is the body's formula.
- Termination: the Python loop is `while True` and never stops under an upward net force. The model runs at most `maxSteps` passes and reports `FuelExhausted` otherwise. What happens after the budget runs out is not modelled.
- Ballistics.System.FindTrajectory: requires an in-flight state. In Python a second call after landing would start from the last committed position but with `current_speed` already set to the velocity of the discarded below-ground step (line 61 runs before the `break` at line 69), and with the latch left as it is; the model does not cover that sequence.
- The zero-mass `ZeroDivisionError` is the `DivisionByZero` outcome rather than an exception. Its exception stack is not modelled.
- The default argument values of the Python constructor are not modelled; every parameter is explicit.
- Python list aliasing between `initial_velocity`/`initial_position` and the current fields: harmless, since the loop builds new lists and never mutates them. The model stores vector values.
- `hit_speed` starts as the integer `0` in Python; the model uses the zero vector.
- Python integers versus floats for `time_in_air` and `hit_time`: both are reals in the model.
