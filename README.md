# RobotMovement — a verified model of the wandering robot's decision rules

The model covers the `RobotMovement` component of a small Unity project: a 2D robot that moves at constant speed, reacts to collisions and tries to get itself unstuck. The component is one class. Most of it is engine plumbing. Under that plumbing sit three exact decision rules, and these are what the model states and proves:

- **Escape-direction search** (`FindEscapeDirection`). Eight raycasts are made at 0°, 45°, …, 315°. A running "best" is kept as the scan goes.
- **Per-frame state machine** (`Update`). Each frame first recomputes the stuck flag and runs an escape when one is due. Then it either holds still while turning (stop mode) or moves along the current direction.
- **Collision handling and the temporary ignore set** (`OnCollisionEnter2D`, `EscapeStuckSituation`, `ReEnableCollision`).

The project has three modules:

- `escape.dfy` — module `EscapeSearch`. Raycast results (`Open`, or `Blocked(distance)`), headings, the scan as a loop method, and a reference description of its winner that does not mention the running best, with proofs that the two agree.
- `agent.dfy` — module `AgentSpec`. The component's whole state as a value (`Agent`). Frame, collision, escape and re-enable are functions on that value. Runs are sequences of events. The lemmas state what each transition promises, and which invariants hold over every run that starts at start-up.
- `robot.dfy` — module `RobotMovement`. The class `Robot`, whose fields are the component's fields and whose methods update them in place, in the component's order. Each method is proved to perform exactly the matching `AgentSpec` transition. Every method except the inner loop `IgnoreNearby` is also proved to keep `Valid()`, the class form of `AgentSpec.Invariant`.

Times, distances and speeds are compared and subtracted, and the slerp fraction is the product `deltaTime · rotationSpeed`. Nothing is rounded, so `real` stands in for the engine's floats. Directions are tags: the zero vector, or a unit vector given by its angle. Candidate `i` is `Heading(45·i)`.

How the scan behaves as written: an open ray always takes over, and it sets the running best to the engine's miss distance, 0. So a later blocked ray at any positive distance displaces an open one. The winner is the last open ray when no later ray reports a positive distance. Otherwise it is the first of the farthest blocked rays after the last open ray (`IsWinner`, `EscapeChoiceCharacterised`). The scan is neither first-maximal nor biased toward open headings: `OpenRayCanBeDisplaced` shows an open heading losing to a later blocked one, and `OpenLastWins` shows that an open last heading beats everything before it.

## Model

| member | source | states |
|---|---|---|
| `AgentSpec.DefaultTuning` | Assets/Scripts/RobotMovement.cs:5-11 | the shipped parameters (speed 2, ray 1, stuck threshold 0.5, force 3, cooldown 1, stop 0.3, rotation 5) have a positive cooldown and stop duration |
| `EscapeSearch.Compass` | Assets/Scripts/RobotMovement.cs:135-136 | each candidate heading `i·45°` is a non-zero direction |
| `EscapeSearch.HitDistance` | Assets/Scripts/RobotMovement.cs:137-141 | the distance the engine reports for a raycast: the hit distance, or 0 for a miss; its role in the scan is stated by `ScanPrefix` and `KeepsDirectionIff` |
| `EscapeSearch.Consider` | Assets/Scripts/RobotMovement.cs:139-143 | one loop iteration: an open ray or a farther blocked one takes over; stated by `ScanPrefixIsWinner` and `ChosenCandidateDominatesLater` |
| `EscapeSearch.EscapeChoice` | Assets/Scripts/RobotMovement.cs:130-146 | the choice after all eight iterations; characterised by `EscapeChoiceCharacterised` |
| `EscapeSearch.ScanPrefix` | Assets/Scripts/RobotMovement.cs:130-144 | after k steps the running best is never negative, the held candidate is one already scanned, and best is exactly that candidate's hit distance (0 while the incoming direction is held) |
| `EscapeSearch.ScanPrefixIsWinner` | Assets/Scripts/RobotMovement.cs:133-144 | on every prefix, the scan's choice meets the reference description: the last open ray, or the first farthest blocked ray after it, or the incoming direction when nothing is open and no distance is positive |
| `EscapeSearch.WinnerIsUnique` | Assets/Scripts/RobotMovement.cs:133-144 | the reference description fixes the winner uniquely |
| `EscapeSearch.EscapeChoiceCharacterised` | Assets/Scripts/RobotMovement.cs:127-147 | a choice is the scan's result if and only if it meets the reference description |
| `EscapeSearch.KeepsDirectionIff` | Assets/Scripts/RobotMovement.cs:130-146 | the incoming direction is returned exactly when every ray is blocked at distance ≤ 0 |
| `EscapeSearch.ChosenCandidateDominatesLater` | Assets/Scripts/RobotMovement.cs:133-144 | the chosen index took over at its own step (open, or farther than the best before it); it is the last step that takes over; every later ray is blocked no farther than the best the scan then held |
| `EscapeSearch.TakenOverStaysAtLeast` | Assets/Scripts/RobotMovement.cs:139-143 | after a take-over at step j, the held candidate's index never drops below j |
| `EscapeSearch.ChoiceStaysUntilTaken` | Assets/Scripts/RobotMovement.cs:139-143 | the scan state right after the winner's step is already the final state |
| `EscapeSearch.OpenLastWins` | Assets/Scripts/RobotMovement.cs:139-143 | an open last candidate always wins |
| `EscapeSearch.OpenRayCanBeDisplaced` | Assets/Scripts/RobotMovement.cs:139-141 | an open first ray loses to a later blocked ray at distance 0.5 |
| `EscapeSearch.FindEscapeDirection` | Assets/Scripts/RobotMovement.cs:127-147 | the loop returns the winner's heading, or the incoming direction; the result is either the incoming direction or one of the 8 candidates; the loop invariant keeps best ≥ 0 |
| `AgentSpec.Initial` | Assets/Scripts/RobotMovement.cs:13-29 | the start-up state; stated by `InitialInvariant` and `RobotMovement.Robot.constructor` |
| `AgentSpec.Escape` | Assets/Scripts/RobotMovement.cs:107-125 | the stuck escape as a transition; stated by `EscapeIgnoresOthers` |
| `AgentSpec.Unstick` | Assets/Scripts/RobotMovement.cs:33-48 | the stuck/escape phase of a frame; stated by `EscapeGate`, `StuckIsRecomputed` and `UnstickPreservesInvariant` |
| `AgentSpec.Move` | Assets/Scripts/RobotMovement.cs:50-83 | the stop/move phase of a frame; stated by `StoppedFrame`, `MovingFrame` and `MoveTouchesOnlyMotion` |
| `AgentSpec.Tick` | Assets/Scripts/RobotMovement.cs:31-84 | one frame, the two phases in order; stated by `TickPreservesInvariant`, `StuckIsRecomputed`, `EscapeGate`, `StoppedFrame` and `MovingFrame` |
| `AgentSpec.Collide` | Assets/Scripts/RobotMovement.cs:86-105 | a collision as a transition; stated by `CollisionEntersStop` |
| `AgentSpec.ReEnable` | Assets/Scripts/RobotMovement.cs:149-156 | a scheduled re-enable firing; stated by `ReEnableIsGuarded` |
| `AgentSpec.AmongMembers` | Assets/Scripts/RobotMovement.cs:116-124 | an escape ignores, and schedules a re-enable for, exactly the given colliders other than the robot's own, one re-enable per occurrence |
| `AgentSpec.EscapeIgnoresOthers` | Assets/Scripts/RobotMovement.cs:107-125 | an escape turns to the escape search's direction and adds one impulse along it scaled by the stuck force; a collider is ignored afterwards exactly when it was before or is a nearby one other than the robot's own; each collider gains one scheduled re-enable per occurrence among the nearby ones, none if it is the robot's own or not nearby; nothing else changes |
| `AgentSpec.InitialInvariant` | Assets/Scripts/RobotMovement.cs:13-29 | the start-up state satisfies the invariant |
| `AgentSpec.UnstickPreservesInvariant` | Assets/Scripts/RobotMovement.cs:33-48 | the stuck/escape phase keeps the invariant; a new escape lies more than the cooldown after the previous one |
| `AgentSpec.MoveTouchesOnlyMotion` | Assets/Scripts/RobotMovement.cs:50-83 | the stop/move phase changes only velocity, rotation, target rotation and the stop flag |
| `AgentSpec.TickPreservesInvariant` | Assets/Scripts/RobotMovement.cs:31-84 | a frame keeps the invariant |
| `AgentSpec.EventPreservesInvariant` | Assets/Scripts/RobotMovement.cs:31-156 | frame, collision and re-enable each keep the invariant |
| `AgentSpec.RunPreservesInvariant` | Assets/Scripts/RobotMovement.cs:31-156 | every state reached by any sequence of events from an invariant state is invariant |
| `AgentSpec.SpacedPairwise` | Assets/Scripts/RobotMovement.cs:44-48 | with a non-negative cooldown, spacing between neighbouring escapes gives spacing between any two |
| `AgentSpec.EscapesAreSpaced` | Assets/Scripts/RobotMovement.cs:44-48 | in any run from start-up, any two escapes are more than `stuckCooldown` apart, and each comes after `stuckCooldown` has passed since time 0 |
| `AgentSpec.DefaultEscapesAreSpaced` | Assets/Scripts/RobotMovement.cs:9 | with the shipped parameters, escapes in any run from start-up are more than one second apart and none happens in the first second |
| `AgentSpec.SelfNeverIgnored` | Assets/Scripts/RobotMovement.cs:116-124 | in any run from start-up, collisions with the robot's own collider are never ignored |
| `AgentSpec.StuckIsRecomputed` | Assets/Scripts/RobotMovement.cs:34-41 | after a frame, `isStuck` holds exactly when `now - lastCollisionTime < stuckThreshold` and speed < 0.1; its earlier value has no effect on the frame at all |
| `AgentSpec.EscapeGate` | Assets/Scripts/RobotMovement.cs:44-48 | an escape runs exactly when stuck and `now - lastEscapeTime > stuckCooldown`; it then stamps `lastEscapeTime := now` and applies one impulse; otherwise direction, impulses, ignored set, scheduled re-enables and escape time are unchanged |
| `AgentSpec.StoppedFrame` | Assets/Scripts/RobotMovement.cs:51-70 | while stopped, velocity becomes zero and the stop start time stays; stop mode ends exactly when `now - stopStartTime >= stopDuration`; inside the window with a non-zero direction the target rotation faces that direction and the rotation is slerped toward it by `deltaTime · rotationSpeed`; otherwise both rotations stay as they were |
| `AgentSpec.MovingFrame` | Assets/Scripts/RobotMovement.cs:72-83 | when not stopped, velocity becomes direction·speed and stop mode stays off; the robot faces the direction if it is non-zero, otherwise the rotation is untouched |
| `AgentSpec.CollisionEntersStop` | Assets/Scripts/RobotMovement.cs:86-105 | a collision sets `lastCollisionTime = stopStartTime = now` and `isStopped`; the reflected direction is replaced by the escape search's result exactly when its ray is blocked; nothing else changes |
| `AgentSpec.ReEnableIsGuarded` | Assets/Scripts/RobotMovement.cs:149-156 | a re-enable removes the collider from the ignored set only when both it and the robot's collider are alive, and otherwise leaves the ignored set and every field as they were; either way the scheduled re-enable is retired |
| `AgentSpec.StopWindowHolds` | Assets/Scripts/RobotMovement.cs:51-70 | from any stopped state, a run of frames that all fall inside the stop window leaves the robot stopped, with the same stop start time and zero velocity |
| `RobotMovement.Robot.constructor` | Assets/Scripts/RobotMovement.cs:23-29 | start-up: fields at their defaults, the given collider as the robot's own, the given initial direction; valid |
| `RobotMovement.Robot.Update` | Assets/Scripts/RobotMovement.cs:31-84 | the new state is `Tick` of the old state and the frame's inputs; validity is kept |
| `RobotMovement.Robot.CheckStuck` | Assets/Scripts/RobotMovement.cs:33-48 | the new state is the stuck/escape phase `Unstick` of the old; validity is kept |
| `RobotMovement.Robot.StopOrMove` | Assets/Scripts/RobotMovement.cs:50-83 | the new state is the stop/move phase `Move` of the old; validity is kept |
| `RobotMovement.Robot.OnCollisionEnter2D` | Assets/Scripts/RobotMovement.cs:86-105 | the new state is `Collide` of the old; validity is kept |
| `RobotMovement.Robot.EscapeStuckSituation` | Assets/Scripts/RobotMovement.cs:107-125 | the new state is `Escape` of the old; validity is kept |
| `RobotMovement.Robot.IgnoreNearby` | Assets/Scripts/RobotMovement.cs:116-124 | the loop adds exactly the non-own nearby colliders to the ignored set and schedules one re-enable per occurrence; nothing else changes |
| `RobotMovement.Robot.ReEnableCollision` | Assets/Scripts/RobotMovement.cs:149-156 | the new state is `ReEnable` of the old; validity is kept |

## Left out

- Vector and angle arithmetic is floating-point numerics and is not modelled. This covers `Vector2.Reflect`, `.normalized`, `Mathf.Atan2`/`Cos`/`Sin`, `Quaternion.Euler` and `Quaternion.Slerp`. The reflected, normalised direction is an input of a collision. `Slerp` is kept as a symbolic `Rotation` value.
- Engine queries are inputs: `Physics2D.Raycast` (the reflected-direction ray and the eight candidate rays), `OverlapCircleAll` with radius 1 (the nearby colliders), and the body's speed magnitude. The eight candidate rays are supplied whether or not the search runs. `raycastDistance` only parameterises those queries.
- `rb.AddForce` is recorded as an impulse log. Its effect on the body's motion belongs to the engine. `velocity` is the velocity the component last set, not the one the physics step produces.
- `Physics2D.IgnoreCollision` becomes the ghost set `ignored`, holding the colliders paired with the robot's own. `StartCoroutine` becomes the ghost multiset `pending` of scheduled re-enables.
- The 0.5 s `WaitForSeconds` delay is not modelled. A re-enable is an event the caller fires for a scheduled collider. Unity stopping coroutines when the component is destroyed is not modelled either.
- "Destroyed" colliders, which Unity compares equal to null, become two booleans on the re-enable event.
- `Random.insideUnitCircle` at start-up becomes a constructor argument. `GetComponent` calls become the constructor's collider argument. A missing `Rigidbody2D` is not modelled.
- Float rounding is not modelled. Time differences and the 0.1 speed threshold are exact reals.
- Some methods are reshaped without changing their statements or their order. `FindEscapeDirection` takes the current direction as a parameter instead of reading the field. `Update`'s two phases are the methods `CheckStuck` and `StopOrMove`. The `foreach` of `EscapeStuckSituation` is the method `IgnoreNearby`.
- RobotMovement.Robot.ReEnableCollision: requires the collider to have a scheduled re-enable, because the engine only resumes coroutines that were started.
- AgentSpec.EscapesAreSpaced: requires `stuckCooldown >= 0` for spacing between any two escapes. With a negative cooldown only neighbouring escapes are spaced, which `Invariant` states for every run.
- The rotation a stopped frame slerps from is the one the component last wrote, not the live `transform.rotation` (line 68). A physics body can be turned by contacts between frames, and the model does not capture that.
