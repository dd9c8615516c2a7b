/** The robot movement component as an object whose methods update its
    fields in place, in the order the component does. Each method is proved
    to perform the corresponding transition of AgentSpec and to keep the
    component's invariant. */
module RobotMovement {
  import opened EscapeSearch
  import opened AgentSpec

  class Robot {
    const tuning: Tuning
    const robotCollider: Collider

    var direction: Direction
    var lastCollisionTime: real
    var isStuck: bool
    var lastEscapeTime: real
    var isStopped: bool
    var stopStartTime: real
    var targetRotation: Rotation

    /** The body's velocity and the transform's rotation, as last set. */
    var velocity: Motion
    var rotation: Rotation

    /** Engine-side effects: impulses applied, colliders whose collisions with
        the robot are ignored, re-enables scheduled but not yet fired, and the
        times at which an escape ran. */
    ghost var impulses: seq<Motion>
    ghost var ignored: set<Collider>
    ghost var pending: multiset<Collider>
    ghost var escapes: seq<real>

    /** The component's whole state as a value. */
    ghost function State(): Agent
      reads this
    {
      Agent(direction, lastCollisionTime, isStuck, lastEscapeTime, isStopped, stopStartTime,
            velocity, rotation, targetRotation, impulses, ignored, pending, escapes)
    }

    ghost predicate Valid()
      reads this
    {
      Invariant(State(), tuning, robotCollider)
    }

    /** Start-up: defaults for every field, the given collider as the robot's
        own, and the given (randomly chosen) initial direction. */
    constructor (t: Tuning, self: Collider, initialDirection: Direction, initialRotation: Rotation)
      ensures tuning == t && robotCollider == self
      ensures State() == Initial(initialDirection, initialRotation)
      ensures Valid()
    {
      tuning, robotCollider := t, self;
      direction := initialDirection;
      lastCollisionTime, isStuck, lastEscapeTime := 0.0, false, 0.0;
      isStopped, stopStartTime := false, 0.0;
      targetRotation := Unset;
      velocity, rotation := Rest, initialRotation;
      impulses, ignored, pending, escapes := [], {}, multiset{}, [];
    }

    /** One frame: stuck detection, escape when due, then the stop-and-turn
        or the move-and-face phase. */
    method Update(f: Frame)
      requires Valid()
      requires |f.rays| == Candidates
      modifies this
      ensures State() == Tick(old(State()), tuning, robotCollider, f)
      ensures Valid()
    {
      CheckStuck(f);
      StopOrMove(f);
    }

    /** First phase of a frame: recompute isStuck, and escape when stuck and
        the cooldown has passed since the last escape. */
    method CheckStuck(f: Frame)
      requires Valid()
      requires |f.rays| == Candidates
      modifies this
      ensures State() == Unstick(old(State()), tuning, robotCollider, f)
      ensures Valid()
    {
      ghost var s0 := State();
      if f.now - lastCollisionTime < tuning.stuckThreshold && f.speedMagnitude < StuckSpeed {
        isStuck := true;
      } else {
        isStuck := false;
      }

      if isStuck && f.now - lastEscapeTime > tuning.stuckCooldown {
        EscapeStuckSituation(f.rays, f.nearby);
        lastEscapeTime := f.now;
        escapes := escapes + [f.now];
      }
      UnstickPreservesInvariant(s0, tuning, robotCollider, f);
    }

    /** Second phase of a frame: hold still and turn while stopped, ending
        stop mode once its duration has elapsed; otherwise move and face the
        direction. */
    method StopOrMove(f: Frame)
      requires Valid()
      modifies this
      ensures State() == Move(old(State()), tuning, f)
      ensures Valid()
    {
      ghost var s0 := State();
      if isStopped {
        velocity := Rest;
        if f.now - stopStartTime >= tuning.stopDuration {
          isStopped := false;
        } else {
          if direction != Zero {
            targetRotation := Facing(direction);
            rotation := Slerp(rotation, targetRotation, f.deltaTime * tuning.rotationSpeed);
            assert Move(old(State()), tuning, f).rotation == rotation;
          }
        }
      } else {
        velocity := Scaled(direction, tuning.speed);
        if direction != Zero {
          rotation := Facing(direction);
        }
      }
      MoveTouchesOnlyMotion(s0, tuning, f);
    }

    /** A collision: stamp the time, reflect, search for an escape when the
        reflected ray is blocked, and enter stop mode. */
    method OnCollisionEnter2D(c: Contact)
      requires Valid()
      requires |c.rays| == Candidates
      modifies this
      ensures State() == Collide(old(State()), c)
      ensures Valid()
    {
      lastCollisionTime := c.now;
      direction := c.reflected;
      if c.reflectedRay.Blocked? {
        direction := FindEscapeDirection(direction, c.rays);
      }
      isStopped := true;
      stopStartTime := c.now;
    }

    /** The stuck escape: new direction, impulse along it, and collisions
        with every nearby collider but the robot's own ignored, each with a
        re-enable scheduled. */
    method EscapeStuckSituation(rays: seq<Ray>, nearby: seq<Collider>)
      requires Valid()
      requires |rays| == Candidates
      modifies this
      ensures State() == Escape(old(State()), tuning, robotCollider, rays, nearby)
      ensures Valid()
    {
      ghost var s0 := State();
      direction := FindEscapeDirection(direction, rays);
      impulses := impulses + [Scaled(direction, tuning.stuckForce)];
      ghost var mid := State();
      IgnoreNearby(nearby);
      assert State() == mid.(ignored := ignored, pending := pending);
      EscapeIgnoresOthers(s0, tuning, robotCollider, rays, nearby);
    }

    /** The loop of the escape over the nearby colliders: every one but the
        robot's own is ignored and gets a re-enable scheduled. */
    method IgnoreNearby(nearby: seq<Collider>)
      modifies this`ignored, this`pending
      ensures ignored == old(ignored) + IgnoredAmong(nearby, |nearby|, robotCollider)
      ensures pending == old(pending) + ScheduledAmong(nearby, |nearby|, robotCollider)
    {
      ghost var ignored0, pending0 := ignored, pending;
      for i := 0 to |nearby|
        invariant ignored == ignored0 + IgnoredAmong(nearby, i, robotCollider)
        invariant pending == pending0 + ScheduledAmong(nearby, i, robotCollider)
      {
        var collider := nearby[i];
        if collider != robotCollider {
          assert IgnoredAmong(nearby, i + 1, robotCollider) == IgnoredAmong(nearby, i, robotCollider) + {collider};
          assert ScheduledAmong(nearby, i + 1, robotCollider) == ScheduledAmong(nearby, i, robotCollider) + multiset{collider};
          ignored := ignored + {collider};
          pending := pending + multiset{collider};
        } else {
          assert IgnoredAmong(nearby, i + 1, robotCollider) == IgnoredAmong(nearby, i, robotCollider);
          assert ScheduledAmong(nearby, i + 1, robotCollider) == ScheduledAmong(nearby, i, robotCollider);
        }
      }
    }

    /** A scheduled re-enable firing for one collider. */
    method ReEnableCollision(collider: Collider, colliderAlive: bool, robotAlive: bool)
      requires Valid()
      requires collider in pending
      modifies this
      ensures State() == ReEnable(old(State()), collider, colliderAlive, robotAlive)
      ensures Valid()
    {
      pending := pending - multiset{collider};
      if colliderAlive && robotAlive {
        ignored := ignored - {collider};
      }
    }
  }
}
