/** The robot's behaviour as transitions on a state value: one per-frame
    tick, one collision, one stuck escape, one deferred collision re-enable.
    The class in RobotMovement is proved to perform exactly these
    transitions; the lemmas here say what the transitions promise, one call
    at a time and over whole runs of events. */
module AgentSpec {
  import opened EscapeSearch

  /** The tunable parameters of the component. Times, distances and speeds
      are compared, subtracted and scaled, never rounded: reals stand in for
      the engine's floats. */
  datatype Tuning = Tuning(
    speed: real,
    raycastDistance: real,
    stuckThreshold: real,
    stuckForce: real,
    stuckCooldown: real,
    stopDuration: real,
    rotationSpeed: real)

  /** The parameter values the component ships with. */
  function DefaultTuning(): (t: Tuning)
    ensures t.stuckCooldown > 0.0 && t.stopDuration > 0.0
  {
    Tuning(2.0, 1.0, 0.5, 3.0, 1.0, 0.3, 5.0)
  }

  /** Speed magnitude below which a recently collided robot counts as stuck. */
  const StuckSpeed: real := 0.1

  /** An engine collider, by identity. */
  datatype Collider = Collider(id: nat)

  /** A vector expressed through a direction: the zero vector, or a direction
      scaled by a factor (speed for velocity, force for an impulse). */
  datatype Motion = Rest | Scaled(dir: Direction, factor: real)

  /** An orientation: unset, facing a direction, or the spherical
      interpolation from one orientation toward another by a fraction t. */
  datatype Rotation = Unset | Facing(toward: Direction) | Slerp(from: Rotation, to: Rotation, t: real)

  /** Everything the component reads or writes: its own fields, the body's
      velocity and rotation as last set, and the engine-side effects it
      causes (impulses applied, colliders ignored, re-enables scheduled,
      times at which an escape ran). */
  datatype Agent = Agent(
    direction: Direction,
    lastCollisionTime: real,
    isStuck: bool,
    lastEscapeTime: real,
    isStopped: bool,
    stopStartTime: real,
    velocity: Motion,
    rotation: Rotation,
    targetRotation: Rotation,
    impulses: seq<Motion>,
    ignored: set<Collider>,
    pending: multiset<Collider>,
    escapes: seq<real>)

  /** What the engine supplies to one frame update: the time, the frame's
      delta time, the body's current speed magnitude, the eight raycasts the
      escape search would make and the colliders near the robot. */
  datatype Frame = Frame(now: real, deltaTime: real, speedMagnitude: real,
                         rays: seq<Ray>, nearby: seq<Collider>)

  /** What the engine supplies to one collision: the time, the current
      direction reflected about the contact normal (normalised), the raycast
      along it, and the eight raycasts the escape search would make. */
  datatype Contact = Contact(now: real, reflected: Direction, reflectedRay: Ray, rays: seq<Ray>)

  /** The events that drive the component. */
  datatype Event =
    | FrameEvent(frame: Frame)
    | CollisionEvent(contact: Contact)
    | ReEnableEvent(collider: Collider, colliderAlive: bool, robotAlive: bool)

  /** The state right after start-up: every field at its default, the
      initial direction chosen at random by the caller. */
  function Initial(initialDirection: Direction, initialRotation: Rotation): Agent {
    Agent(initialDirection, 0.0, false, 0.0, false, 0.0, Rest, initialRotation, Unset,
          [], {}, multiset{}, [])
  }

  /** The colliders among the first k of cs that are not the robot's own:
      those an escape ignores. */
  function IgnoredAmong(cs: seq<Collider>, k: nat, self: Collider): set<Collider>
    requires k <= |cs|
  {
    if k == 0 then {}
    else IgnoredAmong(cs, k - 1, self) + (if cs[k - 1] != self then {cs[k - 1]} else {})
  }

  /** The re-enables an escape schedules for the first k of cs: one per
      occurrence of a collider that is not the robot's own. */
  function ScheduledAmong(cs: seq<Collider>, k: nat, self: Collider): multiset<Collider>
    requires k <= |cs|
  {
    if k == 0 then multiset{}
    else ScheduledAmong(cs, k - 1, self) + (if cs[k - 1] != self then multiset{cs[k - 1]} else multiset{})
  }

  /** An escape ignores, and schedules a re-enable for, exactly the colliders
      it was given other than the robot's own. */
  lemma {:induction false} AmongMembers(cs: seq<Collider>, k: nat, self: Collider)
    requires k <= |cs|
    ensures forall c :: c in IgnoredAmong(cs, k, self) <==> c != self && exists j :: 0 <= j < k && cs[j] == c
    ensures forall c :: c in ScheduledAmong(cs, k, self) <==> c in IgnoredAmong(cs, k, self)
    ensures forall c :: ScheduledAmong(cs, k, self)[c] == if c == self then 0 else multiset(cs[..k])[c]
  {
    if k > 0 {
      AmongMembers(cs, k - 1, self);
      assert cs[..k] == cs[..k - 1] + [cs[k - 1]];
    }
  }

  /** The stuck escape: take the escape search's direction, push along it,
      and ignore collisions with every nearby collider except the robot's
      own, scheduling one re-enable for each. */
  function Escape(s: Agent, t: Tuning, self: Collider, rays: seq<Ray>, nearby: seq<Collider>): Agent {
    var d := Resolve(EscapeChoice(rays), s.direction);
    s.(direction := d,
       impulses := s.impulses + [Scaled(d, t.stuckForce)],
       ignored := s.ignored + IgnoredAmong(nearby, |nearby|, self),
       pending := s.pending + ScheduledAmong(nearby, |nearby|, self))
  }

  /** Whether the robot counts as stuck in a frame. */
  predicate StuckAt(s: Agent, t: Tuning, f: Frame) {
    f.now - s.lastCollisionTime < t.stuckThreshold && f.speedMagnitude < StuckSpeed
  }

  /** First phase of a frame: recompute the stuck flag, and escape when stuck
      and the cooldown since the last escape has passed. */
  function Unstick(s: Agent, t: Tuning, self: Collider, f: Frame): Agent {
    var s1 := s.(isStuck := StuckAt(s, t, f));
    if s1.isStuck && f.now - s1.lastEscapeTime > t.stuckCooldown then
      Escape(s1, t, self, f.rays, f.nearby).(lastEscapeTime := f.now, escapes := s1.escapes + [f.now])
    else s1
  }

  /** Second phase of a frame: while stopped, hold still and turn gradually
      toward the direction until the stop window is over; otherwise move
      along the direction and face it at once. */
  function Move(s: Agent, t: Tuning, f: Frame): Agent {
    if s.isStopped then
      var held := s.(velocity := Rest);
      if f.now - s.stopStartTime >= t.stopDuration then held.(isStopped := false)
      else if s.direction != Zero then
        var target := Facing(s.direction);
        held.(targetRotation := target, rotation := Slerp(s.rotation, target, f.deltaTime * t.rotationSpeed))
      else held
    else
      var moving := s.(velocity := Scaled(s.direction, t.speed));
      if s.direction != Zero then moving.(rotation := Facing(s.direction)) else moving
  }

  /** One frame update. */
  function Tick(s: Agent, t: Tuning, self: Collider, f: Frame): Agent {
    Move(Unstick(s, t, self, f), t, f)
  }

  /** A collision: stamp the time, take the reflected direction (or the
      escape search's, when the reflected ray is blocked) and enter stop mode. */
  function Collide(s: Agent, c: Contact): Agent {
    var d := if c.reflectedRay.Blocked? then Resolve(EscapeChoice(c.rays), c.reflected) else c.reflected;
    s.(lastCollisionTime := c.now, direction := d, isStopped := true, stopStartTime := c.now)
  }

  /** A scheduled re-enable firing: it is retired, and it restores collisions
      with the collider only when both colliders still exist. */
  function ReEnable(s: Agent, c: Collider, colliderAlive: bool, robotAlive: bool): Agent {
    var retired := s.(pending := s.pending - multiset{c});
    if colliderAlive && robotAlive then retired.(ignored := s.ignored - {c}) else retired
  }

  function Apply(s: Agent, t: Tuning, self: Collider, e: Event): Agent {
    match e
    case FrameEvent(f) => Tick(s, t, self, f)
    case CollisionEvent(c) => Collide(s, c)
    case ReEnableEvent(c, alive, robotAlive) => ReEnable(s, c, alive, robotAlive)
  }

  /** The state after a sequence of events, in order. */
  function Run(s: Agent, t: Tuning, self: Collider, es: seq<Event>): Agent
    decreases |es|
  {
    if es == [] then s else Run(Apply(s, t, self, es[0]), t, self, es[1..])
  }

  /** Consecutive escapes are more than the cooldown apart. */
  ghost predicate Spaced(times: seq<real>, cooldown: real) {
    forall i :: 0 < i < |times| ==> times[i] - times[i - 1] > cooldown
  }

  /** What every reachable state satisfies: the robot's own collider is never
      ignored nor scheduled, the escape log ends at lastEscapeTime (which is
      still 0 before any escape) and its entries are spaced by the cooldown,
      the first one coming after the cooldown has passed since time 0. */
  ghost predicate Invariant(s: Agent, t: Tuning, self: Collider) {
    && self !in s.ignored
    && self !in s.pending
    && (s.escapes == [] ==> s.lastEscapeTime == 0.0)
    && (s.escapes != [] ==> s.escapes[|s.escapes| - 1] == s.lastEscapeTime && s.escapes[0] > t.stuckCooldown)
    && Spaced(s.escapes, t.stuckCooldown)
  }

  lemma InitialInvariant(t: Tuning, self: Collider, d: Direction, r: Rotation)
    ensures Invariant(Initial(d, r), t, self)
  {
  }

  /** An escape turns to the escape search's direction, pushes along it,
      adds every nearby collider except the robot's own to the ignored set
      with one scheduled re-enable per occurrence, and touches nothing else. */
  lemma EscapeIgnoresOthers(s: Agent, t: Tuning, self: Collider, rays: seq<Ray>, nearby: seq<Collider>)
    ensures var s' := Escape(s, t, self, rays, nearby);
      && s'.direction == Resolve(EscapeChoice(rays), s.direction)
      && s'.impulses == s.impulses + [Scaled(s'.direction, t.stuckForce)]
      && (forall c :: c in s'.ignored <==> c in s.ignored || (c in nearby && c != self))
      && (forall c :: s'.pending[c] == s.pending[c] + if c == self then 0 else multiset(nearby)[c])
      && (self in s'.ignored <==> self in s.ignored)
      && s' == s.(direction := s'.direction, impulses := s'.impulses,
                  ignored := s'.ignored, pending := s'.pending)
  {
    AmongMembers(nearby, |nearby|, self);
    assert nearby[..|nearby|] == nearby;
  }

  lemma UnstickPreservesInvariant(s: Agent, t: Tuning, self: Collider, f: Frame)
    requires Invariant(s, t, self)
    ensures Invariant(Unstick(s, t, self, f), t, self)
  {
    var s1 := s.(isStuck := StuckAt(s, t, f));
    if s1.isStuck && f.now - s1.lastEscapeTime > t.stuckCooldown {
      var e := Escape(s1, t, self, f.rays, f.nearby);
      EscapeIgnoresOthers(s1, t, self, f.rays, f.nearby);
      var log := s.escapes + [f.now];
      assert Unstick(s, t, self, f) == e.(lastEscapeTime := f.now, escapes := log);
      assert Spaced(log, t.stuckCooldown) by {
        assert forall i :: 0 <= i < |s.escapes| ==> log[i] == s.escapes[i];
      }
    }
  }

  /** The second phase of a frame touches only the velocity, the rotations
      and the stop flag. */
  lemma MoveTouchesOnlyMotion(s: Agent, t: Tuning, f: Frame)
    ensures var m := Move(s, t, f);
      m == s.(velocity := m.velocity, rotation := m.rotation,
              targetRotation := m.targetRotation, isStopped := m.isStopped)
  {
  }

  lemma TickPreservesInvariant(s: Agent, t: Tuning, self: Collider, f: Frame)
    requires Invariant(s, t, self)
    ensures Invariant(Tick(s, t, self, f), t, self)
  {
    var u := Unstick(s, t, self, f);
    UnstickPreservesInvariant(s, t, self, f);
    MoveTouchesOnlyMotion(u, t, f);
  }

  lemma EventPreservesInvariant(s: Agent, t: Tuning, self: Collider, e: Event)
    requires Invariant(s, t, self)
    ensures Invariant(Apply(s, t, self, e), t, self)
  {
    if e.FrameEvent? {
      TickPreservesInvariant(s, t, self, e.frame);
    }
  }

  /** Every state reached by a run from an invariant state is invariant. */
  lemma {:induction false} RunPreservesInvariant(s: Agent, t: Tuning, self: Collider, es: seq<Event>)
    requires Invariant(s, t, self)
    ensures Invariant(Run(s, t, self, es), t, self)
    decreases |es|
  {
    if es != [] {
      EventPreservesInvariant(s, t, self, es[0]);
      RunPreservesInvariant(Apply(s, t, self, es[0]), t, self, es[1..]);
    }
  }

  /** With a non-negative cooldown, spacing between neighbours gives spacing
      between any two entries. */
  lemma {:induction false} SpacedPairwise(times: seq<real>, cooldown: real, i: nat, j: nat)
    requires cooldown >= 0.0 && Spaced(times, cooldown)
    requires i < j < |times|
    ensures times[j] - times[i] > cooldown
    decreases j - i
  {
    if i + 1 < j {
      SpacedPairwise(times, cooldown, i + 1, j);
      assert times[i + 1] - times[i] > cooldown;
    }
  }

  /** Any two escapes in any run from start-up are more than the cooldown
      apart, and none happens before the cooldown has passed since time 0. */
  lemma EscapesAreSpaced(t: Tuning, self: Collider, d: Direction, r: Rotation, es: seq<Event>, i: nat, j: nat)
    requires t.stuckCooldown >= 0.0
    requires i < j < |Run(Initial(d, r), t, self, es).escapes|
    ensures var log := Run(Initial(d, r), t, self, es).escapes;
      log[i] > t.stuckCooldown && log[j] - log[i] > t.stuckCooldown
  {
    RunPreservesInvariant(Initial(d, r), t, self, es);
    var log := Run(Initial(d, r), t, self, es).escapes;
    SpacedPairwise(log, t.stuckCooldown, i, j);
    if 0 < i {
      SpacedPairwise(log, t.stuckCooldown, 0, i);
    }
  }

  /** With the shipped parameters, escapes in any run from start-up are more
      than one second apart and none happens in the first second. */
  lemma DefaultEscapesAreSpaced(self: Collider, d: Direction, r: Rotation, es: seq<Event>, i: nat, j: nat)
    requires i < j < |Run(Initial(d, r), DefaultTuning(), self, es).escapes|
    ensures var log := Run(Initial(d, r), DefaultTuning(), self, es).escapes;
      log[i] > 1.0 && log[j] - log[i] > 1.0
  {
    EscapesAreSpaced(DefaultTuning(), self, d, r, es, i, j);
  }

  /** The robot's own collider is never ignored in any run from start-up. */
  lemma SelfNeverIgnored(t: Tuning, self: Collider, d: Direction, r: Rotation, es: seq<Event>)
    ensures self !in Run(Initial(d, r), t, self, es).ignored
  {
    RunPreservesInvariant(Initial(d, r), t, self, es);
  }

  /** The stuck flag is recomputed every frame from the time since the last
      collision and the current speed; its previous value plays no part. */
  lemma StuckIsRecomputed(s: Agent, t: Tuning, self: Collider, f: Frame, previous: bool)
    ensures Tick(s, t, self, f).isStuck <==>
      f.now - s.lastCollisionTime < t.stuckThreshold && f.speedMagnitude < StuckSpeed
    ensures Tick(s.(isStuck := previous), t, self, f) == Tick(s, t, self, f)
  {
  }

  /** A frame escapes exactly when the robot is stuck and the cooldown has
      passed; an escape stamps lastEscapeTime with the frame's time and logs
      it, otherwise both stay as they were. */
  lemma EscapeGate(s: Agent, t: Tuning, self: Collider, f: Frame)
    ensures var s' := Tick(s, t, self, f);
      var due := StuckAt(s, t, f) && f.now - s.lastEscapeTime > t.stuckCooldown;
      && (due ==> s'.lastEscapeTime == f.now && s'.escapes == s.escapes + [f.now]
                  && s'.impulses == s.impulses + [Scaled(Resolve(EscapeChoice(f.rays), s.direction), t.stuckForce)])
      && (!due ==> s'.lastEscapeTime == s.lastEscapeTime && s'.escapes == s.escapes
                   && s'.impulses == s.impulses && s'.direction == s.direction
                   && s'.ignored == s.ignored && s'.pending == s.pending)
  {
  }

  /** While stopped, a frame holds the robot still, and stop mode ends
      exactly when the stop window has elapsed. Inside the window, with a
      non-zero direction, the target becomes that direction and the rotation
      is slerped toward it; otherwise both rotations stay as they were. */
  lemma StoppedFrame(s: Agent, t: Tuning, self: Collider, f: Frame)
    requires s.isStopped
    ensures var s' := Tick(s, t, self, f);
      && s'.velocity == Rest
      && (s'.isStopped <==> f.now - s.stopStartTime < t.stopDuration)
      && s'.stopStartTime == s.stopStartTime
      && (f.now - s.stopStartTime < t.stopDuration && s'.direction != Zero ==>
            s'.targetRotation == Facing(s'.direction)
            && s'.rotation == Slerp(s.rotation, Facing(s'.direction), f.deltaTime * t.rotationSpeed))
      && (!(f.now - s.stopStartTime < t.stopDuration && s'.direction != Zero) ==>
            s'.rotation == s.rotation && s'.targetRotation == s.targetRotation)
  {
  }

  /** When not stopped, a frame moves the robot along its direction at its
      speed, stays out of stop mode, and faces the direction if it is
      non-zero (otherwise the rotation is left alone). */
  lemma MovingFrame(s: Agent, t: Tuning, self: Collider, f: Frame)
    requires !s.isStopped
    ensures var s' := Tick(s, t, self, f);
      && s'.velocity == Scaled(s'.direction, t.speed)
      && !s'.isStopped
      && (s'.direction != Zero ==> s'.rotation == Facing(s'.direction))
      && (s'.direction == Zero ==> s'.rotation == s.rotation)
  {
  }

  /** A collision always stamps both times and enters stop mode; the
      reflected direction is replaced by the escape search's result exactly
      when the ray along it is blocked. Nothing else changes. */
  lemma CollisionEntersStop(s: Agent, c: Contact)
    ensures var s' := Collide(s, c);
      && s'.lastCollisionTime == c.now && s'.stopStartTime == c.now && s'.isStopped
      && (c.reflectedRay.Open? ==> s'.direction == c.reflected)
      && (c.reflectedRay.Blocked? ==> s'.direction == Resolve(EscapeChoice(c.rays), c.reflected))
      && s'.(lastCollisionTime := s.lastCollisionTime, stopStartTime := s.stopStartTime,
             isStopped := s.isStopped, direction := s.direction) == s
  {
  }

  /** A re-enable restores collisions with the collider only when both it and
      the robot's collider are alive; otherwise the ignored set, like every
      other field, is left as it was. Either way the scheduled re-enable is
      retired. */
  lemma ReEnableIsGuarded(s: Agent, c: Collider, colliderAlive: bool, robotAlive: bool)
    ensures var s' := ReEnable(s, c, colliderAlive, robotAlive);
      && s'.pending == s.pending - multiset{c}
      && (colliderAlive && robotAlive ==> s'.ignored == s.ignored - {c})
      && (!(colliderAlive && robotAlive) ==> s'.ignored == s.ignored)
      && s'.(pending := s.pending, ignored := s.ignored) == s
  {
  }

  /** Once a collision has put the robot in stop mode, every frame that
      still falls inside the stop window leaves it stopped and motionless. */
  lemma {:induction false} StopWindowHolds(s: Agent, t: Tuning, self: Collider, es: seq<Event>)
    requires s.isStopped
    requires forall i :: 0 <= i < |es| ==>
      es[i].FrameEvent? && es[i].frame.now - s.stopStartTime < t.stopDuration
    ensures var s' := Run(s, t, self, es);
      && s'.isStopped && s'.stopStartTime == s.stopStartTime
      && (es != [] ==> s'.velocity == Rest)
    decreases |es|
  {
    if es != [] {
      var s1 := Tick(s, t, self, es[0].frame);
      StoppedFrame(s, t, self, es[0].frame);
      assert Apply(s, t, self, es[0]) == s1;
      StopWindowHolds(s1, t, self, es[1..]);
    }
  }
}
