/** The escape-direction search of the robot: eight raycasts at 45 degree
    steps and a running "best" that the scan keeps as it goes.

    Raycasts are inputs (the physics engine answers them); headings are tags
    rather than floating-point vectors. */
module EscapeSearch {

  /** Number of candidate headings the scan tries. */
  const Candidates: nat := 8

  /** Angle between two neighbouring candidates, in degrees. */
  const CandidateStep: real := 45.0

  /** A movement direction: the zero vector, or a unit vector given by its
      angle in degrees. Reflection and normalisation are not modelled; the
      engine's result is handed in as a value of this type. */
  datatype Direction = Zero | Heading(degrees: real)

  /** The i-th candidate heading, at i * 45 degrees. */
  function Compass(i: nat): (d: Direction)
    ensures d != Zero
  {
    Heading(i as real * CandidateStep)
  }

  /** Result of one raycast: nothing hit, or a collider hit at some distance. */
  datatype Ray = Open | Blocked(distance: real)

  /** The hit distance the engine reports; a miss reports 0. */
  function HitDistance(r: Ray): real {
    if r.Open? then 0.0 else r.distance
  }

  /** Which heading the scan currently holds: the incoming direction, or the
      candidate with the given index. */
  datatype Choice = Keep | Candidate(index: nat)

  /** The direction a choice stands for, given the incoming direction. */
  function Resolve(c: Choice, current: Direction): Direction {
    match c
    case Keep => current
    case Candidate(i) => Compass(i)
  }

  /** The pair of loop variables of the scan. */
  datatype Scan = Scan(best: real, choice: Choice)

  /** One iteration: an open ray always takes over (and sets best to the miss
      distance 0); a blocked ray takes over only when farther than best. */
  function Consider(s: Scan, i: nat, r: Ray): Scan {
    if r.Open? || HitDistance(r) > s.best then Scan(HitDistance(r), Candidate(i)) else s
  }

  /** The loop state after the first k iterations. Its contract is the loop's
      invariant: the running best is never negative and is exactly the hit
      distance of the candidate currently held (0 when none is). */
  function ScanPrefix(rays: seq<Ray>, k: nat): (s: Scan)
    requires k <= |rays|
    ensures s.best >= 0.0
    ensures s.choice.Candidate? ==> s.choice.index < k
    ensures s.best == if s.choice.Candidate? then HitDistance(rays[s.choice.index]) else 0.0
  {
    if k == 0 then Scan(0.0, Keep) else Consider(ScanPrefix(rays, k - 1), k - 1, rays[k - 1])
  }

  /** The choice the whole scan ends with. */
  function EscapeChoice(rays: seq<Ray>): Choice {
    ScanPrefix(rays, |rays|).choice
  }

  /** Index of the last open ray among the first k, or -1 if there is none. */
  function LastOpen(rays: seq<Ray>, k: nat): (o: int)
    requires k <= |rays|
    ensures -1 <= o < k
    ensures o >= 0 ==> rays[o].Open?
    ensures forall j :: o < j < k ==> rays[j].Blocked?
  {
    if k == 0 then -1 else if rays[k - 1].Open? then k - 1 else LastOpen(rays, k - 1)
  }

  /** A reference description of the winner among the first k rays, stated
      without the running best: with o the last open ray, the winner is o
      itself when no later ray reports a positive distance, and otherwise the
      first of the farthest blocked rays after o. The incoming direction is
      kept exactly when no ray is open and no distance is positive. */
  ghost predicate IsWinner(rays: seq<Ray>, k: nat, c: Choice)
    requires k <= |rays|
  {
    var o := LastOpen(rays, k);
    match c
    case Keep =>
      o == -1 && forall j :: 0 <= j < k ==> HitDistance(rays[j]) <= 0.0
    case Candidate(w) =>
      o <= w < k &&
      if w == o then
        forall j :: o < j < k ==> HitDistance(rays[j]) <= 0.0
      else
        && 0.0 < HitDistance(rays[w])
        && (forall j :: o < j < w ==> HitDistance(rays[j]) < HitDistance(rays[w]))
        && (forall j :: w < j < k ==> HitDistance(rays[j]) <= HitDistance(rays[w]))
  }

  /** The scan computes the reference winner, on every prefix. */
  lemma {:induction false} ScanPrefixIsWinner(rays: seq<Ray>, k: nat)
    requires k <= |rays|
    ensures IsWinner(rays, k, ScanPrefix(rays, k).choice)
  {
    if k > 0 {
      ScanPrefixIsWinner(rays, k - 1);
      var prev := ScanPrefix(rays, k - 1);
      var r := rays[k - 1];
      var o := LastOpen(rays, k - 1);
      if r.Blocked? {
        assert LastOpen(rays, k) == o;
        if HitDistance(r) > prev.best {
          match prev.choice
          case Keep =>
          case Candidate(w) =>
            assert forall j :: o < j < k - 1 ==> HitDistance(rays[j]) <= HitDistance(rays[w]);
        }
      }
    }
  }

  /** The reference description admits only one winner. */
  lemma WinnerIsUnique(rays: seq<Ray>, k: nat, c1: Choice, c2: Choice)
    requires k <= |rays|
    requires IsWinner(rays, k, c1) && IsWinner(rays, k, c2)
    ensures c1 == c2
  {
  }

  /** The whole scan, characterised: its choice is the reference winner and
      any choice meeting the reference description is the scan's choice. */
  lemma EscapeChoiceCharacterised(rays: seq<Ray>, c: Choice)
    ensures IsWinner(rays, |rays|, EscapeChoice(rays))
    ensures IsWinner(rays, |rays|, c) <==> c == EscapeChoice(rays)
  {
    ScanPrefixIsWinner(rays, |rays|);
    if IsWinner(rays, |rays|, c) {
      WinnerIsUnique(rays, |rays|, c, EscapeChoice(rays));
    }
  }

  /** The incoming direction survives exactly when no ray is open and no
      blocked ray reports a positive distance. */
  lemma KeepsDirectionIff(rays: seq<Ray>)
    ensures EscapeChoice(rays) == Keep <==>
      forall j :: 0 <= j < |rays| ==> rays[j].Blocked? && rays[j].distance <= 0.0
  {
    ScanPrefixIsWinner(rays, |rays|);
  }

  /** Whether step j of the scan takes over (line 139's condition). */
  predicate TakesOver(rays: seq<Ray>, j: nat)
    requires j < |rays|
  {
    rays[j].Open? || HitDistance(rays[j]) > ScanPrefix(rays, j).best
  }

  /** A chosen candidate is the last step of the scan that took over: it took
      over at its own step (it is open, or farther than the best held before
      it), no later step takes over, and every later ray is blocked no
      farther than the best the scan then held. */
  lemma ChosenCandidateDominatesLater(rays: seq<Ray>)
    requires EscapeChoice(rays).Candidate?
    ensures var w := EscapeChoice(rays).index;
      && w < |rays|
      && TakesOver(rays, w)
      && ScanPrefix(rays, w + 1).best == HitDistance(rays[w])
      && (forall j :: w < j < |rays| ==> !TakesOver(rays, j))
      && (forall j :: w < j < |rays| ==> rays[j].Blocked? && rays[j].distance <= HitDistance(rays[w]))
  {
    var w := EscapeChoice(rays).index;
    ScanPrefixIsWinner(rays, |rays|);
    ChoiceStaysUntilTaken(rays, |rays|);
    forall j | w < j < |rays|
      ensures !TakesOver(rays, j)
    {
      if TakesOver(rays, j) {
        TakenOverStaysAtLeast(rays, j, |rays|);
      }
    }
  }

  /** After a take-over at step j the held candidate never has an index
      below j again. */
  lemma {:induction false} TakenOverStaysAtLeast(rays: seq<Ray>, j: nat, k: nat)
    requires j < k <= |rays|
    requires TakesOver(rays, j)
    ensures ScanPrefix(rays, k).choice.Candidate? && ScanPrefix(rays, k).choice.index >= j
  {
    if k > j + 1 {
      TakenOverStaysAtLeast(rays, j, k - 1);
    }
  }

  /** Taking-over lemma: once the scan holds candidate w after k steps, step w
      took it over and the state right after step w is the final state. */
  lemma {:induction false} ChoiceStaysUntilTaken(rays: seq<Ray>, k: nat)
    requires k <= |rays|
    requires ScanPrefix(rays, k).choice.Candidate?
    ensures var w := ScanPrefix(rays, k).choice.index;
      && ScanPrefix(rays, w + 1) == ScanPrefix(rays, k)
      && (rays[w].Open? || HitDistance(rays[w]) > ScanPrefix(rays, w).best)
  {
    var s := ScanPrefix(rays, k);
    if s.choice.index != k - 1 {
      assert ScanPrefix(rays, k - 1) == s;
      ChoiceStaysUntilTaken(rays, k - 1);
    }
  }

  /** An open last candidate always wins. */
  lemma OpenLastWins(rays: seq<Ray>)
    requires |rays| > 0 && rays[|rays| - 1].Open?
    ensures EscapeChoice(rays) == Candidate(|rays| - 1)
  {
  }

  /** The scan is not "first maximal": an open first candidate, which misses
      everything, is displaced by a later blocked one at a positive distance. */
  lemma OpenRayCanBeDisplaced()
    ensures EscapeChoice([Open, Blocked(0.5), Blocked(0.25), Blocked(0.0),
                          Blocked(0.0), Blocked(0.0), Blocked(0.0), Blocked(0.0)]) == Candidate(1)
  {
    var rays := [Open, Blocked(0.5), Blocked(0.25), Blocked(0.0),
                 Blocked(0.0), Blocked(0.0), Blocked(0.0), Blocked(0.0)];
    assert ScanPrefix(rays, 1) == Scan(0.0, Candidate(0));
    assert ScanPrefix(rays, 2) == Scan(0.5, Candidate(1));
    assert ScanPrefix(rays, 3) == Scan(0.5, Candidate(1));
    assert ScanPrefix(rays, 4) == Scan(0.5, Candidate(1));
    assert ScanPrefix(rays, 5) == Scan(0.5, Candidate(1));
    assert ScanPrefix(rays, 6) == Scan(0.5, Candidate(1));
    assert ScanPrefix(rays, 7) == Scan(0.5, Candidate(1));
  }

  /** The scan as a loop over the eight raycast results, in candidate order.
      The result is the heading of the winning candidate, or the incoming
      direction when no candidate took over. */
  method FindEscapeDirection(current: Direction, rays: seq<Ray>) returns (d: Direction)
    requires |rays| == Candidates
    ensures d == Resolve(EscapeChoice(rays), current)
    ensures d == current || exists i :: 0 <= i < Candidates && d == Compass(i)
  {
    var bestDistance := 0.0;
    var bestDirection := current;
    ghost var choice := Keep;
    for i := 0 to Candidates
      invariant Scan(bestDistance, choice) == ScanPrefix(rays, i)
      invariant bestDirection == Resolve(choice, current)
      invariant bestDistance >= 0.0
    {
      var hit := rays[i];
      var testDirection := Compass(i);
      if hit.Open? || HitDistance(hit) > bestDistance {
        bestDistance := HitDistance(hit);
        bestDirection := testDirection;
        choice := Candidate(i);
      }
    }
    d := bestDirection;
  }
}
