/** The two concentric letter rings: snapping a rotation to a letter
    position, the alignment offset shown between the rings, and the drag
    gesture (`setupInteraction` and `calculateOffset` in script.js).
    Rotations are exact reals in degrees, where the source uses doubles. */
module Rings {
  import opened Js
  import opened Wrappers

  /** Angle between two neighbouring letters, `360 / 26` degrees. */
  const StepAngle: real := 360.0 / 26.0

  /** The letter position a rotation is nearest to, before wrapping. */
  function Notch(rot: real): int {
    Round(rot / StepAngle)
  }

  /** The `snap` of a released ring: the nearest multiple of the step
      angle, ties going to the larger one. */
  function Snap(rot: real): (r: real)
    ensures (r / StepAngle).Floor as real == r / StepAngle
    ensures -StepAngle / 2.0 < r - rot <= StepAngle / 2.0
  {
    Notch(rot) as real * StepAngle
  }

  /** A snapped rotation stays where it is when snapped again. */
  lemma {:induction false} SnapIdempotent(rot: real)
    ensures Snap(Snap(rot)) == Snap(rot)
  {
    var k := Notch(rot);
    assert Snap(rot) / StepAngle == k as real;
    RoundInt(k);
  }

  /** `normalize`: the letter index in [0, 26) a rotation points at, which
      is the rounded step count taken modulo 26. */
  function Normalize(deg: real): (r: int)
    ensures 0 <= r < 26
    ensures r == Notch(deg) % 26
  {
    var idx := Rem26(Notch(deg));
    if idx < 0 then idx + 26 else idx
  }

  /** Snapping a ring does not change the letter it points at. */
  lemma {:induction false} NormalizeSnap(rot: real)
    ensures Normalize(Snap(rot)) == Normalize(rot)
  {
    var k := Notch(rot);
    assert Snap(rot) / StepAngle == k as real;
    RoundInt(k);
  }

  /** A full turn of a ring does not change the letter it points at. */
  lemma {:induction false} NormalizeFullTurn(rot: real)
    ensures Normalize(rot + 360.0) == Normalize(rot)
  {
    assert (rot + 360.0) / StepAngle == rot / StepAngle + 26 as real;
    RoundShift(rot / StepAngle, 26);
    var k := Notch(rot);
    assert Notch(rot + 360.0) == k + 26;
    assert (k + 26) % 26 == k % 26;
  }

  /** `calculateOffset`: how many letters the inner ring is ahead of the
      outer one, in [0, 26). */
  function Offset(inner: real, outer: real): (r: int)
    ensures 0 <= r < 26
    ensures r == (Notch(inner) - Notch(outer)) % 26
  {
    ModDiff(Notch(inner), Notch(outer));
    var diff := Normalize(inner) - Normalize(outer);
    if diff < 0 then diff + 26 else diff
  }

  lemma ModDiff(a: int, b: int)
    ensures var d := a % 26 - b % 26; (if d < 0 then d + 26 else d) == (a - b) % 26
  {
    var d := a % 26 - b % 26;
    var k := a / 26 - b / 26;
    assert a - b == d + 26 * k;
    assert (d + 26 * k) % 26 == d % 26;
  }

  /** Turning both rings together by whole letter steps keeps the offset. */
  lemma {:induction false} OffsetTurnBoth(inner: real, outer: real, k: int)
    ensures Offset(inner + k as real * StepAngle, outer + k as real * StepAngle) == Offset(inner, outer)
  {
    assert (inner + k as real * StepAngle) / StepAngle == inner / StepAngle + k as real;
    assert (outer + k as real * StepAngle) / StepAngle == outer / StepAngle + k as real;
    RoundShift(inner / StepAngle, k);
    RoundShift(outer / StepAngle, k);
  }

  /** Which ring a gesture is turning (`activeRing`, null when idle). */
  datatype RingSel = NoRing | Inner | Outer

  /** Fraction of the assembly's radius inside which a press grabs the
      inner ring. */
  const InnerFraction: real := 0.62

  /** The rotation of both rings together with the state of the drag
      gesture in progress. */
  class Dial {
    var rotationInner: real
    var rotationOuter: real
    var activeRing: RingSel
    var startAngle: real
    var initialRot: real

    constructor ()
      ensures rotationInner == 0.0 && rotationOuter == 0.0
      ensures activeRing == NoRing && startAngle == 0.0 && initialRot == 0.0
    {
      rotationInner, rotationOuter := 0.0, 0.0;
      activeRing, startAngle, initialRot := NoRing, 0.0, 0.0;
    }

    /** `onStart`: a press at distance `dist` from the centre and pointer
        angle `angle` grabs the inner ring when it lies inside 0.62 of the
        assembly's radius `rTotal`, the outer ring otherwise, and records
        that ring's rotation as the baseline. No rotation changes. */
    method OnStart(dist: real, rTotal: real, angle: real)
      modifies this
      ensures activeRing == if dist < rTotal * InnerFraction then Inner else Outer
      ensures initialRot == if activeRing == Inner then rotationInner else rotationOuter
      ensures startAngle == angle
      ensures rotationInner == old(rotationInner) && rotationOuter == old(rotationOuter)
    {
      if dist < rTotal * InnerFraction {
        activeRing := Inner;
        initialRot := rotationInner;
      } else {
        activeRing := Outer;
        initialRot := rotationOuter;
      }
      startAngle := angle;
    }

    /** `onMove`: with a ring grabbed, that ring's rotation becomes the
        baseline plus how far the pointer angle moved since the press; the
        other ring and the gesture state stay as they were. Idle, it does
        nothing. */
    method OnMove(angle: real)
      modifies this
      ensures activeRing == old(activeRing) && startAngle == old(startAngle) && initialRot == old(initialRot)
      ensures rotationInner == if activeRing == Inner then initialRot + (angle - startAngle) else old(rotationInner)
      ensures rotationOuter == if activeRing == Outer then initialRot + (angle - startAngle) else old(rotationOuter)
    {
      if activeRing == NoRing {
        return;
      }
      var delta := angle - startAngle;
      if activeRing == Inner {
        rotationInner := initialRot + delta;
      } else {
        rotationOuter := initialRot + delta;
      }
    }

    /** `onEnd`: the grabbed ring snaps to the nearest letter, the other
        ring is untouched, no ring is active any more, and the new offset
        is shown. Idle, it does nothing and shows nothing. */
    method OnEnd() returns (shown: Option<int>)
      modifies this
      ensures activeRing == NoRing
      ensures startAngle == old(startAngle) && initialRot == old(initialRot)
      ensures rotationInner == if old(activeRing) == Inner then Snap(old(rotationInner)) else old(rotationInner)
      ensures rotationOuter == if old(activeRing) == Outer then Snap(old(rotationOuter)) else old(rotationOuter)
      ensures shown == if old(activeRing) == NoRing then None else Some(Offset(rotationInner, rotationOuter))
    {
      if activeRing == NoRing {
        return None;
      }
      if activeRing == Inner {
        rotationInner := Snap(rotationInner);
      } else {
        rotationOuter := Snap(rotationOuter);
      }
      activeRing := NoRing;
      shown := Some(Offset(rotationInner, rotationOuter));
    }

    /** A whole gesture (press, one move, release) leaves the grabbed ring
        at the snap of its old rotation plus the angle dragged through, the
        other ring where it was, and the dial idle. */
    method Drag(dist: real, rTotal: real, fromAngle: real, toAngle: real) returns (shown: Option<int>)
      modifies this
      ensures activeRing == NoRing
      ensures dist < rTotal * InnerFraction ==>
                rotationInner == Snap(old(rotationInner) + (toAngle - fromAngle)) && rotationOuter == old(rotationOuter)
      ensures !(dist < rTotal * InnerFraction) ==>
                rotationOuter == Snap(old(rotationOuter) + (toAngle - fromAngle)) && rotationInner == old(rotationInner)
      ensures shown == Some(Offset(rotationInner, rotationOuter))
      ensures startAngle == fromAngle
      ensures initialRot == if dist < rTotal * InnerFraction then old(rotationInner) else old(rotationOuter)
    {
      OnStart(dist, rTotal, fromAngle);
      OnMove(toAngle);
      shown := OnEnd();
    }
  }
}
