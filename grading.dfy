/** The grade point of a test+exam total (studentController.getGPA). */
module Grading {

  /** The inclusive lower bound of grade point g (1..5) on the total. */
  function LowerBound(g: nat): real
    requires 1 <= g <= 5
  {
    [40.0, 45.0, 50.0, 60.0, 70.0][g - 1]
  }

  /** The breakpoints are checked from the top, so the total lands in the
      highest bracket whose lower bound it reaches. There is no range check:
      a negative total gets 0 and any total of 70 or more gets 5. */
  function GradePoint(total: real): (g: nat)
    ensures g <= 5
    ensures g >= 1 ==> total >= LowerBound(g)
    ensures g < 5 ==> total < LowerBound(g + 1)
  {
    if total >= 70.0 then 5
    else if total >= 60.0 then 4
    else if total >= 50.0 then 3
    else if total >= 45.0 then 2
    else if total >= 40.0 then 1
    else 0
  }

  /** A higher total never earns a lower grade point. */
  lemma GradePointMonotone(t1: real, t2: real)
    requires t1 <= t2
    ensures GradePoint(t1) <= GradePoint(t2)
  {
  }

  /** The grade point of a total is fixed by the bracket of the two
      conditions above: no other value satisfies them. */
  lemma GradePointUnique(total: real, g: nat)
    requires g <= 5
    requires g >= 1 ==> total >= LowerBound(g)
    requires g < 5 ==> total < LowerBound(g + 1)
    ensures GradePoint(total) == g
  {
  }

  /** The values at and around each breakpoint. A total of 44 is in the
      40..44 bracket and gets 1. */
  lemma GradePointBoundaries()
    ensures GradePoint(70.0) == 5 && GradePoint(69.0) == 4 && GradePoint(60.0) == 4
    ensures GradePoint(50.0) == 3 && GradePoint(45.0) == 2 && GradePoint(44.0) == 1
    ensures GradePoint(40.0) == 1 && GradePoint(39.0) == 0
  {
  }
}
