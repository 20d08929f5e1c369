// The joystick degree-of-freedom option set.

module Degrees {

  /** An option set over a Swift `Int`, held as its 64-bit pattern. */
  datatype DegreeOfFreedom = DegreeOfFreedom(rawValue: bv64)

  const NoFreedom: DegreeOfFreedom := DegreeOfFreedom(0)
  const Horizontal: DegreeOfFreedom := DegreeOfFreedom(1)
  const Vertical: DegreeOfFreedom := DegreeOfFreedom(2)
  const All: DegreeOfFreedom := Union(Horizontal, Vertical)

  /** Set union of two option sets (the array-literal form `[a, b]`). */
  function Union(a: DegreeOfFreedom, b: DegreeOfFreedom): DegreeOfFreedom {
    DegreeOfFreedom(a.rawValue | b.rawValue)
  }

  /** `OptionSet.contains`: every bit of the member is set. */
  predicate Contains(d: DegreeOfFreedom, member: DegreeOfFreedom) {
    d.rawValue & member.rawValue == member.rawValue
  }

  /** The hash input of a degree of freedom. */
  function HashKey(d: DegreeOfFreedom): (h: bv64)
    ensures forall e: DegreeOfFreedom :: e.rawValue == h <==> e == d
  {
    d.rawValue
  }

  /** One for the horizontal bit, one for the vertical bit. */
  function NumberOfFreedoms(d: DegreeOfFreedom): (n: nat)
    ensures n <= 2
    ensures n == 0 <==> !Contains(d, Horizontal) && !Contains(d, Vertical)
    ensures n == 2 <==> Contains(d, Horizontal) && Contains(d, Vertical)
  {
    (if Contains(d, Horizontal) then 1 else 0) + (if Contains(d, Vertical) then 1 else 0)
  }

  lemma NumberOfFreedomsTable()
    ensures NumberOfFreedoms(NoFreedom) == 0
    ensures NumberOfFreedoms(Horizontal) == 1
    ensures NumberOfFreedoms(Vertical) == 1
    ensures NumberOfFreedoms(All) == 2
  {
  }

  /** Bits other than the horizontal and vertical ones do not change the count. */
  lemma NumberOfFreedomsIgnoresOtherBits(d: DegreeOfFreedom, extra: bv64)
    requires extra & 3 == 0
    ensures NumberOfFreedoms(DegreeOfFreedom(d.rawValue | extra)) == NumberOfFreedoms(d)
  {
  }

  /** `.all` is exactly horizontal plus vertical, raw value 3. */
  lemma AllIsUnion()
    ensures All.rawValue == 3
    ensures Contains(All, Horizontal) && Contains(All, Vertical)
    ensures forall d :: Contains(d, Horizontal) && Contains(d, Vertical) <==> Contains(d, All)
  {
  }
}
