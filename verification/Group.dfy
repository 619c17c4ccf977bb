/** The prime-order group ristretto255 (section 4 of RFC 9496), represented by
    discrete logarithms to its base point, and the texts that carry points and
    scalars in messages. */
module Group {
  import opened Residues
  import opened Outcomes

  datatype Element = Element(log: int)

  type Point = p: Element | 0 <= p.log < L witness Element(0)

  const ZERO: Point := Element(0)
  const BASE: Point := Element(1)

  function Add(p: Point, q: Point): Point {
    Element(Mod(p.log + q.log))
  }

  /** The scalar multiple, for any integer scalar. */
  function Scale(p: Point, s: int): Point {
    Element(Mod(p.log * s))
  }

  /** `multiply`: the library refuses a scalar outside 1..L-1. */
  function Multiply(p: Point, s: int): Outcome<Point> {
    if 0 < s < L then Returns(Scale(p, s)) else Throws
  }

  /** The text of a point in a message: the canonical encoding of one, or no point at all. */
  datatype PointText = NotAPoint | Encoded(point: Point)

  /** `parsePoint`: decodes a point and refuses the identity. */
  function ParsePoint(t: PointText): Outcome<Point> {
    if t.Encoded? && t.point != ZERO then Returns(t.point) else Throws
  }

  /** The text of a scalar in a message: hexadecimal digits and the number they
      denote, or anything else. */
  datatype ScalarText = NotHex | Hex(number: nat)

  /** `hexToScalar`: a number in 1..L-1. */
  function HexToScalar(t: ScalarText): Outcome<int> {
    if t.Hex? && 0 < t.number < L then Returns(t.number) else Throws
  }

  function ScalarToHex(s: nat): ScalarText {
    Hex(s)
  }

  lemma ScaleBase(s: int)
    requires 0 <= s < L
    ensures Scale(BASE, s).log == s
  {
    ModSmall(s);
  }

  /** Congruent logarithms make one point. */
  lemma SamePoint(p: Point, q: Point)
    requires Cong(p.log, q.log)
    ensures p == q
  {
    CongUnique(p.log, q.log);
  }

  /** A nonzero multiple of a nonzero point is nonzero: the order is prime. */
  lemma ScaleNonzero(p: Point, s: int)
    requires p != ZERO && !Cong(s, 0)
    ensures Scale(p, s) != ZERO
  {
    if Scale(p, s) == ZERO {
      CongSym(0, p.log * s);
      Euclid(p.log, s);
      CongUniqueIfZero(p.log);
    }
  }
}
