/** Regular expressions as the parser hands them to code emission: pattern text,
    flags and modifiers are already resolved, and non-capturing groups have
    become nesting. */
module Syntax {

  const INT32_MAX: nat := 0x7fff_ffff
  const UINT32_MAX: nat := 0xffff_ffff
  const CAPTURE_COUNT_MAX: nat := 255
  const REGISTER_COUNT_MAX: nat := 255

  datatype Option<+T> = None | Some(value: T)

  function Num(b: bool): nat { if b then 1 else 0 }

  type CodePoint = c: nat | c <= 0x10ffff

  /** What one character position may be required to be. A class holds the sorted
      boundary points of a CharRange: points[2i] <= c < points[2i+1]. */
  datatype CharTest =
    | Literal(c: CodePoint, icase: bool)
    | Dot(dotAll: bool)
    | Space(negated: bool)
    | Class(points: seq<nat>, icase: bool)

  /** Zero-width tests. */
  datatype Assertion =
    | LineStart(multiline: bool)
    | LineEnd(multiline: bool)
    | WordBoundary(negated: bool, icase: bool)

  datatype Bound = Finite(n: nat) | Infinite

  datatype Node =
    | Empty
    | One(test: CharTest)
    | Assert(assertion: Assertion)
    | BackRef(groups: seq<nat>, icase: bool)
    | Cat(left: Node, right: Node)
    | Alt(left: Node, right: Node)
    | Group(body: Node)
    | Look(behind: bool, negative: bool, body: Node)
    | Repeat(body: Node, min: nat, max: Bound, greedy: bool)

  /** Number of capture groups opened inside a node. */
  function Caps(n: Node): nat {
    match n
    case Empty | One(_) | Assert(_) | BackRef(_, _) => 0
    case Cat(l, r) => Caps(l) + Caps(r)
    case Alt(l, r) => Caps(l) + Caps(r)
    case Group(b) => 1 + Caps(b)
    case Look(_, _, b) => Caps(b)
    case Repeat(b, _, _, _) => Caps(b)
  }

  /** A CharRange as the set operations leave it: an even number of strictly
      increasing 32-bit points. */
  ghost predicate ValidPoints(points: seq<nat>) {
    && |points| % 2 == 0
    && (forall i, j :: 0 <= i < j < |points| ==> points[i] < points[j])
    && (forall i :: 0 <= i < |points| ==> points[i] <= UINT32_MAX)
  }

  /** The number of ranges that a class instruction can hold. */
  predicate RangesFit(points: seq<nat>) { |points| / 2 < 65535 }

  ghost predicate ValidTest(t: CharTest) {
    t.Class? ==> ValidPoints(t.points) && RangesFit(t.points)
  }

  /** What the parser guarantees: back references name existing groups (there are
      `total` of them, group 0 included) and quantifier bounds are ordered 32-bit
      numbers clamped to INT32_MAX. */
  ghost predicate Parsed(n: Node, total: nat) {
    match n
    case Empty | Assert(_) => true
    case One(t) => t.Class? ==> ValidPoints(t.points)
    case BackRef(groups, _) =>
      |groups| <= 255 && forall i :: 0 <= i < |groups| ==> groups[i] < total
    case Cat(l, r) => Parsed(l, total) && Parsed(r, total)
    case Alt(l, r) => Parsed(l, total) && Parsed(r, total)
    case Group(b) => Parsed(b, total)
    case Look(_, _, b) => Parsed(b, total)
    case Repeat(b, min, max, _) =>
      && Parsed(b, total)
      && min <= INT32_MAX
      && (max.Finite? ==> min <= max.n <= INT32_MAX)
  }

  /** No class is refused with "too many ranges". */
  predicate ClassesFit(n: Node) {
    match n
    case Empty | Assert(_) | BackRef(_, _) => true
    case One(t) => t.Class? ==> RangesFit(t.points)
    case Cat(l, r) => ClassesFit(l) && ClassesFit(r)
    case Alt(l, r) => ClassesFit(l) && ClassesFit(r)
    case Group(b) => ClassesFit(b)
    case Look(_, _, b) => ClassesFit(b)
    case Repeat(b, _, _, _) => ClassesFit(b)
  }

  /** An expression for which there is code. */
  ghost predicate WellFormed(n: Node, total: nat) { Parsed(n, total) && ClassesFit(n) }
}
