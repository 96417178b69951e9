/** Expressions as the parser meets them: the nodes of module Syntax with classes that
    may match strings, each of which stands for a node of its own. */
module Terms {
  import opened Syntax
  import opened Bytecode
  import opened Compiler
  import opened ClassStrings

  datatype Term =
    | Plain(node: Node)
    | ClassOf(list: StringList, icase: bool)
    | Sequence(left: Term, right: Term)
    | Either(left: Term, right: Term)
    | Capture(body: Term)
    | Lookaround(behind: bool, negative: bool, body: Term)
    | Quantified(body: Term, min: nat, max: Bound, greedy: bool)

  /** The node that a term stands for. */
  function Meaning(t: Term): Node {
    match t
    case Plain(n) => n
    case ClassOf(list, icase) => ListNode(list, icase)
    case Sequence(l, r) => Cat(Meaning(l), Meaning(r))
    case Either(l, r) => Alt(Meaning(l), Meaning(r))
    case Capture(b) => Group(Meaning(b))
    case Lookaround(behind, negative, b) => Look(behind, negative, Meaning(b))
    case Quantified(b, min, max, greedy) => Repeat(Meaning(b), min, max, greedy)
  }

  /** Plain terms are single instructions, and classes with strings are in the form that
      the class parser leaves them in and do not stand inside a lookbehind, where the
      code that is put around a class steps back over one character only. */
  ghost predicate TermOk(g: Canon, t: Term, back: bool) {
    match t
    case Plain(n) => n.Empty? || n.One? || n.Assert? || n.BackRef?
    case ClassOf(list, icase) => !back && ValidPoints(list.points) && Canonical(g, list.strings, icase)
    case Sequence(l, r) => TermOk(g, l, back) && TermOk(g, r, back)
    case Either(l, r) => TermOk(g, l, back) && TermOk(g, r, back)
    case Capture(b) => TermOk(g, b, back)
    case Lookaround(behind, _, b) => TermOk(g, b, behind)
    case Quantified(b, _, _, _) => TermOk(g, b, back)
  }

  /** The links of a chain of strings are 31-bit positions: for a term whose code starts
      at `start`, no chain ends beyond them. */
  predicate LinksFit(g: Canon, t: Term, cap: nat, back: bool, start: nat) {
    match t
    case Plain(_) => true
    case ClassOf(list, icase) =>
      (list.strings == [] && !list.hasEmpty) || start + Size(Code(g, ListNode(list, icase), cap, false)) <= INT32_MAX
    case Sequence(l, r) =>
      && LinksFit(g, l, cap, back, start)
      && LinksFit(g, r, cap + Caps(Meaning(l)), back, start + Size(Code(g, Meaning(l), cap, back)))
    case Either(l, r) =>
      && LinksFit(g, l, cap, back, start)
      && LinksFit(g, r, cap + Caps(Meaning(l)), back, start + Size(Code(g, Meaning(l), cap, back)) + 10)
    case Capture(b) => LinksFit(g, b, cap + 1, back, start + 2)
    case Lookaround(behind, _, b) => LinksFit(g, b, cap, behind, start + 5)
    case Quantified(b, _, _, _) => LinksFit(g, b, cap, back, start)
  }

  /** What emission asks of a term, with `captures` groups and `start` bytes before it. */
  predicate Fits(g: Canon, t: Term, back: bool, captures: nat, start: nat) {
    var n := Meaning(t);
    captures + Caps(n) <= CAPTURE_COUNT_MAX && ClassesFit(n) && LinksFit(g, t, captures, back, start)
  }

  /** The parts of a term, in the order in which they are emitted. */
  lemma FitsInside(g: Canon, t: Term, back: bool, captures: nat, start: nat)
    ensures t.Either? || t.Sequence? ==>
              var l := Meaning(t.left);
              Fits(g, t, back, captures, start) <==>
              && Fits(g, t.left, back, captures, start)
              && Fits(g, t.right, back, captures + Caps(l), start + Size(Code(g, l, captures, back))
                      + if t.Either? then 10 else 0)
    ensures t.Lookaround? ==> (Fits(g, t, back, captures, start) <==> Fits(g, t.body, t.behind, captures, start + 5))
    ensures t.Quantified? ==> (Fits(g, t, back, captures, start) <==> Fits(g, t.body, back, captures, start))
  {
    hide Code;
  }

  lemma EitherMeans(t: Term)
    requires t.Either?
    ensures Meaning(t) == Alt(Meaning(t.left), Meaning(t.right))
  {
  }

  lemma TermParts(g: Canon, t: Term, back: bool)
    requires TermOk(g, t, back)
    ensures t.Either? || t.Sequence? ==> TermOk(g, t.left, back) && TermOk(g, t.right, back)
  {
  }

  lemma PairParts(n: Node, total: nat)
    requires n.Cat? || n.Alt?
    ensures Parsed(n, total) ==> Parsed(n.left, total) && Parsed(n.right, total)
    ensures Caps(n) == Caps(n.left) + Caps(n.right)
    ensures ClassesFit(n) <==> ClassesFit(n.left) && ClassesFit(n.right)
  {
  }

  lemma BodyParts(n: Node, total: nat)
    requires n.Look? || n.Repeat?
    ensures Parsed(n, total) ==> Parsed(n.body, total)
    ensures Caps(n) == Caps(n.body) && (ClassesFit(n) <==> ClassesFit(n.body))
  {
  }

  lemma LinksOfList(g: Canon, list: StringList, icase: bool, cap: nat, start: nat)
    ensures LinksFit(g, ClassOf(list, icase), cap, false, start) <==>
              (|list.strings| == 0 && !list.hasEmpty) || start
                + Size(Code(g, ListNode(list, icase), cap, false)) <= INT32_MAX
  {
  }

  predicate NoStrings(t: Term) {
    match t
    case Plain(_) => true
    case ClassOf(_, _) => false
    case Sequence(l, r) => NoStrings(l) && NoStrings(r)
    case Either(l, r) => NoStrings(l) && NoStrings(r)
    case Capture(b) => NoStrings(b)
    case Lookaround(_, _, b) => NoStrings(b)
    case Quantified(b, _, _, _) => NoStrings(b)
  }

  /** Without classes that match strings there is nothing to ask. */
  lemma {:induction false} LinksFitWithoutStrings(g: Canon, t: Term, cap: nat, back: bool, start: nat)
    requires NoStrings(t)
    ensures LinksFit(g, t, cap, back, start)
  {
    hide Code, Caps, Size;
    match t
    case Plain(_) =>
    case Sequence(l, r) =>
      LinksFitWithoutStrings(g, l, cap, back, start);
      LinksFitWithoutStrings(g, r, cap + Caps(Meaning(l)), back, start + Size(Code(g, Meaning(l), cap, back)));
    case Either(l, r) =>
      LinksFitWithoutStrings(g, l, cap, back, start);
      LinksFitWithoutStrings(g, r, cap + Caps(Meaning(l)), back, start + Size(Code(g, Meaning(l), cap, back)) + 10);
    case Capture(b) => LinksFitWithoutStrings(g, b, cap + 1, back, start + 2);
    case Lookaround(behind, _, b) => LinksFitWithoutStrings(g, b, cap, behind, start + 5);
    case Quantified(b, _, _, _) => LinksFitWithoutStrings(g, b, cap, back, start);
  }

  /** Every node is the meaning of a term without such classes. */
  function TermOf(n: Node): (t: Term)
    ensures Meaning(t) == n && NoStrings(t)
    ensures forall g, back :: TermOk(g, t, back)
  {
    match n
    case Empty | One(_) | Assert(_) | BackRef(_, _) => Plain(n)
    case Cat(l, r) => Sequence(TermOf(l), TermOf(r))
    case Alt(l, r) => Either(TermOf(l), TermOf(r))
    case Group(b) => Capture(TermOf(b))
    case Look(behind, negative, b) => Lookaround(behind, negative, TermOf(b))
    case Repeat(b, min, max, greedy) => Quantified(TermOf(b), min, max, greedy)
  }

  /** A class is refused for the ranges of its single characters only. */
  lemma ListFits(sl: StringList, icase: bool)
    ensures ClassesFit(ListNode(sl, icase)) <==> RangesFit(sl.points)
  {
    hide StringNode;
    var k := |sl.strings|;
    if k == 0 && !sl.hasEmpty {
    } else if sl.points == [] && !sl.hasEmpty {
      StringFits(sl.strings[k - 1], icase);
      ChainFits(sl.strings[..k - 1], icase, StringNode(sl.strings[k - 1], icase));
    } else {
      ChainFits(sl.strings, icase, CharsNode(sl, icase));
    }
  }

  lemma {:induction false} StringFits(s: seq<CodePoint>, icase: bool)
    ensures ClassesFit(StringNode(s, icase))
    decreases |s|
  {
    if s != [] { StringFits(s[..|s| - 1], icase); }
  }

  lemma {:induction false} ChainFits(strings: seq<seq<CodePoint>>, icase: bool, last: Node)
    requires Caps(last) == 0
    ensures ClassesFit(Chain(strings, icase, last)) <==> ClassesFit(last)
    decreases |strings|
  {
    if strings != [] {
      StringFits(strings[0], icase);
      ChainFits(strings[1..], icase, last);
    }
  }
}
