/** The laws of the set operations, as equalities of the point lists they leave. */
module SetLaws {
  import opened Syntax
  import opened CharRange

  /** What cr_op leaves for these operands. */
  ghost predicate ResultOf(op: Op, a: seq<nat>, b: seq<nat>, r: seq<nat>) {
    Strict(r) && forall c: nat :: In(r, c) == Apply(op, In(a, c), In(b, c))
  }

  /** What cr_invert leaves. */
  ghost predicate InverseOf(a: seq<nat>, r: seq<nat>) {
    Strict(r) && forall c: nat :: In(r, c) == (c < UINT32_MAX && !In(a, c))
  }

  lemma NotBeyond(a: seq<nat>, c: nat)
    requires Intervals(a) && Bounded(a) && In(a, c)
    ensures c < UINT32_MAX
  {
    if c >= UINT32_MAX { Above(a, c); }
  }

  /** a - b is a & ~b. */
  lemma SubIsInterInverse(a: seq<nat>, b: seq<nat>, inverse: seq<nat>, sub: seq<nat>, inter: seq<nat>)
    requires Intervals(a) && Bounded(a) && InverseOf(b, inverse)
    requires ResultOf(Sub, a, b, sub) && ResultOf(Inter, a, inverse, inter)
    ensures sub == inter
  {
    hide In, Strict, Intervals, Bounded;
    forall c: nat ensures In(sub, c) == In(inter, c) {
      if In(a, c) { NotBeyond(a, c); }
    }
    UniqueStrict(sub, inter);
  }

  /** a & b and a - b are disjoint and unite to a. */
  lemma InterAndSub(a: seq<nat>, b: seq<nat>, inter: seq<nat>, sub: seq<nat>, union: seq<nat>)
    requires Strict(a) && ResultOf(Inter, a, b, inter) && ResultOf(Sub, a, b, sub) && ResultOf(Union, inter, sub, union)
    ensures union == a && forall c: nat :: !(In(inter, c) && In(sub, c))
  {
    hide In, Strict;
    UniqueStrict(union, a);
  }

  /** a ^ b is (a | b) - (a & b). */
  lemma XorIsSub(a: seq<nat>, b: seq<nat>, xor: seq<nat>, union: seq<nat>, inter: seq<nat>, sub: seq<nat>)
    requires ResultOf(Xor, a, b, xor) && ResultOf(Union, a, b, union) && ResultOf(Inter, a, b, inter)
    requires ResultOf(Sub, union, inter, sub)
    ensures xor == sub
  {
    hide In, Strict;
    UniqueStrict(xor, sub);
  }

  /** ~(a | b) is ~a & ~b. */
  lemma InverseOfUnion(a: seq<nat>, b: seq<nat>, union: seq<nat>, r: seq<nat>, na: seq<nat>, nb: seq<nat>,
                       inter: seq<nat>)
    requires ResultOf(Union, a, b, union) && InverseOf(union, r)
    requires InverseOf(a, na) && InverseOf(b, nb) && ResultOf(Inter, na, nb, inter)
    ensures r == inter
  {
    hide In, Strict;
    UniqueStrict(r, inter);
  }

  /** With nothing on the other side: a | {} and a - {} and a ^ {} are a, the rest is {}. */
  lemma WithNothing(op: Op, a: seq<nat>, r: seq<nat>, q: seq<nat>)
    requires Strict(a) && ResultOf(op, a, [], r) && ResultOf(op, [], a, q)
    ensures r == if op == Inter then [] else a
    ensures q == if op == Inter || op == Sub then [] else a
  {
    hide In, Strict;
    NothingIn();
    UniqueStrict(r, if op == Inter then [] else a);
    UniqueStrict(q, if op == Inter || op == Sub then [] else a);
  }

  lemma NothingIn()
    ensures Strict([]) && forall c: nat :: !In([], c)
  {
  }
}
