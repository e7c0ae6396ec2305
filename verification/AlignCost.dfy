/** The cost of an alignment of comments, and the order in which costs are compared. */
module AlignCost {

  /** Comments too close to code, changes of column by indentation level, sum of columns. */
  datatype Cost = Cost(closes: nat, breaks: seq<nat>, pos: nat)

  /** The breaks from the highest level below `n` down, then the columns. */
  predicate BreaksThenPos(a: Cost, b: Cost, n: nat)
    requires n <= |a.breaks| && n <= |b.breaks|
  {
    if n == 0 then a.pos < b.pos
    else if a.breaks[n - 1] != b.breaks[n - 1] then a.breaks[n - 1] < b.breaks[n - 1]
    else BreaksThenPos(a, b, n - 1)
  }

  predicate Less(a: Cost, b: Cost)
    requires |a.breaks| == |b.breaks|
  {
    if a.closes != b.closes then a.closes < b.closes else BreaksThenPos(a, b, |a.breaks|)
  }

  predicate Leq(a: Cost, b: Cost)
    requires |a.breaks| == |b.breaks|
  {
    !Less(b, a)
  }

  function Sum(a: Cost, d: Cost): (r: Cost)
    requires |a.breaks| == |d.breaks|
    ensures |r.breaks| == |a.breaks|
  {
    Cost(a.closes + d.closes, seq(|a.breaks|, i requires 0 <= i < |a.breaks| => a.breaks[i] + d.breaks[i]), a.pos + d.pos)
  }

  function Zero(n: nat): (r: Cost)
    ensures |r.breaks| == n
  {
    Cost(0, seq(n, _ => 0), 0)
  }

  /** One break of level `lvl1 - 1`; no break at all when `lvl1` is 0. */
  function OneBreak(n: nat, lvl1: nat): (r: Cost)
    requires lvl1 <= n
    ensures |r.breaks| == n
  {
    Cost(0, seq(n, i => if i + 1 == lvl1 then 1 else 0), 0)
  }

  lemma {:induction false} BreaksAsymmetric(a: Cost, b: Cost, n: nat)
    requires n <= |a.breaks| && n <= |b.breaks|
    ensures !(BreaksThenPos(a, b, n) && BreaksThenPos(b, a, n))
  {
    if n > 0 {
      BreaksAsymmetric(a, b, n - 1);
    }
  }

  lemma {:induction false} BreaksTransitive(a: Cost, b: Cost, c: Cost, n: nat)
    requires n <= |a.breaks| && n <= |b.breaks| && n <= |c.breaks|
    requires !BreaksThenPos(b, a, n) && !BreaksThenPos(c, b, n)
    ensures !BreaksThenPos(c, a, n)
  {
    if n > 0 && a.breaks[n - 1] == b.breaks[n - 1] == c.breaks[n - 1] {
      BreaksTransitive(a, b, c, n - 1);
    }
  }

  lemma {:induction false} BreaksShift(a: Cost, b: Cost, d: Cost, n: nat)
    requires n <= |a.breaks| == |b.breaks| == |d.breaks|
    ensures BreaksThenPos(Sum(a, d), Sum(b, d), n) <==> BreaksThenPos(a, b, n)
  {
    if n > 0 {
      BreaksShift(a, b, d, n - 1);
    }
  }

  lemma {:induction false} LessIsLeq(a: Cost, b: Cost)
    requires |a.breaks| == |b.breaks| && Less(a, b)
    ensures Leq(a, b)
  {
    BreaksAsymmetric(a, b, |a.breaks|);
  }

  lemma {:induction false} LeqReflexive(a: Cost)
    ensures Leq(a, a)
  {
    BreaksAsymmetric(a, a, |a.breaks|);
  }

  lemma {:induction false} LeqTransitive(a: Cost, b: Cost, c: Cost)
    requires |a.breaks| == |b.breaks| == |c.breaks| && Leq(a, b) && Leq(b, c)
    ensures Leq(a, c)
  {
    if a.closes == b.closes == c.closes {
      BreaksTransitive(a, b, c, |a.breaks|);
    }
  }

  /** The order is compatible with addition, which is what makes it fit for dynamic programming. */
  lemma {:induction false} LessShift(a: Cost, b: Cost, d: Cost)
    requires |a.breaks| == |b.breaks| == |d.breaks|
    ensures Less(Sum(a, d), Sum(b, d)) <==> Less(a, b)
  {
    BreaksShift(a, b, d, |a.breaks|);
  }

  lemma {:induction false} LeqShift(a: Cost, b: Cost, d: Cost)
    requires |a.breaks| == |b.breaks| == |d.breaks| && Leq(a, b)
    ensures Leq(Sum(a, d), Sum(b, d))
  {
    LessShift(b, a, d);
  }

  lemma {:induction false} BreakRaises(a: Cost, b: Cost, lvl1: nat, n: nat)
    requires n <= |a.breaks| && 0 < lvl1 <= |a.breaks| && b == Sum(a, OneBreak(|a.breaks|, lvl1)) && lvl1 <= n
    ensures BreaksThenPos(a, b, n)
  {
    if n > lvl1 {
      BreakRaises(a, b, lvl1, n - 1);
    }
  }

  /** A break always costs. */
  lemma {:induction false} BreakCosts(a: Cost, lvl1: nat)
    requires 0 < lvl1 <= |a.breaks|
    ensures Less(a, Sum(a, OneBreak(|a.breaks|, lvl1)))
  {
    BreakRaises(a, Sum(a, OneBreak(|a.breaks|, lvl1)), lvl1, |a.breaks|);
  }

  lemma {:induction false} SumZero(a: Cost, z: Cost)
    requires |z.breaks| == |a.breaks| && z.closes == z.pos == 0 && forall i :: 0 <= i < |z.breaks| ==> z.breaks[i] == 0
    ensures Sum(a, z) == a && Sum(z, a) == a
  {
    assert Sum(a, z).breaks == a.breaks;
    assert Sum(z, a).breaks == a.breaks;
  }
}
