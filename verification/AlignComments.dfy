/** Alignment of comments by dynamic programming over lines and columns. */
module AlignComments {
  import opened AlignCost

  datatype LineKind = Blank | CommentOnly | Plain

  /** A line with its lengths; `commentPos` is what the optimisation fills in. */
  datatype Line = Line(lvl: nat, kind: LineKind, codeLen: nat, commentLen: nat, commentPos: nat)

  predicate HasComment(l: Line) { l.commentLen > 0 }

  /** The comment comes after the code and within the maximum width. */
  predicate Fits(l: Line, w: nat, x: nat) { l.codeLen + 1 <= x && x + l.commentLen <= w }

  function NLvls(ls: seq<Line>): (n: nat)
    ensures forall i :: 0 <= i < |ls| ==> ls[i].lvl + 1 <= n
  {
    if ls == [] then 0
    else
      var n, l := NLvls(ls[..|ls| - 1]), ls[|ls| - 1].lvl + 1;
      if n < l then l else n
  }

  /** Lowest indentation of the lines that separate line `y` from the comment before it, plus 1;
      0 after a blank line and before the first comment. */
  function BreakLvl(ls: seq<Line>, n: nat, y: nat): (r: nat)
    requires y <= |ls|
    ensures r <= n + 1
  {
    if y == 0 then 0
    else
      var l := ls[y - 1];
      if HasComment(l) then n + 1
      else if l.kind == Blank then 0
      else
        var r := BreakLvl(ls, n, y - 1);
        if r < l.lvl + 1 then r else l.lvl + 1
  }

  /** The last line before `y` that has a comment, or -1. */
  function Prev(ls: seq<Line>, y: nat): (r: int)
    requires y <= |ls|
    ensures -1 <= r < y && (r >= 0 ==> HasComment(ls[r]))
    ensures forall i :: r < i < y ==> !HasComment(ls[i])
  {
    if y == 0 then -1 else if HasComment(ls[y - 1]) then y - 1 else Prev(ls, y - 1)
  }

  lemma {:induction false} NoBreakBeforeFirst(ls: seq<Line>, n: nat, y: nat)
    requires y <= |ls| && Prev(ls, y) == -1
    ensures BreakLvl(ls, n, y) == 0
  {
    if y > 0 {
      NoBreakBeforeFirst(ls, n, y - 1);
    }
  }

  /** A comment is close to the code above or below when it does not start beyond it. */
  function Closes(ls: seq<Line>, y: nat, x: nat): nat
    requires y < |ls|
  {
    var above := if y > 0 && ls[y - 1].kind == Plain then ls[y - 1].codeLen else 0;
    var below := if y + 1 < |ls| && ls[y + 1].kind == Plain then ls[y + 1].codeLen else 0;
    (if x < above + 1 then 1 else 0) + (if x < below + 1 then 1 else 0)
  }

  function Place(ls: seq<Line>, n: nat, y: nat, x: nat): (c: Cost)
    requires y < |ls|
    ensures |c.breaks| == n + 1
  {
    Zero(n + 1).(closes := Closes(ls, y, x), pos := x)
  }

  // ----- reference: the cost of a given alignment -----

  /** Changing column between two successive comments counts as a break. */
  function Change(ls: seq<Line>, n: nat, xs: seq<nat>, y: nat): (c: Cost)
    requires y < |ls| && |ls| <= |xs|
    ensures |c.breaks| == n + 1
  {
    var p := Prev(ls, y);
    if p >= 0 && xs[p] != xs[y] then OneBreak(n + 1, BreakLvl(ls, n, y)) else Zero(n + 1)
  }

  /** The cost of the first `y` lines. */
  function CostOf(ls: seq<Line>, n: nat, xs: seq<nat>, y: nat): (c: Cost)
    requires y <= |ls| <= |xs|
    ensures |c.breaks| == n + 1
  {
    if y == 0 then Zero(n + 1)
    else if !HasComment(ls[y - 1]) then CostOf(ls, n, xs, y - 1)
    else Sum(Sum(CostOf(ls, n, xs, y - 1), Change(ls, n, xs, y - 1)), Place(ls, n, y - 1, xs[y - 1]))
  }

  ghost predicate Feasible(ls: seq<Line>, w: nat, xs: seq<nat>, y: nat) {
    y <= |ls| <= |xs| && forall i :: 0 <= i < y && HasComment(ls[i]) ==> Fits(ls[i], w, xs[i])
  }

  lemma {:induction false} CostBetween(ls: seq<Line>, n: nat, xs: seq<nat>, y: nat)
    requires y <= |ls| <= |xs|
    ensures CostOf(ls, n, xs, y) == CostOf(ls, n, xs, Prev(ls, y) + 1)
  {
    if y > 0 && !HasComment(ls[y - 1]) {
      CostBetween(ls, n, xs, y - 1);
    }
  }

  // ----- the table -----

  datatype Info = Info(ko: bool, cost: Cost, prevX: nat)

  predicate InfoLess(a: Info, b: Info)
    requires |a.cost.breaks| == |b.cost.breaks|
  {
    if a.ko != b.ko then !a.ko else Less(a.cost, b.cost)
  }

  ghost predicate RowOk(r: seq<Info>, w: nat, n: nat) {
    |r| == w && forall x :: 0 <= x < w ==> |r[x].cost.breaks| == n + 1 && r[x].prevX < w
  }

  /** First minimum among the first `m` columns. */
  function ArgMin(r: seq<Info>, w: nat, n: nat, m: nat): (p: nat)
    requires RowOk(r, w, n) && 0 < m <= w
    ensures p < m
  {
    if m == 1 then 0
    else
      var p := ArgMin(r, w, n, m - 1);
      if InfoLess(r[m - 1], r[p]) then m - 1 else p
  }

  function FirstRow(w: nat, n: nat): (r: seq<Info>)
    ensures RowOk(r, w, n)
  {
    seq(w, _ => Info(false, Zero(n + 1), 0))
  }

  /** Stay in the same column when that is strictly better than the best one with a break. */
  function Choose(pt: seq<Info>, w: nat, n: nat, px: nat, brk: Cost, x: nat): (i: Info)
    requires RowOk(pt, w, n) && px < w && x < w && |brk.breaks| == n + 1
    ensures |i.cost.breaks| == n + 1 && i.prevX < w
  {
    var pi := pt[px].(cost := Sum(pt[px].cost, brk));
    if InfoLess(pt[x], pi) then pt[x].(prevX := x) else pi.(prevX := px)
  }

  /** The cell of column `x`, when `px` is the best column before and `brk` the cost of leaving it. */
  function EntryFrom(ls: seq<Line>, w: nat, n: nat, y: nat, pt: seq<Info>, px: nat, brk: Cost, x: nat): (i: Info)
    requires y < |ls| && RowOk(pt, w, n) && px < w && x < w && |brk.breaks| == n + 1
    ensures |i.cost.breaks| == n + 1 && i.prevX < w
  {
    if Fits(ls[y], w, x) then
      var i := Choose(pt, w, n, px, brk, x);
      i.(cost := Sum(i.cost, Place(ls, n, y, x)))
    else Info(true, Zero(n + 1), 0)
  }

  function Entry(ls: seq<Line>, w: nat, n: nat, y: nat, pt: seq<Info>, x: nat): (i: Info)
    requires y < |ls| && RowOk(pt, w, n) && x < w
    ensures |i.cost.breaks| == n + 1 && i.prevX < w
  {
    EntryFrom(ls, w, n, y, pt, ArgMin(pt, w, n, w), OneBreak(n + 1, BreakLvl(ls, n, y)), x)
  }

  /** The row of line `y`, from the row of the previous line with a comment. */
  function Row(ls: seq<Line>, w: nat, n: nat, y: nat): (r: seq<Info>)
    requires y < |ls|
    ensures RowOk(r, w, n)
    decreases y, 1
  {
    var pt := RowBefore(ls, w, n, y);
    seq(w, x requires 0 <= x < w => Entry(ls, w, n, y, pt, x))
  }

  function RowBefore(ls: seq<Line>, w: nat, n: nat, y: nat): (r: seq<Info>)
    requires y <= |ls|
    ensures RowOk(r, w, n)
    decreases y, 0
  {
    if Prev(ls, y) < 0 then FirstRow(w, n) else Row(ls, w, n, Prev(ls, y))
  }

  // ----- every feasible alignment costs at least what the table holds -----

  lemma {:induction false} ArgMinLeast(r: seq<Info>, w: nat, n: nat, m: nat, x: nat)
    requires RowOk(r, w, n) && x < m <= w
    ensures !InfoLess(r[x], r[ArgMin(r, w, n, m)])
  {
    if m == 1 {
      LeqReflexive(r[0].cost);
    } else {
      var p := ArgMin(r, w, n, m - 1);
      if x < m - 1 {
        ArgMinLeast(r, w, n, m - 1, x);
        if InfoLess(r[m - 1], r[p]) {
          InfoLeqTransitive(r[m - 1], r[p], r[x]);
        }
      } else {
        LeqReflexive(r[x].cost);
      }
    }
  }

  lemma {:induction false} InfoLeqTransitive(a: Info, b: Info, c: Info)
    requires |a.cost.breaks| == |b.cost.breaks| == |c.cost.breaks|
    requires InfoLess(a, b) && !InfoLess(c, b)
    ensures !InfoLess(c, a)
  {
    if a.ko == b.ko == c.ko {
      LessIsLeq(a.cost, b.cost);
      LeqTransitive(a.cost, b.cost, c.cost);
    }
  }

  lemma {:induction false} ChooseStay(pt: seq<Info>, w: nat, n: nat, px: nat, brk: Cost, x: nat)
    requires RowOk(pt, w, n) && px < w && x < w && |brk.breaks| == n + 1 && !pt[x].ko
    ensures var i := Choose(pt, w, n, px, brk, x); !i.ko && Leq(i.cost, pt[x].cost)
  {
    LeqReflexive(pt[x].cost);
  }

  lemma {:induction false} ChooseMove(pt: seq<Info>, w: nat, n: nat, brk: Cost, x: nat, x': nat)
    requires RowOk(pt, w, n) && x < w && x' < w && |brk.breaks| == n + 1 && !pt[x'].ko
    ensures var i := Choose(pt, w, n, ArgMin(pt, w, n, w), brk, x); !i.ko && Leq(i.cost, Sum(pt[x'].cost, brk))
  {
    var px := ArgMin(pt, w, n, w);
    ArgMinLeast(pt, w, n, w, x');
    LeqShift(pt[px].cost, pt[x'].cost, brk);
    var pi := pt[px].(cost := Sum(pt[px].cost, brk));
    if InfoLess(pt[x], pi) {
      LessIsLeq(pt[x].cost, pi.cost);
      LeqTransitive(pt[x].cost, pi.cost, Sum(pt[x'].cost, brk));
    }
  }

  lemma {:induction false} RowIsLowerBound(ls: seq<Line>, w: nat, n: nat, xs: seq<nat>, y: nat)
    requires y < |ls| && HasComment(ls[y]) && Feasible(ls, w, xs, y + 1)
    ensures xs[y] < w && !Row(ls, w, n, y)[xs[y]].ko
    ensures Leq(Row(ls, w, n, y)[xs[y]].cost, CostOf(ls, n, xs, y + 1))
    decreases y
  {
    var p, x, pt := Prev(ls, y), xs[y], RowBefore(ls, w, n, y);
    assert Fits(ls[y], w, x);
    var brk := OneBreak(n + 1, BreakLvl(ls, n, y));
    var i := Choose(pt, w, n, ArgMin(pt, w, n, w), brk, x);
    CostBetween(ls, n, xs, y);
    var before := CostOf(ls, n, xs, y);
    if p < 0 {
      ChooseStay(pt, w, n, ArgMin(pt, w, n, w), brk, x);
      SumZero(before, Zero(n + 1));
    } else {
      RowIsLowerBound(ls, w, n, xs, p);
      if xs[p] == x {
        ChooseStay(pt, w, n, ArgMin(pt, w, n, w), brk, x);
        SumZero(before, Zero(n + 1));
        LeqTransitive(i.cost, pt[x].cost, before);
      } else {
        ChooseMove(pt, w, n, brk, x, xs[p]);
        LeqShift(pt[xs[p]].cost, before, brk);
        LeqTransitive(i.cost, Sum(pt[xs[p]].cost, brk), Sum(before, brk));
      }
    }
    LeqShift(i.cost, Sum(before, Change(ls, n, xs, y)), Place(ls, n, y, x));
  }

  // ----- what the table holds is the cost of the alignment found by going back -----

  /** The alignment obtained by following `prevX` from line `y` and column `x`. */
  function Path(ls: seq<Line>, w: nat, n: nat, y: nat, x: nat): (xs: seq<nat>)
    requires y < |ls| && x < w
    ensures |xs| == |ls| && xs[y] == x
    decreases y
  {
    var p := Prev(ls, y);
    (if p < 0 then seq(|ls|, _ => 0) else Path(ls, w, n, p, Row(ls, w, n, y)[x].prevX))[y := x]
  }

  lemma {:induction false} CostFrame(ls: seq<Line>, n: nat, xs: seq<nat>, xs': seq<nat>, y: nat)
    requires y <= |ls| <= |xs| && |ls| <= |xs'| && forall i :: 0 <= i < y ==> xs[i] == xs'[i]
    ensures CostOf(ls, n, xs, y) == CostOf(ls, n, xs', y)
  {
    if y > 0 {
      CostFrame(ls, n, xs, xs', y - 1);
    }
  }

  /** The column to come from is another one when a break is charged. */
  lemma {:induction false} ChosenColumn(pt: seq<Info>, w: nat, n: nat, px: nat, lvl1: nat, x: nat)
    requires RowOk(pt, w, n) && px < w && x < w && lvl1 <= n + 1
    ensures var i := Choose(pt, w, n, px, OneBreak(n + 1, lvl1), x);
      && i.ko == pt[i.prevX].ko
      && i.cost == if i.prevX != x then Sum(pt[i.prevX].cost, OneBreak(n + 1, lvl1)) else pt[x].cost
  {
    if lvl1 > 0 {
      BreakCosts(pt[x].cost, lvl1);
    } else {
      SumZero(pt[px].cost, OneBreak(n + 1, lvl1));
    }
  }

  /** What a cell that can be used is made of. */
  lemma {:induction false} CellIs(ls: seq<Line>, w: nat, n: nat, y: nat, x: nat) returns (i: Info)
    requires y < |ls| && x < w && !Row(ls, w, n, y)[x].ko
    ensures Fits(ls[y], w, x) && i.prevX == Row(ls, w, n, y)[x].prevX < w && |i.cost.breaks| == n + 1
    ensures Row(ls, w, n, y)[x].cost == Sum(i.cost, Place(ls, n, y, x))
    ensures var pt := RowBefore(ls, w, n, y);
      && !pt[i.prevX].ko
      && i.cost == if i.prevX != x then Sum(pt[i.prevX].cost, OneBreak(n + 1, BreakLvl(ls, n, y))) else pt[x].cost
  {
    var pt := RowBefore(ls, w, n, y);
    i := Choose(pt, w, n, ArgMin(pt, w, n, w), OneBreak(n + 1, BreakLvl(ls, n, y)), x);
    assert Row(ls, w, n, y)[x] == Entry(ls, w, n, y, pt, x) == i.(cost := Sum(i.cost, Place(ls, n, y, x)));
    ChosenColumn(pt, w, n, ArgMin(pt, w, n, w), BreakLvl(ls, n, y), x);
  }

  lemma {:induction false} FirstIsAchieved(ls: seq<Line>, w: nat, n: nat, y: nat, x: nat)
    requires y < |ls| && HasComment(ls[y]) && x < w && !Row(ls, w, n, y)[x].ko && Prev(ls, y) < 0
    ensures CostOf(ls, n, Path(ls, w, n, y, x), y + 1) == Row(ls, w, n, y)[x].cost
  {
    var i := CellIs(ls, w, n, y, x);
    CostBetween(ls, n, Path(ls, w, n, y, x), y);
    NoBreakBeforeFirst(ls, n, y);
    SumZero(Zero(n + 1), OneBreak(n + 1, 0));
    SumZero(Zero(n + 1), Zero(n + 1));
  }

  lemma {:induction false} CostBefore(ls: seq<Line>, n: nat, xs: seq<nat>, y: nat, x: nat, p: nat)
    requires y < |ls| <= |xs| && p == Prev(ls, y)
    ensures var ys := xs[y := x]; ys[p] == xs[p] && CostOf(ls, n, ys, y) == CostOf(ls, n, xs, p + 1)
  {
    CostBetween(ls, n, xs[y := x], y);
    CostFrame(ls, n, xs, xs[y := x], p + 1);
  }

  lemma {:induction false} StepCost(ls: seq<Line>, n: nat, xs: seq<nat>, y: nat, p: nat, cost: Cost)
    requires y < |ls| <= |xs| && HasComment(ls[y]) && p == Prev(ls, y)
    requires var before := CostOf(ls, n, xs, y);
      cost == if xs[p] != xs[y] then Sum(before, OneBreak(n + 1, BreakLvl(ls, n, y))) else before
    ensures CostOf(ls, n, xs, y + 1) == Sum(cost, Place(ls, n, y, xs[y]))
  {
    SumZero(CostOf(ls, n, xs, y), Zero(n + 1));
  }

  lemma {:induction false} RowIsAchieved(ls: seq<Line>, w: nat, n: nat, y: nat, x: nat)
    requires y < |ls| && HasComment(ls[y]) && x < w && !Row(ls, w, n, y)[x].ko
    ensures Feasible(ls, w, Path(ls, w, n, y, x), y + 1)
    ensures CostOf(ls, n, Path(ls, w, n, y, x), y + 1) == Row(ls, w, n, y)[x].cost
    decreases y
  {
    var p := Prev(ls, y);
    var i := CellIs(ls, w, n, y, x);
    if p < 0 {
      FirstIsAchieved(ls, w, n, y, x);
    } else {
      RowIsAchieved(ls, w, n, p, i.prevX);
      CostBefore(ls, n, Path(ls, w, n, p, i.prevX), y, x, p);
      StepCost(ls, n, Path(ls, w, n, y, x), y, p, i.cost);
    }
  }

  /** Following `prevX` line by line is following the path. */
  lemma {:induction false} PathLinks(ls: seq<Line>, w: nat, n: nat, top: nat, x: nat, y: nat)
    requires y <= top < |ls| && HasComment(ls[y]) && HasComment(ls[top]) && x < w
    ensures Path(ls, w, n, top, x)[y] < w
    ensures Prev(ls, y) >= 0 ==> Path(ls, w, n, top, x)[Prev(ls, y)] == Row(ls, w, n, y)[Path(ls, w, n, top, x)[y]].prevX
    decreases top
  {
    if y < top {
      PathLinks(ls, w, n, Prev(ls, top), Row(ls, w, n, top)[x].prevX, y);
    }
  }

  // ----- optimality -----

  ghost predicate AllFit(ls: seq<Line>, w: nat) {
    forall y :: 0 <= y < |ls| && HasComment(ls[y]) ==> Fits(ls[y], w, ls[y].codeLen + 1)
  }

  ghost predicate Optimal(ls: seq<Line>, w: nat, xs: seq<nat>) {
    && Feasible(ls, w, xs, |ls|)
    && forall ys :: Feasible(ls, w, ys, |ls|) ==>
         Leq(CostOf(ls, NLvls(ls), xs, |ls|), CostOf(ls, NLvls(ls), ys, |ls|))
  }

  lemma {:induction false} BestCoversFeasible(ls: seq<Line>, w: nat, n: nat, last: nat, ys: seq<nat>)
    requires last < |ls| && HasComment(ls[last]) && Feasible(ls, w, ys, last + 1)
    ensures w > 0
    ensures var r := Row(ls, w, n, last); var x := ArgMin(r, w, n, w);
      !r[x].ko && Leq(r[x].cost, CostOf(ls, n, ys, last + 1))
  {
    RowIsLowerBound(ls, w, n, ys, last);
    var r := Row(ls, w, n, last);
    ArgMinLeast(r, w, n, w, ys[last]);
    LeqTransitive(r[ArgMin(r, w, n, w)].cost, r[ys[last]].cost, CostOf(ls, n, ys, last + 1));
  }

  lemma {:induction false} FitsIffFeasible(ls: seq<Line>, w: nat)
    ensures AllFit(ls, w) <==> Feasible(ls, w, seq(|ls|, i requires 0 <= i < |ls| => ls[i].codeLen + 1), |ls|)
  {
  }

  /** The best column of the last row is feasible exactly when every comment fits. */
  lemma {:induction false} LastRowOk(ls: seq<Line>, w: nat, n: nat, last: nat)
    requires w > 0 && last == Prev(ls, |ls|)
    ensures var r := Row(ls, w, n, last); !r[ArgMin(r, w, n, w)].ko <==> AllFit(ls, w)
  {
    var r := Row(ls, w, n, last);
    var x := ArgMin(r, w, n, w);
    if !r[x].ko {
      RowIsAchieved(ls, w, n, last, x);
      FeasibleFits(ls, w, Path(ls, w, n, last, x), last);
    }
    if AllFit(ls, w) {
      FitsIffFeasible(ls, w);
      BestCoversFeasible(ls, w, n, last, seq(|ls|, i requires 0 <= i < |ls| => ls[i].codeLen + 1));
    }
  }

  lemma {:induction false} FeasibleFits(ls: seq<Line>, w: nat, xs: seq<nat>, last: nat)
    requires last == Prev(ls, |ls|) && Feasible(ls, w, xs, last + 1)
    ensures AllFit(ls, w) && Feasible(ls, w, xs, |ls|)
  {
  }

  lemma {:induction false} PathBeatsAny(ls: seq<Line>, w: nat, n: nat, last: nat, xs: seq<nat>, ys: seq<nat>)
    requires w > 0 && last == Prev(ls, |ls|) && |xs| == |ls| && Feasible(ls, w, ys, |ls|)
    requires var r := Row(ls, w, n, last); CostOf(ls, n, xs, last + 1) == r[ArgMin(r, w, n, w)].cost
    ensures Leq(CostOf(ls, n, xs, |ls|), CostOf(ls, n, ys, |ls|))
  {
    BestCoversFeasible(ls, w, n, last, ys);
    CostBetween(ls, n, xs, |ls|);
    CostBetween(ls, n, ys, |ls|);
  }

  /** Going back from the best column of the last row gives an optimal alignment. */
  lemma {:induction false} PathIsOptimal(ls: seq<Line>, w: nat, n: nat, last: nat, x: nat)
    requires w > 0 && n == NLvls(ls) && last == Prev(ls, |ls|) && AllFit(ls, w)
    requires x == ArgMin(Row(ls, w, n, last), w, n, w)
    ensures Optimal(ls, w, Path(ls, w, n, last, x))
  {
    var xs := Path(ls, w, n, last, x);
    LastRowOk(ls, w, n, last);
    RowIsAchieved(ls, w, n, last, x);
    FeasibleFits(ls, w, xs, last);
    forall ys | Feasible(ls, w, ys, |ls|)
      ensures Leq(CostOf(ls, n, xs, |ls|), CostOf(ls, n, ys, |ls|))
    {
      PathBeatsAny(ls, w, n, last, xs, ys);
    }
  }

  // ----- the program -----

  lemma {:induction false} ChargeBreak(c: Cost, n: nat, lvl1: nat)
    requires |c.breaks| == n + 1 && lvl1 <= n + 1
    ensures Sum(c, OneBreak(n + 1, lvl1))
         == if lvl1 > 0 then c.(breaks := c.breaks[lvl1 - 1 := c.breaks[lvl1 - 1] + 1]) else c
  {
    if lvl1 == 0 {
      SumZero(c, OneBreak(n + 1, lvl1));
    } else {
      assert Sum(c, OneBreak(n + 1, lvl1)).breaks == c.breaks[lvl1 - 1 := c.breaks[lvl1 - 1] + 1];
    }
  }

  lemma {:induction false} ChargePlace(c: Cost, ls: seq<Line>, n: nat, y: nat, x: nat)
    requires |c.breaks| == n + 1 && y < |ls|
    ensures Sum(c, Place(ls, n, y, x)) == c.(closes := c.closes + Closes(ls, y, x), pos := c.pos + x)
  {
    assert Sum(c, Place(ls, n, y, x)).breaks == c.breaks;
  }

  /** The best column of the previous row, with a break charged to it. */
  method BestWithBreak(pt: seq<Info>, w: nat, n: nat, breakLvl1: nat) returns (px: nat, pi: Info)
    requires RowOk(pt, w, n) && w > 0 && breakLvl1 <= n + 1
    ensures px == ArgMin(pt, w, n, w)
    ensures pi == pt[px].(cost := Sum(pt[px].cost, OneBreak(n + 1, breakLvl1)))
  {
    px, pi := 0, pt[0];
    for x := 1 to w
      invariant px == ArgMin(pt, w, n, x) && pi == pt[px]
    {
      if InfoLess(pt[x], pi) { pi, px := pt[x], x; }
    }
    ChargeBreak(pi.cost, n, breakLvl1);
    if breakLvl1 > 0 {
      pi := pi.(cost := pi.cost.(breaks := pi.cost.breaks[breakLvl1 - 1 := pi.cost.breaks[breakLvl1 - 1] + 1]));
    }
  }

  /** One cell of the row of line `y`. */
  method Cell(ls: seq<Line>, w: nat, n: nat, y: nat, pt: seq<Info>, px: nat, ghost brk: Cost, pi: Info, x: nat)
    returns (t: Info)
    requires y < |ls| && RowOk(pt, w, n) && px < w && x < w && Fits(ls[y], w, x)
    requires |brk.breaks| == n + 1 && pi == pt[px].(cost := Sum(pt[px].cost, brk))
    ensures t == EntryFrom(ls, w, n, y, pt, px, brk, x)
  {
    var above, below := 0, 0;
    if y > 0 && ls[y - 1].kind == Plain { above := ls[y - 1].codeLen; }
    if y < |ls| - 1 && ls[y + 1].kind == Plain { below := ls[y + 1].codeLen; }
    t := if InfoLess(pt[x], pi) then pt[x].(prevX := x) else pi.(prevX := px);
    ChargePlace(t.cost, ls, n, y, x);
    if x < above + 1 { t := t.(cost := t.cost.(closes := t.cost.closes + 1)); }
    if x < below + 1 { t := t.(cost := t.cost.(closes := t.cost.closes + 1)); }
    t := t.(cost := t.cost.(pos := t.cost.pos + x));
  }

  /** Fills the row of line `y` in place. */
  method FillRow(tab: array2<Info>, ls: seq<Line>, n: nat, y: nat, pt: seq<Info>, breakLvl1: nat)
    requires tab.Length0 == |ls| && 0 < tab.Length1 && y < |ls| && HasComment(ls[y])
    requires RowOk(pt, tab.Length1, n) && breakLvl1 == BreakLvl(ls, n, y)
    requires forall x :: 0 <= x < tab.Length1 ==> tab[y, x] == Info(true, Zero(n + 1), 0)
    modifies tab
    ensures forall x :: 0 <= x < tab.Length1 ==> tab[y, x] == Entry(ls, tab.Length1, n, y, pt, x)
    ensures forall i, x :: 0 <= i < |ls| && i != y && 0 <= x < tab.Length1 ==> tab[i, x] == old(tab[i, x])
  {
    var w := tab.Length1;
    var px, pi := BestWithBreak(pt, w, n, breakLvl1);
    var x := ls[y].codeLen + 1;
    assert forall z :: 0 <= z < w && z < x ==> Entry(ls, w, n, y, pt, z) == Info(true, Zero(n + 1), 0);
    while x + ls[y].commentLen <= w
      invariant x >= ls[y].codeLen + 1
      invariant forall z :: 0 <= z < w && z < x ==> tab[y, z] == Entry(ls, w, n, y, pt, z)
      invariant forall z :: x <= z < w ==> tab[y, z] == Info(true, Zero(n + 1), 0)
      invariant forall i, z :: 0 <= i < |ls| && i != y && 0 <= z < w ==> tab[i, z] == old(tab[i, z])
      decreases w - x
    {
      var t := Cell(ls, w, n, y, pt, px, OneBreak(n + 1, breakLvl1), pi, x);
      tab[y, x] := t;
      x := x + 1;
    }
    assert forall z :: x <= z < w ==> Entry(ls, w, n, y, pt, z) == Info(true, Zero(n + 1), 0);
  }

  /** The columns of the lines. */
  function Columns(ls: seq<Line>): (xs: seq<nat>)
    ensures |xs| == |ls| && forall i :: 0 <= i < |ls| ==> xs[i] == ls[i].commentPos
  {
    seq(|ls|, i requires 0 <= i < |ls| => ls[i].commentPos)
  }

  function RowOf(tab: array2<Info>, y: nat): seq<Info>
    requires y < tab.Length0
    reads tab
  {
    seq(tab.Length1, x requires 0 <= x < tab.Length1 reads tab => tab[y, x])
  }

  /** Fills the table line by line. */
  method FillTable(ls: seq<Line>, w: nat) returns (tab: array2<Info>, py: int)
    requires w > 0
    ensures fresh(tab) && tab.Length0 == |ls| && tab.Length1 == w && py == Prev(ls, |ls|)
    ensures forall y :: 0 <= y < |ls| && HasComment(ls[y]) ==> RowOf(tab, y) == Row(ls, w, NLvls(ls), y)
  {
    var n := NLvls(ls);
    var ko := Info(true, Zero(n + 1), 0);
    tab := new Info[|ls|, w]((_, _) => ko);
    var breakLvl1 := 0;
    py := -1;
    for y := 0 to |ls|
      invariant py == Prev(ls, y) && breakLvl1 == BreakLvl(ls, n, y)
      invariant forall i :: 0 <= i < y && HasComment(ls[i]) ==> RowOf(tab, i) == Row(ls, w, n, i)
      invariant forall i, x :: y <= i < |ls| && 0 <= x < w ==> tab[i, x] == ko
    {
      if !HasComment(ls[y]) {
        if ls[y].kind == Blank { breakLvl1 := 0; }
        else if ls[y].lvl + 1 < breakLvl1 { breakLvl1 := ls[y].lvl + 1; }
      } else {
        var pt := if py >= 0 then RowOf(tab, py) else FirstRow(w, n);
        label before:
        FillRow(tab, ls, n, y, pt, breakLvl1);
        assert RowOf(tab, y) == Row(ls, w, n, y);
        forall i | 0 <= i < y && HasComment(ls[i])
          ensures RowOf(tab, i) == Row(ls, w, n, i)
        {
          assert RowOf(tab, i) == old@before(RowOf(tab, i));
        }
        py, breakLvl1 := y, n + 1;
      }
    }
  }

  /** The line once its comment has been given a column. */
  function Placed(l: Line, x: nat): Line { if HasComment(l) then l.(commentPos := x) else l }

  /** The column stored for line `y` leads to the one of the comment before. */
  ghost predicate Follows(tab: array2<Info>, ls: seq<Line>, xs: seq<nat>, y: nat)
    requires tab.Length0 == |ls| == |xs| && y < |ls|
    reads tab
  {
    xs[y] < tab.Length1 && (Prev(ls, y) >= 0 ==> xs[Prev(ls, y)] == tab[y, xs[y]].prevX)
  }

  lemma {:induction false} PathFollows(tab: array2<Info>, ls: seq<Line>, w: nat, n: nat, top: nat, x: nat, y: nat)
    requires y <= top < |ls| && HasComment(ls[y]) && HasComment(ls[top]) && x < w
    requires tab.Length0 == |ls| && tab.Length1 == w && RowOf(tab, y) == Row(ls, w, n, y)
    ensures Follows(tab, ls, Path(ls, w, n, top, x), y)
  {
    PathLinks(ls, w, n, top, x, y);
    var px := Path(ls, w, n, top, x)[y];
    assert RowOf(tab, y)[px] == tab[y, px];
  }

  /** The column is the one of the last comment before line `y`. */
  ghost predicate AtComment(ls: seq<Line>, xs: seq<nat>, y: nat, x: nat)
    requires y <= |ls| == |xs|
  {
    var p := Prev(ls, y);
    p >= 0 ==> x == xs[p]
  }

  lemma {:induction false} OneLineUp(tab: array2<Info>, ls: seq<Line>, xs: seq<nat>, y: nat, x: nat)
    requires tab.Length0 == |ls| == |xs| && y < |ls| && AtComment(ls, xs, y + 1, x)
    requires HasComment(ls[y]) ==> Follows(tab, ls, xs, y)
    ensures if HasComment(ls[y]) then x == xs[y] < tab.Length1 && AtComment(ls, xs, y, tab[y, x].prevX) else AtComment(ls, xs, y, x)
  {
  }

  /** Writes back the columns found by going up the table. */
  method WriteBack(lines: array<Line>, tab: array2<Info>, ghost ls: seq<Line>, ghost xs: seq<nat>, minX0: nat)
    requires lines[..] == ls && tab.Length0 == |ls| == |xs|
    requires forall y :: 0 <= y < |ls| && HasComment(ls[y]) ==> Follows(tab, ls, xs, y)
    requires AtComment(ls, xs, |ls|, minX0)
    modifies lines
    ensures forall i :: 0 <= i < |ls| ==> lines[i] == Placed(ls[i], xs[i])
  {
    var minX := minX0;
    var y1 := lines.Length;
    while y1 > 0
      invariant 0 <= y1 <= |ls|
      invariant forall i :: 0 <= i < y1 ==> lines[i] == ls[i]
      invariant forall i :: y1 <= i < |ls| ==> lines[i] == Placed(ls[i], xs[i])
      invariant AtComment(ls, xs, y1, minX)
    {
      y1 := y1 - 1;
      OneLineUp(tab, ls, xs, y1, minX);
      if HasComment(lines[y1]) {
        lines[y1] := lines[y1].(commentPos := minX);
        minX := tab[y1, minX].prevX;
      }
    }
  }

  method Cheapest(row: seq<Info>, w: nat, ghost n: nat) returns (minX: nat)
    requires RowOk(row, w, n) && w > 0
    ensures minX == ArgMin(row, w, n, w)
  {
    minX := 0;
    for x := 1 to w
      invariant minX == ArgMin(row, w, n, x)
    {
      if InfoLess(row[x], row[minX]) { minX := x; }
    }
  }

  /** The optimisation succeeds exactly when every comment fits, and then writes an optimal alignment. */
  method Optimize(lines: array<Line>, w: nat) returns (ok: bool)
    requires w > 0
    modifies lines
    ensures ok <==> AllFit(old(lines[..]), w)
    ensures !ok ==> lines[..] == old(lines[..])
    ensures ok ==> Optimal(old(lines[..]), w, Columns(lines[..]))
    ensures forall i :: 0 <= i < lines.Length ==> lines[i] == Placed(old(lines[i]), lines[i].commentPos)
  {
    ghost var ls, n := lines[..], NLvls(lines[..]);
    var tab, py := FillTable(lines[..], w);
    if py < 0 {
      NothingToAlign(ls, w, Columns(ls));
      return true;
    }
    var minX := Cheapest(RowOf(tab, py), w, n);
    LastRowOk(ls, w, n, py);
    if tab[py, minX].ko { return false; }
    PathIsOptimal(ls, w, n, py, minX);
    ghost var xs := Path(ls, w, n, py, minX);
    forall y | 0 <= y < |ls| && HasComment(ls[y])
      ensures Follows(tab, ls, xs, y)
    {
      PathFollows(tab, ls, w, n, py, minX, y);
    }
    WriteBack(lines, tab, ls, xs, minX);
    SameColumns(ls, w, xs, Columns(lines[..]));
    ok := true;
  }

  lemma {:induction false} NothingToAlign(ls: seq<Line>, w: nat, xs: seq<nat>)
    requires Prev(ls, |ls|) < 0 && |xs| == |ls|
    ensures AllFit(ls, w) && Optimal(ls, w, xs)
  {
    forall ys | Feasible(ls, w, ys, |ls|)
      ensures Leq(CostOf(ls, NLvls(ls), xs, |ls|), CostOf(ls, NLvls(ls), ys, |ls|))
    {
      CostBetween(ls, NLvls(ls), xs, |ls|);
      CostBetween(ls, NLvls(ls), ys, |ls|);
      LeqReflexive(CostOf(ls, NLvls(ls), xs, |ls|));
    }
  }

  /** Columns only matter where there is a comment. */
  lemma {:induction false} SameCost(ls: seq<Line>, n: nat, xs: seq<nat>, ys: seq<nat>, y: nat)
    requires y <= |ls| == |xs| == |ys| && forall i :: 0 <= i < y && HasComment(ls[i]) ==> xs[i] == ys[i]
    ensures CostOf(ls, n, xs, y) == CostOf(ls, n, ys, y)
  {
    if y > 0 {
      SameCost(ls, n, xs, ys, y - 1);
    }
  }

  lemma {:induction false} SameColumns(ls: seq<Line>, w: nat, xs: seq<nat>, ys: seq<nat>)
    requires |ls| == |xs| == |ys| && Optimal(ls, w, xs)
    requires forall i :: 0 <= i < |ls| && HasComment(ls[i]) ==> xs[i] == ys[i]
    ensures Optimal(ls, w, ys)
  {
    SameCost(ls, NLvls(ls), xs, ys, |ls|);
  }
}
