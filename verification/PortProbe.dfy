/** Probing the ports of a range in a scrambled order. */
module PortProbe {
  import opened Basics

  // ----- bits -----

  function Pow2(k: nat): (r: nat)
    ensures r > 0
  {
    if k == 0 then 1 else 2 * Pow2(k - 1)
  }

  function Xor(a: nat, b: nat): nat {
    if a == 0 && b == 0 then 0 else (a + b) % 2 + 2 * Xor(a / 2, b / 2)
  }

  function And(a: nat, b: nat): nat {
    if a == 0 then 0 else (if a % 2 == 1 && b % 2 == 1 then 1 else 0) + 2 * And(a / 2, b / 2)
  }

  /** Masking with a power of two minus one is taking the remainder. */
  lemma {:induction false} MaskIsMod(a: nat, k: nat)
    ensures And(a, Pow2(k) - 1) == a % Pow2(k)
    decreases k
  {
    if k == 0 {
      AndZero(a);
      ModUnique(a, 1, a, 0);
    } else if a == 0 {
      ModUnique(0, Pow2(k), 0, 0);
    } else {
      MaskIsMod(a / 2, k - 1);
      MaskStep(a, Pow2(k - 1));
    }
  }

  lemma {:induction false} MaskStep(a: nat, p: nat)
    requires p > 0 && a > 0 && And(a / 2, p - 1) == a / 2 % p
    ensures And(a, 2 * p - 1) == a % (2 * p)
  {
    AndStep(a, p);
    ModTwice(a, p);
  }

  lemma {:induction false} AndZero(a: nat)
    ensures And(a, 0) == 0
  {
    if a > 0 {
      AndZero(a / 2);
    }
  }

  lemma {:induction false} AndStep(a: nat, p: nat)
    requires p > 0 && a > 0
    ensures And(a, 2 * p - 1) == a % 2 + 2 * And(a / 2, p - 1)
  {
    BitAndRest(1, p - 1);
    assert 2 * p - 1 == 1 + 2 * (p - 1);
  }

  lemma {:induction false} ModTwice(a: nat, p: nat)
    requires p > 0
    ensures a % (2 * p) == a % 2 + 2 * (a / 2 % p)
  {
    var h := a / 2;
    var q, r := h / p, h % p;
    assert h == q * p + r;
    assert a == q * (2 * p) + (2 * r + a % 2) by { assert a == 2 * h + a % 2; assert 2 * (q * p) == q * (2 * p); }
    ModUnique(a, 2 * p, q, 2 * r + a % 2);
  }

  lemma {:induction false} AtLeastOnce(d: nat, m: nat)
    requires d >= 1
    ensures d * m >= m
  {
    assert d * m == m + (d - 1) * m;
  }

  lemma {:induction false} ModUnique(a: nat, m: nat, q: nat, r: nat)
    requires m > 0 && r < m && a == q * m + r
    ensures a % m == r && a / m == q
  {
    var q', r' := a / m, a % m;
    DivisionOf(a, m);
    Unique(m, q, r, q', r');
  }

  lemma {:induction false} DivisionOf(a: nat, m: nat)
    requires m > 0
    ensures a == (a / m) * m + a % m && a % m < m
  {
  }

  lemma {:induction false} Unique(m: nat, q: nat, r: nat, q': nat, r': nat)
    requires r < m && r' < m && q * m + r == q' * m + r'
    ensures q == q' && r == r'
  {
    if q' < q {
      AtLeastOnce(q - q', m);
      Spread(q, q', m);
    } else if q < q' {
      AtLeastOnce(q' - q, m);
      Spread(q', q, m);
    }
  }

  lemma {:induction false} Spread(a: nat, b: nat, m: nat)
    requires b <= a
    ensures (a - b) * m == a * m - b * m
  {
  }

  /** Xor undoes itself, and values of the same block of 2^k differ only within the block. */
  lemma {:induction false} XorInBlock(v: nat, r: nat, k: nat)
    requires v / Pow2(k) == r / Pow2(k)
    ensures Xor(v, r) < Pow2(k)
    decreases k
  {
    if k == 0 {
      XorSelf(v);
    } else {
      DivHalf(v, k);
      DivHalf(r, k);
      XorInBlock(v / 2, r / 2, k - 1);
    }
  }

  lemma {:induction false} DivHalf(v: nat, k: nat)
    requires k > 0
    ensures v / Pow2(k) == v / 2 / Pow2(k - 1)
  {
    var p := Pow2(k - 1);
    var h := v / 2;
    var q, r := h / p, h % p;
    assert h == q * p + r;
    assert v == q * (2 * p) + (2 * r + v % 2) by { assert v == 2 * h + v % 2; assert 2 * (q * p) == q * (2 * p); }
    ModUnique(v, 2 * p, q, 2 * r + v % 2);
  }

  lemma {:induction false} XorSelf(v: nat)
    ensures Xor(v, v) == 0
  {
    if v > 0 {
      XorSelf(v / 2);
    }
  }

  lemma {:induction false} XorBits(a: nat, b: nat)
    ensures Xor(a, b) % 2 == (a + b) % 2 && Xor(a, b) / 2 == Xor(a / 2, b / 2)
  {
    BitAndRest((a + b) % 2, Xor(a / 2, b / 2));
  }

  lemma {:induction false} BitAndRest(bit: nat, x: nat)
    requires bit < 2
    ensures (bit + 2 * x) % 2 == bit && (bit + 2 * x) / 2 == x
  {
  }

  lemma {:induction false} XorTwice(v: nat, r: nat)
    ensures Xor(Xor(v, r), r) == v
    decreases v + r
  {
    if v > 0 || r > 0 {
      var x := Xor(v, r);
      XorTwice(v / 2, r / 2);
      XorBits(v, r);
      XorBits(x, r);
      SameBit(v, r, x);
      var z := Xor(x, r);
      assert z == 2 * (z / 2) + z % 2 && v == 2 * (v / 2) + v % 2;
    }
  }

  lemma {:induction false} SameBit(v: nat, r: nat, x: nat)
    requires x % 2 == (v + r) % 2
    ensures (x + r) % 2 == v % 2
  {
  }

  // ----- odd steps -----

  /** An odd number has an inverse modulo every power of two. */
  lemma {:induction false} OddInverse(a: nat, k: nat) returns (c: nat)
    requires a % 2 == 1
    ensures (a * c) % Pow2(k) == 1 % Pow2(k)
  {
    if k == 0 {
      c := 0;
    } else {
      var p := Pow2(k - 1);
      var d := OddInverse(a, k - 1);
      c := Lift(a, d, p);
    }
  }

  lemma {:induction false} Lift(a: nat, d: nat, p: nat) returns (c: nat)
    requires a % 2 == 1 && p > 0 && (a * d) % p == 1 % p
    ensures (a * c) % (2 * p) == 1 % (2 * p)
  {
    if p == 1 {
      c := 1;
    } else {
      ModUnique(1, p, 0, 1);
      DivisionOf(a * d, p);
      c := LiftBy(a, d, p, a * d / p);
    }
  }

  lemma {:induction false} LiftBy(a: nat, d: nat, p: nat, q: nat) returns (c: nat)
    requires a % 2 == 1 && p > 1 && a * d == q * p + 1
    ensures (a * c) % (2 * p) == 1 % (2 * p)
  {
    if q % 2 == 0 {
      c := d;
      EvenQuotient(a * c, q, p);
    } else {
      c := d + p;
      AddFactor(a, d, p, q);
      EvenQuotient(a * c, q + a, p);
    }
  }

  lemma {:induction false} AddFactor(a: nat, d: nat, p: nat, q: nat)
    requires a * d == q * p + 1
    ensures a * (d + p) == (q + a) * p + 1
  {
    assert a * (d + p) == a * d + a * p;
    assert (q + a) * p == q * p + a * p;
  }

  lemma {:induction false} EvenQuotient(x: nat, q: nat, p: nat)
    requires p > 1 && q % 2 == 0 && x == q * p + 1
    ensures x % (2 * p) == 1 == 1 % (2 * p)
  {
    var s := q / 2;
    assert q == 2 * s;
    assert q * p == s * (2 * p);
    ModUnique(x, 2 * p, s, 1);
    ModUnique(1, 2 * p, 0, 1);
  }

  /** Multiplying by an odd step goes through all residues. */
  lemma {:induction false} OddStepReaches(inc: nat, k: nat, y: nat) returns (i: nat)
    requires inc % 2 == 1 && y < Pow2(k)
    ensures 1 <= i <= Pow2(k) && (i * inc) % Pow2(k) == y
  {
    var n := Pow2(k);
    var c := OddInverse(inc, k);
    var j := (y * c) % n;
    i := if j == 0 then n else j;
    if n == 1 {
      ModUnique(i * inc, 1, i * inc, 0);
    } else {
      ModUnique(1, n, 0, 1);
      ReachedBy(inc, c, y, n, j, i);
    }
  }

  lemma {:induction false} ReachedBy(inc: nat, c: nat, y: nat, n: nat, j: nat, i: nat)
    requires y < n && (inc * c) % n == 1 && j == (y * c) % n && i == (if j == 0 then n else j)
    ensures (i * inc) % n == y
  {
    ResidueIs(inc, c, y, n, j);
    if j == 0 {
      WholeTurn(inc, n, y);
    }
  }

  lemma {:induction false} ResidueIs(inc: nat, c: nat, y: nat, n: nat, j: nat)
    requires y < n && (inc * c) % n == 1 && j == (y * c) % n
    ensures (j * inc) % n == y
  {
    var u, v := inc * c / n, y * c / n;
    DivisionOf(inc * c, n);
    DivisionOf(y * c, n);
    CrossMultiply(inc, c, y, n, u, v, j);
    SameResidue(j * inc, n, v * inc, y * u, y);
  }

  lemma {:induction false} WholeTurn(inc: nat, n: nat, y: nat)
    requires n > 0 && (0 * inc) % n == y
    ensures (n * inc) % n == y
  {
    ModUnique(n * inc, n, inc, 0);
    ModUnique(0, n, 0, 0);
  }

  lemma {:induction false} CrossMultiply(inc: nat, c: nat, y: nat, n: nat, u: nat, v: nat, j: nat)
    requires inc * c == u * n + 1 && y * c == v * n + j
    ensures (v * inc) * n + j * inc == (y * u) * n + y
  {
    calc {
      (v * inc) * n + j * inc;
      (v * n + j) * inc;
      (y * c) * inc;
      y * (inc * c);
      y * (u * n + 1);
      (y * u) * n + y;
    }
  }

  lemma {:induction false} SameResidue(x: nat, n: nat, s: nat, t: nat, y: nat)
    requires y < n && s * n + x == t * n + y
    ensures x % n == y
  {
    DivisionOf(x, n);
    var q := x / n;
    assert s * n + q * n == (s + q) * n;
    Unique(n, s + q, x % n, t, y);
  }

  // ----- the probing loop -----

  /** Smallest power of two that is not below `sz`. */
  method BitCeil(sz: nat) returns (n: nat, ghost k: nat)
    requires sz > 0
    ensures n == Pow2(k) && sz <= n && (k > 0 ==> Pow2(k - 1) < sz)
  {
    n, k := 1, 0;
    while n < sz
      invariant n == Pow2(k) && (k > 0 ==> Pow2(k - 1) < sz)
      decreases sz - n
    {
      n, k := 2 * n, k + 1;
    }
  }

  const PORT_INC: nat := 199

  datatype Ports = Ports(first: nat, sz: nat)

  /** The port tried at step `i`. */
  function Trial(ports: Ports, n: nat, random: nat, i: nat): nat
    requires ports.sz > 0 && n > 0
  {
    ports.first + Xor(And(i * PORT_INC, n - 1), random) % ports.sz
  }

  /** Any `n` consecutive values cover all residues modulo a smaller number. */
  lemma {:induction false} InBlock(base: nat, n: nat, sz: nat, t: nat) returns (v: nat)
    requires 0 < sz <= n && t < sz
    ensures base <= v < base + n && v % sz == t
  {
    DivisionOf(base, sz);
    var q, r := base / sz, base % sz;
    if r <= t {
      v := base + (t - r);
      ModUnique(v, sz, q, t);
    } else {
      v := base + (sz - r) + t;
      assert (q + 1) * sz == q * sz + sz;
      ModUnique(v, sz, q + 1, t);
    }
  }

  lemma {:induction false} BlockOf(v: nat, random: nat, n: nat)
    requires n > 0 && random / n * n <= v < random / n * n + n
    ensures v / n == random / n
  {
    ModUnique(v, n, random / n, v - random / n * n);
  }

  /** Some value in the block of `random` falls on `t`. */
  lemma {:induction false} SomeInBlock(random: nat, n: nat, sz: nat, t: nat) returns (v: nat)
    requires 0 < sz <= n && t < sz
    ensures v % sz == t && v / n == random / n
  {
    v := InBlock(random / n * n, n, sz, t);
    BlockOf(v, random, n);
  }

  /** Some step reaches any value in the block of `random`. */
  lemma {:induction false} SomeStep(k: nat, random: nat, v: nat) returns (i: nat)
    requires v / Pow2(k) == random / Pow2(k)
    ensures 1 <= i <= Pow2(k) && Xor(And(i * PORT_INC, Pow2(k) - 1), random) == v
  {
    XorInBlock(v, random, k);
    XorTwice(v, random);
    i := OddStepReaches(PORT_INC, k, Xor(v, random));
    MaskIsMod(i * PORT_INC, k);
  }

  /** Every port of the range is tried at some step. */
  lemma {:induction false} EveryPortTried(ports: Ports, k: nat, random: nat, port: nat) returns (i: nat)
    requires ports.sz > 0 && ports.sz <= Pow2(k) && ports.first <= port < ports.first + ports.sz
    ensures 1 <= i <= Pow2(k) && Trial(ports, Pow2(k), random, i) == port
  {
    var v := SomeInBlock(random, Pow2(k), ports.sz, port - ports.first);
    i := SomeStep(k, random, v);
  }

  datatype Bind = Bound | InUse | Denied | OtherError

  datatype Outcome = GotPort(port: nat) | NoPort | Fatal

  /** The port that is tried at step `i`, if any. */
  function Attempt(ports: Ports, n: nat, random: nat, forServer: bool, hint: nat, i: nat): Option<nat>
    requires ports.sz > 0 && n > 0
  {
    if i > 0 then Some(Trial(ports, n, random, i))
    else if forServer then Some(0)
    else if hint == 0 then None
    else Some(hint)
  }

  predicate Failed(b: Bind) { b == InUse || b == Denied }

  ghost predicate TriedInVain(bind: (nat, nat) -> Bind, ports: Ports, n: nat, random: nat, port: nat)
    requires ports.sz > 0 && n > 0
  {
    exists i :: 1 <= i <= n && Trial(ports, n, random, i) == port && Failed(bind(i, port))
  }

  /** `bind` gives the result of binding to a port at a given step; port 0 lets the system choose.
      The program gives up only when every port of the range has been tried in vain. */
  method Probe(bind: (nat, nat) -> Bind, ports: Ports, random: nat, forServer: bool, hint: nat)
    returns (r: Outcome, hint': nat, n: nat, last: nat)
    requires ports.sz > 0
    ensures ports.sz <= n < 2 * ports.sz && last <= n && hint' == if r.GotPort? then r.port else hint
    ensures r.GotPort? ==> Attempt(ports, n, random, forServer, hint, last) == Some(r.port) && bind(last, r.port) == Bound
    ensures r.Fatal? ==> exists p :: Attempt(ports, n, random, forServer, hint, last) == Some(p) && bind(last, p) == OtherError
    ensures r.NoPort? ==>
      forall p {:trigger TriedInVain(bind, ports, n, random, p)} ::
        ports.first <= p < ports.first + ports.sz ==> TriedInVain(bind, ports, n, random, p)
  {
    ghost var k;
    var nTrials;
    nTrials, k := BitCeil(ports.sz);
    n := nTrials;
    last, hint' := 0, hint;
    for i := 0 to nTrials + 1
      invariant last <= n && hint' == hint
      invariant forall j :: 1 <= j < i ==> Failed(bind(j, Trial(ports, n, random, j)))
    {
      last := i;
      var trialPort := if i > 0 then Trial(ports, nTrials, random, i) else if forServer then 0 else hint;
      if i == 0 && !forServer && trialPort == 0 { continue; }
      match bind(i, trialPort) {
        case Bound => return GotPort(trialPort), trialPort, n, last;
        case OtherError => return Fatal, hint, n, last;
        case InUse =>
        case Denied =>
      }
    }
    r := NoPort;
    forall p {:trigger TriedInVain(bind, ports, n, random, p)} | ports.first <= p < ports.first + ports.sz
      ensures TriedInVain(bind, ports, n, random, p)
    {
      var i := EveryPortTried(ports, k, random, p);
    }
  }
}
