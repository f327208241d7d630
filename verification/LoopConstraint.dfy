/** The counted loops of pygen_src/riscv_loop_instr.py: every solution of loop_c ends. */
module LoopConstraint {
  import opened Bits
  import opened Machine

  datatype Branch = C_BNEZ | C_BEQZ | BEQ | BNE | BLTU | BLT | BGEU | BGE

  predicate OnEquality(b: Branch) {
    b in {C_BNEZ, C_BEQZ, BEQ, BNE}
  }

  /** loop_c for one loop, without the choice of registers. */
  predicate LoopC(b: Branch, init: int, step: int, limit: int) {
    && (if b in {C_BNEZ, C_BEQZ} then limit == 0 else -20 <= limit <= 20)
    && -10 <= init <= 10 && -10 <= step <= 10
    && (OnEquality(b) ==> limit != init && step != 0 && (limit - init) % step == 0)
    && (b == BGE ==> step < 0)
    && (b == BGEU ==> step < 0 && init > 0 && step + limit > 0)
    && (b == BLT ==> step > 0)
    && (b == BLTU ==> step > 0 && limit > 0)
    && (if init < limit then step > 0 else step < 0)
  }

  /** The solutions for each branch, with everything that follows drawn together. */
  lemma SolutionsOf(b: Branch, init: int, step: int, limit: int)
    ensures LoopC(b, init, step, limit) <==>
              && -10 <= init <= 10 && -10 <= step <= 10 && step != 0
              && match b
                 case C_BNEZ | C_BEQZ => limit == 0 && init != 0 && (init < 0 <==> step > 0) && -init % step == 0
                 case BEQ | BNE =>
                   && -20 <= limit <= 20 && init != limit && (init < limit <==> step > 0)
                   && (limit - init) % step == 0
                 case BLT => init < limit <= 20 && step > 0
                 case BLTU => init < limit <= 20 && 0 < limit && step > 0
                 case BGE => -20 <= limit <= init && step < 0
                 case BGEU => -step < limit <= init && step < 0
  {
  }

  predicate Taken(b: Branch, counter: Word, limit: Word) {
    match b
    case C_BNEZ => counter != 0
    case C_BEQZ => counter == 0
    case BEQ => counter == limit
    case BNE => counter != limit
    case BLTU => counter < limit
    case BLT => Signed(counter) < Signed(limit)
    case BGEU => counter >= limit
    case BGE => Signed(counter) >= Signed(limit)
  }

  /** The counter register after n updates. */
  function Counter(init: int, step: int, n: nat): Word {
    if n == 0 then Wrap(init) else Wrap(Counter(init, step, n - 1) + step)
  }

  /** The loop runs its body exactly n times: the branch is taken after each of them but the last. */
  ghost predicate RunsExactly(b: Branch, init: int, step: int, limit: int, n: nat) {
    && n >= 1
    && (forall k :: 1 <= k < n ==> Taken(b, Counter(init, step, k), Wrap(limit)))
    && !Taken(b, Counter(init, step, n), Wrap(limit))
  }

  /** How often the body runs. */
  function Iterations(b: Branch, init: int, step: int, limit: int): int
    requires step != 0
  {
    match b
    case C_BEQZ | BEQ => if init + step == limit then 2 else 1
    case C_BNEZ | BNE => Quotient(limit - init, step)
    case BGE | BGEU => Quotient(init - limit, -step) + 1
    case BLT => Quotient(limit - init - 1, step) + 1
    case BLTU => if init + step < 0 then 1 else Quotient(limit - init - 1, step) + 1
  }

  /** d / s for operands of equal sign. */
  function Quotient(d: int, s: int): int
    requires s != 0
  {
    if s > 0 then d / s else (-d) / (-s)
  }

  lemma {:induction false} CounterIsLinear(init: int, step: int, n: nat)
    ensures Counter(init, step, n) == Wrap(init + n * step)
  {
    hide Wrap;
    if n == 0 {
      assert n * step == 0;
    } else {
      CounterIsLinear(init, step, n - 1);
      assert n * step == (n - 1) * step + step;
      WrapAdd(init + (n - 1) * step, step);
    }
  }

  /** Counting up by s: k steps stay at or below d exactly when k is at most d / s. */
  lemma StepsWithin(d: int, s: int, k: int)
    requires s > 0
    ensures k * s <= d <==> k <= d / s
  {
    var q, r := d / s, d % s;
    assert d == q * s + r && 0 <= r < s;
    if k <= q {
      Scale(k, q, s);
    } else {
      Scale(q + 1, k, s);
      assert (q + 1) * s == q * s + s;
    }
  }

  lemma Scale(a: int, b: int, s: int)
    requires a <= b && s > 0
    ensures a * s <= b * s
  {
  }

  /** What the branch decides, in terms of the counter as a small integer. */
  predicate Continues(b: Branch, c: int, limit: int) {
    match b
    case C_BNEZ | BNE => c != limit
    case C_BEQZ | BEQ => c == limit
    case BLTU => 0 <= c < limit
    case BLT => c < limit
    case BGEU => c < 0 || c >= limit
    case BGE => c >= limit
  }

  lemma TakenOnSmallWords(b: Branch, c: int, limit: int)
    requires -1000 <= c <= 1000 && -20 <= limit <= 20
    requires b in {C_BNEZ, C_BEQZ} ==> limit == 0
    requires b in {BLTU, BGEU} ==> limit > 0
    ensures Taken(b, Wrap(c), Wrap(limit)) == Continues(b, c, limit)
  {
  }

  /** On integers: after n updates the loop stops, before it goes on, and the counter stays small. */
  ghost predicate Counts(b: Branch, init: int, step: int, limit: int, n: int) {
    && n >= 1
    && (forall k: nat :: 1 <= k < n ==> Continues(b, init + k * step, limit))
    && !Continues(b, init + n * step, limit)
    && (forall k: nat :: k <= n ==> -100 <= init + k * step <= 100)
  }

  lemma BetweenEnds(init: int, step: int, n: nat)
    requires -50 <= init <= 50 && -50 <= init + n * step <= 50
    ensures forall k: nat :: k <= n ==> -100 <= init + k * step <= 100
  {
    forall k: nat | k <= n
      ensures -100 <= init + k * step <= 100
    {
      if step >= 0 {
        assert 0 <= k * step <= n * step by {
          if step > 0 { Scale(0, k, step); Scale(k, n, step); }
        }
      } else {
        Scale(0, k, -step);
        Scale(k, n, -step);
        assert k * -step == -(k * step) && n * -step == -(n * step);
      }
    }
  }

  /** Counting from a with steps of s: the d / s-th step is the last that stays within d. */
  lemma PassesAfter(d: int, s: int)
    requires d >= 0 && s > 0
    ensures 0 <= d / s <= d
    ensures forall k: nat :: k * s <= d <==> k <= d / s
    ensures (d / s + 1) * s <= d + s
  {
    Smaller(d, s);
    forall k: nat
      ensures k * s <= d <==> k <= d / s
    {
      StepsWithin(d, s, k);
    }
    var q := d / s;
    assert (q + 1) * s == q * s + s;
  }

  lemma NegatedSteps(step: int)
    ensures forall k: nat :: k * -step == -(k * step)
  {
    forall k: nat
      ensures k * -step == -(k * step)
    {
    }
  }

  lemma CountsDown(b: Branch, init: int, step: int, limit: int)
    requires LoopC(b, init, step, limit) && b in {BGE, BGEU}
    ensures Counts(b, init, step, limit, (init - limit) / -step + 1)
    ensures (init - limit) / -step <= init - limit
  {
    var q := (init - limit) / -step;
    PassesAfter(init - limit, -step);
    NegatedSteps(step);
    var n: nat := q + 1;
    assert n * -step == -(n * step);
    BetweenEnds(init, step, n);
  }

  lemma CountsUp(b: Branch, init: int, step: int, limit: int)
    requires LoopC(b, init, step, limit)
    requires b == BLT || (b == BLTU && init + step >= 0)
    ensures Counts(b, init, step, limit, (limit - init - 1) / step + 1)
    ensures (limit - init - 1) / step < limit - init
  {
    var n: nat := (limit - init - 1) / step + 1;
    PassesAfter(limit - init - 1, step);
    forall k: nat | k >= 1
      ensures k * step >= step
    {
      Scale(1, k, step);
    }
    BetweenEnds(init, step, n);
  }

  lemma ExactSteps(d: int, s: int, n: int)
    requires s > 0 && d > 0 && d == n * s
    ensures 1 <= n <= d && d / s == n
    ensures forall k: nat :: k * s == d <==> k == n
  {
    if n <= 0 {
      Scale(n, 0, s);
    }
    StepsWithin(d, s, n);
    StepsWithin(d, s, n + 1);
    assert (n + 1) * s == d + s;
    Smaller(d, s);
    forall k: nat
      ensures k * s == d <==> k == n
    {
      if k < n {
        Scale(k + 1, n, s);
        assert (k + 1) * s == k * s + s;
      } else if k > n {
        Scale(n + 1, k, s);
      }
    }
  }

  lemma Smaller(d: int, s: int)
    requires s > 0 && d >= 0
    ensures 0 <= d / s <= d
  {
    StepsWithin(d, s, 0);
    StepsWithin(d, s, d + 1);
    Scale(1, s, d + 1);
    assert (d + 1) * s == s * (d + 1);
  }

  lemma Divides(e: int, s: int)
    requires s != 0 && e % s == 0
    ensures e == (e / s) * s
  {
  }

  /** Steps of either sign that divide the distance e reach it once, after m of them. */
  lemma ReachesOnce(e: int, step: int, m: int)
    requires step != 0 && e == m * step && (step > 0 <==> e > 0) && e != 0
    ensures 1 <= m <= Abs(e) && Quotient(e, step) == m
    ensures forall k: nat :: k * step == e <==> k == m
  {
    if step > 0 {
      ExactSteps(e, step, m);
    } else {
      assert -e == m * -step;
      ExactSteps(-e, -step, m);
      forall k: nat
        ensures k * step == e <==> k == m
      {
        assert k * step == -(k * -step);
      }
    }
  }

  lemma CountsTo(b: Branch, init: int, step: int, limit: int)
    requires LoopC(b, init, step, limit) && b in {BNE, C_BNEZ}
    ensures Counts(b, init, step, limit, Quotient(limit - init, step))
    ensures Quotient(limit - init, step) <= Abs(limit - init)
  {
    hide Quotient;
    var e := limit - init;
    var m := e / step;
    Divides(e, step);
    ReachesOnce(e, step, m);
    BetweenEnds(init, step, m);
  }

  lemma CountsOnceOrTwice(b: Branch, init: int, step: int, limit: int)
    requires LoopC(b, init, step, limit)
    requires b in {BEQ, C_BEQZ} || (b == BLTU && init + step < 0)
    ensures Counts(b, init, step, limit, Iterations(b, init, step, limit))
  {
    assert 1 * step == step && 2 * step == step + step;
    BetweenEnds(init, step, 2);
  }

  function Abs(x: int): nat {
    if x < 0 then -x else x
  }

  /** Every solution of loop_c ends, after exactly this many iterations, at most |limit - init| + 1. */
  lemma LoopEnds(b: Branch, init: int, step: int, limit: int)
    requires LoopC(b, init, step, limit)
    ensures 1 <= Iterations(b, init, step, limit) <= Abs(limit - init) + 1
    ensures RunsExactly(b, init, step, limit, Iterations(b, init, step, limit))
  {
    hide Counts, RunsExactly;
    var n := Iterations(b, init, step, limit);
    match b {
      case C_BEQZ | BEQ =>
        CountsOnceOrTwice(b, init, step, limit);
      case C_BNEZ | BNE =>
        CountsTo(b, init, step, limit);
      case BGE | BGEU =>
        CountsDown(b, init, step, limit);
      case BLT =>
        CountsUp(b, init, step, limit);
      case BLTU =>
        if init + step >= 0 {
          CountsUp(b, init, step, limit);
        } else {
          CountsOnceOrTwice(b, init, step, limit);
        }
    }
    CountsOnWords(b, init, step, limit, n);
  }

  lemma CountsOnWords(b: Branch, init: int, step: int, limit: int, n: int)
    requires LoopC(b, init, step, limit) && Counts(b, init, step, limit, n)
    ensures RunsExactly(b, init, step, limit, n)
  {
    forall k: nat | 1 <= k <= n
      ensures Taken(b, Counter(init, step, k), Wrap(limit)) == Continues(b, init + k * step, limit)
    {
      CounterIsLinear(init, step, k);
      TakenOnSmallWords(b, init + k * step, limit);
    }
  }
}
