/**
  The row visitation schedule of Lyra2 (lyra2/Lyra2.c): which rows the Setup and Wandering phases
  of LYRA2 and LYRA2_3 combine.  The sponge itself does not influence Setup, and influences
  Wandering only through the choice of row*.
 */
module Lyra2 {
  import opened BitOps

  // ---- Odd steps modulo powers of two

  predicate Odd(s: int)
  {
    s % 2 == 1
  }

  /** Row reached after m steps of size s from row 0, among n rows. */
  function At(m: int, s: int, n: nat): (r: nat)
    requires n > 0
    ensures r < n
  {
    (m * s) % n
  }

  lemma AtNext(m: int, s: int, n: nat)
    requires n > 0
    ensures (At(m, s, n) + s) % n == At(m + 1, s, n)
  {
    var q := (m * s) / n;
    assert (m + 1) * s == q * n + (At(m, s, n) + s);
    ModShift(At(m, s, n) + s, n, q);
  }

  lemma ModShift(x: int, n: nat, q: int)
    requires n > 0
    ensures (q * n + x) % n == x % n
  {
    ModUnique(q * n + x, n, q + x / n, x % n) by {
      assert (q + x / n) * n == q * n + (x / n) * n;
    }
  }

  lemma MulMod2(m: int, s: int)
    ensures (m * s) % 2 == ((m % 2) * (s % 2)) % 2
  {
    var a, b := m / 2, s / 2;
    assert m * s == (2 * a + m % 2) * (2 * b + s % 2)
                 == 2 * (2 * a * b + a * (s % 2) + b * (m % 2)) + (m % 2) * (s % 2);
  }

  /** A multiple of an odd number is divisible by 2^k only if the factor is. */
  lemma {:induction false} OddCancels(m: int, s: int, k: nat)
    requires Odd(s) && (m * s) % Pow2(k) == 0
    ensures m % Pow2(k) == 0
    decreases k
  {
    if k > 0 {
      var p, h := Pow2(k - 1), m / 2;
      ModDouble(m * s, p);
      MulMod2(m, s);
      assert m == 2 * h;
      assert m * s == 2 * (h * s);
      assert (h * s) % p == 0;
      OddCancels(h, s, k - 1);
      ModDouble(m, p);
    }
  }

  /** Steps that are not a multiple of n apart reach different rows. */
  lemma AtInjective(i: nat, j: nat, s: int, k: nat)
    requires Odd(s) && i < j && j - i < Pow2(k)
    ensures At(i, s, Pow2(k)) != At(j, s, Pow2(k))
  {
    var n := Pow2(k);
    if At(i, s, n) == At(j, s, n) {
      var q := (j * s) / n - (i * s) / n;
      assert (j - i) * s == j * s - i * s == q * n;
      ModUnique((j - i) * s, n, q, 0);
      OddCancels(j - i, s, k);
      ModUnique(j - i, n, 0, j - i);
      assert false;
    }
  }

  lemma AtReturns(m: nat, s: int, k: nat)
    requires Odd(s) && 0 < m <= Pow2(k)
    ensures At(m, s, Pow2(k)) == 0 <==> m == Pow2(k)
  {
    var n := Pow2(k);
    hide Pow2;
    AtZero(s, n);
    if m == n {
      ModUnique(m * s, n, s, 0);
    } else {
      AtInjective(0, m, s, k);
    }
  }

  // ---- Visiting every row once

  predicate Distinct(rows: seq<int>)
  {
    forall i, j :: 0 <= i < j < |rows| ==> rows[i] != rows[j]
  }

  /** rows is a permutation of 0 .. n-1. */
  ghost predicate VisitsAllOnce(rows: seq<int>, n: nat)
  {
    && |rows| == n && Distinct(rows)
    && (forall i :: 0 <= i < n ==> 0 <= rows[i] < n)
    && (forall x :: 0 <= x < n ==> x in rows)
  }

  lemma {:induction false} BelowSize(n: nat, s: set<int>)
    requires forall x :: x in s ==> 0 <= x < n
    ensures |s| <= n
    ensures |s| == n ==> forall x :: 0 <= x < n ==> x in s
  {
    if n == 0 {
      assert forall x :: x !in s;
      assert s == {};
    } else {
      var t := s - {n - 1};
      BelowSize(n - 1, t);
      assert n - 1 in s ==> s == t + {n - 1};
      assert n - 1 !in s ==> s == t;
    }
  }

  ghost function Elements(rows: seq<int>): (s: set<int>)
    ensures forall x :: x in s <==> x in rows
  {
    set x | x in rows
  }

  lemma {:induction false} ImageSize(rows: seq<int>)
    requires Distinct(rows)
    ensures |Elements(rows)| == |rows|
  {
    if rows == [] {
      assert Elements(rows) == {};
    } else {
      var init, last := rows[..|rows| - 1], rows[|rows| - 1];
      ImageSize(init);
      assert last !in init;
      assert rows == init + [last];
      assert Elements(rows) == Elements(init) + {last};
    }
  }

  /** n distinct rows below n are all of them. */
  lemma Pigeonhole(rows: seq<int>, n: nat)
    requires |rows| == n && Distinct(rows) && forall i :: 0 <= i < n ==> 0 <= rows[i] < n
    ensures VisitsAllOnce(rows, n)
  {
    ImageSize(rows);
    BelowSize(n, Elements(rows));
  }

  /** The rows reached by n = 2^k steps of odd size. */
  function Orbit(s: int, n: nat): (rows: seq<int>)
    requires n > 0
    ensures |rows| == n
    ensures forall i :: 0 <= i < n ==> rows[i] == At(i, s, n)
  {
    seq(n, i requires 0 <= i < n => At(i, s, n))
  }

  /** An odd step visits each of the 2^k rows exactly once; an even one misses row 1. */
  lemma OrbitVisitsAll(s: int, k: nat)
    ensures Odd(s) || k == 0 <==> VisitsAllOnce(Orbit(s, Pow2(k)), Pow2(k))
  {
    var n := Pow2(k);
    var rows := Orbit(s, n);
    if Odd(s) {
      forall i, j | 0 <= i < j < n
        ensures rows[i] != rows[j]
      {
        AtInjective(i, j, s, k);
      }
      Pigeonhole(rows, n);
    } else if k == 0 {
      assert rows == [At(0, s, 1)];
      Pigeonhole(rows, n);
    } else {
      forall i | 0 <= i < n
        ensures rows[i] != 1
      {
        ModDouble(i * s, Pow2(k - 1));
        MulMod2(i, s);
      }
      assert 1 !in rows && 1 < n;
    }
  }

  // ---- Setup

  /** The rows one duplexing call combines: prev and row* are read, row is written first time. */
  datatype Visit = Visit(prev: int, rowa: int, row: int)

  /** The rows row* took while the visitation window had size w: the calls that wrote
      rows w .. 2w-1. */
  function Window(log: seq<Visit>, w: nat): (rows: seq<int>)
    requires 2 <= w && 2 * w <= |log| + 2
  {
    seq(w, i requires 0 <= i < w => log[w - 2 + i].rowa)
  }

  /** The schedule of Setup: every call writes the next row, follows the row before it, and
      revisits another initialised row. */
  ghost predicate GoodSetup(log: seq<Visit>)
  {
    forall i :: 0 <= i < |log| ==>
      && log[i].row == i + 2 && log[i].prev == i + 1
      && 0 <= log[i].rowa < log[i].row && log[i].rowa != log[i].prev
  }

  /** The window of size 2^m is complete and has revisited each row 0 .. 2^m - 1 once. */
  ghost predicate WindowDone(log: seq<Visit>, m: nat)
    requires m >= 1
  {
    && 2 * Pow2(m) <= |log| + 2
    && VisitsAllOnce(Window(log, Pow2(m)), Pow2(m))
  }

  lemma WindowDoneFrame(log: seq<Visit>, v: Visit, m: nat)
    requires m >= 1 && WindowDone(log, m)
    ensures WindowDone(log + [v], m)
  {
    assert Window(log + [v], Pow2(m)) == Window(log, Pow2(m));
  }

  lemma {:induction false} Pow2Monotone(i: nat, j: nat)
    requires i <= j
    ensures Pow2(i) <= Pow2(j)
    decreases j
  {
    if i < j {
      Pow2Monotone(i, j - 1);
    }
  }

  /** The k-th call of the current window: row* is k steps along. */
  lemma RevisitIsGood(k: nat, step: int, j: nat)
    requires j >= 1 && k < Pow2(j)
    ensures var w := Pow2(j);
            var rowa := At(k, step, w);
            0 <= rowa < w + k && rowa != w + k - 1
  {
    assert Pow2(j) == 2 * Pow2(j - 1);
    hide At, Pow2;
    AtZero(step, Pow2(j));
  }

  /** The step with which row* moves through the window of size 2^j: 1 at first, then half the
      window plus or minus one in turn. */
  function SetupStep(j: nat): int
    requires j >= 1
  {
    if j == 1 then 1 else if j % 2 == 0 then Pow2(j - 1) + 1 else Pow2(j - 1) - 1
  }

  /** row* of the first count calls of window 2^j. */
  ghost predicate Revisits(log: seq<Visit>, j: nat, count: nat)
    requires j >= 1
  {
    && Pow2(j) >= 2 && Pow2(j) - 2 + count <= |log|
    && forall i :: 0 <= i < count ==> log[Pow2(j) - 2 + i].rowa == At(i, SetupStep(j), Pow2(j))
  }

  /** The rows revisited in closed form: the call that writes row 2^j + i revisits row
      i * SetupStep(j) modulo 2^j. */
  ghost predicate SetupRows(log: seq<Visit>)
  {
    forall j: nat, i: nat {:trigger At(i, SetupStep(j), Pow2(j))} ::
      j >= 1 && i < Pow2(j) && 0 <= Pow2(j) - 2 + i < |log| ==>
        log[Pow2(j) - 2 + i].rowa == At(i, SetupStep(j), Pow2(j))
  }

  lemma RevisitsFrame(log: seq<Visit>, v: Visit, j: nat, count: nat)
    requires j >= 1 && Revisits(log, j, count)
    ensures Revisits(log + [v], j, count)
  {
    hide Pow2, At, SetupStep;
  }

  lemma RevisitsMore(log: seq<Visit>, v: Visit, j: nat, count: nat)
    requires j >= 1 && Revisits(log, j, count) && |log| == Pow2(j) - 2 + count
    requires v.rowa == At(count, SetupStep(j), Pow2(j))
    ensures Revisits(log + [v], j, count + 1)
  {
    hide Pow2, At, SetupStep;
  }

  lemma NextStep(j: nat)
    requires j >= 1
    ensures SetupStep(j + 1) == Pow2(j) + if j % 2 == 1 then 1 else -1
    ensures SetupStep(1) == 1
  {
    hide Pow2;
  }

  /** The windows smaller than 2^j are complete. */
  ghost predicate AllDone(log: seq<Visit>, j: nat)
  {
    forall m: nat :: 1 <= m < j ==> WindowDone(log, m) && Revisits(log, m, Pow2(m))
  }

  lemma AllDoneFrame(log: seq<Visit>, v: Visit, j: nat)
    requires AllDone(log, j)
    ensures AllDone(log + [v], j)
  {
    hide WindowDone, Revisits;
    forall m: nat | 1 <= m < j
      ensures WindowDone(log + [v], m) && Revisits(log + [v], m, Pow2(m))
    {
      WindowDoneFrame(log, v, m);
      RevisitsFrame(log, v, m, Pow2(m));
    }
  }

  lemma DoneBefore(log: seq<Visit>, j: nat, m: nat, nRows: nat)
    requires AllDone(log, j) && m >= 1 && 2 * Pow2(m) <= nRows < 2 * Pow2(j)
    ensures WindowDone(log, m)
  {
    if m >= j {
      Pow2Monotone(j, m);
      assert false;
    }
  }

  lemma AllRevisits(log: seq<Visit>, j: nat)
    requires j >= 1 && |log| + 2 >= Pow2(j) && |log| + 2 - Pow2(j) < Pow2(j)
    requires AllDone(log, j)
    requires Revisits(log, j, |log| + 2 - Pow2(j))
    ensures SetupRows(log)
  {
    hide At, SetupStep, Pow2;
    forall m: nat, i: nat | m >= 1 && i < Pow2(m) && 0 <= Pow2(m) - 2 + i < |log|
      ensures log[Pow2(m) - 2 + i].rowa == At(i, SetupStep(m), Pow2(m))
    {
      if m < j {
        assert Revisits(log, m, Pow2(m));
      } else if m > j {
        assert Pow2(j + 1) == 2 * Pow2(j) by { Pow2Next(j); }
        Pow2Monotone(j + 1, m);
        assert false;
      }
    }
  }

  lemma Pow2Next(j: nat)
    ensures Pow2(j + 1) == 2 * Pow2(j)
  {
  }

  /**
    The Setup loop.  log records the rows of each duplexing call.  For every number of rows >= 3:
    row* is always an initialised row other than prev and row, and each window that is completed
    has revisited each of its rows exactly once.
   */
  method Setup(nRows: nat) returns (log: seq<Visit>)
    requires nRows >= 3
    ensures |log| == nRows - 2 && GoodSetup(log)
    ensures forall m: nat :: m >= 1 && 2 * Pow2(m) <= nRows ==> WindowDone(log, m)
    ensures SetupRows(log)
  {
    hide At, And, AllDone, WindowDone, Pow2, Odd, SetupStep, Revisits, SetupRows;
    var row, prev, rowa, step, window, gap := 2, 1, 0, 1, 2, 1;
    log := [];
    ghost var j: nat := 1;
    StartFacts();
    NextStep(1);
    NoRevisits(log, 1);
    assert AllDone(log, 1) by { NoneDone(log); }
    while row < nRows
      invariant 2 <= row <= nRows && |log| == row - 2 && prev == row - 1 && GoodSetup(log)
      invariant j >= 1 && window == Pow2(j) && window <= row < 2 * window
      invariant Odd(step) && step == SetupStep(j) && gap == if j % 2 == 1 then 1 else -1
      invariant Revisits(log, j, row - window)
      invariant rowa == At(row - window, step, window)
      invariant AllDone(log, j)
    {
      ghost var k := row - window;
      RevisitIsGood(k, step, j);
      ghost var before := log;
      log := log + [Visit(prev, rowa, row)];
      AllDoneFrame(before, Visit(prev, rowa, row), j);
      RevisitsMore(before, Visit(prev, rowa, row), j, k);
      AndMask(rowa + step, j);
      AtNext(k, step, window);
      AtReturns(k + 1, step, j);
      rowa := And(rowa + step, window - 1);
      prev := row;
      row := row + 1;
      if rowa == 0 {
        WindowCompletes(log, j);
        NextWindow(j, gap);
        step := window + gap;
        window := window * 2;
        gap := -gap;
        NextStep(j);
        j := j + 1;
        NoRevisits(log, j);
      }
    }
    AllRevisits(log, j);
    forall m: nat | m >= 1 && 2 * Pow2(m) <= nRows
      ensures WindowDone(log, m)
    {
      DoneBefore(log, j, m, nRows);
    }
  }

  lemma NoneDone(log: seq<Visit>)
    ensures AllDone(log, 1)
  {
  }

  lemma NoRevisits(log: seq<Visit>, j: nat)
    requires j >= 1 && |log| + 2 >= Pow2(j)
    ensures Revisits(log, j, 0)
  {
    hide At, SetupStep;
  }

  lemma StartFacts()
    ensures Pow2(1) == 2 && Odd(1) && At(0, 1, 2) == 0
  {
  }

  /** All calls of the window of size 2^j have been made. */
  lemma WindowCompletes(log: seq<Visit>, j: nat)
    requires j >= 1 && Odd(SetupStep(j)) && |log| + 2 == 2 * Pow2(j)
    requires Revisits(log, j, Pow2(j)) && AllDone(log, j)
    ensures AllDone(log, j + 1)
  {
    hide At, SetupStep, Odd;
    var w := Pow2(j);
    assert Window(log, w) == Orbit(SetupStep(j), w);
    OrbitVisitsAll(SetupStep(j), j);
  }

  lemma OddGap(h: nat, gap: int)
    requires gap == 1 || gap == -1
    ensures Odd(2 * h + gap)
  {
  }

  lemma NextWindow(j: nat, gap: int)
    requires j >= 1 && (gap == 1 || gap == -1)
    ensures Pow2(j + 1) == 2 * Pow2(j)
    ensures Odd(Pow2(j) + gap)
    ensures At(0, Pow2(j) + gap, Pow2(j + 1)) == 0
  {
    hide At;
    var w := Pow2(j);
    assert w == 2 * Pow2(j - 1) && Pow2(j + 1) == 2 * w;
    assert Odd(w + gap) by { OddGap(Pow2(j - 1), gap); }
    hide Pow2, Odd;
    AtZero(w + gap, 2 * w);
  }

  // ---- Wandering

  /** Step of the pass for a given tau. */
  function WanderStep(tau: nat, nRows: nat): int
  {
    if tau % 2 == 0 then -1 else nRows / 2 - 1
  }

  /** Both steps are odd exactly from four rows on (or for a single row, where only -1 occurs). */
  lemma WanderStepOdd(tau: nat, k: nat)
    ensures Odd(WanderStep(tau, Pow2(k))) <==> tau % 2 == 0 || k != 1
  {
    if k == 0 {
      assert Pow2(k) == 1;
    } else if k == 1 {
      assert Pow2(k) == 2;
    } else {
      var q := Pow2(k - 2);
      assert Pow2(k) == 2 * (2 * q);
      hide Pow2;
      OddGap(q, -1);
    }
  }

  /** The rows of a pass in closed form: downwards from row 0 for even tau; for odd tau the same at
      the even steps, and half the matrix further at the odd ones. */
  lemma WanderRows(tau: nat, k: nat, i: nat)
    requires k >= 1 && i < Pow2(k)
    ensures var n := Pow2(k);
            Orbit(WanderStep(tau, n), n)[i] == (n + (if tau % 2 == 1 && i % 2 == 1 then n / 2 else 0) - i) % n
  {
    var n, h: int := Pow2(k), Pow2(k - 1);
    assert n == 2 * h;
    hide Pow2;
    var s, q, i: int := WanderStep(tau, n), i / 2, i;
    if tau % 2 == 0 {
      assert i * s == -i;
      ModShift(i * s, n, 1);
    } else {
      var r := if i % 2 == 0 then 0 else h;
      HalfTimes(i, q, h);
      ModShift(r - i, n, q);
      ModShift(r - i, n, 1);
    }
  }

  lemma HalfTimes(i: int, q: int, h: int)
    requires q == i / 2
    ensures i * (h - 1) == q * (2 * h) + ((if i % 2 == 0 then 0 else h) - i)
  {
    if i % 2 == 0 {
      assert i * h == (2 * q) * h;
    } else {
      assert i * h == (2 * q + 1) * h;
    }
  }

  /** With both steps every row is visited, except that a two-row matrix has an odd-tau step of 0. */
  lemma PassCoversRows(tau: nat, k: nat)
    ensures VisitsAllOnce(Orbit(WanderStep(tau, Pow2(k)), Pow2(k)), Pow2(k)) <==> tau % 2 == 0 || k != 1
  {
    hide VisitsAllOnce, Orbit, WanderStep, Odd;
    WanderStepOdd(tau, k);
    OrbitVisitsAll(WanderStep(tau, Pow2(k)), k);
  }

  /**
    One pass of the Wandering loop, from row 0 until row 0 comes up again.  pick(i) is the sponge
    word that selects row* in iteration i.  rows lists the rows visited as `row`, stars as row*.
   */
  method WanderPass(k: nat, step: int, pick: nat -> int, prev0: nat) returns (rows: seq<int>, stars: seq<int>, prev: int)
    requires Odd(step) && prev0 < Pow2(k)
    ensures VisitsAllOnce(rows, Pow2(k)) && rows == Orbit(step, Pow2(k))
    ensures |stars| == Pow2(k) && forall i :: 0 <= i < |stars| ==> stars[i] == pick(i) % Pow2(k)
    ensures prev == rows[|rows| - 1] && 0 <= prev < Pow2(k)
  {
    hide At, And, Odd;
    var nRows := Pow2(k);
    var row := 0;
    rows, stars, prev := [], [], prev0;
    assert At(0, step, nRows) == 0 by { AtZero(step, nRows); }
    while true
      invariant |rows| == |stars| < nRows
      invariant row == At(|rows|, step, nRows)
      invariant forall i :: 0 <= i < |rows| ==> rows[i] == At(i, step, nRows)
      invariant forall i :: 0 <= i < |stars| ==> stars[i] == pick(i) % nRows
      decreases nRows - |rows|
    {
      AndMask(pick(|rows|), k);
      var rowa := And(pick(|rows|), nRows - 1);
      ghost var m := |rows|;
      rows := rows + [row];
      stars := stars + [rowa];
      prev := row;
      AndMask(row + step, k);
      AtNext(m, step, nRows);
      AtReturns(m + 1, step, k);
      row := And(row + step, nRows - 1);
      if row == 0 {
        break;
      }
    }
    assert rows == Orbit(step, nRows);
    OrbitVisitsAll(step, k);
  }

  lemma AtZero(s: int, n: nat)
    requires n > 0
    ensures At(0, s, n) == 0
  {
  }

  /** The Wandering phase: for every power of two of at least four rows and every time cost, each
      pass ends after exactly nRows steps, having visited every row once. */
  method Wander(k: nat, timeCost: nat, pick: (nat, nat) -> int, prev0: nat) returns (passes: seq<seq<int>>)
    requires k >= 2 && prev0 < Pow2(k)
    ensures |passes| == timeCost
    ensures forall p :: 0 <= p < timeCost ==>
              passes[p] == Orbit(WanderStep(p + 1, Pow2(k)), Pow2(k)) && VisitsAllOnce(passes[p], Pow2(k))
  {
    hide WanderStep, VisitsAllOnce, Orbit;
    passes := [];
    var prev := prev0;
    var tau := 1;
    while tau <= timeCost
      invariant 1 <= tau <= timeCost + 1 && |passes| == tau - 1
      invariant 0 <= prev < Pow2(k)
      invariant forall p :: 0 <= p < |passes| ==>
                  passes[p] == Orbit(WanderStep(p + 1, Pow2(k)), Pow2(k)) && VisitsAllOnce(passes[p], Pow2(k))
    {
      var step := WanderStep(tau, Pow2(k));
      WanderStepOdd(tau, k);
      var rows, stars, last := WanderPass(k, step, (i: nat) => pick(tau, i), prev);
      passes := passes + [rows];
      prev := last;
      tau := tau + 1;
    }
  }
}
