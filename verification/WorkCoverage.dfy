/**
  What the work distribution of WorkDistribution reaches: every nonce a thread leaves behind has
  been tested, the slices make up the nonce space, and a job's works use its extranonce2 values one
  after the other.
 */
module WorkCoverage {
  import opened Words
  import opened Bytes
  import opened WorkDistribution

  // ---- The slices make up the nonce space

  lemma SlicesFill(n: nat)
    requires 0 < n <= 0xffff_ffff
    ensures SliceSize(n) >= 1 && SliceStart(n, n) > 0xffff_ffff - n
  {
    var size := 0xffff_ffff / n;
    assert 0xffff_ffff == n * size + 0xffff_ffff % n;
    assert size * n == n * size;
  }

  lemma MulMonotone(size: nat, t: nat, n: nat)
    requires t <= n
    ensures size * t <= size * n
  {
  }

  /** The slice a nonce lies in. */
  lemma SliceOf(n: nat, x: nat) returns (t: nat)
    requires n > 0 && SliceSize(n) >= 1 && x < SliceStart(n, n)
    ensures t < n && InSlice(n, t, x)
  {
    var size := SliceSize(n);
    hide SliceSize;
    t := Quotient(x, size);
    if t >= n {
      MulMonotone(size, n, t);
      assert false;
    }
  }

  lemma Quotient(x: nat, size: nat) returns (t: nat)
    requires size > 0
    ensures size * t <= x < size * (t + 1)
  {
    t := x / size;
    assert x == size * t + x % size;
  }

  lemma SliceInside(n: nat, x: int, t: nat)
    requires t < n && InSlice(n, t, x)
    ensures x < SliceStart(n, n)
  {
    MulMonotone(SliceSize(n), t + 1, n);
  }

  /** Every nonce below n slices lies in exactly one of them, and fewer than n nonces of 32 bits
      are above. */
  lemma SlicesCover(n: nat, x: nat)
    requires 0 < n <= 0xffff_ffff
    ensures SliceStart(n, n) > 0xffff_ffff - n
    ensures x < SliceStart(n, n) <==> exists t: nat :: t < n && InSlice(n, t, x)
    ensures forall t: nat, u: nat :: t < n && u < n && InSlice(n, t, x) && InSlice(n, u, x) ==> t == u
  {
    SlicesFill(n);
    hide SliceStart, SliceSize, InSlice;
    if x < SliceStart(n, n) {
      var t := SliceOf(n, x);
    }
    forall t: nat | t < n && InSlice(n, t, x)
      ensures x < SliceStart(n, n)
    {
      SliceInside(n, x, t);
    }
    forall t: nat, u: nat | t < n && u < n && InSlice(n, t, x) && InSlice(n, u, x)
      ensures t == u
    {
      OneSlice(n, t, u, x);
    }
  }

  lemma OneSlice(n: nat, t: nat, u: nat, x: nat)
    requires t < n && u < n && InSlice(n, t, x) && InSlice(n, u, x)
    ensures t == u
  {
    SlicesDisjoint(n, t, u, x);
  }

  // ---- Every nonce left behind has been tested

  /** The test of a nonce in a generated work. */
  function TestOf(s: State, t: nat, g: nat, x: int): Test
    requires g < |s.generations|
  {
    Test(t, g, s.generations[g].0, s.generations[g].1, x)
  }

  /** Thread t has tested nonce x of generation g, or passed over it without scanning. */
  predicate Covered(s: State, t: nat, g: nat, x: int)
    requires g < |s.generations|
  {
    TestOf(s, t, g, x) in s.tested || Skip(t, g, x) in s.skipped
  }

  /** Every nonce from the start of thread t's slice up to where it is has been covered. */
  ghost predicate ThreadCovered(n: nat, s: State, t: nat)
    requires t < n <= |s.threads|
  {
    var th := s.threads[t];
    th.work.gen >= 0 ==>
      && th.work.gen < |s.generations|
      && forall x :: SliceStart(n, t) <= x < Frontier(th) ==> Covered(s, t, th.work.gen, x)
  }

  ghost predicate AllCovered(n: nat, s: State)
  {
    n > 0 && n <= |s.threads| && forall t :: 0 <= t < n ==> ThreadCovered(n, s, t)
  }

  /** History only grows. */
  ghost predicate Grows(s: State, s': State)
  {
    && s.generations <= s'.generations
    && (forall x :: x in s.tested ==> x in s'.tested)
    && (forall x :: x in s.skipped ==> x in s'.skipped)
  }

  lemma CoveredFrame(n: nat, s: State, s': State, t: nat)
    requires t < n <= |s.threads| && n <= |s'.threads| && s'.threads[t] == s.threads[t]
    requires Grows(s, s') && ThreadCovered(n, s, t)
    ensures ThreadCovered(n, s', t)
  {
    hide SliceStart;
    var g := s.threads[t].work.gen;
    if g >= 0 {
      assert s'.generations[g] == s.generations[g];
      forall x | SliceStart(n, t) <= x < Frontier(s.threads[t])
        ensures Covered(s', t, g, x)
      {
        assert Covered(s, t, g, x);
      }
    }
  }

  /** Only thread t changes. */
  lemma OthersCovered(n: nat, s: State, s': State, t: nat)
    requires AllCovered(n, s) && t < n && |s'.threads| == |s.threads|
    requires forall u :: 0 <= u < n && u != t ==> s'.threads[u] == s.threads[u]
    requires Grows(s, s') && ThreadCovered(n, s', t)
    ensures AllCovered(n, s')
  {
    hide ThreadCovered, Grows;
    forall u | 0 <= u < n
      ensures ThreadCovered(n, s', u)
    {
      if u != t {
        CoveredFrame(n, s, s', u);
      }
    }
  }

  lemma CoveredGenerate(n: nat, s: State, header: seq<Byte>)
    requires AllCovered(n, s) && s.job.Job?
    ensures AllCovered(n, DoGenerate(s, header)) && Grows(s, DoGenerate(s, header))
  {
    hide ThreadCovered;
    var s' := DoGenerate(s, header);
    forall t | 0 <= t < n
      ensures ThreadCovered(n, s', t)
    {
      CoveredFrame(n, s, s', t);
    }
  }

  lemma CoveredAcquire(n: nat, lanes: nat, s: State, t: nat, header: seq<Byte>, scan: bool, maxNonce: int)
    requires Inv(n, lanes, s) && Enabled(n, lanes, s, Acquire(t, header, scan, maxNonce)) && AllCovered(n, s)
    ensures AllCovered(n, DoAcquire(n, s, t, header, scan, maxNonce))
  {
    assert WellFormed(n, s);
    hide SliceStart, SliceSize, EndNonce, Inv, Grows;
    var s1 := s;
    if Regenerates(n, s, t) {
      s1 := DoGenerate(s, header);
      InvGenerate(n, lanes, s, header);
      CoveredGenerate(n, s, header);
    }
    assert s1.threads == s.threads;
    AcquiredInSlice(n, lanes, s, s1, t);
    var s' := DoAcquire(n, s, t, header, scan, maxNonce);
    var mine, w := s.threads[t].work, s'.threads[t].work;
    assert w == Acquired(n, t, mine, s1.gWork);
    assert Grows(s1, s') by { AppendGrows(s1, s'); }
    assert w.gen < |s'.generations|;
    if w.gen >= 0 {
      forall x | SliceStart(n, t) <= x < Frontier(s'.threads[t])
        ensures Covered(s', t, w.gen, x)
      {
        AcquiredCovered(n, lanes, s1, s', t, x);
      }
    }
    OthersCovered(n, s1, s', t);
  }

  lemma AppendGrows(s: State, s': State)
    requires s'.generations == s.generations && s'.tested == s.tested
    requires s'.skipped == s.skipped || exists x :: s'.skipped == s.skipped + [x]
    ensures Grows(s, s')
  {
  }

  /** What the thread leaves behind: nothing in a new work, its own nonce more in the old one. */
  lemma AcquiredCovered(n: nat, lanes: nat, s: State, s': State, t: nat, x: int)
    requires AllCovered(n, s) && Inv(n, lanes, s) && t < n <= |s'.threads| && Grows(s, s')
    requires s.threads[t].phase.Idle?
    requires var w := s'.threads[t].work;
             && 0 <= w.gen < |s'.generations|
             && w == Acquired(n, t, s.threads[t].work, s.gWork)
             && (w.gen == s.threads[t].work.gen ==> w.nonce == s.threads[t].work.nonce + 1)
             && (s'.threads[t].phase.Scanning? ==> s'.threads[t].phase.next == w.nonce)
             && (s'.threads[t].phase.Idle? ==> Skip(t, w.gen, w.nonce) in s'.skipped)
    requires SliceStart(n, t) <= x < Frontier(s'.threads[t])
    ensures Covered(s', t, s'.threads[t].work.gen, x)
  {
    hide SliceSize, EndNonce;
    var mine, w := s.threads[t].work, s'.threads[t].work;
    if x == w.nonce {
      assert Skip(t, w.gen, x) in s'.skipped;
    } else if Differs(mine.header, s.gWork.header) {
      assert false;
    } else {
      assert ThreadCovered(n, s, t);
      assert Covered(s, t, mine.gen, x);
      assert s'.generations[w.gen] == s.generations[w.gen];
    }
  }

  lemma CoveredTest(n: nat, lanes: nat, s: State, t: nat)
    requires Inv(n, lanes, s) && Enabled(n, lanes, s, TestNext(t)) && AllCovered(n, s)
    requires s.threads[t].work.gen >= 0
    ensures AllCovered(n, DoTest(s, t))
  {
    hide SliceStart, SliceSize, EndNonce;
    assert ThreadInv(n, lanes, s, t) && ThreadCovered(n, s, t);
    var s' := DoTest(s, t);
    var th := s.threads[t];
    var g := th.work.gen;
    forall x | SliceStart(n, t) <= x < Frontier(s'.threads[t])
      ensures Covered(s', t, g, x)
    {
      if x == th.phase.next {
        assert s'.tested[|s.tested|] == TestOf(s', t, g, x);
      } else {
        assert Covered(s, t, g, x);
      }
    }
    OthersCovered(n, s, s', t);
  }

  lemma CoveredStop(n: nat, lanes: nat, s: State, t: nat)
    requires Inv(n, lanes, s) && Enabled(n, lanes, s, StopScan(t)) && AllCovered(n, s)
    requires 0 < s.threads[t].phase.next <= TWO32
    ensures AllCovered(n, DoStop(s, t))
  {
    hide SliceStart, SliceSize, EndNonce;
    assert ThreadInv(n, lanes, s, t) && ThreadCovered(n, s, t);
    var s' := DoStop(s, t);
    assert Frontier(s'.threads[t]) == Frontier(s.threads[t]);
    forall x | SliceStart(n, t) <= x < Frontier(s.threads[t]) && s.threads[t].work.gen >= 0
      ensures Covered(s', t, s.threads[t].work.gen, x)
    {
      assert Covered(s, t, s.threads[t].work.gen, x);
    }
    OthersCovered(n, s, s', t);
  }

  lemma CoveredStep(n: nat, lanes: nat, s: State, a: Action)
    requires Inv(n, lanes, s) && Enabled(n, lanes, s, a) && AllCovered(n, s)
    ensures AllCovered(n, Apply(n, s, a))
  {
    hide ThreadInv, ThreadCovered;
    match a
    case Notify(id, size) =>
      var s' := DoNotify(s, id, size);
      forall t | 0 <= t < n
        ensures ThreadCovered(n, s', t)
      {
        CoveredFrame(n, s, s', t);
      }
    case Generate(header) => CoveredGenerate(n, s, header);
    case Acquire(t, header, scan, maxNonce) => CoveredAcquire(n, lanes, s, t, header, scan, maxNonce);
    case TestNext(t) =>
      assert ThreadInv(n, lanes, s, t);
      ScanHasGeneration(n, lanes, s, t);
      CoveredTest(n, lanes, s, t);
    case StopScan(t) =>
      InvStop(n, lanes, s, t);
      CoveredStop(n, lanes, s, t);
  }

  lemma {:induction false} CoveredAlways(n: nat, lanes: nat, actions: seq<Action>, s: State)
    requires n > 0 && SliceSize(n) > 32 && 0 < lanes <= 32
    requires Reached(n, lanes, actions, s)
    ensures AllCovered(n, s)
    decreases |actions|
  {
    hide Inv, Apply, Enabled;
    if actions == [] {
    } else {
      var a := actions[|actions| - 1];
      var p :| Reached(n, lanes, actions[..|actions| - 1], p)
            && WellFormed(n, p) && Enabled(n, lanes, p, a) && s == Apply(n, p, a);
      InvAlways(n, lanes, actions[..|actions| - 1], p);
      CoveredAlways(n, lanes, actions[..|actions| - 1], p);
      CoveredStep(n, lanes, p, a);
    }
  }

  /**
    In every run: every nonce between the start of a thread's slice and the place the thread has
    reached in its work has been tested by it in this work, except those it took while it was not
    scanning.
   */
  lemma EveryNonceCovered(n: nat, lanes: nat, actions: seq<Action>, s: State, t: nat, x: int)
    requires n > 0 && SliceSize(n) > 32 && 0 < lanes <= 32
    requires Reached(n, lanes, actions, s)
    requires |s.threads| == n && t < n && 0 <= s.threads[t].work.gen < |s.generations|
    requires SliceStart(n, t) <= x <= (if s.threads[t].phase.Idle? then s.threads[t].work.nonce else s.threads[t].phase.next - 1)
    ensures Covered(s, t, s.threads[t].work.gen, x)
  {
    hide SliceStart, SliceSize;
    CoveredAlways(n, lanes, actions, s);
    assert ThreadCovered(n, s, t);
  }

  /**
    A thread makes the shared work be replaced only when it is through with its slice: in every run,
    if an acquire step of a thread that has work generates a new one, the thread has covered all
    nonces of its slice but the last 31.
   */
  lemma ReplacedWhenExhausted(n: nat, lanes: nat, actions: seq<Action>, s: State, t: nat, header: seq<Byte>, scan: bool,
                              maxNonce: int, x: int)
    requires n > 0 && SliceSize(n) > 32 && 0 < lanes <= 32
    requires Reached(n, lanes, actions, s)
    requires WellFormed(n, s) && Enabled(n, lanes, s, Acquire(t, header, scan, maxNonce))
    requires Apply(n, s, Acquire(t, header, scan, maxNonce)).generations != s.generations
    requires s.threads[t].work.gen >= 0
    requires InSlice(n, t, x) && x < SliceStart(n, t + 1) - 31
    ensures s.threads[t].work.gen < |s.generations| && Covered(s, t, s.threads[t].work.gen, x)
  {
    InvAlways(n, lanes, actions, s);
    assert ThreadInv(n, lanes, s, t);
    assert Regenerates(n, s, t);
    SliceBounds(n, t);
    hide Inv;
    EveryNonceCovered(n, lanes, actions, s, t, x);
  }

  // ---- Without pauses nothing is passed over

  /** The action never keeps a thread from scanning. */
  predicate Busy(a: Action)
  {
    match a
    case Generate(header) => |header| == HEADER_BYTES && header[..4] != [0, 0, 0, 0]
    case Acquire(_, header, scan, _) => scan && |header| == HEADER_BYTES && header[..4] != [0, 0, 0, 0]
    case _ => true
  }

  ghost predicate AllVersioned(n: nat, s: State)
  {
    && s.skipped == [] && WellFormed(n, s)
    && (s.gWork.gen >= 0 ==> s.gWork.header[..4] != [0, 0, 0, 0])
    && forall t :: 0 <= t < n && s.threads[t].work.gen >= 0 ==> s.threads[t].work.header[..4] != [0, 0, 0, 0]
  }

  lemma VersionedStep(n: nat, lanes: nat, s: State, a: Action)
    requires Inv(n, lanes, s) && Enabled(n, lanes, s, a) && AllVersioned(n, s) && Busy(a)
    ensures AllVersioned(n, Apply(n, s, a))
  {
    hide Inv, SliceStart, SliceSize, EndNonce, Increment;
    match a
    case Acquire(t, header, scan, maxNonce) =>
      var s1 := if Regenerates(n, s, t) then DoGenerate(s, header) else s;
      assert AllVersioned(n, s1);
      var w := Acquired(n, t, s.threads[t].work, s1.gWork);
      assert w.gen >= 0 ==> w.header[..4] != [0, 0, 0, 0];
    case _ =>
  }

  lemma {:induction false} VersionedAlways(n: nat, lanes: nat, actions: seq<Action>, s: State)
    requires n > 0 && SliceSize(n) > 32 && 0 < lanes <= 32
    requires Reached(n, lanes, actions, s) && forall i :: 0 <= i < |actions| ==> Busy(actions[i])
    ensures AllVersioned(n, s)
    decreases |actions|
  {
    hide Inv, Apply, Enabled, Busy;
    if actions != [] {
      var a := actions[|actions| - 1];
      var p :| Reached(n, lanes, actions[..|actions| - 1], p)
            && WellFormed(n, p) && Enabled(n, lanes, p, a) && s == Apply(n, p, a);
      InvAlways(n, lanes, actions[..|actions| - 1], p);
      VersionedAlways(n, lanes, actions[..|actions| - 1], p);
      VersionedStep(n, lanes, p, a);
    }
  }

  /** When every work has a version and every thread is allowed to mine, every nonce a thread has
      left behind in its work has been tested. */
  lemma EveryNonceTested(n: nat, lanes: nat, actions: seq<Action>, s: State, t: nat, x: int)
    requires n > 0 && SliceSize(n) > 32 && 0 < lanes <= 32
    requires Reached(n, lanes, actions, s) && forall i :: 0 <= i < |actions| ==> Busy(actions[i])
    requires |s.threads| == n && t < n && 0 <= s.threads[t].work.gen < |s.generations|
    requires SliceStart(n, t) <= x < Frontier(s.threads[t])
    ensures TestOf(s, t, s.threads[t].work.gen, x) in s.tested
  {
    hide SliceStart, SliceSize, Busy, Reached;
    EveryNonceCovered(n, lanes, actions, s, t, x);
    VersionedAlways(n, lanes, actions, s);
  }

  // ---- The works of a job

  /** Number of works generated for a job. */
  function Count(generations: seq<(JobId, seq<Byte>)>, id: JobId): nat
  {
    if generations == [] then 0
    else
      var n := |generations| - 1;
      Count(generations[..n], id) + if generations[n].0 == id then 1 else 0
  }

  /** The k-th work generated for a job has extranonce2 k, and the job's odometer stands at the
      next value. */
  ghost predicate InTurn(s: State)
  {
    && (forall i {:trigger s.generations[i]} :: 0 <= i < |s.generations| ==>
          LeValue(s.generations[i].1) == Count(s.generations[..i], s.generations[i].0))
    && (s.job.Job? ==> LeValue(s.job.xnonce2) == Count(s.generations, s.job.id))
  }

  lemma {:induction false} CountNone(generations: seq<(JobId, seq<Byte>)>, id: JobId)
    requires forall i :: 0 <= i < |generations| ==> generations[i].0 != id
    ensures Count(generations, id) == 0
  {
    if generations != [] {
      CountNone(generations[..|generations| - 1], id);
    }
  }

  lemma {:induction false} ZerosValue(n: nat)
    ensures LeValue(Zeros(n)) == 0
  {
    if n > 0 {
      assert Zeros(n)[1..] == Zeros(n - 1);
      ZerosValue(n - 1);
    }
  }

  lemma InTurnNotify(n: nat, lanes: nat, s: State, id: JobId, size: nat)
    requires Inv(n, lanes, s) && Enabled(n, lanes, s, Notify(id, size)) && InTurn(s)
    ensures InTurn(DoNotify(s, id, size))
  {
    hide ThreadInv;
    if !(s.job.Job? && s.job.id == id) {
      CountNone(s.generations, id);
      ZerosValue(size);
    }
  }

  lemma InTurnGenerate(s: State, header: seq<Byte>)
    requires CanGenerate(s) && InTurn(s)
    ensures InTurn(DoGenerate(s, header))
  {
    hide Increment, LeValue, Pow256;
    var s' := DoGenerate(s, header);
    IncrementAddsOne(s.job.xnonce2);
    var k := |s.generations|;
    assert s'.generations[..k] == s.generations;
    forall i | 0 <= i < |s'.generations|
      ensures LeValue(s'.generations[i].1) == Count(s'.generations[..i], s'.generations[i].0)
    {
      if i < k {
        assert s'.generations[..i] == s.generations[..i];
      }
    }
  }

  lemma InTurnStep(n: nat, lanes: nat, s: State, a: Action)
    requires Inv(n, lanes, s) && Enabled(n, lanes, s, a) && InTurn(s)
    ensures InTurn(Apply(n, s, a))
  {
    hide ThreadInv;
    match a
    case Notify(id, size) => InTurnNotify(n, lanes, s, id, size);
    case Generate(header) => InTurnGenerate(s, header);
    case Acquire(t, header, scan, maxNonce) =>
      if Regenerates(n, s, t) {
        InTurnGenerate(s, header);
      }
    case _ =>
  }

  /** In every run the works generated for a job take its extranonce2 values 0, 1, 2, ... in
      turn. */
  lemma {:induction false} WorksInTurn(n: nat, lanes: nat, actions: seq<Action>, s: State)
    requires n > 0 && SliceSize(n) > 32 && 0 < lanes <= 32
    requires Reached(n, lanes, actions, s)
    ensures InTurn(s)
    decreases |actions|
  {
    hide Inv, Apply, Enabled, InTurn;
    if actions == [] {
      assert InTurn(InitialState(n)) by { NothingGenerated(n); }
    } else {
      var a := actions[|actions| - 1];
      var p :| Reached(n, lanes, actions[..|actions| - 1], p)
            && WellFormed(n, p) && Enabled(n, lanes, p, a) && s == Apply(n, p, a);
      InvAlways(n, lanes, actions[..|actions| - 1], p);
      WorksInTurn(n, lanes, actions[..|actions| - 1], p);
      InTurnStep(n, lanes, p, a);
    }
  }

  lemma NothingGenerated(n: nat)
    ensures InTurn(InitialState(n))
  {
  }

  // ---- Every nonce can be reached

  lemma Extend(n: nat, lanes: nat, actions: seq<Action>, s: State, a: Action) returns (actions': seq<Action>, s': State)
    requires Reached(n, lanes, actions, s) && Inv(n, lanes, s) && Enabled(n, lanes, s, a)
    ensures s' == Apply(n, s, a) && Reached(n, lanes, actions', s') && Inv(n, lanes, s')
  {
    InvStep(n, lanes, s, a);
    hide Inv, Apply, Enabled;
    actions', s' := actions + [a], Apply(n, s, a);
    assert actions'[..|actions'| - 1] == actions && actions'[|actions'| - 1] == a;
  }

  /** A scan can go on to every nonce up to its bound and less than `lanes` beyond. */
  lemma {:induction false} ScanOn(n: nat, lanes: nat, actions: seq<Action>, s: State, t: nat, x: int)
      returns (actions': seq<Action>, s': State)
    requires Reached(n, lanes, actions, s) && Inv(n, lanes, s) && t < n && s.threads[t].phase.Scanning?
    requires s.threads[t].phase.next <= x < Max(s.threads[t].work.nonce, s.threads[t].phase.maxNonce) + lanes
    requires s.threads[t].work.gen >= 0
    ensures Reached(n, lanes, actions', s') && var w := s.threads[t].work; Test(t, w.gen, w.jobId, w.xnonce2, x) in s'.tested
    decreases x - s.threads[t].phase.next
  {
    hide Inv, Reached;
    InvFacts(n, lanes, s);
    actions', s' := Extend(n, lanes, actions, s, TestNext(t));
    if s.threads[t].phase.next < x {
      actions', s' := ScanOn(n, lanes, actions', s', t, x);
    }
  }

  lemma InvFacts(n: nat, lanes: nat, s: State)
    requires Inv(n, lanes, s)
    ensures WellFormed(n, s) && 0 < lanes
  {
  }

  /** A scan can be left after one test at the latest. */
  lemma CanStop(n: nat, lanes: nat, actions: seq<Action>, s: State, t: nat) returns (actions': seq<Action>, s': State)
    requires Reached(n, lanes, actions, s) && Inv(n, lanes, s) && t < n
    ensures Reached(n, lanes, actions', s') && Inv(n, lanes, s') && s'.threads[t].phase.Idle?
    ensures s'.announced == s.announced && s'.generations == s.generations
    ensures s'.threads[t].work.header == s.threads[t].work.header
  {
    assert ThreadInv(n, lanes, s, t);
    actions', s' := actions, s;
    var th := s.threads[t];
    if th.phase.Scanning? {
      hide Inv, Reached;
      if th.phase.next <= th.work.nonce {
        actions', s' := Extend(n, lanes, actions', s', TestNext(t));
      }
      InvStop(n, lanes, s', t);
      actions', s' := Extend(n, lanes, actions', s', StopScan(t));
    }
  }

  /** A new job and its first work. */
  lemma NewWork(n: nat, lanes: nat, actions: seq<Action>, s: State, id: JobId, size: nat, header: seq<Byte>)
      returns (actions': seq<Action>, s': State)
    requires Reached(n, lanes, actions, s) && Inv(n, lanes, s)
    requires id !in s.announced && size > 0 && |header| == 76
    ensures Reached(n, lanes, actions', s') && Inv(n, lanes, s')
    ensures s'.gWork == Work(|s.generations|, id, Zeros(size), header, 0) && s'.threads == s.threads
  {
    InvFacts(n, lanes, s);
    hide Inv, Reached;
    actions', s' := Extend(n, lanes, actions, s, Notify(id, size));
    ZerosValue(size);
    actions', s' := Extend(n, lanes, actions', s', Generate(header));
  }

  /** An idle thread takes a work that differs from its own and scans it from the start of its
      slice. */
  lemma StartScan(n: nat, lanes: nat, actions: seq<Action>, s: State, t: nat) returns (actions': seq<Action>, s': State)
    requires Reached(n, lanes, actions, s) && Inv(n, lanes, s) && t < n && s.threads[t].phase.Idle?
    requires s.gWork.header[..4] != [0, 0, 0, 0] && s.gWork.header[43..] != s.threads[t].work.header[43..]
    ensures Reached(n, lanes, actions', s') && Inv(n, lanes, s')
    ensures var w := s'.threads[t].work;
            && w.gen == s.gWork.gen && w.jobId == s.gWork.jobId && w.xnonce2 == s.gWork.xnonce2
            && w.nonce == SliceStart(n, t) && s'.threads[t].phase == Scanning(EndNonce(n, t), SliceStart(n, t))
  {
    InvFacts(n, lanes, s);
    hide Inv, Reached, SliceStart, EndNonce;
    actions', s' := Extend(n, lanes, actions, s, Acquire(t, s.gWork.header, true, EndNonce(n, t)));
  }

  /**
    Nothing keeps a nonce from being tested: every run can be continued by announcing a new job,
    generating its first work and letting any thread scan that, until the thread has tested any
    chosen nonce of its slice that is not among its last 32 - lanes.
   */
  lemma EveryNonceReachable(n: nat, lanes: nat, actions: seq<Action>, s: State, id: JobId, size: nat, header: seq<Byte>,
                            t: nat, x: int) returns (actions': seq<Action>, s': State)
    requires n > 0 && SliceSize(n) > 32 && 0 < lanes <= 32
    requires Reached(n, lanes, actions, s) && WellFormed(n, s) && t < n
    requires id !in s.announced && size > 0
    requires |header| == 76 && header[..4] != [0, 0, 0, 0] && header[43..] != s.threads[t].work.header[43..]
    requires SliceStart(n, t) <= x < SliceStart(n, t + 1) - 32 + lanes
    ensures Reached(n, lanes, actions', s') && Test(t, |s.generations|, id, Zeros(size), x) in s'.tested
  {
    InvAlways(n, lanes, actions, s);
    hide *;
    EndNonceIs(n, t);
    actions', s' := CanStop(n, lanes, actions, s, t);
    actions', s' := NewWork(n, lanes, actions', s', id, size, header);
    actions', s' := StartScan(n, lanes, actions', s', t);
    actions', s' := ScanOn(n, lanes, actions', s', t, x);
  }

  lemma EndNonceIs(n: nat, t: nat)
    requires t < n
    ensures EndNonce(n, t) == SliceStart(n, t + 1) - 32
  {
  }
}
