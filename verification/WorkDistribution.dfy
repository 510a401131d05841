/**
  Work distribution among the miner threads (cpu-miner.c, util.c): job notifications, work
  generation from the current job with its extranonce2 odometer, and each miner thread's
  acquire-or-advance step under g_work_lock followed by a scan of its slice of the nonces.
 */
module WorkDistribution {
  import opened Words
  import opened Bytes
  import opened BitOps

  // ---- The extranonce2 odometer of stratum_gen_work

  function Increment(x: seq<Byte>): (r: seq<Byte>)
    ensures |r| == |x|
  {
    if x == [] then []
    else if x[0] < 255 then [x[0] + 1] + x[1..]
    else [0] + Increment(x[1..])
  }

  /** The odometer adds one, and wraps from all 255 to zero. */
  lemma {:induction false} IncrementAddsOne(x: seq<Byte>)
    ensures LeValue(Increment(x)) == if LeValue(x) + 1 == Pow256(|x|) then 0 else LeValue(x) + 1
  {
    if x == [] {
    } else if x[0] < 255 {
      assert Increment(x)[1..] == x[1..];
      LeValueBound(x[1..]);
    } else {
      assert Increment(x)[1..] == Increment(x[1..]);
      IncrementAddsOne(x[1..]);
    }
  }

  /** Leading 255s become zeros, the first other byte goes up by one, the rest stay. */
  lemma {:induction false} IncrementAt(x: seq<Byte>, t: nat)
    requires t <= |x| && forall k :: 0 <= k < t ==> x[k] == 255
    ensures forall k :: 0 <= k < t ==> Increment(x)[k] == 0
    ensures t < |x| && x[t] < 255 ==>
              Increment(x)[t] == x[t] + 1 && forall k :: t < k < |x| ==> Increment(x)[k] == x[k]
  {
    if t > 0 {
      IncrementAt(x[1..], t - 1);
      assert forall k :: 0 < k < |x| ==> Increment(x)[k] == Increment(x[1..])[k - 1];
    }
  }

  /** The loop itself, on the job's buffer in place. */
  method IncrementInPlace(x: array<Byte>)
    modifies x
    ensures x[..] == Increment(old(x[..]))
  {
    hide Increment;
    ghost var before := x[..];
    var t := 0;
    while t < x.Length
      invariant 0 <= t <= x.Length
      invariant forall k :: 0 <= k < t ==> before[k] == 255 && x[k] == 0
      invariant forall k :: t <= k < x.Length ==> x[k] == before[k]
    {
      x[t] := if x[t] == 255 then 0 else x[t] + 1;
      if x[t] != 0 {
        break;
      }
      t := t + 1;
    }
    IncrementAt(before, t);
  }

  // ---- Nonce slices

  const MARGIN := 0x20

  /** Number of nonces in a thread's slice: 0xffffffff / opt_n_threads. */
  function SliceSize(n: nat): nat
    requires n > 0
  {
    0xffff_ffff / n
  }

  function SliceStart(n: nat, t: nat): nat
    requires t <= n && n > 0
  {
    SliceSize(n) * t
  }

  /** end_nonce of thread t. */
  function EndNonce(n: nat, t: nat): int
    requires t < n
  {
    SliceSize(n) * (t + 1) - MARGIN
  }

  lemma SliceBounds(n: nat, t: nat)
    requires t < n
    ensures SliceStart(n, t + 1) == SliceStart(n, t) + SliceSize(n)
    ensures 0 <= SliceStart(n, t) <= SliceStart(n, t + 1) <= 0xffff_ffff
  {
  }

  /** The slices of different threads do not overlap. */
  lemma SlicesDisjoint(n: nat, t: nat, u: nat, x: int)
    requires t < n && u < n
    requires SliceStart(n, t) <= x < SliceStart(n, t + 1)
    requires SliceStart(n, u) <= x < SliceStart(n, u + 1)
    ensures t == u
  {
  }

  // ---- State

  type JobId = string

  /** The part of struct work the protocol reads: 76 header bytes without the nonce, the nonce,
      and the job id and extranonce2 it was generated from.  `gen` numbers the generations. */
  datatype Work = Work(gen: int, jobId: JobId, xnonce2: seq<Byte>, header: seq<Byte>, nonce: Word)

  datatype Job = NoJob | Job(id: JobId, xnonce2: seq<Byte>)

  datatype Phase = Idle | Scanning(maxNonce: int, next: int)

  datatype Thread = Thread(work: Work, phase: Phase)

  /** One comparison of a double hash with the target. */
  datatype Test = Test(thread: nat, gen: nat, jobId: JobId, xnonce2: seq<Byte>, nonce: int)

  /** A nonce a thread took in its critical section without scanning it: the work had no version
      yet, or the thread was not to mine. */
  datatype Skip = Skip(thread: nat, gen: nat, nonce: int)

  /** job is the stratum context's current job, gWork the shared g_work.  generations, announced,
      tested and skipped record history: every generated (job id, extranonce2), every announced job
      id, every test made, every nonce passed over. */
  datatype State = State(
    job: Job,
    gWork: Work,
    threads: seq<Thread>,
    generations: seq<(JobId, seq<Byte>)>,
    announced: set<JobId>,
    tested: seq<Test>,
    skipped: seq<Skip>)

  const HEADER_BYTES := 76

  function Blank(): Work
  {
    Work(-1, "", [], Zeros(HEADER_BYTES), 0)
  }

  function InitialState(n: nat): State
  {
    State(NoJob, Blank(), seq(n, _ => Thread(Blank(), Idle)), [], {}, [], [])
  }

  /**
    The work comparison of miner_thread.  By C precedence the conditional operator takes the whole
    disjunction as its condition: when the 76 bytes differ, the result is that of comparing bytes
    43..75, and otherwise the works count as equal (jsonrpc_2 is off).
   */
  predicate Differs(a: seq<Byte>, b: seq<Byte>)
    requires |a| == |b| == HEADER_BYTES
  {
    if a != b then a[43..] != b[43..] else false
  }

  // ---- Steps

  datatype Action =
    | Notify(id: JobId, xnonce2Size: nat)
    | Generate(header: seq<Byte>)
    | Acquire(t: nat, regenHeader: seq<Byte>, scan: bool, maxNonce: int)
    | TestNext(t: nat)
    | StopScan(t: nat)

  /** stratum_notify: the odometer restarts at zero only when the job id changes. */
  function DoNotify(s: State, id: JobId, size: nat): State
  {
    var xnonce2 := if s.job.Job? && s.job.id == id then s.job.xnonce2 else Zeros(size);
    s.(job := Job(id, xnonce2), announced := s.announced + {id})
  }

  /** stratum_gen_work: g_work is built from the job's extranonce2, which then advances. */
  function DoGenerate(s: State, header: seq<Byte>): State
    requires s.job.Job?
  {
    s.(gWork := Work(|s.generations|, s.job.id, s.job.xnonce2, header, 0),
       generations := s.generations + [(s.job.id, s.job.xnonce2)],
       job := s.job.(xnonce2 := Increment(s.job.xnonce2)))
  }

  predicate WellFormed(n: nat, s: State)
  {
    && n > 0 && |s.threads| == n
    && |s.gWork.header| == HEADER_BYTES
    && forall t :: 0 <= t < n ==> |s.threads[t].work.header| == HEADER_BYTES
  }

  /** Whether thread t, entering the lock, first regenerates the shared work. */
  predicate Regenerates(n: nat, s: State, t: nat)
    requires WellFormed(n, s) && t < n
  {
    var w := s.threads[t].work;
    w.nonce >= EndNonce(n, t) && !Differs(w.header, s.gWork.header)
  }

  /** The thread's work after the critical section: a copy of g_work at the start of the thread's
      slice if the works differ, the next nonce of its own work otherwise. */
  function Acquired(n: nat, t: nat, mine: Work, shared: Work): Work
    requires t < n && |mine.header| == |shared.header| == HEADER_BYTES
  {
    if Differs(mine.header, shared.header)
    then SliceBounds(n, t); shared.(nonce := SliceStart(n, t))
    else mine.(nonce := Add(mine.nonce, 1))
  }

  /** Work with version word 0 is never scanned. */
  predicate HasVersion(w: Work)
    requires |w.header| == HEADER_BYTES
  {
    w.header[..4] != [0, 0, 0, 0]
  }

  function DoAcquire(n: nat, s: State, t: nat, regenHeader: seq<Byte>, scan: bool, maxNonce: int): State
    requires WellFormed(n, s) && t < n && s.threads[t].phase.Idle?
    requires |regenHeader| == HEADER_BYTES
    requires Regenerates(n, s, t) ==> s.job.Job?
  {
    var s1 := if Regenerates(n, s, t) then DoGenerate(s, regenHeader) else s;
    var w := Acquired(n, t, s.threads[t].work, s1.gWork);
    var phase := if scan && HasVersion(w) then Scanning(maxNonce, w.nonce) else Idle;
    s1.(threads := s1.threads[t := Thread(w, phase)],
        skipped := if phase.Idle? && w.gen >= 0 then s1.skipped + [Skip(t, w.gen, w.nonce)] else s1.skipped)
  }

  /** One nonce of a scan is tested. */
  function DoTest(s: State, t: nat): State
    requires t < |s.threads| && s.threads[t].phase.Scanning?
    requires s.threads[t].work.gen >= 0
  {
    var th := s.threads[t];
    s.(tested := s.tested + [Test(t, th.work.gen, th.work.jobId, th.work.xnonce2, th.phase.next)],
       threads := s.threads[t := th.(phase := th.phase.(next := th.phase.next + 1))])
  }

  /** The scan returns: the last nonce tried is left in the header. */
  function DoStop(s: State, t: nat): State
    requires t < |s.threads| && s.threads[t].phase.Scanning?
    requires 0 < s.threads[t].phase.next <= TWO32
  {
    var th := s.threads[t];
    s.(threads := s.threads[t := Thread(th.work.(nonce := th.phase.next - 1), Idle)])
  }

  function Max(x: int, y: int): (m: int)
    ensures x <= m && y <= m && (m == x || m == y)
  {
    if x < y then y else x
  }

  /**
    When an action can happen.  A scan's bound is at most end_nonce; it tests its first nonce, and
    further ones up to less than `lanes` past the bound, in any number.  The rest are the
    hypotheses on the pool: a replaced job id is not announced again, a repeated one keeps its
    extranonce2 size, the odometer does not wrap within a job, and a work regenerated by an
    exhausted thread differs from that thread's work in header bytes 43..75.
   */
  predicate Enabled(n: nat, lanes: nat, s: State, a: Action)
    requires WellFormed(n, s)
  {
    match a
    case Notify(id, size) =>
      id !in s.announced || (s.job.Job? && s.job.id == id)
    case Generate(header) =>
      |header| == HEADER_BYTES && CanGenerate(s)
    case Acquire(t, header, scan, maxNonce) =>
      && t < n && s.threads[t].phase.Idle? && |header| == HEADER_BYTES && maxNonce <= EndNonce(n, t)
      && (Regenerates(n, s, t) ==> CanGenerate(s) && Differs(s.threads[t].work.header, header))
    case TestNext(t) =>
      && t < n && s.threads[t].phase.Scanning?
      && var p := s.threads[t].phase; p.next < Max(s.threads[t].work.nonce, p.maxNonce) + lanes
    case StopScan(t) =>
      && t < n && s.threads[t].phase.Scanning?
      && s.threads[t].phase.next > s.threads[t].work.nonce
  }

  predicate CanGenerate(s: State)
  {
    s.job.Job? && LeValue(s.job.xnonce2) + 1 < Pow256(|s.job.xnonce2|)
  }

  // ---- Invariant

  /** A tested nonce lies in its thread's slice. */
  predicate InSlice(n: nat, t: nat, nonce: int)
    requires t < n
  {
    SliceStart(n, t) <= nonce < SliceStart(n, t + 1)
  }

  /** The generations are pairwise distinct, and those of the current job are below its odometer. */
  ghost predicate GenerationsInv(s: State)
  {
    && (forall i, j :: 0 <= i < j < |s.generations| ==> s.generations[i] != s.generations[j])
    && (forall i :: 0 <= i < |s.generations| ==> s.generations[i].0 in s.announced)
    && (s.job.Job? ==>
          && s.job.id in s.announced
          && forall i :: 0 <= i < |s.generations| && s.generations[i].0 == s.job.id ==>
               LeValue(s.generations[i].1) < LeValue(s.job.xnonce2))
  }

  /** A work carries the job id and extranonce2 of its generation; generation -1 is blank. */
  ghost predicate WorkInv(s: State, w: Work)
  {
    && -1 <= w.gen < |s.generations|
    && |w.header| == HEADER_BYTES
    && (w.gen == -1 ==> w.header == Zeros(HEADER_BYTES))
    && (w.gen >= 0 ==> s.generations[w.gen] == (w.jobId, w.xnonce2))
    && (w.gen == s.gWork.gen ==> w.header == s.gWork.header)
  }

  /** First nonce the thread has not tested in its current work. */
  function Frontier(th: Thread): int
  {
    if th.phase.Idle? then th.work.nonce + 1 else th.phase.next
  }

  ghost predicate ThreadInv(n: nat, lanes: nat, s: State, t: nat)
    requires t < n <= |s.threads|
  {
    var th := s.threads[t];
    && WorkInv(s, th.work)
    && (th.work.gen >= 0 ==> InSlice(n, t, th.work.nonce))
    && (th.phase.Scanning? ==>
          && th.work.gen >= 0
          && th.work.nonce <= EndNonce(n, t)
          && th.phase.maxNonce <= EndNonce(n, t)
          && th.work.nonce <= th.phase.next <= Max(th.work.nonce, th.phase.maxNonce) + lanes)
  }

  ghost predicate TestInv(n: nat, s: State, x: Test)
    requires n <= |s.threads|
  {
    && x.thread < n
    && x.gen < |s.generations|
    && s.generations[x.gen] == (x.jobId, x.xnonce2)
    && InSlice(n, x.thread, x.nonce)
    && x.gen <= s.threads[x.thread].work.gen
    && (x.gen == s.threads[x.thread].work.gen ==> x.nonce < Frontier(s.threads[x.thread]))
  }

  ghost predicate NoRepeats(tested: seq<Test>)
  {
    forall i, j :: 0 <= i < j < |tested| ==>
      (tested[i].gen, tested[i].nonce) != (tested[j].gen, tested[j].nonce)
  }

  ghost predicate Inv(n: nat, lanes: nat, s: State)
  {
    && WellFormed(n, s)
    && SliceSize(n) > MARGIN && 0 < lanes <= MARGIN
    && GenerationsInv(s)
    && s.gWork.gen == |s.generations| - 1
    && WorkInv(s, s.gWork)
    && (forall t :: 0 <= t < n ==> ThreadInv(n, lanes, s, t))
    && (forall i :: 0 <= i < |s.tested| ==> TestInv(n, s, s.tested[i]))
    && NoRepeats(s.tested)
  }

  lemma InvInitially(n: nat, lanes: nat)
    requires n > 0 && SliceSize(n) > MARGIN && 0 < lanes <= MARGIN
    ensures Inv(n, lanes, InitialState(n))
  {
  }

  lemma InvNotify(n: nat, lanes: nat, s: State, id: JobId, size: nat)
    requires Inv(n, lanes, s) && Enabled(n, lanes, s, Notify(id, size))
    ensures Inv(n, lanes, DoNotify(s, id, size))
  {
    var s' := DoNotify(s, id, size);
    assert forall t :: 0 <= t < n ==> ThreadInv(n, lanes, s, t) ==> ThreadInv(n, lanes, s', t);
    assert forall x :: TestInv(n, s, x) ==> TestInv(n, s', x);
  }

  lemma InvGenerate(n: nat, lanes: nat, s: State, header: seq<Byte>)
    requires Inv(n, lanes, s) && CanGenerate(s) && |header| == HEADER_BYTES
    ensures Inv(n, lanes, DoGenerate(s, header))
  {
    hide SliceStart, SliceSize, EndNonce, NoRepeats, GenerationsInv, Increment;
    var s' := DoGenerate(s, header);
    GenerationsGrow(s, header);
    forall t | 0 <= t < n
      ensures ThreadInv(n, lanes, s', t)
    {
      assert ThreadInv(n, lanes, s, t);
    }
    forall i | 0 <= i < |s'.tested|
      ensures TestInv(n, s', s'.tested[i])
    {
      assert TestInv(n, s, s.tested[i]);
    }
  }

  lemma GenerationsGrow(s: State, header: seq<Byte>)
    requires GenerationsInv(s) && CanGenerate(s)
    ensures GenerationsInv(DoGenerate(s, header))
  {
    hide Increment;
    var s' := DoGenerate(s, header);
    IncrementAddsOne(s.job.xnonce2);
    assert LeValue(s'.job.xnonce2) == LeValue(s.job.xnonce2) + 1;
    forall i | 0 <= i < |s.generations|
      ensures s.generations[i] != (s.job.id, s.job.xnonce2)
    {
    }
  }

  /** The thread enters its critical section exhausted only if the regenerated work is new to it;
      so its nonce stays inside its slice, with room for the margin. */
  lemma AcquiredInSlice(n: nat, lanes: nat, s: State, s1: State, t: nat)
    requires Inv(n, lanes, s) && Inv(n, lanes, s1) && t < n
    requires s1.threads[t] == s.threads[t] && s.threads[t].phase.Idle?
    requires (s1 == s && !Regenerates(n, s, t))
          || Differs(s.threads[t].work.header, s1.gWork.header)
    ensures var w := Acquired(n, t, s.threads[t].work, s1.gWork);
            && WorkInv(s1, w)
            && (w.gen >= 0 ==> InSlice(n, t, w.nonce) && w.nonce <= EndNonce(n, t))
            && w.gen >= s.threads[t].work.gen
            && (w.gen == s.threads[t].work.gen >= 0 ==> w.nonce == s.threads[t].work.nonce + 1)
  {
    SliceBounds(n, t);
    assert ThreadInv(n, lanes, s, t) && ThreadInv(n, lanes, s1, t);
    assert SliceStart(n, t) <= EndNonce(n, t) < SliceStart(n, t + 1);
    var mine := s.threads[t].work;
    if Differs(mine.header, s1.gWork.header) {
      assert mine.gen != s1.gWork.gen;
    } else if mine.gen >= 0 {
      assert mine.nonce < EndNonce(n, t);
      assert Add(mine.nonce, 1) == mine.nonce + 1;
    }
  }

  lemma InvAcquire(n: nat, lanes: nat, s: State, t: nat, header: seq<Byte>, scan: bool, maxNonce: int)
    requires Inv(n, lanes, s) && Enabled(n, lanes, s, Acquire(t, header, scan, maxNonce))
    ensures Inv(n, lanes, DoAcquire(n, s, t, header, scan, maxNonce))
  {
    hide SliceStart, SliceSize, EndNonce;
    var s1 := s;
    if Regenerates(n, s, t) {
      s1 := DoGenerate(s, header);
      InvGenerate(n, lanes, s, header);
    }
    AcquiredInSlice(n, lanes, s, s1, t);
    var s' := DoAcquire(n, s, t, header, scan, maxNonce);
    var w := s'.threads[t].work;
    assert w == Acquired(n, t, s.threads[t].work, s1.gWork);
    assert w.gen == -1 ==> !HasVersion(w);
    ThreadChanged(n, lanes, s1, s1.(threads := s1.threads[t := s'.threads[t]]), t);
    SkipsIrrelevant(n, lanes, s1.(threads := s1.threads[t := s'.threads[t]]), s'.skipped);
  }

  lemma SkipsIrrelevant(n: nat, lanes: nat, s: State, skipped: seq<Skip>)
    requires Inv(n, lanes, s)
    ensures Inv(n, lanes, s.(skipped := skipped))
  {
    hide SliceStart, SliceSize, EndNonce, NoRepeats;
    var s' := s.(skipped := skipped);
    forall u | 0 <= u < n
      ensures ThreadInv(n, lanes, s', u)
    {
      assert ThreadInv(n, lanes, s, u);
    }
    forall i | 0 <= i < |s'.tested|
      ensures TestInv(n, s', s'.tested[i])
    {
      assert TestInv(n, s, s.tested[i]);
    }
  }

  /** Replacing one thread by a state that is itself fine, and whose frontier does not go back. */
  lemma ThreadChanged(n: nat, lanes: nat, s: State, s': State, t: nat)
    requires Inv(n, lanes, s) && t < n && |s'.threads| == n
    requires s' == s.(threads := s.threads[t := s'.threads[t]])
    requires ThreadInv(n, lanes, s', t)
    requires s'.threads[t].work.gen >= s.threads[t].work.gen
    requires s'.threads[t].work.gen == s.threads[t].work.gen >= 0 ==> Frontier(s'.threads[t]) >= Frontier(s.threads[t])
    ensures Inv(n, lanes, s')
  {
    hide SliceStart, SliceSize, EndNonce, NoRepeats;
    forall u | 0 <= u < n
      ensures ThreadInv(n, lanes, s', u)
    {
      assert ThreadInv(n, lanes, s, u);
    }
    forall i | 0 <= i < |s'.tested|
      ensures TestInv(n, s', s'.tested[i])
    {
      assert TestInv(n, s, s.tested[i]);
    }
  }

  lemma InvTest(n: nat, lanes: nat, s: State, t: nat)
    requires Inv(n, lanes, s) && Enabled(n, lanes, s, TestNext(t))
    ensures ThreadInv(n, lanes, s, t)
    ensures Inv(n, lanes, DoTest(s, t))
  {
    assert ThreadInv(n, lanes, s, t);
    SliceBounds(n, t);
    var th := s.threads[t];
    var x := Test(t, th.work.gen, th.work.jobId, th.work.xnonce2, th.phase.next);
    assert InSlice(n, t, x.nonce);
    assert NoRepeats(s.tested + [x]) by {
      forall i | 0 <= i < |s.tested|
        ensures (s.tested[i].gen, s.tested[i].nonce) != (x.gen, x.nonce)
      {
        var y := s.tested[i];
        assert TestInv(n, s, y);
        if y.nonce == x.nonce {
          SlicesDisjoint(n, t, y.thread, x.nonce);
        }
      }
    }
    hide SliceStart, SliceSize, EndNonce;
    var th' := th.(phase := th.phase.(next := th.phase.next + 1));
    var s1 := s.(threads := s.threads[t := th']);
    ThreadChanged(n, lanes, s, s1, t);
    var s' := DoTest(s, t);
    assert s' == s1.(tested := s.tested + [x]);
    assert forall u :: 0 <= u < n ==> ThreadInv(n, lanes, s1, u) ==> ThreadInv(n, lanes, s', u);
    forall i | 0 <= i < |s'.tested|
      ensures TestInv(n, s', s'.tested[i])
    {
      if i < |s.tested| { assert TestInv(n, s1, s1.tested[i]); }
    }
  }

  lemma InvStop(n: nat, lanes: nat, s: State, t: nat)
    requires Inv(n, lanes, s) && Enabled(n, lanes, s, StopScan(t))
    ensures 0 < s.threads[t].phase.next <= TWO32
    ensures Inv(n, lanes, DoStop(s, t))
  {
    assert ThreadInv(n, lanes, s, t);
    SliceBounds(n, t);
    var s' := DoStop(s, t);
    assert InSlice(n, t, s'.threads[t].work.nonce);
    ThreadChanged(n, lanes, s, s', t);
  }

  // ---- Runs

  /** The next state; actions whose effect is not defined leave the state as it is. */
  function Apply(n: nat, s: State, a: Action): State
    requires WellFormed(n, s)
  {
    match a
    case Notify(id, size) => DoNotify(s, id, size)
    case Generate(header) => if s.job.Job? then DoGenerate(s, header) else s
    case Acquire(t, header, scan, maxNonce) =>
      if t < n && s.threads[t].phase.Idle? && |header| == HEADER_BYTES && (Regenerates(n, s, t) ==> s.job.Job?)
      then DoAcquire(n, s, t, header, scan, maxNonce) else s
    case TestNext(t) =>
      if t < n && s.threads[t].phase.Scanning? && s.threads[t].work.gen >= 0 then DoTest(s, t) else s
    case StopScan(t) =>
      if t < n && s.threads[t].phase.Scanning? && 0 < s.threads[t].phase.next <= TWO32 then DoStop(s, t) else s
  }

  /** s is reached from the initial state by the given actions, each enabled when it happens. */
  ghost predicate Reached(n: nat, lanes: nat, actions: seq<Action>, s: State)
    decreases |actions|
  {
    if actions == [] then s == InitialState(n)
    else exists p ::
      && Reached(n, lanes, actions[..|actions| - 1], p)
      && WellFormed(n, p) && Enabled(n, lanes, p, actions[|actions| - 1])
      && s == Apply(n, p, actions[|actions| - 1])
  }

  lemma InvStep(n: nat, lanes: nat, s: State, a: Action)
    requires Inv(n, lanes, s) && Enabled(n, lanes, s, a)
    ensures Inv(n, lanes, Apply(n, s, a))
  {
    hide ThreadInv;
    match a
    case Notify(id, size) => InvNotify(n, lanes, s, id, size);
    case Generate(header) => InvGenerate(n, lanes, s, header);
    case Acquire(t, header, scan, maxNonce) => InvAcquire(n, lanes, s, t, header, scan, maxNonce);
    case TestNext(t) => InvTest(n, lanes, s, t); ScanHasGeneration(n, lanes, s, t);
    case StopScan(t) => InvStop(n, lanes, s, t);
  }

  lemma ScanHasGeneration(n: nat, lanes: nat, s: State, t: nat)
    requires t < n <= |s.threads| && ThreadInv(n, lanes, s, t) && s.threads[t].phase.Scanning?
    ensures s.threads[t].work.gen >= 0
  {
  }

  lemma {:induction false} InvAlways(n: nat, lanes: nat, actions: seq<Action>, s: State)
    requires n > 0 && SliceSize(n) > MARGIN && 0 < lanes <= MARGIN
    requires Reached(n, lanes, actions, s)
    ensures Inv(n, lanes, s)
    decreases |actions|
  {
    hide Inv, Apply, Enabled, InitialState;
    if actions == [] {
      InvInitially(n, lanes);
    } else {
      var a := actions[|actions| - 1];
      var p :| Reached(n, lanes, actions[..|actions| - 1], p)
            && WellFormed(n, p) && Enabled(n, lanes, p, a) && s == Apply(n, p, a);
      InvAlways(n, lanes, actions[..|actions| - 1], p);
      InvStep(n, lanes, p, a);
    }
  }

  function Triple(x: Test): (JobId, seq<Byte>, int)
  {
    (x.jobId, x.xnonce2, x.nonce)
  }

  /**
    In every run of any number of miner threads, with any lane width up to 32: no (job id,
    extranonce2, nonce) triple is tested twice, and every nonce a thread tests lies in its own
    slice of the nonce space.
   */
  lemma NoTripleTestedTwice(n: nat, lanes: nat, actions: seq<Action>, s: State)
    requires n > 0 && SliceSize(n) > 32 && 0 < lanes <= 32
    requires Reached(n, lanes, actions, s)
    ensures forall i, j :: 0 <= i < j < |s.tested| ==> Triple(s.tested[i]) != Triple(s.tested[j])
    ensures forall i :: 0 <= i < |s.tested| ==>
              s.tested[i].thread < n && InSlice(n, s.tested[i].thread, s.tested[i].nonce)
  {
    hide SliceStart, SliceSize;
    InvAlways(n, lanes, actions, s);
    forall i, j | 0 <= i < j < |s.tested|
      ensures Triple(s.tested[i]) != Triple(s.tested[j])
    {
      var x, y := s.tested[i], s.tested[j];
      assert TestInv(n, s, x) && TestInv(n, s, y);
      if x.gen < y.gen {
        assert s.generations[x.gen] != s.generations[y.gen];
      } else if y.gen < x.gen {
        assert s.generations[y.gen] != s.generations[x.gen];
      }
    }
    assert forall i :: 0 <= i < |s.tested| ==> TestInv(n, s, s.tested[i]);
  }

  /** In every run, a scan that is under way never carries its nonce counter past 32 bits: the
      margin covers the lanes that run past the bound. */
  lemma LanesNeverWrap(n: nat, lanes: nat, actions: seq<Action>, s: State, t: nat)
    requires n > 0 && SliceSize(n) > 32 && 0 < lanes <= 32
    requires Reached(n, lanes, actions, s)
    requires t < n && t < |s.threads| && s.threads[t].phase.Scanning?
    ensures Max(s.threads[t].work.nonce, s.threads[t].phase.maxNonce) + lanes <= SliceStart(n, t + 1) < TWO32
  {
    InvAlways(n, lanes, actions, s);
    assert ThreadInv(n, lanes, s, t);
    SliceBounds(n, t);
  }

  // ---- What the comparison really compares

  /** The works count as different exactly when header bytes 43..75 differ; a change confined to
      bytes 0..42 (version, previous block, the first seven bytes of the Merkle root) is missed. */
  lemma ComparedBytes(a: seq<Byte>, b: seq<Byte>)
    requires |a| == |b| == HEADER_BYTES
    ensures Differs(a, b) <==> exists i :: 43 <= i < HEADER_BYTES && a[i] != b[i]
  {
  }

  /** A new previous-block hash alone does not make a thread leave its old work. */
  lemma NewBlockMissed(t: nat, n: nat, mine: Work)
    requires t < n && |mine.header| == HEADER_BYTES && mine.nonce < 0xffff_ffff
    ensures exists other: seq<Byte> ::
              && |other| == HEADER_BYTES && other != mine.header
              && Acquired(n, t, mine, mine.(header := other)) == mine.(nonce := mine.nonce + 1)
  {
    var b: Byte := if mine.header[4] == 0 then 1 else 0;
    var other: seq<Byte> := mine.header[4 := b];
    assert other[4] != mine.header[4];
    assert other[43..] == mine.header[43..];
    assert Acquired(n, t, mine, mine.(header := other)) == mine.(nonce := mine.nonce + 1);
  }

  /** The freshness hypothesis is exact: an exhausted thread stays within its bound after
      regenerating if and only if the regenerated header differs from its own in bytes 43..75. */
  lemma ExhaustedThread(n: nat, lanes: nat, s: State, t: nat, header: seq<Byte>)
    requires Inv(n, lanes, s) && t < n && s.job.Job? && |header| == HEADER_BYTES
    requires s.threads[t].work.gen >= 0 && Regenerates(n, s, t)
    ensures Acquired(n, t, s.threads[t].work, DoGenerate(s, header).gWork).nonce <= EndNonce(n, t)
       <==> Differs(s.threads[t].work.header, header)
  {
    SliceBounds(n, t);
    assert ThreadInv(n, lanes, s, t);
  }
}
