/**
The parallel proof-of-work search.  The main thread creates and joins the workers; each worker scans
its own range of 32-bit nonces and they share one result cell, where 0 stands for "nothing found".
A step is one access to shared memory together with the local work up to it, so a run is any
interleaving of such steps.  The digest is a function of the nonce, the challenge being fixed.
*/
module ProofOfWork {

  const MODULUS: nat := 0x1_0000_0000
  const MAX_NONCE: nat := 0xFFFF_FFFF

  type Digest = seq<bv8>

  /** Unsigned 32-bit arithmetic wraps around. */
  function Wrap(x: int): nat { x % MODULUS }

  /** One search: the digest of each nonce, the target mask and the number of threads. */
  datatype Job = Job(digest: nat -> Digest, target: Digest, threads: nat)

  /** The thread count is an unsigned int; with 0 the division of line 99 is undefined. */
  ghost predicate Runnable(job: Job) { 1 <= job.threads <= MAX_NONCE }

  // ---------------------------------------------------------------- the target test

  /** Every bit set in the target is set in the digest. */
  ghost predicate Meets(digest: Digest, target: Digest) {
    |digest| >= |target| && forall i :: 0 <= i < |target| ==> digest[i] & target[i] == target[i]
  }

  /** The byte loop of `compute_range` and `verify_pow`, with its early exit. */
  method MeetsTarget(digest: Digest, target: Digest) returns (valid: bool)
    requires |digest| >= |target|
    ensures valid <==> Meets(digest, target)
  {
    for i := 0 to |target|
      invariant forall j :: 0 <= j < i ==> digest[j] & target[j] == target[j]
    {
      if digest[i] & target[i] != target[i] {
        return false;
      }
    }
    return true;
  }

  /** The test passes exactly if every selection of bits that is set in the target is set in the digest. */
  lemma MeetsMeans(digest: Digest, target: Digest)
    ensures Meets(digest, target) <==>
            |digest| >= |target| && forall i :: 0 <= i < |target| ==> Includes(digest[i], target[i])
  {
    forall i | 0 <= i < |target| <= |digest|
      ensures digest[i] & target[i] == target[i] <==> Includes(digest[i], target[i])
    {
      IncludesIff(digest[i], target[i]);
    }
  }

  predicate Has(x: bv8, bits: bv8) { x & bits == bits }

  ghost predicate Includes(x: bv8, y: bv8) {
    forall bits :: Has(y, bits) ==> Has(x, bits)
  }

  lemma IncludesIff(x: bv8, y: bv8)
    ensures x & y == y <==> Includes(x, y)
  {
    if Includes(x, y) { assert Has(y, y); }
  }

  /** `verify_pow` accepts the nonce. */
  ghost predicate Verifies(job: Job, nonce: nat) {
    Meets(job.digest(nonce), job.target)
  }

  // ---------------------------------------------------------------- ranges

  function Range(job: Job): nat
    requires job.threads > 0
  {
    MAX_NONCE / job.threads
  }

  function StartOf(job: Job, i: nat): nat
    requires job.threads > 0
  {
    Wrap(i * Range(job))
  }

  function EndOf(job: Job, i: nat): nat
    requires job.threads > 0
  {
    Wrap(Wrap((i + 1) * Range(job)) - 1)
  }

  /** How many nonces, from 0 on, the ranges cover together. */
  function Covered(job: Job): nat
    requires job.threads > 0
  {
    job.threads * Range(job)
  }

  lemma MulMonotone(a: nat, b: nat, c: nat)
    requires a <= b
    ensures a * c <= b * c
  {}

  /** Nothing wraps: range `i` runs from `i * range` to just before `(i + 1) * range`. */
  lemma RangesDoNotWrap(job: Job, i: nat)
    requires Runnable(job) && i < job.threads
    ensures Range(job) >= 1
    ensures StartOf(job, i) == i * Range(job) && EndOf(job, i) == (i + 1) * Range(job) - 1
    ensures StartOf(job, i) <= EndOf(job, i) < Covered(job) <= MAX_NONCE
  {
    var range := Range(job);
    MulMonotone(i + 1, job.threads, range);
    assert (i + 1) * range == i * range + range;
    assert job.threads * range <= MAX_NONCE;
    assert range >= 1;
  }

  lemma RangesDisjoint(job: Job, i: nat, j: nat)
    requires Runnable(job) && i < j < job.threads
    ensures EndOf(job, i) < StartOf(job, j)
  {
    RangesDoNotWrap(job, i);
    RangesDoNotWrap(job, j);
    MulMonotone(i + 1, j, Range(job));
  }

  /** The thread in whose range a covered nonce lies. */
  lemma RangeOf(job: Job, nonce: nat) returns (i: nat)
    requires Runnable(job) && nonce < Covered(job)
    ensures i < job.threads && StartOf(job, i) <= nonce <= EndOf(job, i)
  {
    RangesDoNotWrap(job, 0);
    var range := Range(job);
    i := nonce / range;
    QuotientBounds(nonce, range);
    hide Range, Wrap;
    if i >= job.threads {
      MulMonotone(job.threads, i, range);
      assert false;
    }
    RangesDoNotWrap(job, i);
    assert (i + 1) * range == i * range + range;
  }

  ghost predicate InRange(job: Job, i: nat, nonce: nat)
    requires job.threads > 0
  {
    i < job.threads && StartOf(job, i) <= nonce <= EndOf(job, i)
  }

  /** A nonce below `Covered` is in exactly one range, any other in none; at most `threads` are left out. */
  lemma RangesPartition(job: Job, nonce: nat)
    requires Runnable(job)
    ensures nonce < Covered(job) <==> exists i: nat :: InRange(job, i, nonce)
    ensures forall i: nat, j: nat :: InRange(job, i, nonce) && InRange(job, j, nonce) ==> i == j
    ensures MODULUS - Covered(job) <= job.threads
  {
    hide Range, Wrap, StartOf, EndOf;
    if nonce < Covered(job) {
      var i := RangeOf(job, nonce);
      assert InRange(job, i, nonce);
    }
    if i: nat :| InRange(job, i, nonce) {
      RangesDoNotWrap(job, i);
    }
    forall i: nat, j: nat | InRange(job, i, nonce) && InRange(job, j, nonce) ensures i == j {
      if i < j { RangesDisjoint(job, i, j); }
      if j < i { RangesDisjoint(job, j, i); }
    }
    LeftOut(job);
  }

  lemma LeftOut(job: Job)
    requires Runnable(job)
    ensures MODULUS - Covered(job) <= job.threads
  {
    QuotientBounds(MAX_NONCE, job.threads);
  }

  lemma QuotientBounds(n: nat, d: nat)
    requires d > 0
    ensures (n / d) * d <= n < (n / d) * d + d
  {}

  // ---------------------------------------------------------------- the threads

  /** A worker is not created yet, about to test its loop condition, about to hash its nonce, about to
      write the nonce it found good, or done. */
  datatype Pc = Unborn | Checking | Hashing | Storing | Done

  datatype Worker = Worker(pc: Pc, nonce: nat)

  /** The main thread creates the workers in order, joins them in order and then reads the result. */
  datatype Control = Creating(next: nat) | Joining(next: nat) | Returned(result: int)

  datatype State = State(found: nat, control: Control, workers: seq<Worker>)

  ghost function Init(job: Job): State
    requires job.threads > 0
  {
    State(0, Creating(0), seq(job.threads, i requires 0 <= i => Worker(Unborn, StartOf(job, i))))
  }

  /** One step of worker `i`, which exists and is not done. */
  ghost function WorkerStep(job: Job, s: State, i: nat): State
    requires job.threads > 0 && i < |s.workers|
  {
    var w := s.workers[i];
    match w.pc
    case Checking =>
      var goesOn := w.nonce <= EndOf(job, i) && s.found == 0;
      s.(workers := s.workers[i := w.(pc := if goesOn then Hashing else Done)])
    case Hashing =>
      if Verifies(job, w.nonce) then s.(workers := s.workers[i := w.(pc := Storing)])
      else s.(workers := s.workers[i := Worker(Checking, Wrap(w.nonce + 1))])
    case Storing =>
      s.(found := w.nonce, workers := s.workers[i := w.(pc := Done)])
    case Unborn => s
    case Done => s
  }

  ghost predicate CanWork(s: State, i: nat) {
    i < |s.workers| && s.workers[i].pc != Unborn && s.workers[i].pc != Done
  }

  /** The main thread's next step, if it is not waiting in a join or finished. */
  ghost predicate CanControl(s: State) {
    match s.control
    case Creating(_) => true
    case Joining(j) => j < |s.workers| ==> s.workers[j].pc == Done
    case Returned(_) => false
  }

  ghost function ControlStep(s: State): State {
    match s.control
    case Creating(i) =>
      if i < |s.workers| then
        s.(control := Creating(i + 1), workers := s.workers[i := s.workers[i].(pc := Checking)])
      else s.(control := Joining(0))
    case Joining(j) =>
      if j < |s.workers| then s.(control := Joining(j + 1))
      else s.(control := Returned(if s.found != 0 then 1 else 0))
    case Returned(_) => s
  }

  ghost predicate Step(job: Job, s: State, s': State)
    requires job.threads > 0
  {
    || (CanControl(s) && s' == ControlStep(s))
    || (exists i: nat :: CanWork(s, i) && s' == WorkerStep(job, s, i))
  }

  ghost predicate ReachedIn(job: Job, s: State, k: nat)
    requires job.threads > 0
    decreases k
  {
    if k == 0 then s == Init(job)
    else exists p :: ReachedIn(job, p, k - 1) && Step(job, p, s)
  }

  ghost predicate Reachable(job: Job, s: State)
    requires job.threads > 0
  {
    exists k: nat :: ReachedIn(job, s, k)
  }

  lemma LastStep(job: Job, s: State, k: nat) returns (p: State)
    requires job.threads > 0 && ReachedIn(job, s, k)
    ensures k == 0 ==> s == Init(job)
    ensures k > 0 ==> ReachedIn(job, p, k - 1) && Step(job, p, s)
  {
    p := s;
    if k > 0 { p :| ReachedIn(job, p, k - 1) && Step(job, p, s); }
  }

  // ---------------------------------------------------------------- invariant

  /** What worker `i` has done so far: everything before its nonce was tried in vain. */
  ghost predicate WorkerInv(job: Job, found: nat, i: nat, w: Worker)
    requires job.threads > 0
  {
    && StartOf(job, i) <= w.nonce <= EndOf(job, i) + 1
    && (forall n :: StartOf(job, i) <= n < w.nonce ==> !Verifies(job, n))
    && (w.pc == Hashing || w.pc == Storing ==> w.nonce <= EndOf(job, i))
    && (w.pc == Storing ==> Verifies(job, w.nonce))
    && (w.pc == Done && w.nonce <= EndOf(job, i) && !Verifies(job, 0) ==> found != 0)
  }

  ghost predicate ControlInv(s: State) {
    match s.control
    case Creating(k) => k <= |s.workers| && forall i :: 0 <= i < |s.workers| ==> (s.workers[i].pc == Unborn <==> i >= k)
    case Joining(k) =>
      && k <= |s.workers|
      && (forall i :: 0 <= i < |s.workers| ==> s.workers[i].pc != Unborn)
      && (forall i :: 0 <= i < k ==> s.workers[i].pc == Done)
    case Returned(r) =>
      && (forall i :: 0 <= i < |s.workers| ==> s.workers[i].pc == Done)
      && r == if s.found != 0 then 1 else 0
  }

  ghost predicate Inv(job: Job, s: State)
    requires job.threads > 0
  {
    && |s.workers| == job.threads
    && (s.found != 0 ==> Verifies(job, s.found) && s.found < Covered(job))
    && (forall i :: 0 <= i < |s.workers| ==> WorkerInv(job, s.found, i, s.workers[i]))
    && ControlInv(s)
  }

  lemma InitInv(job: Job)
    requires Runnable(job)
    ensures Inv(job, Init(job))
  {
    forall i | 0 <= i < job.threads ensures WorkerInv(job, 0, i, Init(job).workers[i]) {
      RangesDoNotWrap(job, i);
    }
  }

  /** A worker's own step keeps its account straight and stores only nonces that verify. */
  lemma WorkerKeeps(job: Job, s: State, i: nat)
    requires Runnable(job) && |s.workers| == job.threads && CanWork(s, i)
    requires WorkerInv(job, s.found, i, s.workers[i])
    ensures var s' := WorkerStep(job, s, i);
            && |s'.workers| == |s.workers|
            && s'.workers == s.workers[i := s'.workers[i]] && s'.control == s.control
            && WorkerInv(job, s'.found, i, s'.workers[i])
            && s'.workers[i].pc != Unborn
            && (s'.found == s.found || (Verifies(job, s'.found) && s'.found < Covered(job)))
            && (!Verifies(job, 0) && s.found != 0 ==> s'.found != 0)
  {
    hide Range, StartOf, EndOf, Covered, Meets, Verifies;
    RangesDoNotWrap(job, i);
  }

  lemma WorkerStepInv(job: Job, s: State, i: nat)
    requires Runnable(job) && Inv(job, s) && CanWork(s, i)
    ensures Inv(job, WorkerStep(job, s, i))
  {
    WorkerKeeps(job, s, i);
    hide WorkerStep, StartOf, EndOf, Verifies, Covered;
  }

  lemma ControlStepInv(job: Job, s: State)
    requires job.threads > 0 && Inv(job, s) && CanControl(s)
    ensures Inv(job, ControlStep(s))
  {
    hide StartOf, EndOf, Verifies, Covered;
  }

  /** Every state of every interleaving satisfies the invariant. */
  lemma {:induction false} ReachedInv(job: Job, s: State, k: nat)
    requires Runnable(job) && ReachedIn(job, s, k)
    ensures Inv(job, s)
    decreases k
  {
    if k == 0 {
      InitInv(job);
    } else {
      var p :| ReachedIn(job, p, k - 1) && Step(job, p, s);
      ReachedInv(job, p, k - 1);
      if CanControl(p) && s == ControlStep(p) {
        ControlStepInv(job, p);
      } else {
        var i: nat :| CanWork(p, i) && s == WorkerStep(job, p, i);
        WorkerStepInv(job, p, i);
      }
    }
  }

  /** Whatever the interleaving, a shared result is a nonce that verifies, and no nonce ever wraps. */
  lemma ResultsVerify(job: Job, s: State)
    requires Runnable(job) && Reachable(job, s)
    ensures s.found != 0 ==> Verifies(job, s.found) && s.found < Covered(job)
    ensures forall i :: 0 <= i < |s.workers| ==> s.workers[i].nonce <= MAX_NONCE
  {
    var k: nat :| ReachedIn(job, s, k);
    ReachedInv(job, s, k);
    forall i | 0 <= i < |s.workers| ensures s.workers[i].nonce <= MAX_NONCE {
      RangesDoNotWrap(job, i);
      assert WorkerInv(job, s.found, i, s.workers[i]);
    }
  }

  /** Some covered nonce verifies. */
  ghost predicate Solvable(job: Job)
    requires job.threads > 0
  {
    exists n: nat :: n < Covered(job) && Verifies(job, n)
  }

  /** When the call returns 0, "no covered nonce verifies" holds exactly if nonce 0 does not verify; and
      unless nonce 0 verifies, the call returns 1 exactly if there is something to find. */
  lemma ReturnMeans(job: Job, s: State)
    requires Runnable(job) && Reachable(job, s) && s.control.Returned?
    ensures s.control.result == 0 || s.control.result == 1
    ensures s.control.result == 1 ==> Solvable(job)
    ensures s.control.result == 0 ==> (!Solvable(job) <==> !Verifies(job, 0))
    ensures !Verifies(job, 0) ==> (s.control.result == 1 <==> Solvable(job))
  {
    var k: nat :| ReachedIn(job, s, k);
    ReachedInv(job, s, k);
    RangesDoNotWrap(job, 0);
    if !Verifies(job, 0) && s.found == 0 {
      forall n: nat | n < Covered(job) ensures !Verifies(job, n) {
        NothingMissed(job, s, n);
      }
    }
  }

  lemma NothingMissed(job: Job, s: State, n: nat)
    requires Runnable(job) && Inv(job, s) && s.control.Returned? && s.found == 0 && !Verifies(job, 0)
    requires n < Covered(job)
    ensures !Verifies(job, n)
  {
    var i := RangeOf(job, n);
    assert WorkerInv(job, s.found, i, s.workers[i]);
  }

  // ---------------------------------------------------------------- nonce 0

  /** A single thread that finds nonce 0 good stores it as "nothing found": every run returns 0. */
  lemma {:induction false} ZeroIsLost(job: Job, s: State, k: nat)
    requires Runnable(job) && job.threads == 1 && Verifies(job, 0) && ReachedIn(job, s, k)
    ensures s.found == 0 && (s.control.Returned? ==> s.control.result == 0)
    decreases k
  {
    hide ReachedIn, Inv, Step, Verifies;
    ReachedInv(job, s, k);
    ReturnsFound(job, s);
    var p := LastStep(job, s, k);
    if k > 0 {
      ReachedInv(job, p, k - 1);
      ZeroIsLost(job, p, k - 1);
      ZeroStays(job, p, s);
    }
  }

  lemma ReturnsFound(job: Job, s: State)
    requires job.threads > 0 && Inv(job, s)
    ensures s.control.Returned? ==> s.control.result == if s.found != 0 then 1 else 0
  {}

  lemma ZeroStays(job: Job, s: State, s': State)
    requires Runnable(job) && job.threads == 1 && Verifies(job, 0)
    requires Inv(job, s) && s.found == 0 && Step(job, s, s')
    ensures s'.found == 0
  {
    assert WorkerInv(job, s.found, 0, s.workers[0]);
    assert StartOf(job, 0) == 0;
    assert s.workers[0].nonce <= 0;
  }

  lemma ReachWorker(job: Job, s: State, i: nat) returns (s': State)
    requires job.threads > 0 && Reachable(job, s) && CanWork(s, i)
    ensures Reachable(job, s') && s' == WorkerStep(job, s, i)
  {
    s' := WorkerStep(job, s, i);
    var k: nat :| ReachedIn(job, s, k);
    assert Step(job, s, s');
    assert ReachedIn(job, s', k + 1);
  }

  lemma ReachControl(job: Job, s: State) returns (s': State)
    requires job.threads > 0 && Reachable(job, s) && CanControl(s)
    ensures Reachable(job, s') && s' == ControlStep(s)
  {
    s' := ControlStep(s);
    var k: nat :| ReachedIn(job, s, k);
    assert Step(job, s, s');
    assert ReachedIn(job, s', k + 1);
  }

  // ---------------------------------------------------------------- every run ends

  /** Until the call has returned, some thread can step. */
  lemma SomeoneSteps(job: Job, s: State)
    requires Runnable(job) && Reachable(job, s) && !s.control.Returned?
    ensures CanControl(s) || exists i: nat :: CanWork(s, i)
  {
    var k: nat :| ReachedIn(job, s, k);
    ReachedInv(job, s, k);
    if s.control.Joining? && s.control.next < |s.workers| && s.workers[s.control.next].pc != Done {
      assert CanWork(s, s.control.next);
    }
  }

  /** A bound on the steps a worker has left. */
  ghost function WorkLeft(job: Job, i: nat, w: Worker): nat
    requires job.threads > 0
  {
    var tries := if w.nonce <= EndOf(job, i) then 3 * (EndOf(job, i) + 1 - w.nonce) else 0;
    match w.pc
    case Unborn => tries + 2
    case Checking => tries + 1
    case Hashing => tries
    case Storing => 1
    case Done => 0
  }

  ghost function TotalLeft(job: Job, ws: seq<Worker>): nat
    requires job.threads > 0
  {
    if ws == [] then 0 else TotalLeft(job, ws[..|ws| - 1]) + WorkLeft(job, |ws| - 1, ws[|ws| - 1])
  }

  ghost function StepsLeft(job: Job, s: State): int
    requires job.threads > 0
  {
    TotalLeft(job, s.workers) + match s.control
    case Creating(i) => 2 * |s.workers| + 2 - i
    case Joining(j) => |s.workers| + 1 - j
    case Returned(_) => 0
  }

  lemma {:induction false} TotalLeftUpdate(job: Job, ws: seq<Worker>, i: nat, w: Worker)
    requires job.threads > 0 && i < |ws|
    ensures TotalLeft(job, ws[i := w]) == TotalLeft(job, ws) - WorkLeft(job, i, ws[i]) + WorkLeft(job, i, w)
  {
    if i == |ws| - 1 {
      assert ws[i := w][..|ws| - 1] == ws[..|ws| - 1];
    } else {
      assert ws[i := w][..|ws| - 1] == ws[..|ws| - 1][i := w];
      TotalLeftUpdate(job, ws[..|ws| - 1], i, w);
    }
  }

  lemma WorkerStepShrinks(job: Job, s: State, i: nat)
    requires Runnable(job) && Inv(job, s) && CanWork(s, i)
    ensures StepsLeft(job, WorkerStep(job, s, i)) < StepsLeft(job, s)
  {
    var s' := WorkerStep(job, s, i);
    OwnWorkShrinks(job, s, i);
    TotalLeftUpdate(job, s.workers, i, s'.workers[i]);
    WorkerKeeps(job, s, i);
    hide WorkerStep, WorkLeft, TotalLeft;
  }

  lemma OwnWorkShrinks(job: Job, s: State, i: nat)
    requires Runnable(job) && |s.workers| == job.threads && CanWork(s, i)
    requires WorkerInv(job, s.found, i, s.workers[i])
    ensures WorkLeft(job, i, WorkerStep(job, s, i).workers[i]) < WorkLeft(job, i, s.workers[i])
  {
    RangesDoNotWrap(job, i);
    hide Range, StartOf, EndOf, Covered, Verifies;
  }

  lemma ControlStepShrinks(job: Job, s: State)
    requires Runnable(job) && Inv(job, s) && CanControl(s)
    ensures StepsLeft(job, ControlStep(s)) < StepsLeft(job, s)
  {
    if s.control.Creating? && s.control.next < |s.workers| {
      TotalLeftUpdate(job, s.workers, s.control.next, s.workers[s.control.next].(pc := Checking));
    }
    hide EndOf, TotalLeft;
  }

  lemma StepShrinks(job: Job, s: State, s': State)
    requires Runnable(job) && Inv(job, s) && Step(job, s, s')
    ensures StepsLeft(job, s') < StepsLeft(job, s)
  {
    if CanControl(s) && s' == ControlStep(s) {
      ControlStepShrinks(job, s);
    } else {
      var i: nat :| CanWork(s, i) && s' == WorkerStep(job, s, i);
      WorkerStepShrinks(job, s, i);
    }
  }

  /** No interleaving goes on for ever: each step uses up some of what was there at the start. */
  lemma {:induction false} RunsAreBounded(job: Job, s: State, k: nat)
    requires Runnable(job) && ReachedIn(job, s, k)
    ensures k + StepsLeft(job, s) <= StepsLeft(job, Init(job)) && StepsLeft(job, s) >= 0
    decreases k
  {
    hide ReachedIn, StepsLeft, Inv, Step, Init;
    ReachedInv(job, s, k);
    StepsLeftNatural(job, s);
    var p := LastStep(job, s, k);
    if k > 0 {
      RunsAreBounded(job, p, k - 1);
      ReachedInv(job, p, k - 1);
      StepShrinks(job, p, s);
    }
  }

  lemma StepsLeftNatural(job: Job, s: State)
    requires job.threads > 0 && Inv(job, s)
    ensures StepsLeft(job, s) >= 0
  {}

  // ---------------------------------------------------------------- stopping early

  ghost predicate FollowsIn(job: Job, s: State, s': State, k: nat)
    requires job.threads > 0
    decreases k
  {
    if k == 0 then s' == s else exists p :: FollowsIn(job, s, p, k - 1) && Step(job, p, s')
  }

  /** How many steps a worker takes at most once something was found. */
  ghost function FewLeft(pc: Pc): nat {
    match pc
    case Done => 0
    case Hashing => 2
    case _ => 1
  }

  ghost function AllFewLeft(ws: seq<Worker>): (n: nat)
    ensures n <= 2 * |ws|
  {
    if ws == [] then 0 else AllFewLeft(ws[..|ws| - 1]) + FewLeft(ws[|ws| - 1].pc)
  }

  ghost function SoonDone(s: State): int {
    AllFewLeft(s.workers) + match s.control
    case Creating(i) => 2 * |s.workers| + 2 - i
    case Joining(j) => |s.workers| + 1 - j
    case Returned(_) => 0
  }

  lemma {:induction false} AllFewLeftUpdate(ws: seq<Worker>, i: nat, w: Worker)
    requires i < |ws|
    ensures AllFewLeft(ws[i := w]) == AllFewLeft(ws) - FewLeft(ws[i].pc) + FewLeft(w.pc)
  {
    if i == |ws| - 1 {
      assert ws[i := w][..|ws| - 1] == ws[..|ws| - 1];
    } else {
      assert ws[i := w][..|ws| - 1] == ws[..|ws| - 1][i := w];
      AllFewLeftUpdate(ws[..|ws| - 1], i, w);
    }
  }

  lemma WorkerSoonDone(job: Job, s: State, i: nat)
    requires Runnable(job) && Inv(job, s) && CanWork(s, i) && s.found != 0 && !Verifies(job, 0)
    ensures var s' := WorkerStep(job, s, i); s'.found != 0 && SoonDone(s') < SoonDone(s)
  {
    hide Verifies, Meets, StartOf, EndOf, Covered, AllFewLeft, Wrap;
    var s' := WorkerStep(job, s, i);
    WorkerKeeps(job, s, i);
    AllFewLeftUpdate(s.workers, i, s'.workers[i]);
  }

  lemma ControlSoonDone(job: Job, s: State)
    requires Runnable(job) && Inv(job, s) && CanControl(s)
    ensures ControlStep(s).found == s.found && SoonDone(ControlStep(s)) < SoonDone(s)
  {
    hide WorkerInv, AllFewLeft;
    if s.control.Creating? && s.control.next < |s.workers| {
      AllFewLeftUpdate(s.workers, s.control.next, s.workers[s.control.next].(pc := Checking));
    }
  }

  lemma {:induction false} FoundCountsDown(job: Job, s: State, s': State, k: nat)
    requires Runnable(job) && Inv(job, s) && s.found != 0 && !Verifies(job, 0) && FollowsIn(job, s, s', k)
    ensures Inv(job, s') && s'.found != 0 && k + SoonDone(s') <= SoonDone(s)
    decreases k
  {
    hide Inv, Verifies, SoonDone, WorkerStep, ControlStep;
    if k > 0 {
      var p :| FollowsIn(job, s, p, k - 1) && Step(job, p, s');
      FoundCountsDown(job, s, p, k - 1);
      if CanControl(p) && s' == ControlStep(p) {
        ControlStepInv(job, p);
        ControlSoonDone(job, p);
      } else {
        var i: nat :| CanWork(p, i) && s' == WorkerStep(job, p, i);
        WorkerStepInv(job, p, i);
        WorkerSoonDone(job, p, i);
      }
    }
  }

  /** Once a result is there and nonce 0 cannot erase it, every interleaving ends within a few steps per thread. */
  lemma StopsSoon(job: Job, s: State, s': State, k: nat)
    requires Runnable(job) && Reachable(job, s) && s.found != 0 && !Verifies(job, 0) && FollowsIn(job, s, s', k)
    ensures s'.found != 0 && k <= 4 * job.threads + 2
  {
    var j: nat :| ReachedIn(job, s, j);
    ReachedInv(job, s, j);
    hide WorkerInv, Verifies, AllFewLeft;
    FoundCountsDown(job, s, s', k);
  }

  // ---------------------------------------------------------------- when the return value can be trusted

  /** All workers are created before any of them steps. */
  lemma {:induction false} CreateAll(job: Job, s: State, k: nat) returns (s': State)
    requires job.threads > 0 && Reachable(job, s) && k <= |s.workers| && s.control == Creating(k)
    requires forall i :: 0 <= i < |s.workers| ==> s.workers[i] == Worker(if i < k then Checking else Unborn, StartOf(job, i))
    ensures Reachable(job, s') && s'.control == Joining(0) && s'.found == s.found && |s'.workers| == |s.workers|
    ensures forall i :: 0 <= i < |s'.workers| ==> s'.workers[i] == Worker(Checking, StartOf(job, i))
    decreases |s.workers| - k
  {
    hide Reachable, StartOf;
    s' := ReachControl(job, s);
    if k < |s.workers| { s' := CreateAll(job, s', k + 1); }
  }

  /** Worker 0 has found nonce 0 good and is about to store it. */
  ghost predicate Parked(job: Job, s: State)
    requires job.threads > 0
  {
    Inv(job, s) && s.control == Joining(0) && s.workers[0] == Worker(Storing, 0)
  }

  lemma ParkFirst(job: Job) returns (s: State)
    requires Runnable(job) && Verifies(job, 0)
    ensures Reachable(job, s) && Parked(job, s)
  {
    RangesDoNotWrap(job, 0);
    assert ReachedIn(job, Init(job), 0);
    s := CreateAll(job, Init(job), 0);
    hide Verifies;
    s := ReachWorker(job, s, 0);
    s := ReachWorker(job, s, 0);
    var k: nat :| ReachedIn(job, s, k);
    ReachedInv(job, s, k);
  }

  /** The other workers run to their end, whatever they find. */
  lemma {:induction false} OthersFinish(job: Job, s: State) returns (s': State)
    requires Runnable(job) && Reachable(job, s) && Parked(job, s)
    ensures Reachable(job, s') && Parked(job, s')
    ensures forall i :: 1 <= i < |s'.workers| ==> s'.workers[i].pc == Done
    decreases StepsLeft(job, s)
  {
    s' := s;
    StepsLeftNatural(job, s);
    if i: nat :| 1 <= i < |s.workers| && s.workers[i].pc != Done {
      assert CanWork(s, i);
      WorkerStepShrinks(job, s, i);
      WorkerStepInv(job, s, i);
      WorkerKeeps(job, s, i);
      hide Reachable, StepsLeft, WorkerInv;
      s' := ReachWorker(job, s, i);
      StepsLeftNatural(job, s');
      s' := OthersFinish(job, s');
    }
  }

  lemma {:induction false} JoinAll(job: Job, s: State, k: nat) returns (s': State)
    requires job.threads > 0 && Reachable(job, s) && k <= |s.workers| && s.control == Joining(k)
    requires forall i :: 0 <= i < |s.workers| ==> s.workers[i].pc == Done
    ensures Reachable(job, s') && s'.control == Returned(if s.found != 0 then 1 else 0)
    decreases |s.workers| - k
  {
    hide Reachable;
    s' := ReachControl(job, s);
    if k < |s.workers| { s' := JoinAll(job, s', k + 1); }
  }

  /** With any number of threads, whatever else they find, a good nonce 0 can make the call return 0:
      its thread stores last and erases what the others stored. */
  lemma ZeroErases(job: Job) returns (s: State)
    requires Runnable(job) && Verifies(job, 0)
    ensures Reachable(job, s) && s.control == Returned(0)
  {
    s := ParkFirst(job);
    s := OthersFinish(job, s);
    hide Reachable, Verifies, WorkerInv;
    assert CanWork(s, 0);
    s := ReachWorker(job, s, 0);
    s := JoinAll(job, s, 0);
  }

  /** The return value says in every run whether a covered nonce verifies, exactly if nonce 0 does not. */
  lemma ReturnExactIff(job: Job)
    requires Runnable(job)
    ensures (forall s :: Reachable(job, s) && s.control.Returned? ==> (s.control.result == 1 <==> Solvable(job))) <==>
            !Verifies(job, 0)
  {
    hide Verifies, Reachable;
    if Verifies(job, 0) {
      var s := ZeroErases(job);
      RangesDoNotWrap(job, 0);
      assert Solvable(job);
    } else {
      forall s | Reachable(job, s) && s.control.Returned? ensures s.control.result == 1 <==> Solvable(job) {
        ReturnMeans(job, s);
      }
    }
  }
}
