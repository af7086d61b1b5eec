/**
The capability registry as a state machine.  Any number of `register` and `execute` tasks run
interleaved; a step of a task is what it does between two awaits.  Both operations take the lock of
the capability table first and that of the pool table second, and `execute` keeps both, and a permit
of the capability's semaphore, until the capability's body has returned, failed or timed out.
*/
module CapabilityRegistry {
  import opened Optional

  type CapId = nat

  /** Versions by their place in the total order of semantic versions. */
  type Version = nat

  datatype Request =
    | Register(id: CapId, version: Version, cores: real)
    | Execute(id: CapId, matches: Version -> bool)

  datatype Result =
    | Succeeded | AlreadyRegistered | NotFound | NoCompatibleVersion | PoolMissing | BodyFailed | Cancelled

  /** Where a task stands; `version` is what `execute` has selected. */
  datatype Pc =
    | WantCaps
    | InCaps
    | WantPools(version: Version)
    | InPools(version: Version)
    | WantPermit(version: Version)
    | Running(version: Version)
    | Done(result: Result)

  datatype Pool = Pool(capacity: nat, free: nat)

  datatype State = State(
    caps: map<CapId, set<Version>>,
    pools: map<CapId, Pool>,
    capsLock: Option<nat>,
    poolsLock: Option<nat>,
    pcs: seq<Pc>)

  /** `cpu_cores as usize`: the fraction is cut off and a negative number gives 0. */
  function Capacity(cores: real): nat {
    if cores < 0.0 then 0 else cores.Floor
  }

  lemma CapacityTruncates(cores: real)
    ensures cores < 1.0 ==> Capacity(cores) == 0
    ensures cores >= 0.0 ==> Capacity(cores) as real <= cores < Capacity(cores) as real + 1.0
  {}

  predicate HoldsCaps(pc: Pc) { !pc.WantCaps? && !pc.Done? }

  predicate HoldsPools(pc: Pc) { pc.InPools? || pc.WantPermit? || pc.Running? }

  ghost function Init(reqs: seq<Request>): State {
    State(map[], map[], None, None, seq(|reqs|, _ => WantCaps))
  }

  // ---------------------------------------------------------------- selecting a version

  ghost predicate IsLatest(versions: set<Version>, matches: Version -> bool, v: Version) {
    v in versions && matches(v) && forall w :: w in versions && matches(w) ==> w <= v
  }

  ghost predicate AnyMatches(versions: set<Version>, matches: Version -> bool) {
    exists v :: v in versions && matches(v)
  }

  lemma {:induction false} LatestExists(versions: set<Version>, matches: Version -> bool)
    requires AnyMatches(versions, matches)
    ensures exists v :: IsLatest(versions, matches, v)
  {
    var v :| v in versions && matches(v);
    var above := set w | w in versions && matches(w) && w > v;
    if above == {} {
      assert forall w :: w in versions && matches(w) ==> w !in above;
      assert IsLatest(versions, matches, v);
    } else {
      var w :| w in above;
      var rest := versions - {v};
      assert w in rest;
      LatestExists(rest, matches);
      var u :| IsLatest(rest, matches, u);
      assert IsLatest(versions, matches, u);
    }
  }

  ghost function Latest(versions: set<Version>, matches: Version -> bool): (v: Version)
    requires AnyMatches(versions, matches)
    ensures IsLatest(versions, matches, v)
  {
    LatestExists(versions, matches);
    var v :| IsLatest(versions, matches, v);
    v
  }

  /** The scan of line 115 over the versions in ascending order: the last that matches. */
  method SelectVersion(sorted: seq<Version>, matches: Version -> bool) returns (selected: Option<Version>)
    requires forall i, j :: 0 <= i < j < |sorted| ==> sorted[i] < sorted[j]
    ensures selected.None? <==> !AnyMatches((set v | v in sorted), matches)
    ensures selected.Some? ==> IsLatest((set v | v in sorted), matches, selected.value)
  {
    var i := |sorted|;
    while i > 0
      invariant 0 <= i <= |sorted|
      invariant forall j :: i <= j < |sorted| ==> !matches(sorted[j])
    {
      i := i - 1;
      if matches(sorted[i]) {
        return Some(sorted[i]);
      }
    }
    return None;
  }

  // ---------------------------------------------------------------- steps

  /** What the schedule decides for a step: to drop the task's future, or how a running body ends. */
  datatype Event = BodyReturns | BodyFails | Dropped

  ghost function VersionsOf(s: State, id: CapId): set<Version> {
    if id in s.caps then s.caps[id] else {}
  }

  /** Where task `t` goes next, if it is neither done nor blocked. */
  ghost function Target(req: Request, s: State, pc: Pc, event: Event): Option<Pc> {
    if pc.Done? then None
    else if event.Dropped? then Some(Done(Cancelled))
    else
      match pc
      case WantCaps => if s.capsLock.Some? then None else Some(InCaps)
      case InCaps => (
        match req
        case Register(id, version, _) =>
          if version in VersionsOf(s, id) then Some(Done(AlreadyRegistered)) else Some(WantPools(version))
        case Execute(id, matches) =>
          if id !in s.caps then Some(Done(NotFound))
          else if !AnyMatches(s.caps[id], matches) then Some(Done(NoCompatibleVersion))
          else Some(WantPools(Latest(s.caps[id], matches))))
      case WantPools(version) => if s.poolsLock.Some? then None else Some(InPools(version))
      case InPools(version) => (
        match req
        case Register(_, _, _) => Some(Done(Succeeded))
        case Execute(id, _) => if id in s.pools then Some(WantPermit(version)) else Some(Done(PoolMissing)))
      case WantPermit(version) =>
        if req.id in s.pools && s.pools[req.id].free > 0 then Some(Running(version)) else None
      case Running(_) => Some(Done(if event.BodyReturns? then Succeeded else BodyFailed))
  }

  /** `entry(..).or_default()` on entering the table, and the insertion at the end of a registration. */
  ghost function CapsAfter(req: Request, s: State, pc: Pc, pc': Pc): map<CapId, set<Version>> {
    if req.Execute? || pc' == Done(Cancelled) then s.caps
    else if pc.InCaps? then s.caps[req.id := VersionsOf(s, req.id)]
    else if pc.InPools? then s.caps[req.id := VersionsOf(s, req.id) + {req.version}]
    else s.caps
  }

  /** A registration makes the pool if there is none; an execution takes a permit and gives it back. */
  ghost function PoolsAfter(req: Request, s: State, pc: Pc, pc': Pc): map<CapId, Pool> {
    var id := req.id;
    if req.Register? then
      if pc.InPools? && pc' != Done(Cancelled) && id !in s.pools
      then s.pools[id := Pool(Capacity(req.cores), Capacity(req.cores))] else s.pools
    else if id !in s.pools then s.pools
    else if pc'.Running? && s.pools[id].free > 0 then s.pools[id := s.pools[id].(free := s.pools[id].free - 1)]
    else if pc.Running? then s.pools[id := s.pools[id].(free := s.pools[id].free + 1)]
    else s.pools
  }

  /** A lock is taken on entering the positions that hold it and released on leaving them. */
  function LockAfter(lock: Option<nat>, t: nat, held: bool, holds: bool): Option<nat> {
    if holds then Some(t) else if held then None else lock
  }

  ghost function Move(req: Request, s: State, t: nat, pc': Pc): State
    requires t < |s.pcs|
  {
    var pc := s.pcs[t];
    State(CapsAfter(req, s, pc, pc'), PoolsAfter(req, s, pc, pc'),
          LockAfter(s.capsLock, t, HoldsCaps(pc), HoldsCaps(pc')),
          LockAfter(s.poolsLock, t, HoldsPools(pc), HoldsPools(pc')),
          s.pcs[t := pc'])
  }

  ghost predicate StepBy(reqs: seq<Request>, s: State, s': State, t: nat, event: Event) {
    && t < |reqs| == |s.pcs|
    && Target(reqs[t], s, s.pcs[t], event).Some?
    && s' == Move(reqs[t], s, t, Target(reqs[t], s, s.pcs[t], event).value)
  }

  ghost predicate Step(reqs: seq<Request>, s: State, s': State) {
    exists t: nat, event :: StepBy(reqs, s, s', t, event)
  }

  /** `s` is reached from the empty registry by `k` steps of any tasks in any order. */
  ghost predicate ReachedIn(reqs: seq<Request>, s: State, k: nat)
    decreases k
  {
    if k == 0 then s == Init(reqs)
    else exists p :: ReachedIn(reqs, p, k - 1) && Step(reqs, p, s)
  }

  ghost predicate Reachable(reqs: seq<Request>, s: State) {
    exists k: nat :: ReachedIn(reqs, s, k)
  }

  // ---------------------------------------------------------------- invariant

  /** How many tasks hold a permit of the capability's pool. */
  ghost function Held(reqs: seq<Request>, pcs: seq<Pc>, id: CapId): nat
    requires |pcs| <= |reqs|
  {
    if pcs == [] then 0
    else
      Held(reqs, pcs[..|pcs| - 1], id)
      + if pcs[|pcs| - 1].Running? && reqs[|pcs| - 1].id == id then 1 else 0
  }

  /** Each lock is held by the one task whose position says so. */
  ghost predicate LocksHeld(s: State) {
    forall t :: 0 <= t < |s.pcs| ==>
                  && (HoldsCaps(s.pcs[t]) <==> s.capsLock == Some(t))
                  && (HoldsPools(s.pcs[t]) <==> s.poolsLock == Some(t))
  }

  /** Nobody else holds a lock. */
  ghost predicate LocksOwned(s: State) {
    && (s.capsLock.Some? ==> s.capsLock.value < |s.pcs|)
    && (s.poolsLock.Some? ==> s.poolsLock.value < |s.pcs|)
  }

  /** Permits held and free make up the capacity. */
  ghost predicate PermitsConserved(reqs: seq<Request>, s: State)
    requires |reqs| == |s.pcs|
  {
    && (forall id :: id in s.pools ==> s.pools[id].free + Held(reqs, s.pcs, id) == s.pools[id].capacity)
    && (forall id :: id !in s.pools ==> Held(reqs, s.pcs, id) == 0)
  }

  /** An id with a registered version has a pool. */
  ghost predicate VersionsHavePools(s: State) {
    forall id :: id in s.caps && s.caps[id] != {} ==> id in s.pools
  }

  /** What an execution has selected is registered and is the latest compatible version. */
  ghost predicate SelectionsHold(reqs: seq<Request>, s: State)
    requires |reqs| == |s.pcs|
  {
    forall t :: 0 <= t < |s.pcs| && HoldsCaps(s.pcs[t]) && !s.pcs[t].InCaps? ==>
                  match reqs[t]
                  case Register(id, version, _) =>
                    && s.pcs[t].version == version && !s.pcs[t].WantPermit? && !s.pcs[t].Running?
                    && id in s.caps && version !in s.caps[id]
                  case Execute(id, matches) =>
                    && id in s.caps && IsLatest(s.caps[id], matches, s.pcs[t].version)
                    && id in s.pools
  }

  /** Versions and pools come from registrations, a pool with the capacity of one of them. */
  ghost predicate FromRequests(reqs: seq<Request>, s: State) {
    && (forall id, v :: id in s.caps && v in s.caps[id] ==> exists r: nat :: Registers(reqs, r, id) && reqs[r].version == v)
    && (forall id :: id in s.pools ==>
                       exists r: nat :: Registers(reqs, r, id) && s.pools[id].capacity == Capacity(reqs[r].cores))
  }

  ghost predicate Registers(reqs: seq<Request>, r: nat, id: CapId) {
    r < |reqs| && reqs[r].Register? && reqs[r].id == id
  }

  /** The error path of line 123 is never taken. */
  ghost predicate NoPoolMissing(s: State) {
    forall t :: 0 <= t < |s.pcs| ==> s.pcs[t] != Done(PoolMissing)
  }

  ghost predicate Inv(reqs: seq<Request>, s: State) {
    && |reqs| == |s.pcs|
    && LocksHeld(s) && LocksOwned(s)
    && PermitsConserved(reqs, s)
    && VersionsHavePools(s) && SelectionsHold(reqs, s)
    && FromRequests(reqs, s) && NoPoolMissing(s)
  }

  lemma {:induction false} HeldUpdate(reqs: seq<Request>, pcs: seq<Pc>, t: nat, pc: Pc, id: CapId)
    requires t < |pcs| <= |reqs|
    ensures Held(reqs, pcs[t := pc], id) ==
            Held(reqs, pcs, id)
            - (if pcs[t].Running? && reqs[t].id == id then 1 else 0)
            + (if pc.Running? && reqs[t].id == id then 1 else 0)
  {
    var pcs' := pcs[t := pc];
    if t == |pcs| - 1 {
      assert pcs'[..|pcs| - 1] == pcs[..|pcs| - 1];
    } else {
      assert pcs'[..|pcs| - 1] == pcs[..|pcs| - 1][t := pc];
      HeldUpdate(reqs, pcs[..|pcs| - 1], t, pc, id);
    }
  }

  lemma {:induction false} HeldZero(reqs: seq<Request>, pcs: seq<Pc>, id: CapId)
    requires |pcs| <= |reqs| && forall t :: 0 <= t < |pcs| ==> !pcs[t].Running?
    ensures Held(reqs, pcs, id) == 0
  {
    if pcs != [] { HeldZero(reqs, pcs[..|pcs| - 1], id); }
  }

  lemma InitInv(reqs: seq<Request>)
    ensures Inv(reqs, Init(reqs))
  {
    forall id ensures Held(reqs, Init(reqs).pcs, id) == 0 {
      HeldZero(reqs, Init(reqs).pcs, id);
    }
  }

  lemma StepLocks(reqs: seq<Request>, s: State, s': State, t: nat, event: Event)
    requires LocksHeld(s) && LocksOwned(s) && StepBy(reqs, s, s', t, event)
    ensures LocksHeld(s') && LocksOwned(s')
  {
    hide CapsAfter, PoolsAfter, AnyMatches, Latest, VersionsOf;
  }

  lemma StepPermit(reqs: seq<Request>, s: State, s': State, t: nat, event: Event, id: CapId)
    requires Inv(reqs, s) && StepBy(reqs, s, s', t, event)
    ensures |reqs| == |s'.pcs|
    ensures id in s'.pools ==> s'.pools[id].free + Held(reqs, s'.pcs, id) == s'.pools[id].capacity
    ensures id !in s'.pools ==> Held(reqs, s'.pcs, id) == 0
  {
    hide CapsAfter, LockAfter, AnyMatches, Latest, VersionsOf, FromRequests, VersionsHavePools, LocksHeld, LocksOwned;
    hide Held, Capacity;
    HeldUpdate(reqs, s.pcs, t, s'.pcs[t], id);
  }

  lemma StepPermits(reqs: seq<Request>, s: State, s': State, t: nat, event: Event)
    requires Inv(reqs, s) && StepBy(reqs, s, s', t, event)
    ensures |reqs| == |s'.pcs| && PermitsConserved(reqs, s')
  {
    hide Held, Inv, StepBy;
    StepPermit(reqs, s, s', t, event, 0);
    forall id
      ensures id in s'.pools ==> s'.pools[id].free + Held(reqs, s'.pcs, id) == s'.pools[id].capacity
      ensures id !in s'.pools ==> Held(reqs, s'.pcs, id) == 0
    {
      StepPermit(reqs, s, s', t, event, id);
    }
  }

  /** Only the holder of the capability lock is past the first wait. */
  lemma OthersLocked(s: State, t: nat, u: nat)
    requires LocksHeld(s) && t < |s.pcs| && u < |s.pcs| && t != u && HoldsCaps(s.pcs[t])
    ensures !HoldsCaps(s.pcs[u])
  {}

  lemma StepTables(reqs: seq<Request>, s: State, s': State, t: nat, event: Event)
    requires Inv(reqs, s) && StepBy(reqs, s, s', t, event)
    ensures |reqs| == |s'.pcs| && VersionsHavePools(s') && NoPoolMissing(s')
  {
    hide LockAfter, Held, FromRequests, LocksHeld, LocksOwned, PermitsConserved, Capacity;
  }

  lemma StepSelections(reqs: seq<Request>, s: State, s': State, t: nat, event: Event)
    requires Inv(reqs, s) && StepBy(reqs, s, s', t, event)
    ensures |reqs| == |s'.pcs| && SelectionsHold(reqs, s')
  {
    hide LockAfter, Held, FromRequests, LocksHeld, LocksOwned, PermitsConserved, NoPoolMissing, Capacity;
    forall u | 0 <= u < |s.pcs| && u != t && HoldsCaps(s.pcs[t]) ensures !HoldsCaps(s.pcs[u]) {
      OthersLocked(s, t, u);
    }
  }

  lemma StepSources(reqs: seq<Request>, s: State, s': State, t: nat, event: Event)
    requires Inv(reqs, s) && StepBy(reqs, s, s', t, event)
    ensures FromRequests(reqs, s')
  {
    assert reqs[t].Register? ==> Registers(reqs, t, reqs[t].id);
    hide Target, LockAfter, Held, VersionsHavePools, LocksHeld, LocksOwned, PermitsConserved, SelectionsHold, Capacity;
  }

  lemma StepInv(reqs: seq<Request>, s: State, s': State, t: nat, event: Event)
    requires Inv(reqs, s) && StepBy(reqs, s, s', t, event)
    ensures Inv(reqs, s')
  {
    StepLocks(reqs, s, s', t, event);
    StepPermits(reqs, s, s', t, event);
    StepTables(reqs, s, s', t, event);
    StepSelections(reqs, s, s', t, event);
    StepSources(reqs, s, s', t, event);
  }

  /** Every state of every run satisfies the invariant. */
  lemma {:induction false} ReachedInv(reqs: seq<Request>, s: State, k: nat)
    requires ReachedIn(reqs, s, k)
    ensures Inv(reqs, s)
    decreases k
  {
    if k == 0 {
      InitInv(reqs);
    } else {
      var p :| ReachedIn(reqs, p, k - 1) && Step(reqs, p, s);
      ReachedInv(reqs, p, k - 1);
      var t: nat, event :| StepBy(reqs, p, s, t, event);
      StepInv(reqs, p, s, t, event);
    }
  }

  /** Over all interleavings: conservation of permits, pools for all versions, and one body at a time. */
  lemma RunsAreSafe(reqs: seq<Request>, s: State)
    requires Reachable(reqs, s)
    ensures |s.pcs| == |reqs| && PermitsConserved(reqs, s) && VersionsHavePools(s) && NoPoolMissing(s)
    ensures forall t, u :: 0 <= t < |reqs| && 0 <= u < |reqs| && s.pcs[t].Running? && s.pcs[u].Running? ==> t == u
    ensures forall t :: 0 <= t < |reqs| && s.pcs[t].Running? ==>
                          && reqs[t].Execute? && reqs[t].id in s.caps
                          && IsLatest(s.caps[reqs[t].id], reqs[t].matches, s.pcs[t].version)
                          && s.capsLock == s.poolsLock == Some(t)
  {
    var k: nat :| ReachedIn(reqs, s, k);
    ReachedInv(reqs, s, k);
    assert LocksHeld(s) && SelectionsHold(reqs, s);
    hide Held, Inv, PermitsConserved, VersionsHavePools;
  }

  // ---------------------------------------------------------------- replies

  /** The version is in the table. */
  ghost predicate Listed(s: State, id: CapId, version: Version) {
    id in s.caps && version in s.caps[id]
  }

  ghost predicate EndsAs(s: State, s': State, t: nat, result: Result) {
    t < |s.pcs| == |s'.pcs| && !s.pcs[t].Done? && s'.pcs[t] == Done(result)
  }

  /** The step by which a registration ends, unless it is dropped, says what it did to the table: refused exactly
      if the version was listed, successful exactly if it was not and now is.  Nothing else is ever listed and
      nothing is taken off. */
  lemma RegisterReplies(reqs: seq<Request>, s: State, s': State, t: nat, event: Event)
    requires Inv(reqs, s) && StepBy(reqs, s, s', t, event) && reqs[t].Register?
    ensures var id, version := reqs[t].id, reqs[t].version;
            && (EndsAs(s, s', t, Cancelled) <==> event.Dropped?)
            && (EndsAs(s, s', t, AlreadyRegistered) <==>
                  !event.Dropped? && s.pcs[t].InCaps? && Listed(s, id, version))
            && (EndsAs(s, s', t, Succeeded) <==> !Listed(s, id, version) && Listed(s', id, version))
            && (s.pcs[t].InPools? && !event.Dropped? ==> EndsAs(s, s', t, Succeeded))
            && (forall i, v :: Listed(s', i, v) <==>
                                 Listed(s, i, v) || (EndsAs(s, s', t, Succeeded) && i == id && v == version))
            && (s'.pcs[t].Done? ==> s'.pcs[t].result in {Cancelled, AlreadyRegistered, Succeeded})
  {
    assert SelectionsHold(reqs, s);
    hide PermitsConserved, FromRequests, LocksHeld, LocksOwned, Held, PoolsAfter, LockAfter, Inv, Capacity;
  }

  /** The step by which an execution ends, unless it is dropped: not found exactly if the id has no entry, no
      compatible version exactly if it has one and nothing in it matches, and otherwise as its body ends.  The
      table stays as it is. */
  lemma ExecuteReplies(reqs: seq<Request>, s: State, s': State, t: nat, event: Event)
    requires Inv(reqs, s) && StepBy(reqs, s, s', t, event) && reqs[t].Execute?
    ensures var id, matches := reqs[t].id, reqs[t].matches;
            && (EndsAs(s, s', t, Cancelled) <==> event.Dropped?)
            && (EndsAs(s, s', t, NotFound) <==> !event.Dropped? && s.pcs[t].InCaps? && id !in s.caps)
            && (EndsAs(s, s', t, NoCompatibleVersion) <==>
                  && !event.Dropped? && s.pcs[t].InCaps? && id in s.caps
                  && forall v :: Listed(s, id, v) ==> !matches(v))
            && (EndsAs(s, s', t, Succeeded) <==> s.pcs[t].Running? && event.BodyReturns?)
            && (EndsAs(s, s', t, BodyFailed) <==> s.pcs[t].Running? && event.BodyFails?)
            && (s'.pcs[t].Done? ==> s'.pcs[t].result in {Cancelled, NotFound, NoCompatibleVersion, Succeeded, BodyFailed})
            && s'.caps == s.caps
  {
    assert SelectionsHold(reqs, s);
    hide PermitsConserved, FromRequests, LocksHeld, LocksOwned, Held, PoolsAfter, LockAfter, Inv, Capacity;
  }

  /** Any unfinished task can be dropped; that leaves the table as it is, frees its locks and gives back its permit. */
  lemma DropReleases(reqs: seq<Request>, s: State, t: nat) returns (s': State)
    requires Inv(reqs, s) && t < |reqs| && !s.pcs[t].Done?
    ensures StepBy(reqs, s, s', t, Dropped) && EndsAs(s, s', t, Cancelled)
    ensures s'.caps == s.caps && s'.capsLock != Some(t) && s'.poolsLock != Some(t) && s'.pools.Keys == s.pools.Keys
    ensures forall id :: id in s.pools ==>
                           s'.pools[id] == s.pools[id].(free := s.pools[id].free +
                             if s.pcs[t].Running? && reqs[t].id == id then 1 else 0)
  {
    s' := Move(reqs[t], s, t, Done(Cancelled));
    assert LocksHeld(s) && SelectionsHold(reqs, s);
    hide PermitsConserved, FromRequests, LocksOwned, Held, Inv, Capacity, Latest, AnyMatches;
  }

  /** Task `t` is a registration that was accepted. */
  ghost predicate Registered(reqs: seq<Request>, s: State, t: nat) {
    t < |reqs| == |s.pcs| && reqs[t].Register? && s.pcs[t] == Done(Succeeded)
  }

  /** Accepted registrations have their versions in the table, and no two have the same. */
  ghost predicate Kept(reqs: seq<Request>, s: State) {
    && |reqs| == |s.pcs|
    && (forall t: nat :: Registered(reqs, s, t) ==> Listed(s, reqs[t].id, reqs[t].version))
    && (forall t: nat, u: nat :: Registered(reqs, s, t) && Registered(reqs, s, u) ==>
                                   t == u || reqs[t].id != reqs[u].id || reqs[t].version != reqs[u].version)
  }

  lemma StepKept(reqs: seq<Request>, s: State, s': State, t: nat, event: Event)
    requires Inv(reqs, s) && StepBy(reqs, s, s', t, event) && Kept(reqs, s)
    ensures Kept(reqs, s')
  {
    hide Inv, Listed, StepBy;
    StepKeepsOthers(reqs, s, s', t, event);
    if reqs[t].Register? {
      RegisterReplies(reqs, s, s', t, event);
    } else {
      ExecuteReplies(reqs, s, s', t, event);
      SameTable(s, s');
    }
    assert forall u: nat :: u != t ==> (Registered(reqs, s', u) <==> Registered(reqs, s, u));
    assert Registered(reqs, s', t) ==> !Listed(s, reqs[t].id, reqs[t].version);
  }

  /** In every run a registration that has succeeded has its version in the table from then on, and no other
      registration succeeds with the same version. */
  lemma {:induction false} SuccessLasts(reqs: seq<Request>, s: State, k: nat)
    requires ReachedIn(reqs, s, k)
    ensures Kept(reqs, s)
    decreases k
  {
    hide Inv, StepBy, Kept;
    if k == 0 {
      NoneRegistered(reqs);
    } else {
      var p :| ReachedIn(reqs, p, k - 1) && Step(reqs, p, s);
      SuccessLasts(reqs, p, k - 1);
      ReachedInv(reqs, p, k - 1);
      var t: nat, event :| StepBy(reqs, p, s, t, event);
      StepKept(reqs, p, s, t, event);
    }
  }

  lemma NoneRegistered(reqs: seq<Request>)
    ensures Kept(reqs, Init(reqs))
  {}

  lemma StepKeepsOthers(reqs: seq<Request>, s: State, s': State, t: nat, event: Event)
    requires StepBy(reqs, s, s', t, event)
    ensures t < |reqs| == |s.pcs| && |s'.pcs| == |s.pcs| && !s.pcs[t].Done?
    ensures forall u :: 0 <= u < |s.pcs| && u != t ==> s'.pcs[u] == s.pcs[u]
  {}

  lemma SameTable(s: State, s': State)
    requires s.caps == s'.caps
    ensures forall i, v :: Listed(s, i, v) <==> Listed(s', i, v)
  {}

  // ---------------------------------------------------------------- progress and deadlock

  ghost predicate CanStep(reqs: seq<Request>, s: State, t: nat) {
    t < |reqs| == |s.pcs| && Target(reqs[t], s, s.pcs[t], BodyReturns).Some?
  }

  /** Some task is unfinished and none can step, short of being dropped. */
  ghost predicate Stuck(reqs: seq<Request>, s: State)
    requires |reqs| == |s.pcs|
  {
    && (exists t :: 0 <= t < |s.pcs| && !s.pcs[t].Done?)
    && (forall t :: 0 <= t < |s.pcs| ==> !CanStep(reqs, s, t))
  }

  /** Task `t` waits, with both locks held, for a permit of a pool that never has any. */
  ghost predicate WaitsInVain(reqs: seq<Request>, s: State, t: nat) {
    && t < |reqs| == |s.pcs| && s.pcs[t].WantPermit?
    && reqs[t].id in s.pools && s.pools[reqs[t].id].capacity == 0
  }

  lemma WaiterBlocksAll(reqs: seq<Request>, s: State, t: nat)
    requires Inv(reqs, s) && WaitsInVain(reqs, s, t)
    ensures Stuck(reqs, s)
  {
    assert LocksHeld(s) && PermitsConserved(reqs, s);
    assert s.pools[reqs[t].id].free == 0;
    forall u | 0 <= u < |s.pcs| ensures !CanStep(reqs, s, u) {
      if u != t { OthersLocked(s, t, u); }
    }
  }

  /** The holder of the capability lock is only ever stopped by an empty pool. */
  lemma HolderSteps(reqs: seq<Request>, s: State, t: nat)
    requires Inv(reqs, s) && t < |reqs| && HoldsCaps(s.pcs[t])
    ensures CanStep(reqs, s, t) || WaitsInVain(reqs, s, t)
  {
    assert LocksHeld(s) && LocksOwned(s) && SelectionsHold(reqs, s) && PermitsConserved(reqs, s);
    var owner := if s.poolsLock.Some? then s.poolsLock.value else t;
    assert HoldsPools(s.pcs[owner]) ==> HoldsCaps(s.pcs[owner]);
    if s.pcs[t].WantPermit? {
      forall u | 0 <= u < |s.pcs| ensures !s.pcs[u].Running? {
        if u != t { OthersLocked(s, t, u); }
      }
      HeldZero(reqs, s.pcs, reqs[t].id);
    }
  }

  lemma StuckMeansVain(reqs: seq<Request>, s: State) returns (t: nat)
    requires Inv(reqs, s) && Stuck(reqs, s)
    ensures WaitsInVain(reqs, s, t)
  {
    var u :| 0 <= u < |s.pcs| && !s.pcs[u].Done?;
    assert !CanStep(reqs, s, u);
    assert LocksHeld(s) && LocksOwned(s);
    if !HoldsCaps(s.pcs[u]) { assert s.capsLock.Some?; }
    t := if HoldsCaps(s.pcs[u]) then u else s.capsLock.value;
    HolderSteps(reqs, s, t);
    assert !CanStep(reqs, s, t);
  }

  /** In any reachable state, all is stuck exactly when a task waits for a permit of an empty pool. */
  lemma StuckIff(reqs: seq<Request>, s: State)
    requires Reachable(reqs, s)
    ensures |reqs| == |s.pcs|
    ensures Stuck(reqs, s) <==> exists t :: WaitsInVain(reqs, s, t)
  {
    var k: nat :| ReachedIn(reqs, s, k);
    ReachedInv(reqs, s, k);
    if Stuck(reqs, s) {
      var t := StuckMeansVain(reqs, s);
    }
    if t :| WaitsInVain(reqs, s, t) {
      WaiterBlocksAll(reqs, s, t);
    }
  }

  /** The requests hold a registration with less than one core and an execution that can reach its pool. */
  ghost predicate Hazard(reqs: seq<Request>, a: nat, r: nat, e: nat) {
    && e < |reqs| && reqs[e].Execute?
    && Registers(reqs, a, reqs[e].id) && reqs[a].cores < 1.0
    && Registers(reqs, r, reqs[e].id) && reqs[e].matches(reqs[r].version)
  }

  lemma ReachableStep(reqs: seq<Request>, s: State, t: nat) returns (s': State)
    requires Reachable(reqs, s) && CanStep(reqs, s, t)
    ensures Reachable(reqs, s') && s' == Move(reqs[t], s, t, Target(reqs[t], s, s.pcs[t], BodyReturns).value)
  {
    s' := Move(reqs[t], s, t, Target(reqs[t], s, s.pcs[t], BodyReturns).value);
    var k: nat :| ReachedIn(reqs, s, k);
    assert StepBy(reqs, s, s', t, BodyReturns);
    assert Step(reqs, s, s');
    assert ReachedIn(reqs, s', k + 1);
  }

  ghost predicate Idle(s: State) { s.capsLock.None? && s.poolsLock.None? }

  /** A registration run by itself leaves its version in the table and a pool, an earlier one if there is. */
  lemma RegisterAlone(reqs: seq<Request>, s: State, t: nat) returns (s': State)
    requires Reachable(reqs, s) && Idle(s) && t < |reqs| == |s.pcs|
    requires reqs[t].Register? && s.pcs[t].WantCaps?
    requires reqs[t].id in s.caps && s.caps[reqs[t].id] != {} ==> reqs[t].id in s.pools
    ensures Reachable(reqs, s') && Idle(s')
    ensures |s'.pcs| == |s.pcs| && forall u :: 0 <= u < |s.pcs| && u != t ==> s'.pcs[u] == s.pcs[u]
    ensures reqs[t].id in s'.caps && reqs[t].version in s'.caps[reqs[t].id] && VersionsOf(s, reqs[t].id) <= s'.caps[reqs[t].id]
    ensures reqs[t].id in s'.pools
    ensures s'.pools[reqs[t].id].capacity ==
            if reqs[t].id in s.pools then s.pools[reqs[t].id].capacity else Capacity(reqs[t].cores)
  {
    hide ReachedIn, Reachable;
    var s1 := ReachableStep(reqs, s, t);
    var s2 := ReachableStep(reqs, s1, t);
    s' := s2;
    if s2.pcs[t].WantPools? {
      var s3 := ReachableStep(reqs, s2, t);
      s' := ReachableStep(reqs, s3, t);
    }
  }

  /** An execution run by itself comes to wait for its permit. */
  lemma ExecuteAlone(reqs: seq<Request>, s: State, t: nat) returns (s': State)
    requires Reachable(reqs, s) && Idle(s) && t < |reqs| == |s.pcs|
    requires reqs[t].Execute? && s.pcs[t].WantCaps?
    requires reqs[t].id in s.caps && AnyMatches(s.caps[reqs[t].id], reqs[t].matches) && reqs[t].id in s.pools
    ensures Reachable(reqs, s') && |s'.pcs| == |s.pcs| && s'.pcs[t].WantPermit? && s'.pools == s.pools
  {
    hide ReachedIn, Reachable;
    s' := ReachableStep(reqs, s, t);
    s' := ReachableStep(reqs, s', t);
    s' := ReachableStep(reqs, s', t);
    s' := ReachableStep(reqs, s', t);
  }

  /** A stuck state is reachable exactly when the requests hold such a registration and execution. */
  lemma DeadlockIff(reqs: seq<Request>)
    ensures (exists s :: Reachable(reqs, s) && |reqs| == |s.pcs| && Stuck(reqs, s)) <==>
            (exists a, r, e :: Hazard(reqs, a, r, e))
  {
    if s :| Reachable(reqs, s) && |reqs| == |s.pcs| && Stuck(reqs, s) {
      var a, r, e := StuckMeansHazard(reqs, s);
    }
    if a, r, e :| Hazard(reqs, a, r, e) {
      var s := HazardGetsStuck(reqs, a, r, e);
    }
  }

  lemma StuckMeansHazard(reqs: seq<Request>, s: State) returns (a: nat, r: nat, e: nat)
    requires Reachable(reqs, s) && |reqs| == |s.pcs| && Stuck(reqs, s)
    ensures Hazard(reqs, a, r, e)
  {
    var k: nat :| ReachedIn(reqs, s, k);
    ReachedInv(reqs, s, k);
    e := StuckMeansVain(reqs, s);
    assert SelectionsHold(reqs, s) && FromRequests(reqs, s);
    var id := reqs[e].id;
    a :| Registers(reqs, a, id) && s.pools[id].capacity == Capacity(reqs[a].cores);
    r :| Registers(reqs, r, id) && reqs[r].version == s.pcs[e].version;
  }

  lemma HazardGetsStuck(reqs: seq<Request>, a: nat, r: nat, e: nat) returns (s: State)
    requires Hazard(reqs, a, r, e)
    ensures Reachable(reqs, s) && |reqs| == |s.pcs| && Stuck(reqs, s)
  {
    s := Init(reqs);
    assert ReachedIn(reqs, s, 0);
    s := RegisterAlone(reqs, s, a);
    if r != a { s := RegisterAlone(reqs, s, r); }
    assert AnyMatches(s.caps[reqs[e].id], reqs[e].matches);
    s := ExecuteAlone(reqs, s, e);
    assert WaitsInVain(reqs, s, e);
    StuckIff(reqs, s);
  }

  // ---------------------------------------------------------------- every run ends

  ghost function Work(pc: Pc): nat {
    match pc
    case WantCaps => 6 case InCaps => 5 case WantPools(_) => 4 case InPools(_) => 3
    case WantPermit(_) => 2 case Running(_) => 1 case Done(_) => 0
  }

  ghost function TotalWork(pcs: seq<Pc>): nat {
    if pcs == [] then 0 else TotalWork(pcs[..|pcs| - 1]) + Work(pcs[|pcs| - 1])
  }

  lemma {:induction false} TotalWorkUpdate(pcs: seq<Pc>, t: nat, pc: Pc)
    requires t < |pcs|
    ensures TotalWork(pcs[t := pc]) == TotalWork(pcs) - Work(pcs[t]) + Work(pc)
  {
    if t == |pcs| - 1 {
      assert pcs[t := pc][..|pcs| - 1] == pcs[..|pcs| - 1];
    } else {
      assert pcs[t := pc][..|pcs| - 1] == pcs[..|pcs| - 1][t := pc];
      TotalWorkUpdate(pcs[..|pcs| - 1], t, pc);
    }
  }

  lemma {:induction false} InitialWork(pcs: seq<Pc>)
    requires forall t :: 0 <= t < |pcs| ==> pcs[t].WantCaps?
    ensures TotalWork(pcs) == 6 * |pcs|
  {
    if pcs != [] { InitialWork(pcs[..|pcs| - 1]); }
  }

  lemma StepWorks(reqs: seq<Request>, s: State, s': State, t: nat, event: Event)
    requires StepBy(reqs, s, s', t, event)
    ensures TotalWork(s'.pcs) < TotalWork(s.pcs)
  {
    hide CapsAfter, PoolsAfter, LockAfter, AnyMatches, Latest, VersionsOf, TotalWork;
    TotalWorkUpdate(s.pcs, t, s'.pcs[t]);
  }

  /** No run takes more than six steps a task. */
  lemma {:induction false} RunsAreBounded(reqs: seq<Request>, s: State, k: nat)
    requires ReachedIn(reqs, s, k)
    ensures k + TotalWork(s.pcs) <= 6 * |reqs|
    decreases k
  {
    if k == 0 {
      InitialWork(s.pcs);
    } else {
      var p :| ReachedIn(reqs, p, k - 1) && Step(reqs, p, s);
      RunsAreBounded(reqs, p, k - 1);
      var t: nat, event :| StepBy(reqs, p, s, t, event);
      StepWorks(reqs, p, s, t, event);
    }
  }

  /** With at least one core for every capability, a run that cannot go on has finished every task. */
  lemma RunsFinish(reqs: seq<Request>, s: State)
    requires forall r :: 0 <= r < |reqs| && reqs[r].Register? ==> reqs[r].cores >= 1.0
    requires Reachable(reqs, s)
    ensures |s.pcs| == |reqs|
    ensures (forall t :: 0 <= t < |reqs| ==> !CanStep(reqs, s, t)) ==> forall t :: 0 <= t < |reqs| ==> s.pcs[t].Done?
  {
    StuckIff(reqs, s);
    if Stuck(reqs, s) {
      var a, r, e := StuckMeansHazard(reqs, s);
      assert false;
    }
  }
}
