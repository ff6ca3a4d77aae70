// The two-level locking of the upload store: reapMu, then one of 64 striped locks
// (upload_store.go, Create, ReapExpired, authorizedManifest, lockFor).
//
// Threads are goroutines. One step is one acquisition or release together with the work before the
// next; a lock that is taken simply disables the step of whoever wants it.
module UploadLocks {
  import opened Paths

  const STRIPES: nat := 64

  // lockFor: FNV-1a over the characters of the upload id, modulo the number of stripes.
  function Fnv1a(id: string): bv32 {
    if id == "" then 2166136261
    else (Fnv1a(id[..|id| - 1]) ^ (id[|id| - 1] as int as bv32)) * 16777619
  }

  function StripeOf(id: string): (stripe: nat)
    ensures stripe < STRIPES
  {
    (Fnv1a(id) as nat) % STRIPES
  }

  // Two published test vectors of the 32-bit FNV-1a hash.
  lemma Fnv1aVectors()
    ensures Fnv1a("") == 0x811c9dc5 && Fnv1a("a") == 0xe40c292c && StripeOf("a") == 44
  {
    assert "a"[..0] == "";
    assert ('a' as int) as bv32 == 0x61;
  }

  // Why a thread took reapMu: to reap, or to reap and then create an upload.
  datatype Goal = Reap | CreateUpload(id: string)

  datatype Thread =
    | Idle
    | WantsUpload(id: string)
    | InUpload(id: string)
    | WantsReap(goal: Goal)
    | Reaping(todo: seq<string>, goal: Goal)
    | ReapWants(id: string, todo: seq<string>, goal: Goal)
    | ReapsUpload(id: string, todo: seq<string>, goal: Goal)
    | CreateWants(id: string)
    | Creates(id: string)

  // `limit` bounds how many uploads a directory listing can show.
  datatype State = State(threads: seq<Thread>, reapMu: Option<nat>, stripes: seq<Option<nat>>, limit: nat)

  datatype Event =
    | BeginOperation(id: string)
    | BeginReap(goal: Goal)
    | Proceed(listing: seq<string>)
    | Abort

  // The upload whose stripe a thread holds, and the one whose stripe it waits for.
  function Holds(t: Thread): Option<string> {
    match t
    case InUpload(id) => Some(id)
    case ReapsUpload(id, _, _) => Some(id)
    case Creates(id) => Some(id)
    case _ => None
  }

  function Wants(t: Thread): Option<string> {
    match t
    case WantsUpload(id) => Some(id)
    case ReapWants(id, _, _) => Some(id)
    case CreateWants(id) => Some(id)
    case _ => None
  }

  predicate HoldsReapMu(t: Thread) {
    t.Reaping? || t.ReapWants? || t.ReapsUpload? || t.CreateWants? || t.Creates?
  }

  predicate Enabled(s: State, i: nat, e: Event)
    requires |s.stripes| == STRIPES && i < |s.threads|
  {
    var t := s.threads[i];
    match e
    case BeginOperation(_) => t.Idle?
    case BeginReap(_) => t.Idle?
    case Abort => t.Reaping? || t.ReapsUpload?
    case Proceed(listing) =>
      && !t.Idle?
      && (t.WantsReap? ==> s.reapMu == None && |listing| <= s.limit)
      && (Wants(t).Some? ==> s.stripes[StripeOf(Wants(t).value)] == None)
  }

  // Where a thread goes when it proceeds.
  function Advance(t: Thread, listing: seq<string>): Thread {
    match t
    case Idle => Idle
    case WantsUpload(id) => InUpload(id)
    case InUpload(_) => Idle
    case WantsReap(goal) => Reaping(listing, goal)
    case Reaping(todo, goal) =>
      if todo != [] then ReapWants(todo[0], todo[1..], goal)
      else if goal.Reap? then Idle
      else CreateWants(goal.id)
    case ReapWants(id, todo, goal) => ReapsUpload(id, todo, goal)
    case ReapsUpload(_, todo, goal) => Reaping(todo, goal)
    case CreateWants(id) => Creates(id)
    case Creates(_) => Idle
  }

  function Target(t: Thread, e: Event): Thread {
    match e
    case BeginOperation(id) => WantsUpload(id)
    case BeginReap(goal) => WantsReap(goal)
    case Abort => Idle
    case Proceed(listing) => Advance(t, listing)
  }

  function Unlocked(stripes: seq<Option<nat>>, held: Option<string>): seq<Option<nat>>
    requires |stripes| == STRIPES
  {
    if held.Some? then stripes[StripeOf(held.value) := None] else stripes
  }

  function Locked(stripes: seq<Option<nat>>, held: Option<string>, i: nat): seq<Option<nat>>
    requires |stripes| == STRIPES
  {
    if held.Some? then stripes[StripeOf(held.value) := Some(i)] else stripes
  }

  function Apply(s: State, i: nat, e: Event): State
    requires |s.stripes| == STRIPES && i < |s.threads|
  {
    var t := s.threads[i];
    var u := Target(t, e);
    s.(threads := s.threads[i := u],
       reapMu := if HoldsReapMu(u) then Some(i) else if HoldsReapMu(t) then None else s.reapMu,
       stripes := Locked(Unlocked(s.stripes, Holds(t)), Holds(u), i))
  }

  predicate Initial(s: State) {
    && |s.stripes| == STRIPES && s.reapMu == None
    && (forall h | 0 <= h < STRIPES :: s.stripes[h] == None)
    && forall i | 0 <= i < |s.threads| :: s.threads[i] == Idle
  }

  // The locks name exactly the threads that hold them.
  ghost predicate Consistent(s: State) {
    && |s.stripes| == STRIPES
    && (forall i: nat :: s.reapMu == Some(i) <==> i < |s.threads| && HoldsReapMu(s.threads[i]))
    && (forall h, i: nat | 0 <= h < STRIPES ::
          s.stripes[h] == Some(i) <==>
          i < |s.threads| && Holds(s.threads[i]).Some? && StripeOf(Holds(s.threads[i]).value) == h)
  }

  ghost predicate RunOk(s: State, run: seq<(nat, Event)>)
    decreases |run|
  {
    run == [] ||
    (&& |s.stripes| == STRIPES && run[0].0 < |s.threads| && Enabled(s, run[0].0, run[0].1)
     && RunOk(Apply(s, run[0].0, run[0].1), run[1..]))
  }

  ghost function After(s: State, run: seq<(nat, Event)>): State
    requires RunOk(s, run)
    decreases |run|
  {
    if run == [] then s else After(Apply(s, run[0].0, run[0].1), run[1..])
  }

  lemma InitialIsConsistent(s: State)
    requires Initial(s)
    ensures Consistent(s)
  {
  }

  lemma StepKeepsConsistent(s: State, i: nat, e: Event)
    requires Consistent(s) && i < |s.threads| && Enabled(s, i, e)
    ensures Consistent(Apply(s, i, e))
  {
    hide Fnv1a;
    var t, u, v := s.threads[i], Target(s.threads[i], e), Apply(s, i, e);
    assert Holds(u).Some? ==> Holds(u) == Wants(t) && Holds(t).None?;
    forall h, j: nat | 0 <= h < STRIPES
      ensures v.stripes[h] == Some(j) <==>
              j < |v.threads| && Holds(v.threads[j]).Some? && StripeOf(Holds(v.threads[j]).value) == h
    {
      assert s.stripes[h] == Some(j) <==>
             j < |s.threads| && Holds(s.threads[j]).Some? && StripeOf(Holds(s.threads[j]).value) == h;
      assert s.stripes[h] == Some(i) <==> Holds(t).Some? && StripeOf(Holds(t).value) == h;
    }
    forall j: nat
      ensures v.reapMu == Some(j) <==> j < |v.threads| && HoldsReapMu(v.threads[j])
    {
      assert s.reapMu == Some(j) <==> j < |s.threads| && HoldsReapMu(s.threads[j]);
      assert s.reapMu == Some(i) <==> HoldsReapMu(t);
    }
  }

  lemma {:induction false} RunKeepsConsistent(s: State, run: seq<(nat, Event)>)
    requires Consistent(s) && RunOk(s, run)
    ensures Consistent(After(s, run))
    decreases |run|
  {
    hide Consistent;
    if run != [] {
      StepKeepsConsistent(s, run[0].0, run[0].1);
      RunKeepsConsistent(Apply(s, run[0].0, run[0].1), run[1..]);
    }
  }

  // In every reachable state two threads never work on the same upload at once; in particular the
  // reaper never removes an upload that an operation is using.
  lemma OperationsNeverOverlap(s: State, run: seq<(nat, Event)>, i: nat, j: nat)
    requires Initial(s) && RunOk(s, run)
    requires i < |After(s, run).threads| && j < |After(s, run).threads| && i != j
    requires Holds(After(s, run).threads[i]).Some? && Holds(After(s, run).threads[j]).Some?
    ensures Holds(After(s, run).threads[i]) != Holds(After(s, run).threads[j])
  {
    hide Fnv1a;
    InitialIsConsistent(s);
    RunKeepsConsistent(s, run);
    var e := After(s, run);
    assert e.stripes[StripeOf(Holds(e.threads[i]).value)] == Some(i);
    assert e.stripes[StripeOf(Holds(e.threads[j]).value)] == Some(j);
  }

  // At most one thread creates or reaps at a time, whether or not it is inside an upload just then.
  lemma ReapMuIsExclusive(s: State, run: seq<(nat, Event)>, i: nat, j: nat)
    requires Initial(s) && RunOk(s, run)
    requires i < |After(s, run).threads| && j < |After(s, run).threads| && i != j
    ensures !(HoldsReapMu(After(s, run).threads[i]) && HoldsReapMu(After(s, run).threads[j]))
  {
    hide Fnv1a, Apply;
    InitialIsConsistent(s);
    RunKeepsConsistent(s, run);
    assert After(s, run).reapMu == Some(i) <==> HoldsReapMu(After(s, run).threads[i]);
  }

  predicate CanProceed(s: State, i: nat)
    requires |s.stripes| == STRIPES && i < |s.threads|
  {
    Enabled(s, i, Proceed([]))
  }

  // No reachable state is a deadlock: while any thread has work left, some thread can go on. A
  // holder of a stripe waits for nothing; with all stripes free only reapMu can block, and its
  // holder is then free to go on.
  lemma NoDeadlock(s: State, i: nat) returns (runner: nat)
    requires Consistent(s) && i < |s.threads| && !s.threads[i].Idle?
    ensures runner < |s.threads| && CanProceed(s, runner)
  {
    hide Fnv1a;
    runner := i;
    if !CanProceed(s, runner) && s.threads[runner].WantsReap? {
      runner := s.reapMu.value;
    }
    if !CanProceed(s, runner) {
      var blocker := s.stripes[StripeOf(Wants(s.threads[runner]).value)].value;
      assert s.stripes[StripeOf(Wants(s.threads[runner]).value)] == Some(blocker);
      runner := blocker;
    }
  }

  // ----- Every operation comes to an end -----

  function GoalWork(g: Goal): nat { if g.Reap? then 1 else 3 }

  function Work(t: Thread, limit: nat): nat {
    match t
    case Idle => 0
    case WantsUpload(_) => 2
    case InUpload(_) => 1
    case WantsReap(goal) => 3 * limit + GoalWork(goal) + 1
    case Reaping(todo, goal) => 3 * |todo| + GoalWork(goal)
    case ReapWants(_, todo, goal) => 3 * |todo| + GoalWork(goal) + 2
    case ReapsUpload(_, todo, goal) => 3 * |todo| + GoalWork(goal) + 1
    case CreateWants(_) => 2
    case Creates(_) => 1
  }

  function TotalWork(threads: seq<Thread>, limit: nat): nat {
    if threads == [] then 0 else Work(threads[0], limit) + TotalWork(threads[1..], limit)
  }

  lemma {:induction false} WorkOfUpdate(threads: seq<Thread>, i: nat, t: Thread, limit: nat)
    requires i < |threads|
    ensures TotalWork(threads[i := t], limit) == TotalWork(threads, limit) - Work(threads[i], limit) + Work(t, limit)
  {
    if i == 0 {
      assert threads[i := t][1..] == threads[1..];
    } else {
      WorkOfUpdate(threads[1..], i - 1, t, limit);
      assert threads[i := t][1..] == threads[1..][i - 1 := t];
    }
  }

  lemma StepWorks(s: State, i: nat, e: Event)
    requires |s.stripes| == STRIPES && i < |s.threads| && Enabled(s, i, e) && (e.Proceed? || e.Abort?)
    ensures Work(Target(s.threads[i], e), s.limit) < Work(s.threads[i], s.limit)
  {
    hide Fnv1a;
  }

  // Without new arrivals a run is no longer than the work there is, so by NoDeadlock every
  // operation finishes and all locks are released.
  lemma {:induction false} OperationsFinish(s: State, run: seq<(nat, Event)>)
    requires RunOk(s, run)
    requires forall k | 0 <= k < |run| :: run[k].1.Proceed? || run[k].1.Abort?
    ensures |run| <= TotalWork(s.threads, s.limit)
    decreases |run|
  {
    hide Fnv1a, Work, Target, Enabled, Unlocked, Locked, HoldsReapMu, TotalWork;
    if run != [] {
      var (i, e) := run[0];
      var u := Target(s.threads[i], e);
      StepWorks(s, i, e);
      WorkOfUpdate(s.threads, i, u, s.limit);
      OperationsFinish(Apply(s, i, e), run[1..]);
    }
  }
}
