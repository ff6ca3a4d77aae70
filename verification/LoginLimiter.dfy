// The login limiter (auth/auth.go). The password check runs outside the manager's lock, so one
// Login is several atomic sections; Manager has a method for each, and the state machine below
// interleaves the sections of any number of logins.
module LoginLimiter {
  import opened Paths
  import opened Collections

  const MAX_FAILURES := 5
  const COOLDOWN := 60
  const MAX_TRACKED := 4096
  const MAX_CHECKS := 4

  // Times are seconds; zero stands for "not set".
  datatype Attempt = Attempt(failures: nat, retryAt: int, lastAttempt: int, checking: bool)

  type Attempts = map<string, Attempt>

  const FRESH := Attempt(0, 0, 0, false)

  datatype Verdict = RateLimited | InvalidCredentials | LoggedIn

  // ----- The sections as functions of the table -----

  predicate Stale(a: Attempt, now: int) {
    !a.checking &&
    ((a.retryAt != 0 && now >= a.retryAt) ||
     (a.retryAt == 0 && a.lastAttempt != 0 && now >= a.lastAttempt + COOLDOWN))
  }

  function Cleaned(t: Attempts, now: int): Attempts {
    map ip | ip in t && !Stale(t[ip], now) :: t[ip]
  }

  function Current(t: Attempts, ip: string): Attempt {
    if ip in t then t[ip] else FRESH
  }

  predicate Blocked(t: Attempts, ip: string, now: int) {
    ip in t && (now < t[ip].retryAt || t[ip].checking)
  }

  predicate NeedsRoom(t: Attempts, ip: string) {
    ip !in t && |t| >= MAX_TRACKED
  }

  // The entry a new address may push out: never one whose check is running.
  predicate MayEvict(t: Attempts, victim: string) {
    victim in t && !t[victim].checking
  }

  // The eviction policy: an oldest entry that may go, or none if there is none.
  ghost predicate OldestChosen(t: Attempts, victim: Option<string>) {
    match victim
    case None => forall ip :: !MayEvict(t, ip)
    case Some(v) => MayEvict(t, v) && forall ip | MayEvict(t, ip) :: t[v].lastAttempt <= t[ip].lastAttempt
  }

  // The empty address is not a candidate, or some other candidate is at least as old.
  ghost predicate EmptyIsHarmless(t: Attempts) {
    MayEvict(t, "") ==> exists ip :: ip != "" && MayEvict(t, ip) && t[ip].lastAttempt <= t[""].lastAttempt
  }

  // n different addresses, the empty one first.
  function Addresses(n: nat): (all: set<string>)
    ensures |all| == n && forall ip | ip in all :: |ip| < n
    ensures n > 0 ==> "" in all
  {
    if n == 0 then {}
    else
      var fewer, next := Addresses(n - 1), seq(n - 1, _ => 'a');
      fewer + {next}
  }

  // A full table: the empty address failed at second 1, all the others at second 2.
  function FullTable(): Attempts {
    map ip | ip in Addresses(MAX_TRACKED) :: Attempt(1, 0, if ip == "" then 1 else 2, false)
  }

  // On such a table a login from one more address at second 3 has to evict, and the only right choice is the
  // one that is never made.
  lemma EmptyAddressMisleads()
    ensures var t := FullTable();
            && |t| == MAX_TRACKED && Cleaned(t, 3) == t && NeedsRoom(t, "b") && !Blocked(t, "b", 3)
            && !EmptyIsHarmless(t) && forall v :: OldestChosen(t, v) ==> v == Some("")
  {
    hide Addresses;
    var t := FullTable();
    assert t.Keys == Addresses(MAX_TRACKED);
    assert |t| == |t.Keys|;
    NotAmong("b", MAX_TRACKED);
    assert MayEvict(t, "");
  }

  lemma EmptyIsThere()
    ensures "" in FullTable() && "b" !in FullTable()
  {
    hide Addresses;
    NotAmong("b", MAX_TRACKED);
  }

  lemma {:induction false} NotAmong(ip: string, n: nat)
    requires 'b' in ip
    ensures ip !in Addresses(n)
  {
    if n > 0 {
      NotAmong(ip, n - 1);
    }
  }

  // The first section. `victim` is the evicted address, if room had to be made.
  function Begun(t: Attempts, ip: string, now: int, victim: Option<string>): (Attempts, bool) {
    var c := Cleaned(t, now);
    if Blocked(c, ip, now) then (c, false)
    else if NeedsRoom(c, ip) then
      if victim.None? then (c, false)
      else ((c - {victim.value})[ip := FRESH.(checking := true)], true)
    else (c[ip := Current(c, ip).(checking := true)], true)
  }

  function Unchecked(t: Attempts, ip: string): Attempts {
    if ip in t then t[ip := t[ip].(checking := false)] else t
  }

  // The last section, after the password has been compared.
  function Finished(t: Attempts, ip: string, now: int, good: bool): (Attempts, Verdict) {
    if ip !in t || now < t[ip].retryAt || !t[ip].checking then (t, RateLimited)
    else if good then (t - {ip}, LoggedIn)
    else
      var failures := t[ip].failures + 1;
      var next := if failures >= MAX_FAILURES then Attempt(0, now + COOLDOWN, now, false)
                  else Attempt(failures, t[ip].retryAt, now, false);
      (t[ip := next], InvalidCredentials)
  }

  // ----- The sections as the code runs them -----

  class Manager {
    var attempts: Attempts
    var inUse: nat

    constructor ()
      ensures attempts == map[] && inUse == 0
    {
      attempts, inUse := map[], 0;
    }

    // cleanupLocked, the part that concerns login attempts.
    method Cleanup(now: int)
      modifies this`attempts
      ensures attempts == Cleaned(old(attempts), now)
      // An attempt goes when the minute after its lock-out or its last failure is over and nobody is checking.
      ensures forall ip | ip in old(attempts) ::
                var a := old(attempts)[ip];
                ip !in attempts <==>
                  !a.checking && if a.retryAt != 0 then now >= a.retryAt else a.lastAttempt != 0 && now - a.lastAttempt >= 60
      ensures forall ip | ip in attempts :: ip in old(attempts) && attempts[ip] == old(attempts)[ip]
    {
      var rest := attempts.Keys;
      while rest != {}
        invariant rest <= old(attempts).Keys
        invariant attempts == map ip | ip in old(attempts) && (ip in rest || !Stale(old(attempts)[ip], now)) :: old(attempts)[ip]
        decreases |rest|
      {
        var ip :| ip in rest;
        rest := rest - {ip};
        var attempt := attempts[ip];
        if !attempt.checking {
          if attempt.retryAt != 0 && now >= attempt.retryAt {
            attempts := attempts - {ip};
          } else if attempt.retryAt == 0 && attempt.lastAttempt != 0 && now >= attempt.lastAttempt + COOLDOWN {
            attempts := attempts - {ip};
          }
        }
      }
    }

    // evictOldestAttemptLocked. The empty address doubles as "none yet", so it is never evicted and
    // meeting it forgets the choice made so far. The choice is right exactly when that is harmless.
    method EvictOldest() returns (evicted: bool, ghost victim: Option<string>)
      modifies this`attempts
      ensures evicted <==> victim.Some?
      ensures evicted ==> MayEvict(old(attempts), victim.value) && attempts == old(attempts) - {victim.value}
      ensures !evicted ==> attempts == old(attempts)
      ensures OldestChosen(old(attempts), victim) <==> EmptyIsHarmless(old(attempts))
      ensures victim != Some("")
    {
      var oldestIP, oldest := "", 0;
      var rest := attempts.Keys;
      while rest != {}
        invariant rest <= attempts.Keys && attempts == old(attempts)
        invariant oldestIP != "" ==> MayEvict(attempts, oldestIP) && oldest == attempts[oldestIP].lastAttempt
        invariant forall ip | MayEvict(attempts, ip) && ip !in rest && ip != "" ::
                    || (oldestIP != "" && oldest <= attempts[ip].lastAttempt)
                    || (MayEvict(attempts, "") && attempts[""].lastAttempt < attempts[ip].lastAttempt)
        decreases |rest|
      {
        var ip :| ip in rest;
        rest := rest - {ip};
        if !attempts[ip].checking {
          if oldestIP == "" || attempts[ip].lastAttempt < oldest {
            oldestIP, oldest := ip, attempts[ip].lastAttempt;
          }
        }
      }
      if oldestIP == "" {
        return false, None;
      }
      attempts := attempts - {oldestIP};
      return true, Some(oldestIP);
    }

    // Login up to the first unlock.
    method BeginLogin(ip: string, now: int) returns (admitted: bool, ghost victim: Option<string>)
      modifies this`attempts
      ensures (attempts, admitted) == Begun(old(attempts), ip, now, victim)
      // Where room has to be made, the policy is kept exactly when the empty address does no harm.
      ensures var c := Cleaned(old(attempts), now);
              NeedsRoom(c, ip) && !Blocked(c, ip, now) ==>
                victim != Some("") && (OldestChosen(c, victim) <==> EmptyIsHarmless(c))
      ensures victim.Some? ==> NeedsRoom(Cleaned(old(attempts), now), ip) && MayEvict(Cleaned(old(attempts), now), victim.value)
    {
      victim := None;
      Cleanup(now);
      if Blocked(attempts, ip, now) {
        return false, None;
      }
      var attempt := Current(attempts, ip);
      if ip !in attempts && |attempts| >= MAX_TRACKED {
        var evicted;
        evicted, victim := EvictOldest();
        if !evicted {
          return false, None;
        }
      }
      attempts := attempts[ip := attempt.(checking := true)];
      admitted := true;
    }

    // On the full table of EmptyAddressMisleads the oldest attempt stays, whatever the order in which the
    // table is met: somebody else goes, or the login is refused.
    method LoginOnFullTable() returns (admitted: bool)
      requires attempts == FullTable()
      modifies this`attempts
      ensures "" in attempts
      ensures admitted ==> exists ip :: ip != "" && ip in FullTable() && ip !in attempts
    {
      hide FullTable;
      EmptyAddressMisleads();
      ghost var victim;
      admitted, victim := BeginLogin("b", 3);
      EmptyIsThere();
      if admitted {
        assert victim.value in FullTable() && victim.value !in attempts;
      }
    }

    // The non-blocking send on passwordChecks.
    method TryAcquire() returns (got: bool)
      modifies this`inUse
      ensures got <==> old(inUse) < 4
      ensures inUse == if got then old(inUse) + 1 else old(inUse)
    {
      got := inUse < MAX_CHECKS;
      if got {
        inUse := inUse + 1;
      }
    }

    // What a login does when no slot was free.
    method ClearChecking(ip: string)
      modifies this`attempts
      ensures attempts == Unchecked(old(attempts), ip)
    {
      if ip in attempts {
        attempts := attempts[ip := attempts[ip].(checking := false)];
      }
    }

    // Login from the second lock on; `good` says that user, password form and hash all match.
    method FinishLogin(ip: string, now: int, good: bool) returns (verdict: Verdict)
      modifies this`attempts
      ensures (attempts, verdict) == Finished(old(attempts), ip, now, good)
      ensures verdict == LoggedIn ==> good && ip !in attempts
      ensures verdict == InvalidCredentials ==> !good && ip in attempts && !attempts[ip].checking && attempts[ip].lastAttempt == now
      ensures forall other | other != ip :: (other in attempts <==> other in old(attempts)) &&
                (other in attempts ==> attempts[other] == old(attempts)[other])
    {
      if ip !in attempts || now < attempts[ip].retryAt || !attempts[ip].checking {
        return RateLimited;
      }
      var attempt := attempts[ip].(checking := false);
      if !good {
        attempt := attempt.(failures := attempt.failures + 1, lastAttempt := now);
        if attempt.failures >= MAX_FAILURES {
          attempt := attempt.(failures := 0, retryAt := now + COOLDOWN);
        }
        attempts := attempts[ip := attempt];
        return InvalidCredentials;
      }
      attempts := attempts - {ip};
      verdict := LoggedIn;
    }

    // The deferred receive on passwordChecks.
    method Release()
      requires inUse > 0
      modifies this`inUse
      ensures inUse == old(inUse) - 1
    {
      inUse := inUse - 1;
    }
  }

  // ----- Any number of logins at once -----

  // Begun and before the slot; holding a slot while checking; refused a slot; done but for the slot.
  datatype Phase = Starting | Checking | Refused | Releasing

  datatype Flight = Flight(ip: string, phase: Phase)

  // `log` keeps, for each address, the times of its failed checks since its last success or eviction.
  datatype State = State(attempts: Attempts, inUse: nat, flights: map<nat, Flight>, clock: int, log: map<string, seq<int>>)

  datatype Event =
    | Begin(id: nat, ip: string, now: int, victim: Option<string>)
    | Acquire(id: nat)
    | GiveUp(id: nat)
    | Finish(id: nat, now: int, good: bool)
    | Free(id: nat)

  predicate Enabled(s: State, e: Event) {
    match e
    case Begin(id, ip, now, victim) =>
      var c := Cleaned(s.attempts, now);
      && id !in s.flights && now >= s.clock
      && (victim.Some? ==> NeedsRoom(c, ip) && !Blocked(c, ip, now) && MayEvict(c, victim.value))
    case Acquire(id) => id in s.flights && s.flights[id].phase == Starting
    case GiveUp(id) => id in s.flights && s.flights[id].phase == Refused
    case Finish(id, now, _) => id in s.flights && s.flights[id].phase == Checking && now >= s.clock
    case Free(id) => id in s.flights && s.flights[id].phase == Releasing && s.inUse > 0
  }

  function LogOf(s: State, ip: string): seq<int> {
    if ip in s.log then s.log[ip] else []
  }

  function Apply(s: State, e: Event): State {
    match e
    case Begin(id, ip, now, victim) =>
      var (t, admitted) := Begun(s.attempts, ip, now, victim);
      s.(attempts := t, clock := now,
         flights := if admitted then s.flights[id := Flight(ip, Starting)] else s.flights,
         log := if victim.Some? then s.log[victim.value := []] else s.log)
    case Acquire(id) =>
      if id !in s.flights then s
      else if s.inUse < MAX_CHECKS then
        s.(inUse := s.inUse + 1, flights := s.flights[id := s.flights[id].(phase := Checking)])
      else s.(flights := s.flights[id := s.flights[id].(phase := Refused)])
    case GiveUp(id) =>
      if id !in s.flights then s
      else s.(attempts := Unchecked(s.attempts, s.flights[id].ip), flights := s.flights - {id})
    case Finish(id, now, good) =>
      if id !in s.flights then s
      else
        var ip := s.flights[id].ip;
        var (t, verdict) := Finished(s.attempts, ip, now, good);
        s.(attempts := t, clock := now,
           flights := s.flights[id := s.flights[id].(phase := Releasing)],
           log := match verdict
                  case RateLimited => s.log
                  case LoggedIn => s.log[ip := []]
                  case InvalidCredentials => s.log[ip := LogOf(s, ip) + [now]])
    case Free(id) =>
      s.(inUse := if s.inUse > 0 then s.inUse - 1 else 0, flights := s.flights - {id})
  }

  ghost predicate RunOk(s: State, run: seq<Event>)
    decreases |run|
  {
    run == [] || (Enabled(s, run[0]) && RunOk(Apply(s, run[0]), run[1..]))
  }

  ghost function After(s: State, run: seq<Event>): State
    decreases |run|
  {
    if run == [] then s else After(Apply(s, run[0]), run[1..])
  }

  predicate Initial(s: State) {
    s.attempts == map[] && s.inUse == 0 && s.flights == map[] && s.clock > 0 && s.log == map[]
  }

  // ----- Single flight -----

  predicate InFlight(f: Flight) { f.phase != Releasing }

  predicate HoldsSlot(f: Flight) { f.phase == Checking || f.phase == Releasing }

  function Holders<K>(flights: map<K, Flight>): set<K> {
    set id | id in flights && HoldsSlot(flights[id])
  }

  function SlotHolders(s: State): set<nat> { Holders(s.flights) }

  // A login in flight has its address to itself, and the table says so.
  ghost predicate Marked(t: Attempts, flights: map<nat, Flight>) {
    && (forall id | id in flights && InFlight(flights[id]) ::
          flights[id].ip in t && t[flights[id].ip].checking && t[flights[id].ip].retryAt == 0)
    && (forall id, jd | id in flights && jd in flights && id != jd && InFlight(flights[id]) && InFlight(flights[jd]) ::
          flights[id].ip != flights[jd].ip)
  }

  ghost predicate SlotsOk(s: State) {
    s.inUse == |SlotHolders(s)| && s.inUse <= MAX_CHECKS
  }

  ghost predicate TableOk(t: Attempts) {
    |t| <= MAX_TRACKED && forall ip | ip in t :: t[ip].failures < MAX_FAILURES
  }

  ghost predicate FlightsOk(s: State) {
    Marked(s.attempts, s.flights) && Covered(s.attempts, s.flights) && SlotsOk(s) && TableOk(s.attempts) && s.clock > 0
  }

  function SlotOf<K>(flights: map<K, Flight>, id: K): nat {
    if id in flights && HoldsSlot(flights[id]) then 1 else 0
  }

  lemma HoldersWithout<K>(flights: map<K, Flight>, id: K)
    ensures Holders(flights - {id}) == Holders(flights) - {id}
    ensures |Holders(flights - {id})| == |Holders(flights)| - SlotOf(flights, id)
  {
    var fewer := flights - {id};
    forall jd ensures jd in Holders(fewer) <==> jd in Holders(flights) - {id} {
      assert jd in fewer <==> jd in flights && jd != id;
    }
    assert Holders(fewer) == Holders(flights) - {id};
    assert id in Holders(flights) <==> SlotOf(flights, id) == 1;
  }

  lemma HoldersWith<K>(flights: map<K, Flight>, id: K, f: Flight)
    ensures |Holders(flights[id := f])| == |Holders(flights)| - SlotOf(flights, id) + SlotOf(flights[id := f], id)
  {
    HoldersWithout(flights, id);
    HoldersWithout(flights[id := f], id);
    assert flights[id := f] - {id} == flights - {id};
  }

  lemma StepKeepsSlots(s: State, e: Event)
    requires SlotsOk(s) && Enabled(s, e)
    ensures SlotsOk(Apply(s, e))
  {
    hide Begun, Finished, Unchecked, Cleaned, NeedsRoom, Blocked, MayEvict, Holders;
    var u, id := Apply(s, e), e.id;
    if e.GiveUp? || e.Free? {
      HoldersWithout(s.flights, id);
    } else if u.flights != s.flights {
      HoldersWith(s.flights, id, u.flights[id]);
    }
  }

  lemma CleanedIsSmaller(t: Attempts, now: int)
    ensures |Cleaned(t, now)| <= |t|
    ensures forall ip | ip in t && t[ip].checking :: ip in Cleaned(t, now)
  {
    assert Cleaned(t, now).Keys <= t.Keys;
    SubsetSize(Cleaned(t, now).Keys, t.Keys);
    assert |Cleaned(t, now).Keys| == |Cleaned(t, now)| && |t.Keys| == |t|;
  }

  lemma BegunTable(t: Attempts, ip: string, now: int, victim: Option<string>)
    requires |t| <= MAX_TRACKED && now >= 0
    requires victim.Some? ==> NeedsRoom(Cleaned(t, now), ip) && MayEvict(Cleaned(t, now), victim.value)
    ensures var (u, admitted) := Begun(t, ip, now, victim);
            && |u| <= MAX_TRACKED
            && (forall jp | jp in t && t[jp].checking && jp != ip :: jp in u && u[jp] == t[jp])
            && (forall jp | jp in u && jp != ip :: jp in t && u[jp] == t[jp])
            && (admitted ==> ip in u && u[ip] == (if ip in Cleaned(t, now) then t[ip] else FRESH).(checking := true)
                             && !(ip in t && t[ip].checking) && now >= u[ip].retryAt)
            && (!admitted ==> u == Cleaned(t, now))
            && (forall jp | jp in t && jp !in u :: Stale(t[jp], now) || victim == Some(jp))
            && (admitted && ip in t && ip !in Cleaned(t, now) ==> Stale(t[ip], now))
  {
    CleanedIsSmaller(t, now);
    var c := Cleaned(t, now);
    if !Blocked(c, ip, now) {
      if NeedsRoom(c, ip) {
        if victim.Some? { assert |c - {victim.value}| == |c| - 1; }
      }
    }
  }

  // Every entry marked as checking belongs to a login in flight.
  ghost predicate Covered(t: Attempts, flights: map<nat, Flight>) {
    forall ip | ip in t && t[ip].checking :: exists id :: id in flights && InFlight(flights[id]) && flights[id].ip == ip
  }

  lemma CoveredBegin(s: State, e: Event)
    requires FlightsOk(s) && Enabled(s, e) && e.Begin?
    ensures Covered(Apply(s, e).attempts, Apply(s, e).flights)
  {
    hide Begun;
    var Begin(id, ip, now, victim) := e;
    var u := Apply(s, e);
    BegunTable(s.attempts, ip, now, victim);
    forall jp | jp in u.attempts && u.attempts[jp].checking
      ensures exists jd :: jd in u.flights && InFlight(u.flights[jd]) && u.flights[jd].ip == jp
    {
      if Begun(s.attempts, ip, now, victim).1 && jp == ip {
        assert id in u.flights && u.flights[id].ip == jp;
      } else {
        var jd :| jd in s.flights && InFlight(s.flights[jd]) && s.flights[jd].ip == jp;
        assert jd in u.flights && u.flights[jd] == s.flights[jd];
      }
    }
  }

  lemma MarkedBegin(s: State, e: Event)
    requires Marked(s.attempts, s.flights) && Enabled(s, e) && e.Begin? && |s.attempts| <= MAX_TRACKED && s.clock > 0
    ensures Marked(Apply(s, e).attempts, Apply(s, e).flights)
  {
    hide Begun, MayEvict, NeedsRoom, Cleaned;
    var Begin(id, ip, now, victim) := e;
    BegunTable(s.attempts, ip, now, victim);
    CleanedIsSmaller(s.attempts, now);
    CleanedAre(s.attempts, now);
  }

  lemma CleanedAre(t: Attempts, now: int)
    ensures forall ip | ip in Cleaned(t, now) :: ip in t && Cleaned(t, now)[ip] == t[ip] && !Stale(t[ip], now)
  {
  }

  lemma TableBegin(s: State, e: Event)
    requires TableOk(s.attempts) && Enabled(s, e) && e.Begin? && s.clock > 0
    ensures TableOk(Apply(s, e).attempts)
  {
    hide Begun, MayEvict, NeedsRoom, Cleaned, Blocked;
    var Begin(id, ip, now, victim) := e;
    BegunTable(s.attempts, ip, now, victim);
    CleanedAre(s.attempts, now);
  }

  lemma BeginKeepsFlights(s: State, e: Event)
    requires FlightsOk(s) && Enabled(s, e) && e.Begin?
    ensures FlightsOk(Apply(s, e))
  {
    CoveredBegin(s, e);
    StepKeepsSlots(s, e);
    assert |s.attempts| <= MAX_TRACKED;
    MarkedBegin(s, e);
    TableBegin(s, e);
  }

  lemma AcquireKeepsFlights(s: State, e: Event)
    requires FlightsOk(s) && Enabled(s, e) && e.Acquire?
    ensures FlightsOk(Apply(s, e))
  {
    hide SlotsOk, Covered, TableOk;
    StepKeepsSlots(s, e);
    CoveredByPhase(s.attempts, s.flights, e.id, Apply(s, e).flights[e.id].phase);
  }

  lemma CoveredByPhase(t: Attempts, flights: map<nat, Flight>, id: nat, phase: Phase)
    requires Covered(t, flights) && id in flights && phase != Releasing
    ensures Covered(t, flights[id := flights[id].(phase := phase)])
  {
    var more := flights[id := flights[id].(phase := phase)];
    forall ip | ip in t && t[ip].checking ensures exists jd :: jd in more && InFlight(more[jd]) && more[jd].ip == ip {
      var jd :| jd in flights && InFlight(flights[jd]) && flights[jd].ip == ip;
      assert jd in more && more[jd].ip == ip && InFlight(more[jd]);
    }
  }

  // Entries that are not checking need no flight, so another flight may go.
  lemma CoveredWithout(t: Attempts, u: Attempts, flights: map<nat, Flight>, fewer: map<nat, Flight>, gone: string)
    requires Covered(t, flights) && (gone in u ==> !u[gone].checking)
    requires forall ip | ip in u && ip != gone :: ip in t && u[ip] == t[ip]
    requires forall jd | jd in flights && flights[jd].ip != gone :: jd in fewer && fewer[jd] == flights[jd]
    ensures Covered(u, fewer)
  {
    forall ip | ip in u && u[ip].checking ensures exists jd :: jd in fewer && InFlight(fewer[jd]) && fewer[jd].ip == ip {
      var jd :| jd in flights && InFlight(flights[jd]) && flights[jd].ip == ip;
      assert jd in fewer && fewer[jd] == flights[jd];
    }
  }

  lemma FreeKeepsFlights(s: State, e: Event)
    requires FlightsOk(s) && Enabled(s, e) && e.Free?
    ensures FlightsOk(Apply(s, e))
  {
    hide SlotsOk, TableOk;
    var u := Apply(s, e);
    StepKeepsSlots(s, e);
    forall jp | jp in s.attempts && s.attempts[jp].checking
      ensures exists jd :: jd in u.flights && InFlight(u.flights[jd]) && u.flights[jd].ip == jp
    {
      var jd :| jd in s.flights && InFlight(s.flights[jd]) && s.flights[jd].ip == jp;
      assert jd in u.flights && u.flights[jd] == s.flights[jd];
    }
  }

  lemma GiveUpKeepsFlights(s: State, e: Event)
    requires FlightsOk(s) && Enabled(s, e) && e.GiveUp?
    ensures FlightsOk(Apply(s, e))
  {
    hide SlotsOk, Covered;
    var u, id := Apply(s, e), e.id;
    StepKeepsSlots(s, e);
    assert |u.attempts| == |s.attempts| by { assert u.attempts.Keys == s.attempts.Keys; }
    CoveredWithout(s.attempts, u.attempts, s.flights, u.flights, s.flights[id].ip);
  }

  lemma FinishKeepsFlights(s: State, e: Event)
    requires FlightsOk(s) && Enabled(s, e) && e.Finish?
    ensures FlightsOk(Apply(s, e))
  {
    hide Covered, SlotsOk, Marked, TableOk;
    StepKeepsSlots(s, e);
    TableFinish(s, e);
    MarkedFinish(s, e);
    CoveredFinish(s, e);
  }

  lemma TableFinish(s: State, e: Event)
    requires TableOk(s.attempts) && Enabled(s, e) && e.Finish?
    ensures TableOk(Apply(s, e).attempts)
  {
    var u := Apply(s, e);
    assert u.attempts.Keys <= s.attempts.Keys;
    SubsetSize(u.attempts.Keys, s.attempts.Keys);
    assert |u.attempts.Keys| == |u.attempts| && |s.attempts.Keys| == |s.attempts|;
  }

  lemma MarkedFinish(s: State, e: Event)
    requires Marked(s.attempts, s.flights) && Enabled(s, e) && e.Finish?
    ensures Marked(Apply(s, e).attempts, Apply(s, e).flights)
  {
  }

  lemma CoveredFinish(s: State, e: Event)
    requires FlightsOk(s) && Enabled(s, e) && e.Finish?
    ensures Covered(Apply(s, e).attempts, Apply(s, e).flights)
  {
    var u, id := Apply(s, e), e.id;
    var ip := s.flights[id].ip;
    forall jp | jp in u.attempts && u.attempts[jp].checking
      ensures exists jd :: jd in u.flights && InFlight(u.flights[jd]) && u.flights[jd].ip == jp
    {
      assert jp != ip && jp in s.attempts && s.attempts[jp].checking;
      var jd :| jd in s.flights && InFlight(s.flights[jd]) && s.flights[jd].ip == jp;
      assert jd in u.flights && u.flights[jd] == s.flights[jd];
    }
  }

  lemma {:induction false} RunKeepsFlights(s: State, run: seq<Event>)
    requires FlightsOk(s) && RunOk(s, run)
    ensures FlightsOk(After(s, run))
    decreases |run|
  {
    hide FlightsOk, Apply, Enabled;
    if run != [] {
      StepKeepsFlights(s, run[0]);
      RunKeepsFlights(Apply(s, run[0]), run[1..]);
    }
  }

  lemma StepKeepsFlights(s: State, e: Event)
    requires FlightsOk(s) && Enabled(s, e)
    ensures FlightsOk(Apply(s, e))
  {
    hide FlightsOk, Apply, Enabled;
    match e
    case Begin(_, _, _, _) => BeginKeepsFlights(s, e);
    case Acquire(_) => AcquireKeepsFlights(s, e);
    case Free(_) => FreeKeepsFlights(s, e);
    case GiveUp(_) => GiveUpKeepsFlights(s, e);
    case Finish(_, _, _) => FinishKeepsFlights(s, e);
  }

  // Under every interleaving: one check per address, four checks in all, a bounded table, and with
  // a clock that does not go back the rejection after a finished check never happens.
  lemma SingleFlight(s: State, run: seq<Event>, id: nat, jd: nat, now: int, good: bool)
    requires Initial(s) && RunOk(s, run)
    ensures var e := After(s, run);
            && |SlotHolders(e)| <= 4 && |e.attempts| <= 4096
            && (id in e.flights && jd in e.flights && id != jd && InFlight(e.flights[id]) && InFlight(e.flights[jd]) ==>
                  e.flights[id].ip != e.flights[jd].ip)
            && (Enabled(e, Finish(id, now, good)) ==>
                  Finished(e.attempts, e.flights[id].ip, now, good).1 == if good then LoggedIn else InvalidCredentials)
  {
    assert SlotHolders(s) == {};
    RunKeepsFlights(s, run);
  }

  // A running check's entry survives whatever a new login cleans up or evicts.
  lemma RunningCheckSurvivesBegin(s: State, run: seq<Event>, id: nat, e: Event)
    requires Initial(s) && RunOk(s, run) && id in After(s, run).flights && InFlight(After(s, run).flights[id])
    requires e.Begin? && Enabled(After(s, run), e)
    ensures var u := After(s, run);
            var ip := u.flights[id].ip;
            ip in u.attempts && ip in Apply(u, e).attempts && Apply(u, e).attempts[ip] == u.attempts[ip]
  {
    hide Begun;
    assert SlotHolders(s) == {};
    RunKeepsFlights(s, run);
    var u := After(s, run);
    BegunTable(u.attempts, e.ip, e.now, e.victim);
    CleanedIsSmaller(u.attempts, e.now);
  }

  // ----- The sliding window -----

  // How many of the latest failures follow each other within less than the cool-down.
  function Streak(h: seq<int>): nat {
    if h == [] then 0
    else if |h| == 1 || h[|h| - 1] - h[|h| - 2] >= COOLDOWN then 1
    else Streak(h[..|h| - 1]) + 1
  }

  ghost predicate StreaksShort(h: seq<int>) {
    forall n | 0 <= n <= |h| :: Streak(h[..n]) <= MAX_FAILURES
  }

  // What the table remembers about an address with failures `h`.
  predicate Remembered(t: Attempts, ip: string, h: seq<int>, clock: int) {
    h != [] ==>
      || clock >= h[|h| - 1] + COOLDOWN
      || (ip in t && t[ip].retryAt != 0 && t[ip].retryAt >= h[|h| - 1] + COOLDOWN)
      || (ip in t && t[ip].retryAt == 0 && t[ip].lastAttempt == h[|h| - 1] && Streak(h) <= t[ip].failures)
  }

  ghost predicate LogOk(s: State, ip: string) {
    && Remembered(s.attempts, ip, LogOf(s, ip), s.clock) && StreaksShort(LogOf(s, ip))
    && (LogOf(s, ip) != [] ==> 0 < LogOf(s, ip)[|LogOf(s, ip)| - 1] <= s.clock)
  }

  ghost predicate LogsOk(s: State) {
    forall ip :: LogOk(s, ip)
  }

  lemma {:induction false} StreakOfRun(h: seq<int>, i: nat, n: nat)
    requires i + n < |h| && forall k | i <= k < i + n :: h[k + 1] - h[k] < COOLDOWN
    ensures Streak(h[..i + n + 1]) >= n + 1
  {
    var g := h[..i + n + 1];
    if n > 0 {
      StreakOfRun(h, i, n - 1);
      assert g[..|g| - 1] == h[..i + n];
    }
  }

  lemma ShortStreaksSpreadOut(h: seq<int>, i: nat)
    requires StreaksShort(h) && i + MAX_FAILURES < |h|
    ensures exists k :: i <= k < i + MAX_FAILURES && h[k + 1] - h[k] >= COOLDOWN
  {
    if forall k | i <= k < i + MAX_FAILURES :: h[k + 1] - h[k] < COOLDOWN {
      StreakOfRun(h, i, MAX_FAILURES);
    }
  }

  lemma FailureAppended(h: seq<int>, now: int)
    requires StreaksShort(h)
    ensures Streak(h + [now]) == if h == [] || now - h[|h| - 1] >= COOLDOWN then 1 else Streak(h) + 1
    ensures Streak(h + [now]) <= MAX_FAILURES ==> StreaksShort(h + [now])
  {
    var g := h + [now];
    assert g[..|h|] == h;
    assert h[..|h|] == h;
    if Streak(g) <= MAX_FAILURES {
      forall n | 0 <= n <= |g| ensures Streak(g[..n]) <= MAX_FAILURES {
        if n <= |h| { assert g[..n] == h[..n]; } else { assert g[..n] == g; }
      }
    }
  }

  // Forgetting a stale entry is forgetting nothing: the cool-down has passed since the last failure.
  lemma StaleIsQuiet(t: Attempts, ip: string, h: seq<int>, clock: int, now: int)
    requires Remembered(t, ip, h, clock) && clock <= now && h != [] && h[|h| - 1] > 0
    requires ip in t ==> Stale(t[ip], now)
    ensures now >= h[|h| - 1] + COOLDOWN
  {
  }

  lemma LogOfOne(s: State, ip: string)
    requires LogsOk(s)
    ensures LogOk(s, ip)
  {
  }

  lemma InitialLogs(s: State)
    requires Initial(s)
    ensures LogsOk(s)
  {
    NoStreak();
    forall ip ensures LogOk(s, ip) {
      assert LogOf(s, ip) == [];
    }
  }

  lemma BeginKeepsLogs(s: State, e: Event, ip: string)
    requires FlightsOk(s) && LogsOk(s) && Enabled(s, e) && e.Begin?
    ensures LogOk(Apply(s, e), ip)
  {
    hide Begun, StreaksShort, MayEvict, Streak, LogsOk, Remembered, Covered, Marked, SlotsOk, Cleaned, NeedsRoom, Blocked;
    LogOfOne(s, ip);
    if e.victim == Some(ip) {
      NoStreak();
      NothingToRemember(Apply(s, e).attempts, ip, e.now);
    } else {
      BeginRemembers(s, e, ip, LogOf(s, ip));
    }
  }

  lemma NothingToRemember(t: Attempts, ip: string, clock: int)
    ensures Remembered(t, ip, [], clock)
  {
  }

  // The first section loses an address's failures only by eviction or when they are long past.
  lemma BeginRemembers(s: State, e: Event, ip: string, h: seq<int>)
    requires TableOk(s.attempts) && s.clock > 0 && Enabled(s, e) && e.Begin? && e.victim != Some(ip)
    requires Remembered(s.attempts, ip, h, s.clock) && (h != [] ==> h[|h| - 1] > 0)
    ensures Remembered(Apply(s, e).attempts, ip, h, e.now)
  {
    hide Begun, MayEvict, Streak, NeedsRoom;
    BegunTable(s.attempts, e.ip, e.now, e.victim);
    if h != [] && (ip in s.attempts ==> Stale(s.attempts[ip], e.now)) {
      StaleIsQuiet(s.attempts, ip, h, s.clock, e.now);
    }
  }

  lemma NoStreak()
    ensures StreaksShort([])
  {
  }

  // The last section for the address whose check has just failed.
  lemma FailureKeepsLog(s: State, e: Event)
    requires FlightsOk(s) && Enabled(s, e) && e.Finish? && !e.good && LogOk(s, s.flights[e.id].ip)
    ensures LogOk(Apply(s, e), s.flights[e.id].ip)
  {
    hide StreaksShort, Covered, SlotsOk, Streak;
    var ip, u := s.flights[e.id].ip, Apply(s, e);
    var h := LogOf(s, ip);
    FailureAppended(h, e.now);
    assert s.attempts[ip].retryAt == 0 && s.attempts[ip].failures < MAX_FAILURES;
    assert LogOf(u, ip) == h + [e.now];
  }

  lemma SuccessKeepsLog(s: State, e: Event)
    requires FlightsOk(s) && Enabled(s, e) && e.Finish? && e.good && LogOk(s, s.flights[e.id].ip)
    ensures LogOk(Apply(s, e), s.flights[e.id].ip)
  {
    hide StreaksShort, Covered, SlotsOk;
    NoStreak();
    assert s.attempts[s.flights[e.id].ip].retryAt == 0;
  }

  lemma OtherAddressKeepsLog(s: State, e: Event, ip: string)
    requires Enabled(s, e) && e.Finish? && ip != s.flights[e.id].ip && LogOk(s, ip)
    ensures LogOk(Apply(s, e), ip)
  {
    hide StreaksShort, Streak;
    assert LogOf(Apply(s, e), ip) == LogOf(s, ip);
  }

  lemma FinishKeepsLogs(s: State, e: Event, ip: string)
    requires FlightsOk(s) && LogsOk(s) && Enabled(s, e) && e.Finish?
    ensures LogOk(Apply(s, e), ip)
  {
    hide FlightsOk, LogOk, Apply, LogsOk;
    LogOfOne(s, ip);
    if ip != s.flights[e.id].ip {
      OtherAddressKeepsLog(s, e, ip);
    } else if e.good {
      SuccessKeepsLog(s, e);
    } else {
      FailureKeepsLog(s, e);
    }
  }

  lemma OtherKeepsLogs(s: State, e: Event, ip: string)
    requires FlightsOk(s) && LogsOk(s) && Enabled(s, e) && !e.Begin? && !e.Finish?
    ensures LogOk(Apply(s, e), ip)
  {
    hide StreaksShort, Covered, Streak;
    assert LogOk(s, ip);
    assert LogOf(Apply(s, e), ip) == LogOf(s, ip);
  }

  lemma StepKeepsLogs(s: State, e: Event)
    requires FlightsOk(s) && LogsOk(s) && Enabled(s, e)
    ensures LogsOk(Apply(s, e))
  {
    hide FlightsOk, Apply, Enabled, LogOk;
    forall ip ensures LogOk(Apply(s, e), ip) {
      if e.Begin? {
        BeginKeepsLogs(s, e, ip);
      } else if e.Finish? {
        FinishKeepsLogs(s, e, ip);
      } else {
        OtherKeepsLogs(s, e, ip);
      }
    }
  }

  lemma {:induction false} RunKeepsLogs(s: State, run: seq<Event>)
    requires FlightsOk(s) && LogsOk(s) && RunOk(s, run)
    ensures LogsOk(After(s, run))
    decreases |run|
  {
    hide FlightsOk, LogsOk, Apply, Enabled;
    if run != [] {
      StepKeepsFlights(s, run[0]);
      StepKeepsLogs(s, run[0]);
      RunKeepsLogs(Apply(s, run[0]), run[1..]);
    }
  }

  // Among any six consecutive failed checks of one address, with no success and no eviction
  // between them, two neighbours lie at least the cool-down apart, whatever else goes on.
  lemma SlidingWindow(s: State, run: seq<Event>, ip: string, i: nat)
    requires Initial(s) && RunOk(s, run) && i + MAX_FAILURES < |LogOf(After(s, run), ip)|
    ensures var h := LogOf(After(s, run), ip);
            exists k :: i <= k < i + MAX_FAILURES && h[k + 1] - h[k] >= COOLDOWN
  {
    hide Apply, Enabled, StreaksShort, LogsOk;
    assert SlotHolders(s) == {};
    InitialLogs(s);
    RunKeepsLogs(s, run);
    LogOfOne(After(s, run), ip);
    var h := LogOf(After(s, run), ip);
    ShortStreaksSpreadOut(h, i);
  }

  // ----- No lock-out without five failures -----

  // What the table holds against an address it can show: at most its recent failures, and a lock-out only
  // after five of them, counted from the last.
  predicate Earned(t: Attempts, ip: string, h: seq<int>) {
    ip in t ==> t[ip].failures <= |h| && (t[ip].retryAt != 0 ==> |h| >= 5 && t[ip].retryAt == h[|h| - 1] + 60)
  }

  ghost predicate AllEarned(s: State) {
    forall ip :: Earned(s.attempts, ip, LogOf(s, ip))
  }

  lemma VictimIsGone(t: Attempts, ip: string, now: int, victim: Option<string>)
    requires victim.Some? ==> NeedsRoom(Cleaned(t, now), ip) && !Blocked(Cleaned(t, now), ip, now) && MayEvict(Cleaned(t, now), victim.value)
    ensures victim.Some? ==> victim.value !in Begun(t, ip, now, victim).0
  {
    hide Cleaned;
  }

  lemma BeginKeepsEarned(s: State, e: Event, ip: string)
    requires AllEarned(s) && TableOk(s.attempts) && s.clock > 0 && Enabled(s, e) && e.Begin?
    ensures Earned(Apply(s, e).attempts, ip, LogOf(Apply(s, e), ip))
  {
    hide Begun, NeedsRoom, MayEvict, Blocked, Cleaned;
    assert Earned(s.attempts, ip, LogOf(s, ip));
    VictimIsGone(s.attempts, e.ip, e.now, e.victim);
    BegunTable(s.attempts, e.ip, e.now, e.victim);
    CleanedAre(s.attempts, e.now);
  }

  lemma FinishKeepsEarned(s: State, e: Event, ip: string)
    requires AllEarned(s) && Marked(s.attempts, s.flights) && Enabled(s, e) && e.Finish?
    ensures Earned(Apply(s, e).attempts, ip, LogOf(Apply(s, e), ip))
  {
    assert Earned(s.attempts, ip, LogOf(s, ip));
  }

  lemma StepKeepsEarned(s: State, e: Event)
    requires AllEarned(s) && FlightsOk(s) && Enabled(s, e)
    ensures AllEarned(Apply(s, e))
  {
    hide Apply, Enabled, Earned, Covered, SlotsOk, Begun, Finished;
    forall ip ensures Earned(Apply(s, e).attempts, ip, LogOf(Apply(s, e), ip)) {
      if e.Begin? {
        BeginKeepsEarned(s, e, ip);
      } else if e.Finish? {
        FinishKeepsEarned(s, e, ip);
      } else {
        OtherKeepsEarned(s, e, ip);
      }
    }
  }

  lemma OtherKeepsEarned(s: State, e: Event, ip: string)
    requires AllEarned(s) && Enabled(s, e) && !e.Begin? && !e.Finish?
    ensures Earned(Apply(s, e).attempts, ip, LogOf(Apply(s, e), ip))
  {
    assert Earned(s.attempts, ip, LogOf(s, ip));
  }

  lemma {:induction false} RunKeepsEarned(s: State, run: seq<Event>)
    requires AllEarned(s) && FlightsOk(s) && RunOk(s, run)
    ensures AllEarned(After(s, run))
    decreases |run|
  {
    hide FlightsOk, AllEarned, Apply, Enabled;
    if run != [] {
      StepKeepsEarned(s, run[0]);
      StepKeepsFlights(s, run[0]);
      RunKeepsEarned(Apply(s, run[0]), run[1..]);
    }
  }

  // In every interleaving a login is turned away at the door only while a check of its address is running, within a
  // minute of the last of at least five failed checks, or when the table of 4096 is full and nothing is evicted.
  lemma NobodyIsLockedOutEarly(s: State, run: seq<Event>, e: Event)
    requires Initial(s) && RunOk(s, run) && e.Begin? && Enabled(After(s, run), e)
    requires !Begun(After(s, run).attempts, e.ip, e.now, e.victim).1
    ensures var u := After(s, run);
            var h := LogOf(u, e.ip);
            || (exists id :: id in u.flights && InFlight(u.flights[id]) && u.flights[id].ip == e.ip)
            || (|h| >= 5 && e.now < h[|h| - 1] + 60)
            || (e.ip !in u.attempts && |u.attempts| >= 4096 && e.victim == None)
  {
    hide FlightsOk, AllEarned, Apply, Enabled, Begun, LogOf;
    InitialFlights(s);
    RunKeepsFlights(s, run);
    RunKeepsEarned(s, run);
    TurnedAway(After(s, run), e);
  }

  lemma InitialFlights(s: State)
    requires Initial(s)
    ensures FlightsOk(s) && AllEarned(s)
  {
    assert SlotHolders(s) == {};
  }

  lemma TurnedAway(u: State, e: Event)
    requires FlightsOk(u) && AllEarned(u) && e.Begin? && Enabled(u, e) && !Begun(u.attempts, e.ip, e.now, e.victim).1
    ensures var h := LogOf(u, e.ip);
            || (exists id :: id in u.flights && InFlight(u.flights[id]) && u.flights[id].ip == e.ip)
            || (|h| >= 5 && e.now < h[|h| - 1] + 60)
            || (e.ip !in u.attempts && |u.attempts| >= 4096 && e.victim == None)
  {
    hide Begun, Cleaned, Stale, SlotsOk, Marked, LogOf, Blocked, MayEvict;
    assert Earned(u.attempts, e.ip, LogOf(u, e.ip));
    WhyRefused(u.attempts, e.ip, e.now, e.victim);
  }

  lemma WhyRefused(t: Attempts, ip: string, now: int, victim: Option<string>)
    requires !Begun(t, ip, now, victim).1
    ensures (ip in t && t[ip].checking) || (ip in t && now < t[ip].retryAt) ||
            (|t| >= MAX_TRACKED && victim == None && (ip in t ==> |t| > MAX_TRACKED))
  {
    hide Cleaned;
    CleanedAre(t, now);
    CleanedIsSmaller(t, now);
    var c := Cleaned(t, now);
    if ip in t && ip !in c {
      assert c.Keys <= t.Keys - {ip};
      SubsetSize(c.Keys, t.Keys - {ip});
      assert |c.Keys| == |c| && |t.Keys| == |t|;
    }
  }
}
