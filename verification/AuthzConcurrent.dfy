/**
 * The token store under any number of interleaved callers. `Issue` and `PurgeExpired` read the
 * clock before they take the lock; `Consume` takes the token under the lock and judges it, with
 * a clock of its own, after letting the lock go. Every lock-protected section is one step.
 */
module AuthzConcurrent {
  import opened Wrappers
  import opened Authz

  /** An insertion: its number in the order of insertions, what was inserted, and when that was stamped. */
  datatype Insertion = Insertion(id: nat, entry: Entry, issuedAt: int)

  type Shelf = map<Token, Insertion>

  datatype Caller =
    | Idle
    | Issuing(token: Token, binding: Binding, ttl: int, now: int)
    | Judging(taken: Option<Insertion>, binding: Binding)
    | Purging(now: int)

  datatype Judgement = Judgement(taken: Option<Insertion>, binding: Binding, at: int, verdict: Verdict)

  datatype State = State(
    clock: int,
    shelf: Shelf,
    callers: map<nat, Caller>,
    inserted: seq<Insertion>,
    taken: set<nat>,
    swept: set<nat>,
    overwritten: set<nat>,
    log: seq<Judgement>)

  datatype Action =
    | Tick(elapsed: nat)
    | IssueBegin(t: nat, token: Token, binding: Binding, ttl: int)
    | IssueCommit(t: nat)
    | Take(t: nat, token: Token, binding: Binding)
    | Decide(t: nat)
    | PurgeBegin(t: nat)
    | PurgeCommit(t: nat)

  function Start(clock: int): State {
    State(clock, map[], map[], [], {}, {}, {}, [])
  }

  function CallerOf(s: State, t: nat): Caller {
    if t in s.callers then s.callers[t] else Idle
  }

  function SweptShelf(shelf: Shelf, now: int): Shelf {
    map t | t in shelf && shelf[t].entry.expiresAt >= now :: shelf[t]
  }

  function Ids(shelf: Shelf): set<nat> {
    set t | t in shelf :: shelf[t].id
  }

  function Find(shelf: Shelf, token: Token): Option<Insertion> {
    if token in shelf then Some(shelf[token]) else None
  }

  function Contents(i: Option<Insertion>): Option<Entry> {
    if i.Some? then Some(i.value.entry) else None
  }

  /** The sweep of a locked section; a store that never sweeps skips it. */
  function Sweep(s: State, now: int, sweeping: bool): State {
    if !sweeping then s
    else
      var kept := SweptShelf(s.shelf, now);
      s.(shelf := kept, swept := s.swept + (set t | t in s.shelf && t !in kept :: s.shelf[t].id))
  }

  function Insert(s: State, token: Token, entry: Entry, now: int): State {
    var i := Insertion(|s.inserted|, entry, now);
    s.(shelf := s.shelf[token := i],
       inserted := s.inserted + [i],
       overwritten := s.overwritten + (if token in s.shelf then {s.shelf[token].id} else {}))
  }

  function TakeOut(s: State, token: Token): State {
    s.(shelf := s.shelf - {token}, taken := s.taken + (if token in s.shelf then {s.shelf[token].id} else {}))
  }

  function SetCaller(s: State, t: nat, c: Caller): State {
    s.(callers := s.callers[t := c])
  }

  /** One step; a step its caller is not ready for does nothing. */
  function Step(s: State, a: Action, sweeping: bool): State {
    match a
    case Tick(elapsed) => s.(clock := s.clock + elapsed)
    case IssueBegin(t, token, binding, ttl) =>
      if !CallerOf(s, t).Idle? then s else SetCaller(s, t, Issuing(token, binding, ttl, s.clock))
    case IssueCommit(t) =>
      (match CallerOf(s, t)
       case Issuing(token, binding, ttl, now) =>
         SetCaller(Insert(Sweep(s, now, sweeping), token, Entry(binding, now + ttl), now), t, Idle)
       case _ => s)
    case Take(t, token, binding) =>
      if !CallerOf(s, t).Idle? then s
      else SetCaller(TakeOut(s, token), t, Judging(Find(s.shelf, token), binding))
    case Decide(t) =>
      (match CallerOf(s, t)
       case Judging(taken, binding) =>
         var j := Judgement(taken, binding, s.clock, Judge(Contents(taken), binding, s.clock));
         SetCaller(s.(log := s.log + [j]), t, Idle)
       case _ => s)
    case PurgeBegin(t) =>
      if !CallerOf(s, t).Idle? then s else SetCaller(s, t, Purging(s.clock))
    case PurgeCommit(t) =>
      (match CallerOf(s, t)
       case Purging(now) => SetCaller(Sweep(s, now, sweeping), t, Idle)
       case _ => s)
  }

  function Run(clock: int, actions: seq<Action>, sweeping: bool): State {
    if actions == [] then Start(clock)
    else Step(Run(clock, actions[..|actions| - 1], sweeping), actions[|actions| - 1], sweeping)
  }

  // ---------------------------------------------------------------- the locked sections are Store's

  function Plain(shelf: Shelf): Tokens {
    map t | t in shelf :: shelf[t].entry
  }

  /** Each locked section changes the map as the corresponding method of `Store` does. */
  lemma StepsAreStoreMethods(s: State, a: Action)
    ensures a.IssueCommit? && CallerOf(s, a.t).Issuing? ==>
              var c := CallerOf(s, a.t);
              Plain(Step(s, a, true).shelf) == Apply(Plain(s.shelf), IssueOp(c.token, c.binding, c.ttl, c.now))
    ensures a.Take? && CallerOf(s, a.t).Idle? ==>
              Plain(Step(s, a, true).shelf) == Plain(s.shelf) - {a.token} &&
              Contents(CallerOf(Step(s, a, true), a.t).taken) == Lookup(Plain(s.shelf), a.token)
    ensures a.PurgeCommit? && CallerOf(s, a.t).Purging? ==>
              Plain(Step(s, a, true).shelf) == Apply(Plain(s.shelf), PurgeOp(CallerOf(s, a.t).now))
  {
  }

  // ---------------------------------------------------------------- invariants

  function Below(n: nat): (r: set<nat>)
    ensures |r| == n
    ensures forall i: nat :: i in r <==> i < n
  {
    if n == 0 then {} else Below(n - 1) + {n - 1}
  }

  ghost predicate OnRecord(s: State, i: Insertion) {
    i.id < |s.inserted| && s.inserted[i.id] == i
  }

  ghost predicate OnShelf(shelf: Shelf, id: nat) {
    exists t :: t in shelf && shelf[t].id == id
  }

  ghost predicate NoTwoTokens(shelf: Shelf) {
    forall t, u :: t in shelf && u in shelf && shelf[t].id == shelf[u].id ==> t == u
  }

  /** No insertion is in two places. */
  ghost predicate Apart(s: State) {
    && NoTwoTokens(s.shelf)
    && (forall t :: t in s.shelf ==> OnRecord(s, s.shelf[t]))
    && (forall t :: t in s.shelf ==>
          s.shelf[t].id !in s.taken && s.shelf[t].id !in s.swept && s.shelf[t].id !in s.overwritten)
    && (forall id :: id in s.taken ==> id < |s.inserted| && id !in s.swept && id !in s.overwritten)
    && (forall id :: id in s.swept ==> id < |s.inserted| && id !in s.overwritten)
    && (forall id :: id in s.overwritten ==> id < |s.inserted|)
  }

  /** Every insertion is somewhere. */
  ghost predicate Complete(s: State) {
    forall id: nat :: id < |s.inserted| ==>
      OnShelf(s.shelf, id) || id in s.taken || id in s.swept || id in s.overwritten
  }

  ghost predicate Partition(s: State) { Apart(s) && Complete(s) }

  lemma SweepKeepsPartition(s: State, now: int, sweeping: bool)
    requires Partition(s)
    ensures Partition(Sweep(s, now, sweeping))
    ensures forall id :: id in Sweep(s, now, sweeping).swept && id !in s.swept ==>
                           id < |s.inserted| && s.inserted[id].entry.expiresAt < now
  {
    if sweeping {
      var r := Sweep(s, now, sweeping);
      forall id: nat | id < |s.inserted|
        ensures OnShelf(r.shelf, id) || id in r.taken || id in r.swept || id in r.overwritten
      {
        if OnShelf(s.shelf, id) {
          var t :| t in s.shelf && s.shelf[t].id == id;
          assert t in r.shelf || id in r.swept;
        }
      }
    }
  }

  lemma InsertKeepsApart(s: State, token: Token, entry: Entry, now: int)
    requires Apart(s)
    ensures Apart(Insert(s, token, entry, now))
  {
  }

  lemma InsertKeepsComplete(s: State, token: Token, entry: Entry, now: int)
    requires Complete(s)
    ensures Complete(Insert(s, token, entry, now))
  {
    var r := Insert(s, token, entry, now);
    forall id: nat | id < |r.inserted|
      ensures OnShelf(r.shelf, id) || id in r.taken || id in r.swept || id in r.overwritten
    {
      if id == |s.inserted| {
        assert token in r.shelf && r.shelf[token].id == id;
      } else if OnShelf(s.shelf, id) {
        var t :| t in s.shelf && s.shelf[t].id == id;
        assert t == token || (t in r.shelf && r.shelf[t].id == id);
      }
    }
  }

  lemma InsertKeepsPartition(s: State, token: Token, entry: Entry, now: int)
    requires Partition(s)
    ensures Partition(Insert(s, token, entry, now))
  {
    hide Apart, Complete, Insert;
    InsertKeepsApart(s, token, entry, now);
    InsertKeepsComplete(s, token, entry, now);
  }

  lemma TakeOutKeepsPartition(s: State, token: Token)
    requires Partition(s)
    ensures Partition(TakeOut(s, token))
  {
    var r := TakeOut(s, token);
    forall id: nat | id < |r.inserted|
      ensures OnShelf(r.shelf, id) || id in r.taken || id in r.swept || id in r.overwritten
    {
      if OnShelf(s.shelf, id) {
        var t :| t in s.shelf && s.shelf[t].id == id;
        assert t == token || (t in r.shelf && r.shelf[t].id == id);
      }
    }
  }

  lemma SamePlaces(s: State, r: State)
    requires Partition(s) && s.shelf == r.shelf && s.inserted == r.inserted
    requires s.taken == r.taken && s.swept == r.swept && s.overwritten == r.overwritten
    ensures Partition(r)
  {
  }

  lemma StepKeepsPartition(s: State, a: Action, sweeping: bool)
    requires Partition(s)
    ensures Partition(Step(s, a, sweeping))
  {
    hide Partition, Sweep, Insert, TakeOut;
    var r := Step(s, a, sweeping);
    if a.IssueCommit? && CallerOf(s, a.t).Issuing? {
      var c := CallerOf(s, a.t);
      SweepKeepsPartition(s, c.now, sweeping);
      InsertKeepsPartition(Sweep(s, c.now, sweeping), c.token, Entry(c.binding, c.now + c.ttl), c.now);
      SamePlaces(Insert(Sweep(s, c.now, sweeping), c.token, Entry(c.binding, c.now + c.ttl), c.now), r);
    } else if a.Take? && CallerOf(s, a.t).Idle? {
      TakeOutKeepsPartition(s, a.token);
      SamePlaces(TakeOut(s, a.token), r);
    } else if a.PurgeCommit? && CallerOf(s, a.t).Purging? {
      SweepKeepsPartition(s, CallerOf(s, a.t).now, sweeping);
      SamePlaces(Sweep(s, CallerOf(s, a.t).now, sweeping), r);
    } else {
      SamePlaces(s, r);
    }
  }

  lemma {:induction false} RunPartition(clock: int, actions: seq<Action>, sweeping: bool)
    ensures Partition(Run(clock, actions, sweeping))
  {
    if actions != [] {
      var n := |actions| - 1;
      RunPartition(clock, actions[..n], sweeping);
      StepKeepsPartition(Run(clock, actions[..n], sweeping), actions[n], sweeping);
    }
  }

  lemma IdsAreOnShelf(shelf: Shelf)
    ensures forall id :: id in Ids(shelf) <==> OnShelf(shelf, id)
  {
    forall id ensures id in Ids(shelf) <==> OnShelf(shelf, id) {
      if OnShelf(shelf, id) {
        var t :| t in shelf && shelf[t].id == id;
      }
    }
  }

  lemma ShelfIsApart(s: State)
    requires Apart(s)
    ensures forall id :: id in Ids(s.shelf) ==>
              id < |s.inserted| && id !in s.taken && id !in s.swept && id !in s.overwritten
  {
  }

  lemma DisjointSizes(a: set<nat>, b: set<nat>, c: set<nat>, d: set<nat>, n: nat)
    requires forall id :: id in a ==> id !in b && id !in c && id !in d
    requires forall id :: id in b ==> id !in c && id !in d
    requires forall id :: id in c ==> id !in d
    requires forall id: nat :: id in Below(n) <==> id in a || id in b || id in c || id in d
    ensures n == |a| + |b| + |c| + |d|
  {
    assert a * b == {} && |a + b| == |a| + |b|;
    assert (a + b) * c == {} && |a + b + c| == |a + b| + |c|;
    assert (a + b + c) * d == {} && |a + b + c + d| == |a + b + c| + |d|;
    assert a + b + c + d == Below(n);
  }

  lemma {:induction false} IdCount(shelf: Shelf)
    requires NoTwoTokens(shelf)
    ensures |Ids(shelf)| == |shelf|
    decreases |shelf|
  {
    if t :| t in shelf {
      var rest := shelf - {t};
      IdCount(rest);
      assert shelf.Keys == rest.Keys + {t};
      assert Ids(shelf) == Ids(rest) + {shelf[t].id};
    } else {
      assert shelf == map[] && Ids(shelf) == {};
    }
  }

  /** Conservation: insertions are held, consumed, swept or overwritten, each exactly once. */
  lemma Accounting(clock: int, actions: seq<Action>, sweeping: bool)
    ensures var s := Run(clock, actions, sweeping);
            |s.inserted| == |s.shelf| + |s.taken| + |s.swept| + |s.overwritten|
  {
    RunPartition(clock, actions, sweeping);
    var s := Run(clock, actions, sweeping);
    IdsAreOnShelf(s.shelf);
    ShelfIsApart(s);
    DisjointSizes(Ids(s.shelf), s.taken, s.swept, s.overwritten, |s.inserted|);
    IdCount(s.shelf);
  }

  /** The insertions a judgement was or will be passed on. */
  ghost predicate JudgedSoundly(s: State, j: Judgement) {
    && j.verdict == Judge(Contents(j.taken), j.binding, j.at)
    && j.at <= s.clock
    && (j.taken.Some? ==> OnRecord(s, j.taken.value) && j.taken.value.id in s.taken)
  }

  ghost predicate InFlight(s: State, t: nat, id: nat) {
    CallerOf(s, t).Judging? && CallerOf(s, t).taken.Some? && CallerOf(s, t).taken.value.id == id
  }

  ghost predicate Logged(s: State, k: int, id: nat) {
    0 <= k < |s.log| && s.log[k].taken.Some? && s.log[k].taken.value.id == id
  }

  /** An insertion is in flight with one caller at most, or in one judgement, never both. */
  ghost predicate OneJudge(s: State) {
    && (forall k :: 0 <= k < |s.log| ==> JudgedSoundly(s, s.log[k]))
    && (forall t, id :: InFlight(s, t, id) ==> id in s.taken && OnRecord(s, CallerOf(s, t).taken.value))
    && (forall t, u, id :: InFlight(s, t, id) && InFlight(s, u, id) ==> t == u)
    && (forall t, k, id :: InFlight(s, t, id) ==> !Logged(s, k, id))
    && (forall k, l, id :: Logged(s, k, id) && Logged(s, l, id) ==> k == l)
  }

  lemma IssueKeepsOneJudge(s: State, a: Action, sweeping: bool)
    requires OneJudge(s) && a.IssueCommit?
    ensures OneJudge(Step(s, a, sweeping))
  {
    var r := Step(s, a, sweeping);
    assert forall u, id :: InFlight(r, u, id) ==> InFlight(s, u, id);
    assert forall k, id :: Logged(r, k, id) <==> Logged(s, k, id);
    assert forall i :: OnRecord(s, i) ==> OnRecord(r, i);
  }

  lemma TakeKeepsOneJudge(s: State, a: Action, sweeping: bool)
    requires Partition(s) && OneJudge(s) && a.Take?
    ensures OneJudge(Step(s, a, sweeping))
  {
    var r := Step(s, a, sweeping);
    assert forall k, id :: Logged(r, k, id) <==> Logged(s, k, id);
    assert forall u, id :: u != a.t ==> (InFlight(r, u, id) <==> InFlight(s, u, id));
    if CallerOf(s, a.t).Idle? && a.token in s.shelf {
      var i := s.shelf[a.token];
      assert i.id in Ids(s.shelf);
      assert forall u :: !InFlight(s, u, i.id);
      assert forall k :: !Logged(s, k, i.id);
      assert forall id :: InFlight(r, a.t, id) ==> id == i.id;
    } else {
      assert forall id :: InFlight(r, a.t, id) ==> InFlight(s, a.t, id);
    }
  }

  lemma DecideKeepsOneJudge(s: State, a: Action, sweeping: bool)
    requires OneJudge(s) && a.Decide?
    ensures OneJudge(Step(s, a, sweeping))
  {
    var r := Step(s, a, sweeping);
    if CallerOf(s, a.t).Judging? {
      assert forall k, id :: Logged(r, k, id) <==> Logged(s, k, id) || (k == |s.log| && InFlight(s, a.t, id));
      assert forall u, id :: InFlight(r, u, id) <==> u != a.t && InFlight(s, u, id);
      var j := r.log[|s.log|];
      if j.taken.Some? {
        assert InFlight(s, a.t, j.taken.value.id);
      }
      assert JudgedSoundly(r, j);
      assert forall k :: 0 <= k < |s.log| ==> r.log[k] == s.log[k];
    }
  }

  lemma StepKeepsOneJudge(s: State, a: Action, sweeping: bool)
    requires Partition(s) && OneJudge(s)
    ensures OneJudge(Step(s, a, sweeping))
  {
    var r := Step(s, a, sweeping);
    match a {
      case Tick(_) =>
        assert forall t, id :: InFlight(r, t, id) <==> InFlight(s, t, id);
        assert forall k, id :: Logged(r, k, id) <==> Logged(s, k, id);
      case Take(t, token, _) => TakeKeepsOneJudge(s, a, sweeping);
      case Decide(t) => DecideKeepsOneJudge(s, a, sweeping);
      case IssueCommit(_) => IssueKeepsOneJudge(s, a, sweeping);
      case _ =>
        assert forall u, id :: InFlight(r, u, id) ==> InFlight(s, u, id);
        assert forall k, id :: Logged(r, k, id) <==> Logged(s, k, id);
    }
  }

  lemma {:induction false} RunOneJudge(clock: int, actions: seq<Action>, sweeping: bool)
    ensures OneJudge(Run(clock, actions, sweeping))
  {
    if actions != [] {
      var n := |actions| - 1;
      RunOneJudge(clock, actions[..n], sweeping);
      RunPartition(clock, actions[..n], sweeping);
      StepKeepsOneJudge(Run(clock, actions[..n], sweeping), actions[n], sweeping);
    }
  }

  /**
   * In every interleaving: an accepted consumption stands for one insertion, with this very
   * binding, not after its expiry; and no insertion is accepted twice.
   */
  lemma AcceptedOnce(clock: int, actions: seq<Action>, sweeping: bool)
    ensures var s := Run(clock, actions, sweeping);
            && (forall k :: 0 <= k < |s.log| && s.log[k].verdict.Accepted? ==>
                  var j := s.log[k];
                  j.taken.Some? && OnRecord(s, j.taken.value) &&
                  j.taken.value.entry.binding == j.binding && j.at <= j.taken.value.entry.expiresAt)
            && (forall k, l :: 0 <= k < l < |s.log| && s.log[k].verdict.Accepted? && s.log[l].verdict.Accepted? ==>
                  s.log[k].taken != s.log[l].taken)
  {
    RunOneJudge(clock, actions, sweeping);
    var s := Run(clock, actions, sweeping);
    forall k, l | 0 <= k < l < |s.log| && s.log[k].verdict.Accepted? && s.log[l].verdict.Accepted?
      ensures s.log[k].taken != s.log[l].taken
    {
      assert JudgedSoundly(s, s.log[k]) && JudgedSoundly(s, s.log[l]);
      assert Logged(s, k, s.log[k].taken.value.id);
      assert Logged(s, l, s.log[l].taken.value.id);
    }
    assert forall k :: 0 <= k < |s.log| ==> JudgedSoundly(s, s.log[k]);
  }

  /** In every interleaving a judgement follows what was taken out, its binding and its expiry, in this order. */
  lemma JudgedExactly(clock: int, actions: seq<Action>, sweeping: bool, k: int)
    requires 0 <= k < |Run(clock, actions, sweeping).log|
    ensures var j := Run(clock, actions, sweeping).log[k];
            && (j.verdict.NotFound? <==> j.taken.None?)
            && (j.verdict.Expired? <==> j.taken.Some? && j.at > j.taken.value.entry.expiresAt)
            && (j.verdict.Mismatch? <==>
                  j.taken.Some? && j.at <= j.taken.value.entry.expiresAt && j.taken.value.entry.binding != j.binding)
            && (j.verdict.Accepted? <==>
                  j.taken.Some? && j.at <= j.taken.value.entry.expiresAt && j.taken.value.entry.binding == j.binding)
  {
    RunOneJudge(clock, actions, sweeping);
    var s := Run(clock, actions, sweeping);
    assert JudgedSoundly(s, s.log[k]);
  }

  /** Clocks read ahead of a lock are never ahead of the clock. */
  ghost predicate ClocksBehind(s: State) {
    forall t :: t in s.callers ==>
      (s.callers[t].Issuing? ==> s.callers[t].now <= s.clock) && (s.callers[t].Purging? ==> s.callers[t].now <= s.clock)
  }

  lemma {:induction false} RunClocks(clock: int, actions: seq<Action>, sweeping: bool)
    ensures ClocksBehind(Run(clock, actions, sweeping))
  {
    if actions != [] {
      RunClocks(clock, actions[..|actions| - 1], sweeping);
    }
  }

  ghost predicate SweptHadExpired(s: State) {
    forall id :: id in s.swept ==> id < |s.inserted| && s.inserted[id].entry.expiresAt < s.clock
  }

  lemma StepSweepsExpired(s: State, a: Action, sweeping: bool)
    requires Partition(s) && ClocksBehind(s) && SweptHadExpired(s)
    ensures SweptHadExpired(Step(s, a, sweeping))
  {
    hide Partition;
    if a.IssueCommit? && CallerOf(s, a.t).Issuing? {
      SweepKeepsPartition(s, CallerOf(s, a.t).now, sweeping);
    }
    if a.PurgeCommit? && CallerOf(s, a.t).Purging? {
      SweepKeepsPartition(s, CallerOf(s, a.t).now, sweeping);
    }
  }

  /** No sweep, however stale its clock, removes what has not expired by then. */
  lemma {:induction false} OnlyExpiredIsSwept(clock: int, actions: seq<Action>, sweeping: bool)
    ensures SweptHadExpired(Run(clock, actions, sweeping))
  {
    if actions != [] {
      var n := |actions| - 1;
      OnlyExpiredIsSwept(clock, actions[..n], sweeping);
      RunPartition(clock, actions[..n], sweeping);
      RunClocks(clock, actions[..n], sweeping);
      StepSweepsExpired(Run(clock, actions[..n], sweeping), actions[n], sweeping);
    }
  }

  // ---------------------------------------------------------------- sweeping does not show

  /** Equal, except that the store that sweeps finds nothing where the other finds an expired token. */
  ghost predicate SameVerdict(swept: Verdict, kept: Verdict) {
    swept == kept || (swept.NotFound? && kept.Expired?)
  }

  ghost predicate SameCaller(a: Caller, b: Caller, clock: int) {
    a == b ||
    (a.Judging? && b.Judging? && a.binding == b.binding && a.taken.None? && b.taken.Some? &&
     b.taken.value.entry.expiresAt < clock)
  }

  ghost predicate SameCallers(a: map<nat, Caller>, b: map<nat, Caller>, clock: int) {
    a.Keys == b.Keys && forall t :: t in a ==> SameCaller(a[t], b[t], clock)
  }

  ghost predicate SameShelf(a: Shelf, b: Shelf, clock: int) {
    && (forall t :: t in a ==> t in b && b[t] == a[t])
    && (forall t :: t in b && t !in a ==> b[t].entry.expiresAt < clock)
  }

  ghost predicate SameLog(a: seq<Judgement>, b: seq<Judgement>) {
    |a| == |b| && forall k :: 0 <= k < |a| ==>
      SameVerdict(a[k].verdict, b[k].verdict) && a[k].binding == b[k].binding && a[k].at == b[k].at
  }

  ghost predicate Alike(s: State, u: State) {
    && s.clock == u.clock && s.inserted == u.inserted
    && SameCallers(s.callers, u.callers, s.clock)
    && SameShelf(s.shelf, u.shelf, s.clock)
    && SameLog(s.log, u.log)
  }

  lemma SetCallersAlike(s: State, u: State, t: nat, a: Caller, b: Caller)
    requires Alike(s, u) && SameCaller(a, b, s.clock)
    ensures Alike(SetCaller(s, t, a), SetCaller(u, t, b))
  {
  }

  lemma SweepAlike(s: State, u: State, now: int)
    requires Alike(s, u) && now <= s.clock
    ensures Alike(Sweep(s, now, true), Sweep(u, now, false))
  {
  }

  lemma DecidingIsAlike(s: State, u: State, t: nat)
    requires Alike(s, u) && CallerOf(s, t).Judging? && SameCaller(CallerOf(s, t), CallerOf(u, t), s.clock)
    ensures Alike(Step(s, Decide(t), true), Step(u, Decide(t), false))
  {
    hide SameCallers, SameShelf;
    var c, d := CallerOf(s, t), CallerOf(u, t);
    var j := Judgement(c.taken, c.binding, s.clock, Judge(Contents(c.taken), c.binding, s.clock));
    var k := Judgement(d.taken, d.binding, u.clock, Judge(Contents(d.taken), d.binding, u.clock));
    assert SameLog(s.log + [j], u.log + [k]);
    SetCallersAlike(s.(log := s.log + [j]), u.(log := u.log + [k]), t, Idle, Idle);
  }

  lemma InsertAlike(s: State, u: State, token: Token, entry: Entry, now: int)
    requires Alike(s, u)
    ensures Alike(Insert(s, token, entry, now), Insert(u, token, entry, now))
  {
    hide SameCallers, SameLog;
  }

  lemma IssuingIsAlike(s: State, u: State, t: nat)
    requires Alike(s, u) && ClocksBehind(s)
    requires CallerOf(s, t).Issuing? && SameCaller(CallerOf(s, t), CallerOf(u, t), s.clock)
    ensures Alike(Step(s, IssueCommit(t), true), Step(u, IssueCommit(t), false))
  {
    hide Alike, Sweep, Insert;
    var c := CallerOf(s, t);
    SweepAlike(s, u, c.now);
    var e := Entry(c.binding, c.now + c.ttl);
    var p, q := Sweep(s, c.now, true), Sweep(u, c.now, false);
    InsertAlike(p, q, c.token, e, c.now);
    SetCallersAlike(Insert(p, c.token, e, c.now), Insert(q, c.token, e, c.now), t, Idle, Idle);
  }

  lemma StepsAlike(s: State, u: State, a: Action)
    requires Alike(s, u) && ClocksBehind(s)
    ensures Alike(Step(s, a, true), Step(u, a, false))
  {
    if a.Tick? {
      return;
    }
    var c, d := CallerOf(s, a.t), CallerOf(u, a.t);
    assert SameCaller(c, d, s.clock);
    if (a.IssueBegin? || a.PurgeBegin?) && c.Idle? {
      var b := if a.IssueBegin? then Issuing(a.token, a.binding, a.ttl, s.clock) else Purging(s.clock);
      SetCallersAlike(s, u, a.t, b, b);
    } else if a.Take? && c.Idle? {
      hide SameCallers, SameLog;
      assert Alike(TakeOut(s, a.token), TakeOut(u, a.token));
      SetCallersAlike(TakeOut(s, a.token), TakeOut(u, a.token), a.t,
                      Judging(Find(s.shelf, a.token), a.binding), Judging(Find(u.shelf, a.token), a.binding));
    } else if a.Decide? && c.Judging? {
      DecidingIsAlike(s, u, a.t);
    } else if a.PurgeCommit? && c.Purging? {
      SweepAlike(s, u, c.now);
      hide Alike, Sweep;
      SetCallersAlike(Sweep(s, c.now, true), Sweep(u, c.now, false), a.t, Idle, Idle);
    } else if a.IssueCommit? && c.Issuing? {
      IssuingIsAlike(s, u, a.t);
    }
  }

  /**
   * The same interleaving over a store that never sweeps: every consumption is accepted by one
   * exactly when by the other, and their errors differ only as not found against expired.
   */
  lemma {:induction false} SweepingDoesNotShow(clock: int, actions: seq<Action>)
    ensures Alike(Run(clock, actions, true), Run(clock, actions, false))
  {
    if actions != [] {
      var n := |actions| - 1;
      SweepingDoesNotShow(clock, actions[..n]);
      RunClocks(clock, actions[..n], true);
      StepsAlike(Run(clock, actions[..n], true), Run(clock, actions[..n], false), actions[n]);
    }
  }

  // ---------------------------------------------------------------- nothing old is kept

  ghost predicate Within(s: State, ceiling: int) {
    && (forall t :: t in s.shelf ==>
          s.shelf[t].entry.expiresAt <= s.shelf[t].issuedAt + ceiling && s.shelf[t].issuedAt <= s.clock)
    && (forall t :: t in s.callers && s.callers[t].Issuing? ==> s.callers[t].ttl <= ceiling)
  }

  lemma StepWithin(s: State, a: Action, ceiling: int)
    requires Within(s, ceiling) && ClocksBehind(s) && (a.IssueBegin? ==> a.ttl <= ceiling)
    ensures Within(Step(s, a, true), ceiling)
  {
    if a.IssueCommit? && CallerOf(s, a.t).Issuing? {
      var c := CallerOf(s, a.t);
      assert Within(Sweep(s, c.now, true), ceiling);
      hide Sweep;
    }
  }

  lemma {:induction false} RunWithin(clock: int, actions: seq<Action>, ceiling: int)
    requires forall i :: 0 <= i < |actions| && actions[i].IssueBegin? ==> actions[i].ttl <= ceiling
    ensures Within(Run(clock, actions, true), ceiling)
  {
    if actions != [] {
      var n := |actions| - 1;
      RunWithin(clock, actions[..n], ceiling);
      RunClocks(clock, actions[..n], true);
      hide Within, Step;
      StepWithin(Run(clock, actions[..n], true), actions[n], ceiling);
    }
  }

  /** Right after an insertion stamped `now`, everything held was stamped at `now - ceiling` or later. */
  lemma HeldAfterIssue(clock: int, actions: seq<Action>, ceiling: int, t: nat)
    requires forall i :: 0 <= i < |actions| && actions[i].IssueBegin? ==> actions[i].ttl <= ceiling
    requires 0 <= ceiling && CallerOf(Run(clock, actions, true), t).Issuing?
    ensures var s, r := Run(clock, actions, true), Run(clock, actions + [IssueCommit(t)], true);
            forall token :: token in r.shelf ==>
              CallerOf(s, t).now - ceiling <= r.shelf[token].issuedAt <= r.clock
  {
    RunWithin(clock, actions, ceiling);
    RunClocks(clock, actions, true);
    var all := actions + [IssueCommit(t)];
    assert all[..|all| - 1] == actions;
  }
}
