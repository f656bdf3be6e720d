/**
 * The cached vault client: kept while it works, dropped on a 401, and not asked for again too
 * soon after a failed connection. Times are nanoseconds.
 */
module VaultCache {
  import opened Wrappers
  import opened VaultItems
  import Writes = VaultWrites

  /** What lies outside the process: the clock and whatever the server holds. */
  datatype World<S> = World(clock: int, server: S)

  type Connect<!C, !S> = World<S> -> (World<S>, Result<C, VaultError>)

  type Call<!C, !S, !R> = (C, World<S>) -> (World<S>, Outcome<R, VaultError>)

  datatype State<C> = State(client: Option<C>, err: Option<VaultError>, errAt: int)

  /** What is seen from outside, in order. */
  datatype Event = Connected(at: int) | ConnectFailed(at: int) | Called(unauthorized: bool)

  datatype Got<C, S> = Got(state: State<C>, world: World<S>, client: Result<C, VaultError>, events: seq<Event>)

  datatype Ran<C, S, R> = Ran(state: State<C>, world: World<S>, result: Outcome<R, VaultError>, events: seq<Event>)

  predicate BacksOff<C>(s: State<C>, backoff: int, now: int) {
    s.client.None? && s.err.Some? && now - s.errAt < backoff
  }

  function GetClient<C, S>(s: State<C>, backoff: int, w: World<S>, connect: Connect<C, S>): Got<C, S> {
    if s.client.Some? then Got(s, w, Success(s.client.value), [])
    else if BacksOff(s, backoff, w.clock) then Got(s, w, Failure(s.err.value), [])
    else
      var (after, r) := connect(w);
      match r
      case Failure(e) => Got(State(None, Some(e), after.clock), after, r, [ConnectFailed(after.clock)])
      case Success(c) => Got(State(Some(c), None, s.errAt), after, r, [Connected(after.clock)])
  }

  predicate IsUnauthorized<R>(r: Outcome<R, VaultError>) { r.Err? && r.error.Unauthorized? }

  function RunWith<C, S, R>(s: State<C>, backoff: int, w: World<S>, connect: Connect<C, S>, fn: Call<C, S, R>)
    : Ran<C, S, R>
  {
    var first := GetClient(s, backoff, w, connect);
    match first.client
    case Failure(e) => Ran(first.state, first.world, Err(e), first.events)
    case Success(c) =>
      var (after, r) := fn(c, first.world);
      var called := first.events + [Called(IsUnauthorized(r))];
      if !IsUnauthorized(r) then Ran(first.state, after, r, called)
      else
        var again := GetClient(first.state.(client := None), backoff, after, connect);
        match again.client
        case Failure(e) => Ran(again.state, again.world, Err(e), called + again.events)
        case Success(d) =>
          var (last, q) := fn(d, again.world);
          Ran(again.state, last, q, called + again.events + [Called(IsUnauthorized(q))])
  }

  class Cache<C(==), S(!new)> {
    var client: Option<C>
    var err: Option<VaultError>
    var errAt: int
    const backoff: int

    function Now(): State<C>
      reads this
    {
      State(client, err, errAt)
    }

    constructor (backoff: int)
      ensures Now() == State(None, None, 0) && this.backoff == backoff
    {
      client, err, errAt := None, None, 0;
      this.backoff := backoff;
    }

    method VaultClient(w: World<S>, connect: Connect<C, S>)
      returns (r: Result<C, VaultError>, after: World<S>, ghost events: seq<Event>)
      modifies this
      ensures Got(Now(), after, r, events) == GetClient(old(Now()), backoff, w, connect)
    {
      if client.Some? {
        return Success(client.value), w, [];
      }
      if err.Some? && w.clock - errAt < backoff {
        return Failure(err.value), w, [];
      }
      var (world, c) := connect(w);
      if c.Failure? {
        err := Some(c.error);
        errAt := world.clock;
        return c, world, [ConnectFailed(world.clock)];
      }
      client := Some(c.value);
      err := None;
      return c, world, [Connected(world.clock)];
    }

    method WithVault<R>(w: World<S>, connect: Connect<C, S>, fn: Call<C, S, R>)
      returns (r: Outcome<R, VaultError>, after: World<S>, ghost events: seq<Event>)
      modifies this
      ensures Ran(Now(), after, r, events) == RunWith(old(Now()), backoff, w, connect, fn)
    {
      var c, world, seen := VaultClient(w, connect);
      if c.Failure? {
        return Err(c.error), world, seen;
      }
      var (w1, r1) := fn(c.value, world);
      seen := seen + [Called(IsUnauthorized(r1))];
      if !IsUnauthorized(r1) {
        return r1, w1, seen;
      }
      client := None;
      ghost var more: seq<Event>;
      c, world, more := VaultClient(w1, connect);
      if c.Failure? {
        return Err(c.error), world, seen + more;
      }
      var (w2, r2) := fn(c.value, world);
      return r2, w2, seen + more + [Called(IsUnauthorized(r2))];
    }
  }

  // ---------------------------------------------------------------- one call

  /** A cached client and a cached error never coexist. */
  predicate Sound<C>(s: State<C>) { s.client.Some? ==> s.err.None? }

  function Calls(events: seq<Event>): nat {
    if events == [] then 0 else (if events[0].Called? then 1 else 0) + Calls(events[1..])
  }

  lemma CallsAppend(a: seq<Event>, b: seq<Event>)
    ensures Calls(a + b) == Calls(a) + Calls(b)
  {
    if a == [] {
      assert a + b == b;
    } else {
      assert (a + b)[1..] == a[1..] + b;
      CallsAppend(a[1..], b);
    }
  }

  /**
   * The function runs at most twice. After a 401 that is not the second one, the very next thing
   * is an attempt to connect, whatever the backoff; after any other answer there is nothing more.
   */
  ghost predicate RetriesOnce(events: seq<Event>) {
    && Calls(events) <= 2
    && (forall i :: 0 <= i < |events| && events[i] == Called(true) ==>
          if i == |events| - 1 then Calls(events) == 2 else !events[i + 1].Called?)
    && (forall i :: 0 <= i < |events| && events[i] == Called(false) ==> i == |events| - 1)
  }

  lemma WithVaultRetriesOnce<C, S, R>(s: State<C>, backoff: int, w: World<S>, connect: Connect<C, S>, fn: Call<C, S, R>)
    requires Sound(s)
    ensures var ran := RunWith(s, backoff, w, connect, fn);
            Sound(ran.state) && RetriesOnce(ran.events)
  {
    var first := GetClient(s, backoff, w, connect);
    assert Calls(first.events) == 0;
    if first.client.Success? {
      var (after, r) := fn(first.client.value, first.world);
      var one := [Called(IsUnauthorized(r))];
      assert Calls(one) == 1;
      CallsAppend(first.events, one);
      if IsUnauthorized(r) {
        var again := GetClient(first.state.(client := None), backoff, after, connect);
        assert |again.events| == 1 && Calls(again.events) == 0;
        CallsAppend(first.events + one, again.events);
        if again.client.Success? {
          var (last, q) := fn(again.client.value, again.world);
          var two := [Called(IsUnauthorized(q))];
          assert Calls(two) == 1;
          CallsAppend(first.events + one + again.events, two);
        }
      }
    }
  }

  /** `fn` and `connect` on their own: refusals and connections leave the server as it was. */
  ghost predicate Harmless<C(!new), S(!new), R(!new)>(connect: Connect<C, S>, fn: Call<C, S, R>) {
    && (forall w: World<S> :: connect(w).0.server == w.server)
    && (forall c: C, w: World<S> {:trigger fn(c, w)} :: IsUnauthorized(fn(c, w).1) ==> fn(c, w).0.server == w.server)
  }

  /** A connection is tried exactly when there is no client and no failure within the backoff. */
  lemma ConnectsExactly<C, S, R>(s: State<C>, backoff: int, w: World<S>, connect: Connect<C, S>, fn: Call<C, S, R>)
    ensures var events := RunWith(s, backoff, w, connect, fn).events;
            events != [] && !events[0].Called? <==>
            s.client.None? && (s.err.None? || w.clock - s.errAt >= backoff)
    ensures s.client.None? && s.err.Some? && w.clock - s.errAt < backoff ==>
              RunWith(s, backoff, w, connect, fn) == Ran(s, w, Err(s.err.value), [])
  {
  }

  /** The client that a call starts with, and in what world: the one cached, or a new one. */
  ghost predicate StartsWith<C, S>(s: State<C>, backoff: int, w: World<S>, connect: Connect<C, S>, c: C, v: World<S>) {
    if s.client.Some? then c == s.client.value && v == w
    else (s.err.None? || w.clock - s.errAt >= backoff) && connect(w) == (v, Success(c))
  }

  /** What the function answers is passed on, unless it is a 401; the client stays and no error is kept. */
  lemma AnswerIsPassedOn<C, S, R>(s: State<C>, backoff: int, w: World<S>, connect: Connect<C, S>, fn: Call<C, S, R>,
                                  c: C, v: World<S>)
    requires Sound(s) && StartsWith(s, backoff, w, connect, c, v) && fn(c, v).1 != Err(Unauthorized)
    ensures var ran := RunWith(s, backoff, w, connect, fn);
            && (ran.world, ran.result) == fn(c, v)
            && ran.state.client == Some(c) && ran.state.err.None?
            && Calls(ran.events) == 1
  {
    var ran := RunWith(s, backoff, w, connect, fn);
    if s.client.None? {
      assert ran.events[1..] == [Called(false)];
    }
    assert Calls([Called(false)]) == 1;
  }

  /** After a 401 the client is dropped and a new connection made; what the function answers then is passed on. */
  lemma AnswerAfter401<C, S, R>(s: State<C>, backoff: int, w: World<S>, connect: Connect<C, S>, fn: Call<C, S, R>,
                                c: C, v: World<S>)
    requires Sound(s) && StartsWith(s, backoff, w, connect, c, v) && fn(c, v).1 == Err(Unauthorized)
    ensures var ran := RunWith(s, backoff, w, connect, fn);
            match connect(fn(c, v).0)
            case (u, Success(d)) =>
              (ran.world, ran.result) == fn(d, u) && ran.state.client == Some(d) && ran.state.err.None?
            case (u, Failure(e)) =>
              ran.world == u && ran.result == Err(e) && ran.state == State(None, Some(e), u.clock)
  {
  }

  /** A first connection that fails is the answer, and is kept with its time. */
  lemma FailureIsKept<C, S, R>(s: State<C>, backoff: int, w: World<S>, connect: Connect<C, S>, fn: Call<C, S, R>)
    requires s.client.None? && (s.err.None? || w.clock - s.errAt >= backoff) && connect(w).1.Failure?
    ensures var (u, r) := connect(w);
            RunWith(s, backoff, w, connect, fn) ==
            Ran(State(None, Some(r.error), u.clock), u, Err(r.error), [ConnectFailed(u.clock)])
  {
  }

  /** The function runs with `c` in `v`: at once, or after the reconnection that a 401 brings. */
  ghost predicate RunsIn<C, S, R>(s: State<C>, backoff: int, w: World<S>, connect: Connect<C, S>, fn: Call<C, S, R>,
                                  c: C, v: World<S>) {
    var first := GetClient(s, backoff, w, connect);
    && first.client.Success?
    && ((c, v) == (first.client.value, first.world) ||
        var (after, r) := fn(first.client.value, first.world);
        var again := GetClient(first.state.(client := None), backoff, after, connect);
        IsUnauthorized(r) && again.client == Success(c) && again.world == v)
  }

  /** A result that is not an error is the function's own, of a run with the client that is cached from then on. */
  lemma OkComesFromCall<C(!new), S(!new), R(!new)>(s: State<C>, backoff: int, w: World<S>, connect: Connect<C, S>,
                                                   fn: Call<C, S, R>)
    requires RunWith(s, backoff, w, connect, fn).result.Ok?
    ensures var ran := RunWith(s, backoff, w, connect, fn);
            && ran.state.client.Some?
            && exists v: World<S> :: RunsIn(s, backoff, w, connect, fn, ran.state.client.value, v) &&
                                     fn(ran.state.client.value, v) == (ran.world, ran.result)
  {
    var ran := RunWith(s, backoff, w, connect, fn);
    var first := GetClient(s, backoff, w, connect);
    var (after, r) := fn(first.client.value, first.world);
    if IsUnauthorized(r) {
      var again := GetClient(first.state.(client := None), backoff, after, connect);
      assert RunsIn(s, backoff, w, connect, fn, again.client.value, again.world);
    } else {
      assert RunsIn(s, backoff, w, connect, fn, first.client.value, first.world);
    }
  }

  /** One run of the function with `c`, on the server as it was, accounts for the whole effect of a call. */
  ghost predicate RanOnce<C, S(!new), R>(fn: Call<C, S, R>, c: C, before: World<S>, after: World<S>,
                                         r: Outcome<R, VaultError>)
  {
    exists w: World<S> :: w.server == before.server && fn(c, w) == (after, r)
  }

  lemma SuccessRanOnce<C(!new), S(!new), R(!new)>(s: State<C>, backoff: int, w: World<S>, connect: Connect<C, S>,
                                                  fn: Call<C, S, R>)
    requires Harmless(connect, fn) && RunWith(s, backoff, w, connect, fn).result.Ok?
    ensures var ran := RunWith(s, backoff, w, connect, fn);
            ran.state.client.Some? && RanOnce(fn, ran.state.client.value, w, ran.world, ran.result)
  {
    var ran := RunWith(s, backoff, w, connect, fn);
    OkComesFromCall(s, backoff, w, connect, fn);
    hide RunWith;
    var c := ran.state.client.value;
    var v: World<S> :| RunsIn(s, backoff, w, connect, fn, c, v) && fn(c, v) == (ran.world, ran.result);
    assert v.server == w.server;
  }

  /** What the caller of an add supplies. */
  datatype Details = Details(name: Text, username: Text, password: Text, uris: seq<Text>)

  /** One add, under an id and with an answer of the server's choosing, whose 401 changes nothing. */
  ghost predicate AddsOn(p: Crypto, c: Client, d: Details, before: Items, after: Items,
                         r: Outcome<string, VaultError>)
  {
    exists id: string, ivs: Writes.Ivs, answer: WriteAnswer ::
      && id !in before
      && (answer.Write401? ==> answer.after == before)
      && (after, r) == Writes.Added(p, c, before, id, d.name, d.username, d.password, d.uris, ivs, answer)
  }

  ghost predicate Adds(fn: Call<Client, Items, string>, p: Crypto, d: Details) {
    forall c: Client, w: World<Items> {:trigger fn(c, w)} :: AddsOn(p, c, d, w.server, fn(c, w).0.server, fn(c, w).1)
  }

  /** One more item, shown with the details given, its password the one given, and nothing else touched. */
  ghost predicate OneMore(p: Crypto, c: Client, d: Details, before: Items, after: Items, id: string) {
    && id !in before && after.Keys == before.Keys + {id} && |after| == |before| + 1
    && (forall other :: other in before ==> after[other] == before[other])
    && Shown(p, c, after[id]) == Ok(Some(Item(id, d.name, d.username, Writes.NonEmpty(d.uris))))
    && SecretOf(p, c, after, id, Served) == Ok(d.password)
  }

  lemma RefusedAddChangesNothing(p: Crypto, c: Client, d: Details, before: Items, after: Items,
                                 r: Outcome<string, VaultError>)
    requires AddsOn(p, c, d, before, after, r) && IsUnauthorized(r)
    ensures after == before
  {
    hide EncryptStr, EncryptURIs;
  }

  lemma AddedOneMore(p: Crypto, c: Client, d: Details, before: Items, after: Items, r: Outcome<string, VaultError>)
    requires AddsOn(p, c, d, before, after, r) && r.Ok?
    ensures OneMore(p, c, d, before, after, r.value)
  {
    hide Writes.Added, Shown, SecretOf;
    var id: string, ivs: Writes.Ivs, answer: WriteAnswer :|
      && id !in before
      && (answer.Write401? ==> answer.after == before)
      && (after, r) == Writes.Added(p, c, before, id, d.name, d.username, d.password, d.uris, ivs, answer);
    Writes.AddThenRead(p, c, before, id, d.name, d.username, d.password, d.uris, ivs, answer);
    assert |after.Keys| == |before.Keys| + 1;
  }

  /**
   * Adding through the retrying wrapper creates exactly one item, readable with the client cached
   * from then on, even when the first attempt met an expired session.
   */
  lemma AddsExactlyOne(s: State<Client>, backoff: int, w: World<Items>, connect: Connect<Client, Items>,
                       fn: Call<Client, Items, string>, p: Crypto, d: Details)
    requires Adds(fn, p, d) && forall v: World<Items> :: connect(v).0.server == v.server
    ensures var ran := RunWith(s, backoff, w, connect, fn);
            ran.result.Ok? ==>
              ran.state.client.Some? &&
              OneMore(p, ran.state.client.value, d, w.server, ran.world.server, ran.result.value)
  {
    hide AddsOn, OneMore;
    if !RunWith(s, backoff, w, connect, fn).result.Ok? {
      return;
    }
    forall c: Client, v: World<Items> ensures IsUnauthorized(fn(c, v).1) ==> fn(c, v).0.server == v.server {
      if IsUnauthorized(fn(c, v).1) {
        RefusedAddChangesNothing(p, c, d, v.server, fn(c, v).0.server, fn(c, v).1);
      }
    }
    SuccessRanOnce(s, backoff, w, connect, fn);
    hide RunWith;
    var ran := RunWith(s, backoff, w, connect, fn);
    var c := ran.state.client.value;
    var v: World<Items> :| v.server == w.server && fn(c, v) == (ran.world, ran.result);
    AddedOneMore(p, c, d, v.server, fn(c, v).0.server, fn(c, v).1);
  }

  // ---------------------------------------------------------------- runs

  /** A call some time after the one before, on whatever the server holds by then. */
  datatype Use<!C, !S, !R> = Use(wait: nat, server: S, connect: Connect<C, S>, fn: Call<C, S, R>)

  datatype History<C> = History(state: State<C>, clock: int, events: seq<Event>)

  function UseOnce<C, S, R>(backoff: int, h: History<C>, u: Use<C, S, R>): History<C> {
    var ran := RunWith(h.state, backoff, World(h.clock + u.wait, u.server), u.connect, u.fn);
    History(ran.state, ran.world.clock, h.events + ran.events)
  }

  function After<C, S, R>(backoff: int, uses: seq<Use<C, S, R>>): History<C> {
    if uses == [] then History(State(None, None, 0), 0, [])
    else
      UseOnce(backoff, After(backoff, uses[..|uses| - 1]), uses[|uses| - 1])
  }

  /** Time does not run backwards during a connection or a call. */
  ghost predicate Timely<C(!new), S(!new), R(!new)>(u: Use<C, S, R>) {
    && (forall w: World<S> :: w.clock <= u.connect(w).0.clock)
    && (forall c: C, w: World<S> {:trigger u.fn(c, w)} :: w.clock <= u.fn(c, w).0.clock)
  }

  /** The times at which connections failed. */
  function Failures(events: seq<Event>): seq<int> {
    if events == [] then []
    else
      var n := |events| - 1;
      Failures(events[..n]) + (if events[n].ConnectFailed? then [events[n].at] else [])
  }

  /** Failed connections are a backoff apart, and the cache remembers the last one until the backoff is over. */
  ghost predicate Paced<C>(s: State<C>, backoff: int, clock: int, fails: seq<int>) {
    && Sound(s)
    && (forall i :: 0 < i < |fails| ==> fails[i] - fails[i - 1] >= backoff)
    && (s.err.Some? ==> fails != [] && s.errAt == fails[|fails| - 1])
    && (fails != [] ==> fails[|fails| - 1] <= clock)
    && (fails != [] && s.err.None? ==> clock - fails[|fails| - 1] >= backoff)
  }

  lemma FailuresAppend(a: seq<Event>, b: seq<Event>)
    ensures Failures(a + b) == Failures(a) + Failures(b)
  {
    if b == [] {
      assert a + b == a;
    } else {
      var n := |b| - 1;
      assert (a + b)[..|a + b| - 1] == a + b[..n];
      FailuresAppend(a, b[..n]);
    }
  }

  lemma ConnectedKeepsPace<C>(s: State<C>, backoff: int, clock: int, fails: seq<int>, c: C, at: int)
    requires Paced(s, backoff, clock, fails) && s.client.None? && !BacksOff(s, backoff, clock) && clock <= at
    ensures Paced(State(Some(c), None, s.errAt), backoff, at, fails)
  {
  }

  lemma FailedKeepsPace<C>(s: State<C>, backoff: int, clock: int, fails: seq<int>, e: VaultError, at: int)
    requires Paced(s, backoff, clock, fails) && s.client.None? && !BacksOff(s, backoff, clock) && clock <= at
    ensures Paced(State<C>.State(None, Some(e), at), backoff, at, fails + [at])
  {
  }

  lemma FailuresOfOne(e: Event)
    ensures Failures([]) == []
    ensures Failures([e]) == if e.ConnectFailed? then [e.at] else []
  {
    assert [e][..0] == [] && Failures([]) == [];
  }

  lemma GetKeepsPace<C(!new), S(!new)>(s: State<C>, backoff: int, w: World<S>, connect: Connect<C, S>, fails: seq<int>)
    requires Paced(s, backoff, w.clock, fails) && forall v: World<S> :: v.clock <= connect(v).0.clock
    ensures var got := GetClient(s, backoff, w, connect);
            && Paced(got.state, backoff, got.world.clock, fails + Failures(got.events)) && w.clock <= got.world.clock
            && (got.client.Success? ==> got.state.client.Some?)
  {
    hide Paced, Failures, BacksOff;
    assert fails + [] == fails;
    var got := GetClient(s, backoff, w, connect);
    if got.events == [] {
      FailuresOfOne(Connected(0));
    } else {
      var (after, r) := connect(w);
      FailuresOfOne(got.events[0]);
      assert w.clock <= after.clock;
      match r {
        case Success(c) => ConnectedKeepsPace(s, backoff, w.clock, fails, c, after.clock);
        case Failure(e) => FailedKeepsPace(s, backoff, w.clock, fails, e, after.clock);
      }
    }
  }

  lemma PaceGoesOn<C>(s: State<C>, backoff: int, clock: int, fails: seq<int>, later: int)
    requires Paced(s, backoff, clock, fails) && clock <= later
    ensures Paced(s, backoff, later, fails)
    ensures s.client.Some? ==> Paced(s.(client := None), backoff, later, fails)
  {
  }

  lemma CallIsNoFailure(events: seq<Event>, e: Event)
    requires e.Called?
    ensures Failures(events + [e]) == Failures(events)
  {
    assert (events + [e])[..|events|] == events;
  }

  lemma RunKeepsPace<C(!new), S(!new), R(!new)>(s: State<C>, backoff: int, w: World<S>, u: Use<C, S, R>,
                                                fails: seq<int>)
    requires Paced(s, backoff, w.clock, fails) && Timely(u)
    ensures var ran := RunWith(s, backoff, w, u.connect, u.fn);
            Paced(ran.state, backoff, ran.world.clock, fails + Failures(ran.events))
  {
    hide GetClient, Paced, Failures, IsUnauthorized;
    var first := GetClient(s, backoff, w, u.connect);
    GetKeepsPace(s, backoff, w, u.connect, fails);
    if first.client.Success? {
      var (after, r) := u.fn(first.client.value, first.world);
      var one := [Called(IsUnauthorized(r))];
      var so := fails + Failures(first.events);
      CallIsNoFailure(first.events, one[0]);
      assert first.world.clock <= after.clock;
      PaceGoesOn(first.state, backoff, first.world.clock, so, after.clock);
      if IsUnauthorized(r) {
        var dropped := first.state.(client := None);
        var again := GetClient(dropped, backoff, after, u.connect);
        GetKeepsPace(dropped, backoff, after, u.connect, so);
        FailuresAppend(first.events + one, again.events);
        assert so + Failures(again.events) == fails + Failures(first.events + one + again.events);
        if again.client.Success? {
          var (last, q) := u.fn(again.client.value, again.world);
          CallIsNoFailure(first.events + one + again.events, Called(IsUnauthorized(q)));
          var two := [Called(IsUnauthorized(q))];
          assert RunWith(s, backoff, w, u.connect, u.fn).events == first.events + one + again.events + two;
          assert again.world.clock <= last.clock;
          PaceGoesOn(again.state, backoff, again.world.clock, so + Failures(again.events), last.clock);
        }
      }
    }
  }

  lemma NothingPaced<C>(backoff: int)
    ensures Paced<C>(State(None, None, 0), backoff, 0, Failures([]))
  {
  }

  lemma UseKeepsPace<C(!new), S(!new), R(!new)>(backoff: int, h: History<C>, u: Use<C, S, R>)
    requires Paced(h.state, backoff, h.clock, Failures(h.events)) && Timely(u)
    ensures var r := UseOnce(backoff, h, u); Paced(r.state, backoff, r.clock, Failures(r.events))
  {
    hide Paced, Failures, RunWith, Timely;
    var w := World(h.clock + u.wait, u.server);
    PaceGoesOn(h.state, backoff, h.clock, Failures(h.events), w.clock);
    RunKeepsPace(h.state, backoff, w, u, Failures(h.events));
    FailuresAppend(h.events, RunWith(h.state, backoff, w, u.connect, u.fn).events);
  }

  lemma {:induction false} HistoryPaced<C(!new), S(!new), R(!new)>(backoff: int, uses: seq<Use<C, S, R>>)
    requires forall i :: 0 <= i < |uses| ==> Timely(uses[i])
    ensures var h := After(backoff, uses);
            Paced(h.state, backoff, h.clock, Failures(h.events))
  {
    if uses == [] {
      NothingPaced<C>(backoff);
    } else {
      hide Paced, Failures, UseOnce, Timely;
      var n := |uses| - 1;
      HistoryPaced(backoff, uses[..n]);
      UseKeepsPace(backoff, After(backoff, uses[..n]), uses[n]);
    }
  }

  lemma {:induction false} Span(times: seq<int>, step: int)
    requires times != [] && forall i :: 0 < i < |times| ==> times[i] - times[i - 1] >= step
    ensures times[|times| - 1] - times[0] >= (|times| - 1) * step
  {
    if |times| > 1 {
      var n := |times| - 1;
      Span(times[..n], step);
      assert n * step == (n - 1) * step + step;
    }
  }

  /**
   * Over any run of calls: a cached client means no cached error, and `f` failed connections
   * span at least `f - 1` backoffs.
   */
  lemma FailuresArePaced<C(!new), S(!new), R(!new)>(backoff: int, uses: seq<Use<C, S, R>>)
    requires forall i :: 0 <= i < |uses| ==> Timely(uses[i])
    ensures var h := After(backoff, uses);
            var fails := Failures(h.events);
            && (h.state.client.Some? ==> h.state.err.None?)
            && (fails != [] ==> fails[|fails| - 1] - fails[0] >= (|fails| - 1) * backoff)
  {
    HistoryPaced(backoff, uses);
    var fails := Failures(After(backoff, uses).events);
    if fails != [] {
      Span(fails, backoff);
    }
  }
}
