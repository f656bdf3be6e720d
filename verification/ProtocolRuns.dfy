/** What holds of every run of the sealed-credential protocol. */
module ProtocolRuns {
  import opened ByteStrings
  import opened Wrappers
  import opened Protocol
  import Authz
  import Reg = Registry
  import RegistryCache
  import Seal
  import Sessions
  import VaultCache
  import VaultItems

  datatype Call = Call(req: Request, env: Env)

  /**
   * What a run leaves on record of a call: what was asked and met, the vault cache it found, the
   * session's answer if it was asked, the reply, what was done to the token store, and the
   * registry and vault cache it left.
   */
  datatype Entry = Entry(
    req: Request,
    env: Env,
    found: VaultCache.State<Client>,
    gate: Option<Sessions.Reply>,
    reply: Reply,
    op: Option<Authz.Op>,
    registry: Option<RegistryCache.Registry>,
    vault: VaultCache.State<Client>)

  datatype Outcome = Outcome(state: State, log: seq<Entry>)

  function EntryOf(cfg: Config, s: State, c: Call): Entry {
    var h := Handle(cfg, s, c.req, c.env);
    var gate := if s.crashed || c.req.Ping? then None else Some(Gate(cfg, s, c.env).1);
    Entry(c.req, c.env, s.vault, gate, h.reply, h.op, h.state.registry, h.state.vault)
  }

  function Run(cfg: Config, calls: seq<Call>): Outcome {
    if calls == [] then Outcome(Start(), [])
    else
      var before, c := Run(cfg, calls[..|calls| - 1]), calls[|calls| - 1];
      Outcome(Handle(cfg, before.state, c.req, c.env).state, before.log + [EntryOf(cfg, before.state, c)])
  }

  // ---------------------------------------------------------------- one call

  /** The call was answered with a token, for good reasons. */
  ghost predicate ApprovedFor(e: Entry) {
    && e.gate == Some(Sessions.Granted) && e.env.vaultConfigured
    && e.req.RequestAuthorization? && e.reply.Approved?
    && e.registry.Some?
    && Reg.Acl(e.registry.value, e.req.consumerID, e.req.itemID, e.req.purpose) == Success(e.reply.mode)
    && (e.reply.mode == Reg.REQUIRED ==> e.env.approves)
    && 1 <= e.reply.ttlSeconds <= MAX_AUTHZ_TTL
    && (1 <= e.req.ttlSeconds <= MAX_AUTHZ_TTL ==> e.reply.ttlSeconds == e.req.ttlSeconds)
    && e.op == Some(Authz.IssueOp(e.reply.token, Authz.Binding(e.req.itemID, e.req.consumerID, e.req.purpose),
                                  e.reply.ttlSeconds * SECOND, e.env.issueAt))
  }

  /** The fetch of a sealing, run on the vault cache that the call found. */
  function Fetched(cfg: Config, e: Entry): VaultCache.Ran<Client, Items, VaultItems.Text>
    requires e.req.VaultSeal?
  {
    VaultCache.RunWith(e.found, cfg.backoff, e.env.world, e.env.connect, Fetch(cfg, e.env, e.req.itemID))
  }

  /**
   * The call's fetch read `plain`: it is the password of the item, under the keys of the client
   * that the call left cached, in what the server held when it answered.
   */
  ghost predicate Read(cfg: Config, e: Entry, plain: VaultItems.Text)
    requires e.req.VaultSeal?
  {
    var ran := Fetched(cfg, e);
    && ran.result == Ok(plain)
    && ran.state == e.vault && e.vault.client.Some?
    && VaultItems.SecretOf(cfg.crypto, e.vault.client.value, ran.world.server, e.req.itemID, VaultItems.Served) ==
       Ok(plain)
  }

  /** The box holds the password that the call's fetch read, and says what it is for. */
  ghost predicate BoxFor(cfg: Config, e: Entry)
    requires e.req.VaultSeal? && e.req.bundleArg.Parsed? && e.reply.Delivered?
  {
    var box, bundle := e.reply.box, e.req.bundleArg.bundle;
    && box.itemID == e.req.itemID && box.consumerID == bundle.consumerID && box.purpose == e.req.purpose
    && box.sessionID == bundle.sessionID && e.env.boxID == Some(box.boxID)
    && e.env.sealAt < box.expiresAt <= e.env.sealAt + MAX_BOX_TTL * SECOND
    && Fetched(cfg, e).result.Ok?
    && var plain := Fetched(cfg, e).result.value;
       && Read(cfg, e, plain)
       && Some(box) ==
          Seal.Sealed(cfg.scheme, bundle, box.itemID, box.purpose, box.boxID, box.expiresAt, plain, e.env.seed)
  }

  /** The call was answered with a box, its consumer verified and known, and its token spent. */
  ghost predicate DeliveredFor(cfg: Config, e: Entry) {
    && e.gate == Some(Sessions.Granted) && e.env.vaultConfigured
    && e.req.VaultSeal? && e.req.bundleArg.Parsed? && e.reply.Delivered?
    && e.env.verifies
    && e.registry.Some?
    && var bundle, consumers := e.req.bundleArg.bundle, e.registry.value.consumers;
    && bundle.consumerID in consumers && consumers[bundle.consumerID].identityPubKey == bundle.identityPubKey
    && e.op == Some(Authz.ConsumeOp(e.req.authToken, Authz.Binding(e.req.itemID, bundle.consumerID, e.req.purpose),
                                    e.env.checkAt))
    && BoxFor(cfg, e)
  }

  lemma AuthorizeSound(cfg: Config, s: State, c: Call)
    requires c.req.RequestAuthorization?
    ensures var e := EntryOf(cfg, s, c);
            (e.reply.Approved? || e.op.Some? ==> ApprovedFor(e))
  {
    ClampedRange(c.req.ttlSeconds, DEFAULT_AUTHZ_TTL, MAX_AUTHZ_TTL);
    hide Clamped, Authz.Apply, Sessions.Touched;
  }

  /** A fetch that succeeds leaves a client cached, and read the item's password with it off a server that served it. */
  lemma FetchSucceeds(cfg: Config, s: VaultCache.State<Client>, env: Env, itemID: string)
    ensures var ran := VaultCache.RunWith(s, cfg.backoff, env.world, env.connect, Fetch(cfg, env, itemID));
            ran.result.Ok? ==>
              ran.state.client.Some? &&
              VaultItems.SecretOf(cfg.crypto, ran.state.client.value, ran.world.server, itemID, VaultItems.Served) ==
              ran.result
  {
    hide VaultItems.DecryptStr;
  }

  lemma SpendSound(cfg: Config, s: State, req: Request, env: Env, bundle: Seal.Bundle)
    requires req.VaultSeal? && req.bundleArg == Parsed(bundle)
    ensures var h := SpendToken(cfg, s, req, env, bundle);
            var binding := Authz.Binding(req.itemID, bundle.consumerID, req.purpose);
            && h.op == Some(Authz.ConsumeOp(req.authToken, binding, env.checkAt))
            && h.state.registry == s.registry
            && (h.reply.Delivered? ==>
                  Authz.Judge(Authz.Lookup(s.tokens, req.authToken), binding, env.checkAt).Accepted? &&
                  BoxFor(cfg, Entry(req, env, s.vault, Some(Sessions.Granted), h.reply, h.op, h.state.registry,
                                    h.state.vault)))
  {
    hide Authz.Apply, VaultCache.RunWith, Fetch, VaultItems.SecretOf;
    var h := SpendToken(cfg, s, req, env, bundle);
    if h.reply.Delivered? {
      ClampedRange(req.boxTTLSeconds, DEFAULT_BOX_TTL, MAX_BOX_TTL);
      FetchSucceeds(cfg, s.vault, env, req.itemID);
    }
  }

  lemma SealSound(cfg: Config, s: State, c: Call)
    requires c.req.VaultSeal?
    ensures var e := EntryOf(cfg, s, c);
            && (e.op.Some? ==> e.op.value.ConsumeOp?)
            && !e.reply.Approved?
            && (e.reply.Delivered? ==>
                  DeliveredFor(cfg, e) &&
                  Authz.Judge(Authz.Lookup(s.tokens, c.req.authToken), e.op.value.binding, c.env.checkAt).Accepted?)
  {
    var (s1, gate) := Gate(cfg, s, c.env);
    if c.req.bundleArg.Parsed? {
      var s2 := s1.(registry := RegistryCache.Loaded(s.registry, c.env.file));
      SpendSound(cfg, s2, c.req, c.env, c.req.bundleArg.bundle);
    }
    hide BoxFor, Sessions.Touched, Authz.Judge;
  }

  /** Whatever the call, a token is only ever issued, and a box only ever delivered, for good reasons. */
  lemma EntrySound(cfg: Config, s: State, c: Call)
    ensures var e := EntryOf(cfg, s, c);
            && (e.reply.Approved? || (e.op.Some? && e.op.value.IssueOp?) ==> ApprovedFor(e))
            && (e.reply.Delivered? ==>
                  DeliveredFor(cfg, e) &&
                  Authz.Judge(Authz.Lookup(s.tokens, c.req.authToken), e.op.value.binding, c.env.checkAt).Accepted?)
  {
    if c.req.RequestAuthorization? {
      AuthorizeSound(cfg, s, c);
      hide ApprovedFor, Reg.Acl, RegistryCache.Answer;
    } else if c.req.VaultSeal? {
      SealSound(cfg, s, c);
      hide DeliveredFor, ApprovedFor, SpendToken, Authz.Judge;
    }
  }

  /** A call changes the tokens by its recorded operation alone, and a cached registry not at all. */
  lemma StepKeeps(cfg: Config, s: State, c: Call)
    ensures var h := Handle(cfg, s, c.req, c.env);
            && h.state.tokens == (if h.op.Some? then Authz.Apply(s.tokens, h.op.value) else s.tokens)
            && (s.registry.Some? ==> h.state.registry == s.registry)
  {
    hide Authz.Apply, Authz.Judge, VaultCache.RunWith, Fetch, Seal.Sealed, Sessions.Touched, Reg.Acl, Clamped;
  }

  // ---------------------------------------------------------------- positions of a run

  /** A run records every call as what it was from the state before it. */
  lemma {:induction false} RunAt(cfg: Config, calls: seq<Call>, i: nat)
    requires i <= |calls|
    ensures |Run(cfg, calls).log| == |calls|
    ensures Run(cfg, calls[..i]).log == Run(cfg, calls).log[..i]
    ensures i < |calls| ==> Run(cfg, calls).log[i] == EntryOf(cfg, Run(cfg, calls[..i]).state, calls[i])
  {
    hide EntryOf, Handle;
    if i == |calls| {
      assert calls[..i] == calls;
      if calls != [] {
        RunAt(cfg, calls[..i - 1], i - 1);
      }
    } else {
      var init := calls[..|calls| - 1];
      RunAt(cfg, init, i);
      assert init[..i] == calls[..i];
    }
  }

  /** What the calls of a run did to the token store. */
  function Ops(log: seq<Entry>): (h: Authz.History)
    ensures |h| == |log| && forall i :: 0 <= i < |log| ==> h[i] == log[i].op
  {
    seq(|log|, i requires 0 <= i < |log| => log[i].op)
  }

  /** The tokens of a run are those of a store with its operations. */
  lemma {:induction false} TokensFollow(cfg: Config, calls: seq<Call>)
    ensures Run(cfg, calls).state.tokens == Authz.After(Ops(Run(cfg, calls).log))
  {
    if calls != [] {
      hide Handle;
      var n := |calls| - 1;
      var before, c := Run(cfg, calls[..n]), calls[n];
      TokensFollow(cfg, calls[..n]);
      StepKeeps(cfg, before.state, c);
      var h := Ops(Run(cfg, calls).log);
      assert h[..|h| - 1] == Ops(before.log);
    }
  }

  /** The judgement on the token that the call at `i` spends. */
  lemma SpentVerdict(cfg: Config, calls: seq<Call>, i: nat)
    requires var run := Run(cfg, calls); i < |run.log| && Authz.ConsumesAt(Ops(run.log), i)
    ensures i < |calls|
    ensures var op := Run(cfg, calls).log[i].op.value;
            Authz.VerdictAt(Ops(Run(cfg, calls).log), i) ==
            Authz.Judge(Authz.Lookup(Run(cfg, calls[..i]).state.tokens, op.token), op.binding, op.now)
  {
    hide Run, Authz.Judge, Authz.After;
    RunAt(cfg, calls, |calls|);
    RunAt(cfg, calls, i);
    TokensFollow(cfg, calls[..i]);
    assert Ops(Run(cfg, calls).log)[..i] == Ops(Run(cfg, calls[..i]).log);
  }

  /** The registry cached at any time is the one cached from then on. */
  lemma {:induction false} OneRegistry(cfg: Config, calls: seq<Call>, i: nat)
    requires i < |calls| && |Run(cfg, calls).log| == |calls| && Run(cfg, calls).log[i].registry.Some?
    ensures Run(cfg, calls).log[i].registry == Run(cfg, calls).state.registry
  {
    hide Handle;
    var n := |calls| - 1;
    RunAt(cfg, calls[..n], n);
    assert Run(cfg, calls).log[n] == EntryOf(cfg, Run(cfg, calls[..n]).state, calls[n]);
    if i < n {
      OneRegistry(cfg, calls[..n], i);
      StepKeeps(cfg, Run(cfg, calls[..n]).state, calls[n]);
    }
  }

  // ---------------------------------------------------------------- deliveries and approvals

  /** The call at `j` is the approval that the delivery at `i` lives on. */
  ghost predicate Justifies(cfg: Config, run: Outcome, j: int, i: int) {
    && 0 <= j < i < |run.log|
    && var a, d := run.log[j], run.log[i];
    && ApprovedFor(a) && DeliveredFor(cfg, d)
    && a.reply.token == d.req.authToken
    && a.req.itemID == d.req.itemID && a.req.purpose == d.req.purpose
    && a.req.consumerID == d.req.bundleArg.bundle.consumerID
    && d.env.checkAt <= a.env.issueAt + a.reply.ttlSeconds * SECOND
    && a.registry == d.registry == run.state.registry
    && Authz.IssuedLast(Ops(run.log), j, i, d.req.authToken)
  }

  lemma DeliveryHasApproval(cfg: Config, calls: seq<Call>, i: nat) returns (j: int)
    requires i < |Run(cfg, calls).log| && Run(cfg, calls).log[i].reply.Delivered?
    ensures Justifies(cfg, Run(cfg, calls), j, i)
  {
    hide Run, Handle, Gate, BoxFor, Reg.Acl, Authz.After, Authz.Judge;
    RunAt(cfg, calls, |calls|);
    RunAt(cfg, calls, i);
    EntrySound(cfg, Run(cfg, calls[..i]).state, calls[i]);
    var log := Run(cfg, calls).log;
    assert DeliveredFor(cfg, log[i]);
    SpentVerdict(cfg, calls, i);
    j := Authz.AcceptedWasIssued(Ops(log), i);
    RunAt(cfg, calls, j);
    EntrySound(cfg, Run(cfg, calls[..j]).state, calls[j]);
    OneRegistry(cfg, calls, i);
    OneRegistry(cfg, calls, j);
  }

  /** No approval serves two deliveries. */
  lemma ServesOnce(cfg: Config, run: Outcome, j: int, i: int, i': int)
    requires Justifies(cfg, run, j, i) && i < i'
    ensures !Justifies(cfg, run, j, i')
  {
    hide ApprovedFor, BoxFor;
    assert Authz.NamesAt(Ops(run.log), i, run.log[i].req.authToken);
  }

  ghost predicate Injective(m: map<int, int>) {
    forall i, i' :: i in m && i' in m && m[i] == m[i'] ==> i == i'
  }

  function Deliveries(log: seq<Entry>): set<int> {
    set i | 0 <= i < |log| && log[i].reply.Delivered?
  }

  lemma ChooseApprovals(cfg: Config, run: Outcome) returns (m: map<int, int>)
    requires forall i :: i in Deliveries(run.log) ==> exists j :: Justifies(cfg, run, j, i)
    ensures m.Keys == Deliveries(run.log)
    ensures forall i :: i in m ==> Justifies(cfg, run, m[i], i)
  {
    hide Justifies;
    m := map i | i in Deliveries(run.log) :: var j: int :| Justifies(cfg, run, j, i); j;
    assert m.Keys == Deliveries(run.log);
  }

  lemma JustifiedOnce(cfg: Config, run: Outcome, m: map<int, int>)
    requires forall i :: i in m ==> Justifies(cfg, run, m[i], i)
    ensures Injective(m)
  {
    hide Justifies;
    forall i, i' | i in m && i' in m && m[i] == m[i'] ensures i == i' {
      if i < i' {
        ServesOnce(cfg, run, m[i], i, i');
      } else if i' < i {
        ServesOnce(cfg, run, m[i], i', i);
      }
    }
  }

  /**
   * In every run, deliveries map injectively to earlier approvals of the same item, consumer and
   * purpose, under the one registry the run ever caches, each within its time to live. Tokens may
   * repeat and the clock may do what it likes.
   */
  lemma DeliveriesAreApproved(cfg: Config, calls: seq<Call>)
    ensures exists m: map<int, int> ::
              && m.Keys == Deliveries(Run(cfg, calls).log)
              && (forall i :: i in m ==> Justifies(cfg, Run(cfg, calls), m[i], i))
              && Injective(m)
  {
    hide Justifies, Run, Injective;
    var run := Run(cfg, calls);
    forall i | i in Deliveries(run.log) ensures exists j :: Justifies(cfg, run, j, i) {
      var j := DeliveryHasApproval(cfg, calls, i);
    }
    var m := ChooseApprovals(cfg, run);
    JustifiedOnce(cfg, run, m);
  }

  // ---------------------------------------------------------------- how long an approval is good

  /** A sealing that gets to its token is turned away there just when the judgement is not acceptance. */
  lemma SpendDecides(cfg: Config, s: State, c: Call)
    ensures var e := EntryOf(cfg, s, c);
            e.op.Some? && e.op.value.ConsumeOp? ==>
              ((e.reply.Refused? && e.reply.why.TokenInvalid?) <==>
               !Authz.Judge(Authz.Lookup(s.tokens, e.op.value.token), e.op.value.binding, e.op.value.now).Accepted?)
  {
    hide Authz.Apply, Authz.Judge, VaultCache.RunWith, Fetch, Seal.Sealed, Sessions.Touched, Reg.Acl, Clamped;
  }

  /**
   * A sealing that gets to its token is let through exactly when some approval is good for it.
   * So an approval keeps its promise until it is spent, whatever other calls sweep in between.
   */
  lemma SpentExactly(cfg: Config, calls: seq<Call>, i: nat)
    requires var log := Run(cfg, calls).log;
             i < |log| && Authz.Timely(Ops(log)) && Authz.ConsumesAt(Ops(log), i)
    ensures var log := Run(cfg, calls).log;
            (log[i].reply.Refused? && log[i].reply.why.TokenInvalid?) <==> !exists j :: Authz.GoodFor(Ops(log), j, i)
  {
    hide Run, Handle, Gate, Authz.Judge, Authz.GoodFor, Authz.VerdictAt;
    RunAt(cfg, calls, |calls|);
    RunAt(cfg, calls, i);
    SpendDecides(cfg, Run(cfg, calls[..i]).state, calls[i]);
    SpentVerdict(cfg, calls, i);
    Authz.AcceptedExactly(Ops(Run(cfg, calls).log), i);
  }

  /** The approvals of a run are its issues. */
  lemma IssueIsApproval(cfg: Config, calls: seq<Call>, j: int)
    requires var log := Run(cfg, calls).log;
             0 <= j < |log| && (log[j].reply.Approved? || Authz.IssuesAt(Ops(log), j))
    ensures ApprovedFor(Run(cfg, calls).log[j]) && Authz.IssuesAt(Ops(Run(cfg, calls).log), j)
  {
    hide Run, Handle, Gate, Reg.Acl;
    RunAt(cfg, calls, |calls|);
    RunAt(cfg, calls, j);
    EntrySound(cfg, Run(cfg, calls[..j]).state, calls[j]);
  }

  /** Right after an approval, every token held was issued within the ceiling on times to live. */
  lemma HeldIsRecent(cfg: Config, calls: seq<Call>, token: Authz.Token) returns (j: int)
    requires var run := Run(cfg, calls);
             run.log != [] && run.log[|run.log| - 1].reply.Approved? && token in run.state.tokens
    ensures var log := Run(cfg, calls).log;
            && Authz.IssuedLast(Ops(log), j, |log|, token) && ApprovedFor(log[j])
            && log[|log| - 1].env.issueAt - MAX_AUTHZ_TTL * SECOND <= log[j].env.issueAt
            && (Authz.Timely(Ops(log)) ==> log[j].env.issueAt <= log[|log| - 1].env.issueAt)
  {
    hide Run, Handle, Gate, Reg.Acl, Authz.After, Authz.Timely;
    var h := Ops(Run(cfg, calls).log);
    TokensFollow(cfg, calls);
    forall i | Authz.IssuesAt(h, i) ensures h[i].value.ttl <= MAX_AUTHZ_TTL * SECOND {
      IssueIsApproval(cfg, calls, i);
    }
    IssueIsApproval(cfg, calls, |h| - 1);
    j := Authz.HeldIsRecent(h, MAX_AUTHZ_TTL * SECOND, token);
    IssueIsApproval(cfg, calls, j);
  }

  // ---------------------------------------------------------------- the session behind a run

  /** The touches the session saw, in order. */
  function Touches(log: seq<Entry>): seq<Sessions.Event> {
    if log == [] then []
    else
      var e := log[|log| - 1];
      Touches(log[..|log| - 1]) + if e.gate.Some? then [Sessions.Touch(e.env.touchAt, e.env.unlocks)] else []
  }

  lemma StepTouches(cfg: Config, s: State, c: Call)
    ensures var e := EntryOf(cfg, s, c);
            var touch := Sessions.Touched(s.session, cfg.limits, c.env.touchAt, c.env.unlocks);
            && Handle(cfg, s, c.req, c.env).state.session == (if e.gate.Some? then touch.0 else s.session)
            && (e.gate.Some? ==> e.gate.value == touch.1)
  {
    hide Authz.Apply, Authz.Judge, VaultCache.RunWith, Fetch, Seal.Sealed, Sessions.Touched, Reg.Acl, Clamped;
  }

  /** The session of a run is the session after its touches. */
  lemma {:induction false} SessionFollows(cfg: Config, calls: seq<Call>)
    ensures Run(cfg, calls).state.session == Sessions.After(cfg.limits, Touches(Run(cfg, calls).log))
  {
    if calls != [] {
      hide Handle;
      var n := |calls| - 1;
      var before, c := Run(cfg, calls[..n]), calls[n];
      SessionFollows(cfg, calls[..n]);
      StepTouches(cfg, before.state, c);
      var log, e := Run(cfg, calls).log, EntryOf(cfg, before.state, c);
      assert log[..|log| - 1] == before.log && log[|log| - 1] == e;
      var es := Touches(before.log);
      if e.gate.Some? {
        assert Touches(log)[..|es|] == es;
      } else {
        assert Touches(log) == es;
      }
    }
  }

  /** The last of the touches up to the call at `i` descends from the unlock at `j` among them. */
  ghost predicate UnlockedBy(limits: Sessions.Limits, log: seq<Entry>, i: int, j: int)
    requires 0 <= i < |log|
  {
    var es := Touches(log[..i + 1]);
    Sessions.Descends(limits, es, j, |es| - 1)
  }

  /** Every call that passed the gate descends from an unlock, through touches that kept both limits. */
  lemma GatedCallIsUnlocked(cfg: Config, calls: seq<Call>, i: nat)
    requires i < |Run(cfg, calls).log| && Run(cfg, calls).log[i].gate == Some(Sessions.Granted)
    ensures exists j :: UnlockedBy(cfg.limits, Run(cfg, calls).log, i, j)
  {
    hide Run, Handle, Gate;
    RunAt(cfg, calls, |calls|);
    RunAt(cfg, calls, i);
    var before, log := Run(cfg, calls[..i]), Run(cfg, calls).log;
    SessionFollows(cfg, calls[..i]);
    StepTouches(cfg, before.state, calls[i]);
    assert log[..i + 1][..i] == log[..i];
    var es := Touches(log[..i + 1]);
    assert es == Touches(log[..i]) + [Sessions.Touch(calls[i].env.touchAt, calls[i].env.unlocks)];
    assert es[..|es| - 1] == Touches(log[..i]);
    Sessions.GrantedHasUnlock(cfg.limits, es, |es| - 1);
    var j :| Sessions.Descends(cfg.limits, es, j, |es| - 1);
    assert UnlockedBy(cfg.limits, log, i, j);
  }

  // ---------------------------------------------------------------- what the consumer gets

  lemma LeftBehind(cfg: Config, calls: seq<Call>, i: nat)
    requires i < |calls|
    ensures Run(cfg, calls[..i + 1]).state == Handle(cfg, Run(cfg, calls[..i]).state, calls[i].req, calls[i].env).state
  {
    hide Handle;
    assert calls[..i + 1][..i] == calls[..i];
  }

  /**
   * A consumer session opens a delivered box to the password that this very call read for the item
   * it was asked for, off the server it met and with the client it left cached.
   */
  lemma DeliveredBoxOpens(cfg: Config, calls: seq<Call>, i: nat, key: Bytes)
    requires Seal.Opens(cfg.scheme)
    requires i < |Run(cfg, calls).log| && Run(cfg, calls).log[i].reply.Delivered?
    requires var req := Run(cfg, calls).log[i].req;
             req.VaultSeal? && req.bundleArg.Parsed? && req.bundleArg.bundle.sessionPubKey == cfg.scheme.publicOf(key)
    ensures i < |calls|
    ensures var e := Run(cfg, calls).log[i];
            var box := e.reply.box;
            var info := cfg.scheme.marshal(Seal.InfoOf(box, e.req.bundleArg.bundle.expiresAt));
            var secret := cfg.scheme.open(key, box.encappedKey, info, box.ciphertext);
            && secret.Some? && Read(cfg, e, secret.value)
            && e.found == Run(cfg, calls[..i]).state.vault && e.vault == Run(cfg, calls[..i + 1]).state.vault
  {
    hide Run, Handle, Gate, Read, Fetched;
    RunAt(cfg, calls, |calls|);
    RunAt(cfg, calls, i);
    EntrySound(cfg, Run(cfg, calls[..i]).state, calls[i]);
    LeftBehind(cfg, calls, i);
    var e := Run(cfg, calls).log[i];
    assert DeliveredFor(cfg, e);
    var box, bundle := e.reply.box, e.req.bundleArg.bundle;
    var plain := Fetched(cfg, e).result.value;
    Seal.BoxOpens(cfg.scheme, bundle, box.itemID, box.purpose, box.boxID, box.expiresAt, plain, e.env.seed, key);
  }
}
