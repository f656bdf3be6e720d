/** What the calls of the sealed-credential protocol answer, by what they are given and what they meet. */
module ProtocolReplies {
  import opened ByteStrings
  import opened Wrappers
  import opened Protocol
  import opened ProtocolRuns
  import Authz
  import Reg = Registry
  import RegistryCache
  import Seal
  import Sessions
  import VaultCache
  import VaultItems

  // ---------------------------------------------------------------- the gate

  /** The session is to be unlocked: it never was, was locked, or has overrun one of its limits. */
  ghost predicate Locked(cfg: Config, s: State, env: Env) {
    || !s.session.phase.Active?
    || env.touchAt - s.session.unlockedAt > cfg.limits.absolute
    || env.touchAt - s.session.lastActivity > cfg.limits.idle
  }

  ghost predicate Granted(cfg: Config, s: State, env: Env) {
    !Locked(cfg, s, env) || env.unlocks
  }

  lemma NeverDenies(cfg: Config, s: State, req: Request, env: Env)
    requires !req.Ping?
    ensures !Dispatch(cfg, s, req, env).reply.Denied?
  {
    hide Authz.Apply, Authz.Judge, VaultCache.RunWith, Fetch, Seal.Sealed, Reg.Acl, Clamped;
  }

  /**
   * Whatever is asked for, other than a ping, is denied exactly if the session is to be unlocked
   * and the user does not, and then nothing but the session changes. A ping changes nothing, and a
   * process that has crashed does nothing.
   */
  lemma DeniedExactly(cfg: Config, s: State, req: Request, env: Env)
    ensures var h := Handle(cfg, s, req, env);
            && (h.reply.Denied? <==> !s.crashed && !req.Ping? && !Granted(cfg, s, env))
            && (h.reply.Denied? ==>
                  && h.reply.wrapsExpired == !s.session.phase.New?
                  && h.op.None? && h.state == s.(session := h.state.session)
                  && var phase := if s.session.phase.New? then Sessions.New else Sessions.Expired;
                     h.state.session == s.session.(phase := phase))
            && (req.Ping? && !s.crashed ==> h == Handled(s, Pong, None))
            && (s.crashed ==> h == Handled(s, Crash, None))
  {
    hide Authorize, SealSecret, VaultCache.RunWith;
    if !s.crashed && !req.Ping? && Granted(cfg, s, env) {
      NeverDenies(cfg, Gate(cfg, s, env).0, req, env);
    }
  }

  lemma GateOf(cfg: Config, s: State, env: Env)
    ensures Gate(cfg, s, env).1 ==
            if Granted(cfg, s, env) then Sessions.Granted else Sessions.Refused(!s.session.phase.New?)
  {
  }

  /**
   * In a run, a call whose touch is refused is answered with that and leaves everything else alone;
   * no other call is.
   */
  lemma RefusedIsDenied(cfg: Config, calls: seq<Call>, i: nat, wrapsExpired: bool)
    requires i < |Run(cfg, calls).log|
    ensures var e := Run(cfg, calls).log[i];
            && (e.gate == Some(Sessions.Refused(wrapsExpired)) <==> e.reply == Denied(wrapsExpired))
            && (e.reply.Denied? ==>
                  e.op.None? && e.vault == e.found && i < |calls| && e.registry == Run(cfg, calls[..i]).state.registry)
  {
    hide Run, Dispatch, Handle, Gate;
    RunAt(cfg, calls, |calls|);
    RunAt(cfg, calls, i);
    var s, c := Run(cfg, calls[..i]).state, calls[i];
    DeniedExactly(cfg, s, c.req, c.env);
    GateOf(cfg, s, c.env);
  }

  // ---------------------------------------------------------------- authorizations

  /** A pattern of the registry covers a text: it is that text, or its start followed by a star. */
  ghost predicate Covers(patterns: seq<string>, text: string) {
    exists i :: 0 <= i < |patterns| && (patterns[i] == text || exists head :: patterns[i] == head + "*" && head <= text)
  }

  lemma CoversIsAllows(patterns: seq<string>, text: string)
    ensures Covers(patterns, text) <==> Reg.Allows(patterns, text)
  {
    forall i | 0 <= i < |patterns|
      ensures Reg.Matches(patterns[i], text) <==>
              patterns[i] == text || exists head :: patterns[i] == head + "*" && head <= text
    {
      Reg.MatchesExactly(patterns[i], text);
    }
    hide Reg.Matches;
  }

  /** The registry a call goes by is the one cached, or else what the file holds. */
  ghost predicate GoesBy(s: State, env: Env, reg: RegistryCache.Registry) {
    if s.registry.Some? then reg == s.registry.value else env.file == Success(reg)
  }

  /** The call is past the session, and the vault is configured. */
  ghost predicate Reached(cfg: Config, s: State, env: Env) {
    !s.crashed && Granted(cfg, s, env) && env.vaultConfigured
  }

  /** The seconds asked for, five minutes if none were, and no more than the ceiling. */
  function Seconds(asked: int, ceiling: int): int {
    if asked <= 0 then 300 else if asked > ceiling then ceiling else asked
  }

  /** The registry grants the triple, and the user approves if the consumer's mode is "required". */
  ghost predicate Grants(reg: RegistryCache.Registry, req: Request, env: Env)
    requires req.RequestAuthorization?
  {
    && req.consumerID in reg.consumers
    && var consumer := reg.consumers[req.consumerID];
    && Covers(consumer.allowedItems, req.itemID) && Covers(consumer.allowedPurposes, req.purpose)
    && (consumer.approvalMode == "required" ==> env.approves)
  }

  lemma GrantsIsAcl(reg: RegistryCache.Registry, req: Request, env: Env)
    requires req.RequestAuthorization?
    ensures Grants(reg, req, env) <==>
            var acl := Reg.Acl(reg, req.consumerID, req.itemID, req.purpose);
            acl.Success? && (acl.value == Reg.REQUIRED ==> env.approves)
    ensures Grants(reg, req, env) ==>
            Reg.Acl(reg, req.consumerID, req.itemID, req.purpose) == Success(reg.consumers[req.consumerID].approvalMode)
  {
    hide Covers, Reg.Allows;
    if req.consumerID in reg.consumers {
      CoversIsAllows(reg.consumers[req.consumerID].allowedItems, req.itemID);
      CoversIsAllows(reg.consumers[req.consumerID].allowedPurposes, req.purpose);
    }
  }

  /** All it takes, past the gate, for an approval under a registry. */
  ghost predicate Authorizable(s: State, req: Request, env: Env, reg: RegistryCache.Registry) {
    && req.RequestAuthorization? && req.itemID != "" && req.consumerID != "" && req.purpose != ""
    && GoesBy(s, env, reg) && Grants(reg, req, env)
    && env.token.Some?
  }

  lemma AuthorizeApproves(s: State, req: Request, env: Env, reg: RegistryCache.Registry)
    requires Authorizable(s, req, env, reg)
    ensures var h, ttl := Authorize(s, req, env), Seconds(req.ttlSeconds, 1800);
            && h.reply == Approved(env.token.value, reg.consumers[req.consumerID].approvalMode, ttl)
            && env.token.value in h.state.tokens
            && h.state.tokens[env.token.value] ==
               Authz.Entry(Authz.Binding(req.itemID, req.consumerID, req.purpose), env.issueAt + ttl * SECOND)
            && h.state.registry == Some(reg)
  {
    GrantsIsAcl(reg, req, env);
    hide Covers, Reg.Acl;
  }

  lemma AuthorizeNeeds(s: State, req: Request, env: Env)
    requires req.RequestAuthorization? && Authorize(s, req, env).reply.Approved?
    ensures exists reg :: Authorizable(s, req, env, reg)
  {
    var reg := RegistryCache.Answer(s.registry, env.file).value;
    GrantsIsAcl(reg, req, env);
    hide Grants, Reg.Acl, Clamped;
    assert Authorizable(s, req, env, reg);
  }

  lemma ApprovalIsAuthorize(cfg: Config, s: State, req: Request, env: Env)
    ensures var h := Handle(cfg, s, req, env);
            if req.RequestAuthorization? && Reached(cfg, s, env) then h == Authorize(Gate(cfg, s, env).0, req, env)
            else !h.reply.Approved?
  {
    GateOf(cfg, s, env);
    hide Granted, Authorize, VaultCache.RunWith, Fetch, Seal.Sealed, Authz.Apply, Authz.Judge, Sessions.Touched;
  }

  /**
   * A request is approved exactly when all it takes is there: the session, the vault, the
   * arguments, a registry that grants the triple, the user where the consumer's mode asks for
   * them, and randomness. Then the token is held for the triple until its time to live is over.
   */
  lemma ApprovesExactly(cfg: Config, s: State, req: Request, env: Env)
    ensures Handle(cfg, s, req, env).reply.Approved? <==>
            Reached(cfg, s, env) && exists reg :: Authorizable(s, req, env, reg)
    ensures forall reg :: Reached(cfg, s, env) && Authorizable(s, req, env, reg) ==>
              var h, ttl := Handle(cfg, s, req, env), Seconds(req.ttlSeconds, 1800);
              && h.reply == Approved(env.token.value, reg.consumers[req.consumerID].approvalMode, ttl)
              && env.token.value in h.state.tokens
              && h.state.tokens[env.token.value] ==
                 Authz.Entry(Authz.Binding(req.itemID, req.consumerID, req.purpose), env.issueAt + ttl * SECOND)
              && h.state.registry == Some(reg)
  {
    hide Reached, Handle, Authorize, Covers, Sessions.Touched;
    ApprovalIsAuthorize(cfg, s, req, env);
    if req.RequestAuthorization? && Reached(cfg, s, env) {
      var s1 := Gate(cfg, s, env).0;
      forall reg ensures Authorizable(s, req, env, reg) <==> Authorizable(s1, req, env, reg) {
      }
      forall reg | Authorizable(s, req, env, reg)
        ensures var h, ttl := Handle(cfg, s, req, env), Seconds(req.ttlSeconds, 1800);
                && h.reply == Approved(env.token.value, reg.consumers[req.consumerID].approvalMode, ttl)
                && env.token.value in h.state.tokens
                && h.state.tokens[env.token.value] ==
                   Authz.Entry(Authz.Binding(req.itemID, req.consumerID, req.purpose), env.issueAt + ttl * SECOND)
                && h.state.registry == Some(reg)
      {
        AuthorizeApproves(s1, req, env, reg);
      }
      if Handle(cfg, s, req, env).reply.Approved? {
        AuthorizeNeeds(s1, req, env);
      }
    }
  }

  // ---------------------------------------------------------------- deliveries

  /** With that client and in that world the server serves the item: a login whose password decrypts to `plain`. */
  ghost predicate Serves(cfg: Config, env: Env, c: Client, w: World, itemID: string, plain: VaultItems.Text) {
    var (after, answer) := env.read(w);
    && answer.Served? && c.symKeySet
    && itemID in after.server && after.server[itemID].login.Some?
    && VaultItems.DecryptStr(cfg.crypto, c, after.server[itemID].login.value.password) == Ok(plain)
  }

  /** The server turns the client away with a 401, and a new one connects and is served. */
  ghost predicate ServesAfter401(cfg: Config, env: Env, c: Client, w: World, itemID: string, plain: VaultItems.Text) {
    var (after, answer) := env.read(w);
    var (u, r) := env.connect(after);
    answer.Read401? && c.symKeySet && r.Success? && Serves(cfg, env, r.value, u, itemID, plain)
  }

  ghost predicate ServedWith(cfg: Config, vault: VaultCache.State<Client>, env: Env, itemID: string,
                             plain: VaultItems.Text, c: Client, w: World)
  {
    && VaultCache.StartsWith(vault, cfg.backoff, env.world, env.connect, c, w)
    && (Serves(cfg, env, c, w, itemID, plain) || ServesAfter401(cfg, env, c, w, itemID, plain))
  }

  /** The vault gives the item's password to the client cached or connected anew, at once or after a 401. */
  ghost predicate Yields(cfg: Config, vault: VaultCache.State<Client>, env: Env, itemID: string,
                         plain: VaultItems.Text)
  {
    exists c: Client, w: World :: ServedWith(cfg, vault, env, itemID, plain, c, w)
  }

  lemma FetchServes(cfg: Config, env: Env, c: Client, w: World, itemID: string, plain: VaultItems.Text)
    ensures var (after, r) := Fetch(cfg, env, itemID)(c, w);
            && after == env.read(w).0
            && (r == Ok(plain) <==> Serves(cfg, env, c, w, itemID, plain))
            && (r == Err(VaultItems.Unauthorized) <==> c.symKeySet && env.read(w).1.Read401?)
  {
    hide VaultItems.DecryptStr;
    var (after, answer) := env.read(w);
    VaultItems.SecretUnauthorized(cfg.crypto, c, after.server, itemID, answer);
  }

  lemma FetchFrom(cfg: Config, vault: VaultCache.State<Client>, env: Env, itemID: string, plain: VaultItems.Text,
                  c: Client, w: World)
    requires VaultCache.Sound(vault) && VaultCache.StartsWith(vault, cfg.backoff, env.world, env.connect, c, w)
    ensures var ran := VaultCache.RunWith(vault, cfg.backoff, env.world, env.connect, Fetch(cfg, env, itemID));
            ran.result == Ok(plain) <==>
            Serves(cfg, env, c, w, itemID, plain) || ServesAfter401(cfg, env, c, w, itemID, plain)
  {
    hide Fetch, Serves, VaultCache.RunWith, VaultCache.StartsWith;
    var fn := Fetch(cfg, env, itemID);
    FetchServes(cfg, env, c, w, itemID, plain);
    if fn(c, w).1 == Err(VaultItems.Unauthorized) {
      VaultCache.AnswerAfter401(vault, cfg.backoff, env.world, env.connect, fn, c, w);
      var (u, r) := env.connect(fn(c, w).0);
      if r.Success? {
        FetchServes(cfg, env, r.value, u, itemID, plain);
      }
    } else {
      VaultCache.AnswerIsPassedOn(vault, cfg.backoff, env.world, env.connect, fn, c, w);
    }
  }

  lemma FetchYields(cfg: Config, vault: VaultCache.State<Client>, env: Env, itemID: string, plain: VaultItems.Text)
    requires VaultCache.Sound(vault)
    ensures var ran := VaultCache.RunWith(vault, cfg.backoff, env.world, env.connect, Fetch(cfg, env, itemID));
            ran.result == Ok(plain) <==> Yields(cfg, vault, env, itemID, plain)
  {
    hide Serves, ServesAfter401, Fetch;
    var fn := Fetch(cfg, env, itemID);
    var ran := VaultCache.RunWith(vault, cfg.backoff, env.world, env.connect, fn);
    if ran.result == Ok(plain) {
      var got := VaultCache.GetClient(vault, cfg.backoff, env.world, env.connect);
      hide VaultCache.RunWith;
      var c, w := got.client.value, got.world;
      assert VaultCache.StartsWith(vault, cfg.backoff, env.world, env.connect, c, w);
      FetchFrom(cfg, vault, env, itemID, plain, c, w);
      assert ServedWith(cfg, vault, env, itemID, plain, c, w);
    }
    if c: Client, w: World :| ServedWith(cfg, vault, env, itemID, plain, c, w) {
      FetchFrom(cfg, vault, env, itemID, plain, c, w);
    }
  }

  /** The token stands, unexpired, for the triple of the sealing. */
  ghost predicate TokenStands(s: State, req: Request, env: Env, consumerID: string)
    requires req.VaultSeal?
  {
    && req.authToken in s.tokens
    && s.tokens[req.authToken].binding == Authz.Binding(req.itemID, consumerID, req.purpose)
    && env.checkAt <= s.tokens[req.authToken].expiresAt
  }

  function ExpiryOf(req: Request, env: Env): int
    requires req.VaultSeal?
  {
    env.sealAt + Seconds(req.boxTTLSeconds, 3600) * SECOND
  }

  /** What sealing the password to the consumer session gives, bound to all that the box names. */
  function SealedTo(cfg: Config, req: Request, env: Env, plain: VaultItems.Text): Option<(Bytes, Bytes)>
    requires req.VaultSeal? && req.bundleArg.Parsed? && env.boxID.Some?
  {
    var bundle := req.bundleArg.bundle;
    var info := Seal.Info(bundle.consumerID, bundle.sessionID, req.itemID, req.purpose, bundle.expiresAt,
                          ExpiryOf(req, env), env.boxID.value);
    cfg.scheme.seal(bundle.sessionPubKey, cfg.scheme.marshal(info), plain, env.seed)
  }

  function BoxOf(cfg: Config, req: Request, env: Env, plain: VaultItems.Text): Seal.SealedBox
    requires req.VaultSeal? && req.bundleArg.Parsed? && env.boxID.Some? && SealedTo(cfg, req, env, plain).Some?
  {
    var bundle, r := req.bundleArg.bundle, SealedTo(cfg, req, env, plain).value;
    Seal.SealedBox(env.boxID.value, bundle.consumerID, bundle.sessionID, req.itemID, req.purpose, r.0, r.1,
                   ExpiryOf(req, env))
  }

  /** The consumer of a sealing is verified, and known to the registry by the same identity key. */
  ghost predicate Known(s: State, req: Request, env: Env) {
    && req.VaultSeal? && req.itemID != "" && req.authToken != "" && req.purpose != ""
    && req.bundleArg.Parsed? && env.verifies
    && exists reg :: GoesBy(s, env, reg) &&
                     var bundle := req.bundleArg.bundle;
                     bundle.consumerID in reg.consumers &&
                     reg.consumers[bundle.consumerID].identityPubKey == bundle.identityPubKey
  }

  /** All it takes from there on for a box with that password. */
  ghost predicate Sealable(cfg: Config, s: State, req: Request, env: Env, plain: VaultItems.Text)
    requires req.VaultSeal? && req.bundleArg.Parsed?
  {
    && TokenStands(s, req, env, req.bundleArg.bundle.consumerID)
    && Yields(cfg, s.vault, env, req.itemID, plain)
    && env.boxID.Some? && SealedTo(cfg, req, env, plain).Some?
  }

  lemma SealWithExactly(cfg: Config, s: State, req: Request, env: Env, bundle: Seal.Bundle, plain: Bytes, op: Authz.Op)
    requires req.VaultSeal? && req.bundleArg == Parsed(bundle)
    ensures var h := SealWith(cfg, s, req, env, bundle, plain, op);
            && h.state == s
            && (h.reply.Delivered? <==> env.boxID.Some? && SealedTo(cfg, req, env, plain).Some?)
            && (h.reply.Delivered? ==> h.reply.box == BoxOf(cfg, req, env, plain))
  {
  }

  /** A sealing spends its token whatever comes after, and gets to the seal with what its fetch read. */
  lemma SpendSteps(cfg: Config, s: State, req: Request, env: Env, bundle: Seal.Bundle)
    requires req.VaultSeal? && req.bundleArg == Parsed(bundle)
    ensures var h := SpendToken(cfg, s, req, env, bundle);
            var ran := VaultCache.RunWith(s.vault, cfg.backoff, env.world, env.connect, Fetch(cfg, env, req.itemID));
            var s2 := s.(tokens := s.tokens - {req.authToken}, vault := ran.state);
            && h.state.tokens == s.tokens - {req.authToken}
            && if TokenStands(s, req, env, bundle.consumerID) && ran.result.Ok? then
                 exists op :: h == SealWith(cfg, s2, req, env, bundle, ran.result.value, op)
               else !h.reply.Delivered?
  {
    hide VaultCache.RunWith, Fetch, SealWith;
    var ran := VaultCache.RunWith(s.vault, cfg.backoff, env.world, env.connect, Fetch(cfg, env, req.itemID));
    var op := Authz.ConsumeOp(req.authToken, Authz.Binding(req.itemID, bundle.consumerID, req.purpose), env.checkAt);
    if TokenStands(s, req, env, bundle.consumerID) && ran.result.Ok? {
      var s2 := s.(tokens := s.tokens - {req.authToken}, vault := ran.state);
      assert SpendToken(cfg, s, req, env, bundle) == SealWith(cfg, s2, req, env, bundle, ran.result.value, op);
      SealWithExactly(cfg, s2, req, env, bundle, ran.result.value, op);
    }
  }

  lemma SpendDelivers(cfg: Config, s: State, req: Request, env: Env, bundle: Seal.Bundle)
    requires req.VaultSeal? && req.bundleArg == Parsed(bundle) && VaultCache.Sound(s.vault)
    ensures var h := SpendToken(cfg, s, req, env, bundle);
            && h.state.tokens == s.tokens - {req.authToken}
            && (h.reply.Delivered? <==> exists plain :: Sealable(cfg, s, req, env, plain))
            && forall plain :: Sealable(cfg, s, req, env, plain) ==> h.reply == Delivered(BoxOf(cfg, req, env, plain))
  {
    hide SpendToken, SealWith, SealedTo, BoxOf, Yields, TokenStands, VaultCache.RunWith, Fetch;
    var ran := VaultCache.RunWith(s.vault, cfg.backoff, env.world, env.connect, Fetch(cfg, env, req.itemID));
    forall plain ensures ran.result == Ok(plain) <==> Yields(cfg, s.vault, env, req.itemID, plain) {
      FetchYields(cfg, s.vault, env, req.itemID, plain);
    }
    SpendSteps(cfg, s, req, env, bundle);
    if TokenStands(s, req, env, bundle.consumerID) && ran.result.Ok? {
      var plain, s2 := ran.result.value, s.(tokens := s.tokens - {req.authToken}, vault := ran.state);
      var op :| SpendToken(cfg, s, req, env, bundle) == SealWith(cfg, s2, req, env, bundle, plain, op);
      SealWithExactly(cfg, s2, req, env, bundle, plain, op);
      assert Yields(cfg, s.vault, env, req.itemID, plain);
      assert SpendToken(cfg, s, req, env, bundle).reply.Delivered? ==> Sealable(cfg, s, req, env, plain);
    }
  }

  lemma SealSecretDelivers(cfg: Config, s: State, req: Request, env: Env)
    requires req.VaultSeal?
    ensures if Known(s, req, env) then
              var s1 := s.(registry := RegistryCache.Loaded(s.registry, env.file));
              SealSecret(cfg, s, req, env) == SpendToken(cfg, s1, req, env, req.bundleArg.bundle)
            else !SealSecret(cfg, s, req, env).reply.Delivered? && SealSecret(cfg, s, req, env).op.None?
  {
    hide SpendToken;
    if RegistryCache.Answer(s.registry, env.file).Success? {
      assert GoesBy(s, env, RegistryCache.Answer(s.registry, env.file).value);
    }
  }

  lemma DeliveryIsSeal(cfg: Config, s: State, req: Request, env: Env)
    ensures var h := Handle(cfg, s, req, env);
            if req.VaultSeal? && Reached(cfg, s, env) then h == SealSecret(cfg, Gate(cfg, s, env).0, req, env)
            else !h.reply.Delivered?
  {
    GateOf(cfg, s, env);
    hide Granted, SealSecret, VaultCache.RunWith, Reg.Acl, Clamped, Authz.Apply, Authz.Judge, Sessions.Touched;
  }

  /**
   * A sealing is answered with a box exactly when all it takes is there: the session, the vault,
   * the arguments, a verified consumer that the registry knows by the same key, a token that
   * stands for the triple, a vault that yields the item's password, randomness and a session key
   * that seals. And it is the box of that password, bound to all it names, with the time to live
   * that was asked for.
   */
  lemma DeliversExactly(cfg: Config, s: State, req: Request, env: Env)
    requires VaultCache.Sound(s.vault)
    ensures Handle(cfg, s, req, env).reply.Delivered? <==>
            Reached(cfg, s, env) && Known(s, req, env) && exists plain :: Sealable(cfg, s, req, env, plain)
    ensures Reached(cfg, s, env) && Known(s, req, env) ==>
              && Handle(cfg, s, req, env).state.tokens == s.tokens - {req.authToken}
              && forall plain :: Sealable(cfg, s, req, env, plain) ==>
                   Handle(cfg, s, req, env).reply == Delivered(BoxOf(cfg, req, env, plain))
  {
    hide Reached, Handle, SealSecret, SpendToken, Yields, Sessions.Touched, BoxOf, SealedTo;
    DeliveryIsSeal(cfg, s, req, env);
    if req.VaultSeal? && Reached(cfg, s, env) {
      var s1 := Gate(cfg, s, env).0;
      SealSecretDelivers(cfg, s1, req, env);
      assert Known(s1, req, env) <==> Known(s, req, env) by {
        forall reg ensures GoesBy(s1, env, reg) <==> GoesBy(s, env, reg) {
        }
      }
      if Known(s, req, env) {
        var s2 := s1.(registry := RegistryCache.Loaded(s1.registry, env.file));
        SpendDelivers(cfg, s2, req, env, req.bundleArg.bundle);
        assert forall plain :: Sealable(cfg, s2, req, env, plain) <==> Sealable(cfg, s, req, env, plain);
      }
    }
  }

  // ---------------------------------------------------------------- refusals

  /** A vault tool is refused as unavailable exactly if the vault is not configured. */
  lemma UnavailableExactly(cfg: Config, s: State, req: Request, env: Env)
    ensures Handle(cfg, s, req, env).reply == Refused(VaultNotConfigured) <==>
            !s.crashed && !req.Ping? && !req.StashTool? && Granted(cfg, s, env) && !env.vaultConfigured
  {
    GateOf(cfg, s, env);
    hide Granted, VaultCache.RunWith, Fetch, Seal.Sealed, Reg.Acl, Clamped, Authz.Apply, Authz.Judge, Sessions.Touched;
  }

  /** Why a request for authorization is refused, in the order in which it is looked at. */
  lemma AuthorizationRefusals(cfg: Config, s: State, req: Request, env: Env)
    requires req.RequestAuthorization? && Reached(cfg, s, env)
    ensures var r := Handle(cfg, s, req, env).reply;
            var present := req.itemID != "" && req.consumerID != "" && req.purpose != "";
            && (r == Refused(MissingArguments) <==> !present)
            && (r == Refused(RegistryUnavailable) <==> present && s.registry.None? && env.file.Failure?)
            && (r == Refused(NotApproved) <==>
                  present && !env.approves &&
                  exists reg :: GoesBy(s, env, reg) && Grants(reg, req, env.(approves := true)) &&
                                reg.consumers[req.consumerID].approvalMode == "required")
            && (r == Refused(NoToken) <==>
                  present && env.token.None? && exists reg :: GoesBy(s, env, reg) && Grants(reg, req, env))
  {
    ApprovalIsAuthorize(cfg, s, req, env);
    hide Handle, Reached, Reg.Acl, Covers, Clamped, Sessions.Touched;
    if RegistryCache.Answer(s.registry, env.file).Success? {
      var reg := RegistryCache.Answer(s.registry, env.file).value;
      assert GoesBy(s, env, reg) && forall other :: GoesBy(s, env, other) ==> other == reg;
      GrantsIsAcl(reg, req, env);
      GrantsIsAcl(reg, req, env.(approves := true));
    }
  }

  /** The arguments are there, the bundle parses, and it verifies. */
  ghost predicate Presented(req: Request, env: Env)
    requires req.VaultSeal?
  {
    req.itemID != "" && req.authToken != "" && req.purpose != "" && req.bundleArg.Parsed? && env.verifies
  }

  /** Spending a token answers why the token, the vault, randomness or the seal failed it, and nothing else. */
  lemma SpendRefusals(cfg: Config, s: State, req: Request, env: Env, bundle: Seal.Bundle)
    requires req.VaultSeal?
    ensures var r := SpendToken(cfg, s, req, env, bundle).reply;
            r.Refused? ==> r.why.TokenInvalid? || r.why.VaultFailed? || r.why.NoBoxID? || r.why.SealFailed?
    ensures var r := SpendToken(cfg, s, req, env, bundle).reply;
            && (r == Refused(TokenInvalid(Authz.NotFound)) <==> req.authToken !in s.tokens)
            && (r == Refused(TokenInvalid(Authz.Expired)) <==>
                  req.authToken in s.tokens && env.checkAt > s.tokens[req.authToken].expiresAt)
            && (r == Refused(TokenInvalid(Authz.Mismatch)) <==>
                  req.authToken in s.tokens && env.checkAt <= s.tokens[req.authToken].expiresAt &&
                  s.tokens[req.authToken].binding != Authz.Binding(req.itemID, bundle.consumerID, req.purpose))
  {
    hide VaultCache.RunWith, Fetch, Seal.Sealed, Clamped;
  }

  /** Why a sealing is refused before it fetches, in the order in which it is looked at. */
  lemma SealingRefusals(cfg: Config, s: State, req: Request, env: Env)
    requires req.VaultSeal? && Reached(cfg, s, env)
    ensures var r := Handle(cfg, s, req, env).reply;
            var present := req.itemID != "" && req.authToken != "" && req.purpose != "" && !req.bundleArg.Absent?;
            && (r == Refused(MissingArguments) <==> !present)
            && (r == Refused(BundleGarbled) <==> present && req.bundleArg.Garbled?)
            && (r == Refused(BundleRejected) <==> present && req.bundleArg.Parsed? && !env.verifies)
            && (r == Refused(RegistryUnavailable) <==> Presented(req, env) && s.registry.None? && env.file.Failure?)
            && (r == Refused(NotRegistered) <==>
                  Presented(req, env) &&
                  exists reg :: GoesBy(s, env, reg) && req.bundleArg.bundle.consumerID !in reg.consumers)
            && (r == Refused(KeyMismatch) <==>
                  Presented(req, env) &&
                  exists reg :: GoesBy(s, env, reg) &&
                                var bundle := req.bundleArg.bundle;
                                bundle.consumerID in reg.consumers &&
                                reg.consumers[bundle.consumerID].identityPubKey != bundle.identityPubKey)
  {
    DeliveryIsSeal(cfg, s, req, env);
    hide Handle, Reached, SpendToken, Sessions.Touched;
    if req.bundleArg.Parsed? {
      SpendRefusals(cfg, Gate(cfg, s, env).0.(registry := RegistryCache.Loaded(s.registry, env.file)), req, env,
                    req.bundleArg.bundle);
    }
    if RegistryCache.Answer(s.registry, env.file).Success? {
      var reg := RegistryCache.Answer(s.registry, env.file).value;
      assert GoesBy(s, env, reg) && forall other :: GoesBy(s, env, other) ==> other == reg;
    }
  }

  // ---------------------------------------------------------------- other vault tools

  /**
   * A vault tool runs with the client cached or connected anew. A 401 drops that client and runs
   * it again with a new one; only a crash of the tool itself brings the process down.
   */
  lemma ToolRuns(cfg: Config, s: State, call: VaultCache.Call<Client, Items, ()>, env: Env, c: Client, w: World)
    requires Reached(cfg, s, env) && VaultCache.Sound(s.vault)
    requires VaultCache.StartsWith(s.vault, cfg.backoff, env.world, env.connect, c, w)
    ensures var h := Handle(cfg, s, VaultTool(call), env);
            var (after, r) := call(c, w);
            var (u, again) := env.connect(after);
            && h.op.None? && h.state.tokens == s.tokens && h.state.registry == s.registry
            && (h.reply == Crash <==> h.state.crashed) && (h.reply != Crash ==> h.reply == Done)
            && if r != Err(VaultItems.Unauthorized) then
                 h.state.vault.client == Some(c) && h.state.vault.err.None? && (h.reply == Crash <==> r.Panic?)
               else if again.Failure? then
                 h.reply == Done && h.state.vault == VaultCache.State(None, Some(again.error), u.clock)
               else
                 h.state.vault.client == Some(again.value) && (h.reply == Crash <==> call(again.value, u).1.Panic?)
  {
    GateOf(cfg, s, env);
    hide Granted, VaultCache.StartsWith, VaultCache.RunWith, Sessions.Touched;
    if call(c, w).1 != Err(VaultItems.Unauthorized) {
      VaultCache.AnswerIsPassedOn(s.vault, cfg.backoff, env.world, env.connect, call, c, w);
    } else {
      VaultCache.AnswerAfter401(s.vault, cfg.backoff, env.world, env.connect, call, c, w);
    }
  }

  // ---------------------------------------------------------------- runs

  lemma StepKeepsSound(cfg: Config, s: State, req: Request, env: Env)
    requires VaultCache.Sound(s.vault)
    ensures VaultCache.Sound(Handle(cfg, s, req, env).state.vault)
  {
    hide VaultCache.RunWith, Fetch, Seal.Sealed, Reg.Acl, Clamped, Authz.Apply, Authz.Judge, Sessions.Touched;
    if req.VaultSeal? {
      VaultCache.WithVaultRetriesOnce(s.vault, cfg.backoff, env.world, env.connect, Fetch(cfg, env, req.itemID));
    }
    if req.VaultTool? {
      VaultCache.WithVaultRetriesOnce(s.vault, cfg.backoff, env.world, env.connect, req.call);
    }
  }

  lemma {:induction false} VaultIsSound(cfg: Config, calls: seq<Call>)
    ensures VaultCache.Sound(Run(cfg, calls).state.vault)
  {
    if calls != [] {
      var n := |calls| - 1;
      VaultIsSound(cfg, calls[..n]);
      StepKeepsSound(cfg, Run(cfg, calls[..n]).state, calls[n].req, calls[n].env);
      hide Handle;
    }
  }

  lemma ApprovalHasArguments(cfg: Config, calls: seq<Call>, j: int)
    requires var log := Run(cfg, calls).log;
             0 <= j < |log| && log[j].reply.Approved? && log[j].req.RequestAuthorization?
    ensures Run(cfg, calls).log[j].req.itemID != "" && Run(cfg, calls).log[j].req.purpose != ""
  {
    hide Run, Handle, Reached, Grants;
    RunAt(cfg, calls, |calls|);
    RunAt(cfg, calls, j);
    ApprovesExactly(cfg, Run(cfg, calls[..j]).state, calls[j].req, calls[j].env);
  }

  /**
   * An approval is good for a delivery: as long as nothing names its token and the clock has not
   * passed its expiry, a sealing for its triple by its verified consumer, past the session, with a
   * vault that yields the password, randomness and a session key that seals, is answered with the box.
   */
  lemma ApprovalDelivers(cfg: Config, calls: seq<Call>, j: int, req: Request, env: Env, plain: VaultItems.Text)
    requires var log := Run(cfg, calls).log;
             && 0 <= j < |log| && log[j].reply.Approved? && log[j].req.RequestAuthorization?
             && Authz.IssuedLast(Ops(log), j, |log|, log[j].reply.token)
             && var expiry := log[j].env.issueAt + log[j].reply.ttlSeconds * SECOND;
             && (forall k :: j < k < |log| && log[k].op.Some? ==> log[k].op.value.now <= expiry)
             && env.checkAt <= expiry
             && req.VaultSeal? && req.bundleArg.Parsed? && req.authToken == log[j].reply.token
             && req.itemID == log[j].req.itemID && req.purpose == log[j].req.purpose
             && req.bundleArg.bundle.consumerID == log[j].req.consumerID
    requires var s := Run(cfg, calls).state;
             && req.authToken != "" && env.verifies && Reached(cfg, s, env)
             && s.registry.Some?
             && (var bundle, consumers := req.bundleArg.bundle, s.registry.value.consumers;
                 bundle.consumerID in consumers && consumers[bundle.consumerID].identityPubKey == bundle.identityPubKey)
             && Yields(cfg, s.vault, env, req.itemID, plain)
             && env.boxID.Some? && SealedTo(cfg, req, env, plain).Some?
    ensures Handle(cfg, Run(cfg, calls).state, req, env).reply == Delivered(BoxOf(cfg, req, env, plain))
  {
    hide Run, Handle, Reached, Yields, SealedTo, BoxOf, Authz.After;
    var s, log := Run(cfg, calls).state, Run(cfg, calls).log;
    IssueIsApproval(cfg, calls, j);
    var token := log[j].reply.token;
    TokensFollow(cfg, calls);
    Authz.HeldUntilExpired(Ops(log), j, token);
    var i := Authz.HeldWasIssued(Ops(log), token);
    Authz.OneIssue(Ops(log), i, j, |log|, token);
    assert TokenStands(s, req, env, req.bundleArg.bundle.consumerID);
    assert GoesBy(s, env, s.registry.value);
    ApprovalHasArguments(cfg, calls, j);
    assert Known(s, req, env);
    VaultIsSound(cfg, calls);
    DeliversExactly(cfg, s, req, env);
    assert Sealable(cfg, s, req, env, plain);
  }
}
