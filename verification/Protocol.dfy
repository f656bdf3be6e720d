/**
 * The sealed-credential protocol: every call but a ping passes the session, an authorization
 * checks the registry and issues a token, and a sealing spends one. The server handles one call
 * at a time.
 */
module Protocol {
  import opened ByteStrings
  import opened Wrappers
  import Authz
  import Reg = Registry
  import RegistryCache
  import Seal
  import Sessions
  import VaultCache
  import VaultItems

  const SECOND: int := 1_000_000_000

  const DEFAULT_AUTHZ_TTL: int := 300
  const MAX_AUTHZ_TTL: int := 1800
  const DEFAULT_BOX_TTL: int := 300
  const MAX_BOX_TTL: int := 3600

  type Client = VaultItems.Client
  type Items = VaultItems.Items
  type World = VaultCache.World<Items>

  datatype Config = Config(limits: Sessions.Limits, backoff: int, crypto: VaultItems.Crypto, scheme: Seal.Scheme)

  datatype BundleArg = Absent | Garbled | Parsed(bundle: Seal.Bundle)

  datatype Request =
    | Ping
    | StashTool
    | VaultTool(call: VaultCache.Call<Client, Items, ()>)
    | RequestAuthorization(itemID: string, consumerID: string, purpose: string, ttlSeconds: int)
    | VaultSeal(itemID: string, bundleArg: BundleArg, authToken: string, purpose: string, boxTTLSeconds: int)

  /**
   * What a call meets: clock readings in the order they are taken, the user's answers, what the
   * registry file holds, what the random sources deliver, and the vault's server.
   */
  datatype Env = Env(
    touchAt: int,
    unlocks: bool,
    vaultConfigured: bool,
    file: RegistryCache.FileContent,
    approves: bool,
    token: Option<Authz.Token>,
    issueAt: int,
    verifies: bool,
    checkAt: int,
    world: World,
    connect: VaultCache.Connect<Client, Items>,
    read: World -> (World, VaultItems.ReadAnswer),
    boxID: Option<string>,
    sealAt: int,
    seed: Bytes)

  datatype Refusal =
    | VaultNotConfigured
    | MissingArguments
    | RegistryUnavailable
    | AccessDenied(acl: Reg.AclError)
    | NotApproved
    | NoToken
    | BundleGarbled
    | BundleRejected
    | NotRegistered
    | KeyMismatch
    | TokenInvalid(verdict: Authz.Verdict)
    | VaultFailed(error: VaultItems.VaultError)
    | NoBoxID
    | SealFailed

  datatype Reply =
    | Pong
    | Denied(wrapsExpired: bool)
    | Refused(why: Refusal)
    | Approved(token: Authz.Token, mode: string, ttlSeconds: int)
    | Delivered(box: Seal.SealedBox)
    | Done
    | Crash

  datatype State = State(
    session: Sessions.State,
    registry: Option<RegistryCache.Registry>,
    tokens: Authz.Tokens,
    vault: VaultCache.State<Client>,
    crashed: bool)

  /** What a handler does: the new state, the reply, and what it did to the token store, if it got there. */
  datatype Handled = Handled(state: State, reply: Reply, op: Option<Authz.Op>)

  function Clamped(v: int, default_: int, max: int): int {
    var w := if v <= 0 then default_ else v;
    if w > max then max else w
  }

  /** A clamped value is in range, and a value in range is kept. */
  lemma ClampedRange(v: int, default_: int, max: int)
    requires 1 <= default_ <= max
    ensures 1 <= Clamped(v, default_, max) <= max
    ensures 1 <= v <= max ==> Clamped(v, default_, max) == v
    ensures v <= 0 ==> Clamped(v, default_, max) == default_
    ensures v > max ==> Clamped(v, default_, max) == max
  {
  }

  class IntCell {
    var value: int

    constructor (value: int)
      ensures this.value == value
    {
      this.value := value;
    }

    method Clamp(default_: int, max: int)
      modifies this
      ensures value == Clamped(old(value), default_, max)
    {
      if value <= 0 {
        value := default_;
      }
      if value > max {
        value := max;
      }
    }
  }

  function Authorize(s: State, req: Request, env: Env): Handled
    requires req.RequestAuthorization?
  {
    if req.itemID == "" || req.consumerID == "" || req.purpose == "" then Handled(s, Refused(MissingArguments), None)
    else
      var ttl := Clamped(req.ttlSeconds, DEFAULT_AUTHZ_TTL, MAX_AUTHZ_TTL);
      var s1 := s.(registry := RegistryCache.Loaded(s.registry, env.file));
      match RegistryCache.Answer(s.registry, env.file)
      case Failure(_) => Handled(s1, Refused(RegistryUnavailable), None)
      case Success(reg) =>
        match Reg.Acl(reg, req.consumerID, req.itemID, req.purpose)
        case Failure(e) => Handled(s1, Refused(AccessDenied(e)), None)
        case Success(mode) =>
          if mode == Reg.REQUIRED && !env.approves then Handled(s1, Refused(NotApproved), None)
          else if env.token.None? then Handled(s1, Refused(NoToken), None)
          else
            var binding := Authz.Binding(req.itemID, req.consumerID, req.purpose);
            var op := Authz.IssueOp(env.token.value, binding, ttl * SECOND, env.issueAt);
            Handled(s1.(tokens := Authz.Apply(s.tokens, op)), Approved(env.token.value, mode, ttl), Some(op))
  }

  /** The fetch that a sealing runs against the vault, once or twice. */
  function Fetch(cfg: Config, env: Env, itemID: string): VaultCache.Call<Client, Items, VaultItems.Text> {
    (c: Client, w: World) =>
      var (after, answer) := env.read(w);
      (after, VaultItems.SecretOf(cfg.crypto, c, after.server, itemID, answer))
  }

  function SealWith(cfg: Config, s: State, req: Request, env: Env, bundle: Seal.Bundle, plain: Bytes, op: Authz.Op)
    : Handled
    requires req.VaultSeal?
  {
    if env.boxID.None? then Handled(s, Refused(NoBoxID), Some(op))
    else
      var expiresAt := env.sealAt + Clamped(req.boxTTLSeconds, DEFAULT_BOX_TTL, MAX_BOX_TTL) * SECOND;
      match Seal.Sealed(cfg.scheme, bundle, req.itemID, req.purpose, env.boxID.value, expiresAt, plain, env.seed)
      case None => Handled(s, Refused(SealFailed), Some(op))
      case Some(box) => Handled(s, Delivered(box), Some(op))
  }

  function SpendToken(cfg: Config, s: State, req: Request, env: Env, bundle: Seal.Bundle): Handled
    requires req.VaultSeal?
  {
    var op := Authz.ConsumeOp(req.authToken, Authz.Binding(req.itemID, bundle.consumerID, req.purpose), env.checkAt);
    var verdict := Authz.Judge(Authz.Lookup(s.tokens, op.token), op.binding, op.now);
    var s1 := s.(tokens := Authz.Apply(s.tokens, op));
    if !verdict.Accepted? then Handled(s1, Refused(TokenInvalid(verdict)), Some(op))
    else
      var ran := VaultCache.RunWith(s.vault, cfg.backoff, env.world, env.connect, Fetch(cfg, env, req.itemID));
      var s2 := s1.(vault := ran.state);
      match ran.result
      case Panic => Handled(s2.(crashed := true), Crash, Some(op))
      case Err(e) => Handled(s2, Refused(VaultFailed(e)), Some(op))
      case Ok(plain) => SealWith(cfg, s2, req, env, bundle, plain, op)
  }

  function SealSecret(cfg: Config, s: State, req: Request, env: Env): Handled
    requires req.VaultSeal?
  {
    if req.itemID == "" || req.authToken == "" || req.purpose == "" || req.bundleArg.Absent? then
      Handled(s, Refused(MissingArguments), None)
    else if req.bundleArg.Garbled? then Handled(s, Refused(BundleGarbled), None)
    else if !env.verifies then Handled(s, Refused(BundleRejected), None)
    else
      var bundle := req.bundleArg.bundle;
      var s1 := s.(registry := RegistryCache.Loaded(s.registry, env.file));
      match RegistryCache.Answer(s.registry, env.file)
      case Failure(_) => Handled(s1, Refused(RegistryUnavailable), None)
      case Success(reg) =>
        if bundle.consumerID !in reg.consumers then Handled(s1, Refused(NotRegistered), None)
        else if reg.consumers[bundle.consumerID].identityPubKey != bundle.identityPubKey then
          Handled(s1, Refused(KeyMismatch), None)
        else SpendToken(cfg, s1, req, env, bundle)
  }

  function Dispatch(cfg: Config, s: State, req: Request, env: Env): Handled
    requires !req.Ping?
  {
    if req.StashTool? then Handled(s, Done, None)
    else if !env.vaultConfigured then Handled(s, Refused(VaultNotConfigured), None)
    else
      match req
      case VaultTool(call) =>
        var ran := VaultCache.RunWith(s.vault, cfg.backoff, env.world, env.connect, call);
        if ran.result.Panic? then Handled(s.(vault := ran.state, crashed := true), Crash, None)
        else Handled(s.(vault := ran.state), Done, None)
      case RequestAuthorization(_, _, _, _) => Authorize(s, req, env)
      case VaultSeal(_, _, _, _, _) => SealSecret(cfg, s, req, env)
  }

  function Gate(cfg: Config, s: State, env: Env): (State, Sessions.Reply) {
    var (session, reply) := Sessions.Touched(s.session, cfg.limits, env.touchAt, env.unlocks);
    (s.(session := session), reply)
  }

  /** One tool call. A process that has crashed answers nothing more. */
  function Handle(cfg: Config, s: State, req: Request, env: Env): Handled {
    if s.crashed then Handled(s, Crash, None)
    else if req.Ping? then Handled(s, Pong, None)
    else
      var (s1, gate) := Gate(cfg, s, env);
      if gate.Refused? then Handled(s1, Denied(gate.wrapsExpired), None) else Dispatch(cfg, s1, req, env)
  }

  // ---------------------------------------------------------------- the server

  function Start(): State {
    State(Sessions.State(Sessions.New, 0, 0), None, map[], VaultCache.State(None, None, 0), false)
  }

  class Server {
    const cfg: Config
    const session: Sessions.Session
    const store: Authz.Store
    const registry: RegistryCache.Cache
    const vault: VaultCache.Cache<Client, Items>
    var crashed: bool

    ghost predicate Valid()
    {
      session.limits == cfg.limits && vault.backoff == cfg.backoff
    }

    function Now(): State
      reads this, session, store, registry, vault
    {
      State(session.Now(), registry.cached, store.tokens, vault.Now(), crashed)
    }

    constructor (cfg: Config)
      ensures Valid() && this.cfg == cfg && Now() == Start()
      ensures fresh(session) && fresh(store) && fresh(registry) && fresh(vault)
    {
      this.cfg := cfg;
      session := new Sessions.Session(cfg.limits);
      store := new Authz.Store();
      registry := new RegistryCache.Cache();
      vault := new VaultCache.Cache(cfg.backoff);
      crashed := false;
    }

    method HandleRequestAuthorization(req: Request, env: Env) returns (r: Reply)
      requires req.RequestAuthorization? && Valid()
      modifies store, registry
      ensures var h := Authorize(old(Now()), req, env);
              Now() == h.state && r == h.reply
    {
      if req.itemID == "" || req.consumerID == "" || req.purpose == "" {
        return Refused(MissingArguments);
      }
      var ttl := new IntCell(req.ttlSeconds);
      ttl.Clamp(DEFAULT_AUTHZ_TTL, MAX_AUTHZ_TTL);
      var reg := registry.LoadRegistry(env.file);
      if reg.Failure? {
        return Refused(RegistryUnavailable);
      }
      var mode := Reg.CheckACL(reg.value, req.consumerID, req.itemID, req.purpose);
      if mode.Failure? {
        return Refused(AccessDenied(mode.error));
      }
      if mode.value == Reg.REQUIRED {
        if !env.approves {
          return Refused(NotApproved);
        }
      }
      var binding := Authz.Binding(req.itemID, req.consumerID, req.purpose);
      var tok := store.Issue(env.token, binding, ttl.value * SECOND, env.issueAt);
      if tok.None? {
        return Refused(NoToken);
      }
      r := Approved(tok.value, mode.value, ttl.value);
    }

    method HandleVaultSeal(req: Request, env: Env) returns (r: Reply)
      requires req.VaultSeal? && Valid()
      modifies this, store, registry, vault
      ensures var h := SealSecret(cfg, old(Now()), req, env);
              Now() == h.state && r == h.reply
    {
      if req.itemID == "" || req.authToken == "" || req.purpose == "" || req.bundleArg.Absent? {
        return Refused(MissingArguments);
      }
      var ttl := new IntCell(req.boxTTLSeconds);
      ttl.Clamp(DEFAULT_BOX_TTL, MAX_BOX_TTL);
      if req.bundleArg.Garbled? {
        return Refused(BundleGarbled);
      }
      var bundle := req.bundleArg.bundle;
      if !env.verifies {
        return Refused(BundleRejected);
      }
      var reg := registry.LoadRegistry(env.file);
      if reg.Failure? {
        return Refused(RegistryUnavailable);
      }
      if bundle.consumerID !in reg.value.consumers {
        return Refused(NotRegistered);
      }
      if reg.value.consumers[bundle.consumerID].identityPubKey != bundle.identityPubKey {
        return Refused(KeyMismatch);
      }
      r := SpendAndSeal(req, env, bundle, ttl.value);
    }

    /** The part of a sealing that starts by spending the token. */
    method SpendAndSeal(req: Request, env: Env, bundle: Seal.Bundle, boxTTL: int) returns (r: Reply)
      requires req.VaultSeal? && boxTTL == Clamped(req.boxTTLSeconds, DEFAULT_BOX_TTL, MAX_BOX_TTL) && Valid()
      modifies this, store, vault
      ensures var h := SpendToken(cfg, old(Now()), req, env, bundle);
              Now() == h.state && r == h.reply
    {
      hide VaultCache.RunWith, Fetch, Seal.Sealed;
      var binding := Authz.Binding(req.itemID, bundle.consumerID, req.purpose);
      var verdict := store.Consume(req.authToken, binding, env.checkAt);
      if !verdict.Accepted? {
        return Refused(TokenInvalid(verdict));
      }
      var secret, _, _ := vault.WithVault(env.world, env.connect, Fetch(cfg, env, req.itemID));
      if secret.Panic? {
        crashed := true;
        return Crash;
      }
      if secret.Err? {
        return Refused(VaultFailed(secret.error));
      }
      if env.boxID.None? {
        return Refused(NoBoxID);
      }
      var plain := new byte[|secret.value|](i requires 0 <= i < |secret.value| => secret.value[i]);
      assert plain[..] == secret.value;
      var expiresAt := env.sealAt + boxTTL * SECOND;
      var box := Seal.SealAndZeroize(cfg.scheme, bundle, req.itemID, req.purpose, env.boxID.value, expiresAt, plain,
                                     env.seed);
      r := if box.Some? then Delivered(box.value) else Refused(SealFailed);
    }

    method HandleToolCall(req: Request, env: Env) returns (r: Reply)
      requires Valid()
      modifies this, session, store, registry, vault
      ensures var h := Handle(cfg, old(Now()), req, env);
              Now() == h.state && r == h.reply
    {
      if crashed {
        return Crash;
      }
      if !req.Ping? {
        var gate := session.Touch(env.touchAt, env.unlocks);
        if gate.Refused? {
          return Denied(gate.wrapsExpired);
        }
      }
      match req {
        case Ping => r := Pong;
        case StashTool => r := Done;
        case VaultTool(call) =>
          if !env.vaultConfigured {
            return Refused(VaultNotConfigured);
          }
          var done, _, _ := vault.WithVault(env.world, env.connect, call);
          if done.Panic? {
            crashed := true;
            return Crash;
          }
          r := Done;
        case RequestAuthorization(_, _, _, _) =>
          if !env.vaultConfigured {
            return Refused(VaultNotConfigured);
          }
          r := HandleRequestAuthorization(req, env);
        case VaultSeal(_, _, _, _, _) =>
          if !env.vaultConfigured {
            return Refused(VaultNotConfigured);
          }
          r := HandleVaultSeal(req, env);
      }
    }
  }
}
