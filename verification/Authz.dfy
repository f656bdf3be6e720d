/** The in-memory store of single-use authorization tokens. Times are nanoseconds. */
module Authz {
  import opened Wrappers

  type Token = string

  datatype Binding = Binding(itemID: string, consumerID: string, purpose: string)

  datatype Entry = Entry(binding: Binding, expiresAt: int)

  datatype Verdict = Accepted | NotFound | Expired | Mismatch

  type Tokens = map<Token, Entry>

  /** What a sweep at `now` leaves: an entry is still live at its expiry instant. */
  function Swept(tokens: Tokens, now: int): Tokens {
    map t | t in tokens && tokens[t].expiresAt >= now :: tokens[t]
  }

  /** The judgement passed, outside the lock, on what was taken out of the store. */
  function Judge(taken: Option<Entry>, binding: Binding, now: int): Verdict {
    match taken
    case None => NotFound
    case Some(e) =>
      if now > e.expiresAt then Expired
      else if e.binding != binding then Mismatch
      else Accepted
  }

  function Lookup(tokens: Tokens, token: Token): Option<Entry> {
    if token in tokens then Some(tokens[token]) else None
  }

  class Store {
    var tokens: Tokens

    constructor ()
      ensures tokens == map[]
    {
      tokens := map[];
    }

    /** Deletes every entry expired at `now`, in whatever order the map is walked. */
    method Sweep(now: int)
      modifies this
      ensures tokens == Swept(old(tokens), now)
    {
      var todo := tokens.Keys;
      while todo != {}
        invariant todo <= tokens.Keys <= old(tokens).Keys
        invariant forall t :: t in tokens ==> tokens[t] == old(tokens)[t]
        invariant forall t :: t in tokens && t !in todo ==> tokens[t].expiresAt >= now
        invariant forall t :: t in old(tokens) && t !in tokens ==> old(tokens)[t].expiresAt < now
        decreases |todo|
      {
        var t :| t in todo;
        todo := todo - {t};
        if now > tokens[t].expiresAt {
          tokens := tokens - {t};
        }
      }
    }

    /** `token` is what the random source delivers, `None` when it fails; `now` is read before the lock. */
    method Issue(token: Option<Token>, binding: Binding, ttl: int, now: int) returns (r: Option<Token>)
      modifies this
      ensures r == token
      ensures token.None? ==> tokens == old(tokens)
      ensures token.Some? ==> tokens == Swept(old(tokens), now)[token.value := Entry(binding, now + ttl)]
    {
      if token.None? {
        return None;
      }
      Sweep(now);
      tokens := tokens[token.value := Entry(binding, now + ttl)];
      r := token;
    }

    /** The locked half of a consumption: the token goes, whatever the judgement will be. */
    method Take(token: Token) returns (taken: Option<Entry>)
      modifies this
      ensures taken == Lookup(old(tokens), token)
      ensures tokens == old(tokens) - {token}
    {
      taken := None;
      if token in tokens {
        taken := Some(tokens[token]);
        tokens := tokens - {token};
      }
    }

    /** `now` is read after the token has been taken. */
    method Consume(token: Token, binding: Binding, now: int) returns (r: Verdict)
      modifies this
      ensures r == Judge(Lookup(old(tokens), token), binding, now)
      ensures tokens == old(tokens) - {token}
    {
      var taken := Take(token);
      if taken.None? {
        return NotFound;
      }
      if now > taken.value.expiresAt {
        return Expired;
      }
      if taken.value.binding != binding {
        return Mismatch;
      }
      r := Accepted;
    }

    method PurgeExpired(now: int)
      modifies this
      ensures tokens == Swept(old(tokens), now)
    {
      Sweep(now);
    }
  }

  // ---------------------------------------------------------------- runs

  datatype Op =
    | IssueOp(token: Token, binding: Binding, ttl: int, now: int)
    | ConsumeOp(token: Token, binding: Binding, now: int)
    | PurgeOp(now: int)

  /** The store after one call of `Store`'s methods. */
  function Apply(tokens: Tokens, op: Op): Tokens {
    match op
    case IssueOp(token, binding, ttl, now) => Swept(tokens, now)[token := Entry(binding, now + ttl)]
    case ConsumeOp(token, _, _) => tokens - {token}
    case PurgeOp(now) => Swept(tokens, now)
  }

  /** What the events of a process do to the store, in order; some do nothing to it. */
  type History = seq<Option<Op>>

  function After(h: History): Tokens {
    if h == [] then map[]
    else
      var before, last := After(h[..|h| - 1]), h[|h| - 1];
      if last.Some? then Apply(before, last.value) else before
  }

  predicate ConsumesAt(h: History, i: int) {
    0 <= i < |h| && h[i].Some? && h[i].value.ConsumeOp?
  }

  predicate IssuesAt(h: History, i: int) {
    0 <= i < |h| && h[i].Some? && h[i].value.IssueOp?
  }

  /** The verdict of the consumption at position `i` of a history that starts from an empty store. */
  function VerdictAt(h: History, i: int): Verdict
    requires ConsumesAt(h, i)
  {
    Judge(Lookup(After(h[..i]), h[i].value.token), h[i].value.binding, h[i].value.now)
  }

  /** The clock the store reads never goes back. */
  ghost predicate Timely(h: History) {
    forall i, j :: 0 <= i < j < |h| && h[i].Some? && h[j].Some? ==> h[i].value.now <= h[j].value.now
  }

  predicate NamesAt(h: History, i: int, token: Token) {
    0 <= i < |h| && h[i].Some? && !h[i].value.PurgeOp? && h[i].value.token == token
  }

  /** The event at `j` is the last before `i` that names the token, and it issues it. */
  ghost predicate IssuedLast(h: History, j: int, i: int, token: Token) {
    && 0 <= j < i <= |h|
    && IssuesAt(h, j) && h[j].value.token == token
    && forall k :: j < k < i ==> !NamesAt(h, k, token)
  }

  function ExpiryAt(h: History, j: int): int
    requires IssuesAt(h, j)
  {
    h[j].value.now + h[j].value.ttl
  }

  lemma IssuedLastInPrefix(h: History, j: int, i: int, n: int, token: Token)
    requires i <= n <= |h| && 0 <= n
    ensures IssuedLast(h[..n], j, i, token) <==> IssuedLast(h, j, i, token)
  {
    assert forall k :: 0 <= k < i ==> (NamesAt(h[..n], k, token) <==> NamesAt(h, k, token));
  }

  /** Every token held was issued, and the latest event to name it is the one that issued it. */
  lemma {:induction false} HeldWasIssued(h: History, token: Token) returns (j: int)
    requires token in After(h)
    ensures IssuedLast(h, j, |h|, token)
    ensures After(h)[token] == Entry(h[j].value.binding, ExpiryAt(h, j))
  {
    var n := |h| - 1;
    if NamesAt(h, n, token) {
      j := n;
    } else {
      j := HeldWasIssued(h[..n], token);
      IssuedLastInPrefix(h, j, n, n, token);
    }
  }

  lemma OneIssue(h: History, j: int, j': int, i: int, token: Token)
    requires IssuedLast(h, j, i, token) && IssuedLast(h, j', i, token)
    ensures j == j'
  {
    assert NamesAt(h, j, token) && NamesAt(h, j', token);
  }

  /** What was issued and not named since is held as long as no later event reads a clock past its expiry. */
  lemma {:induction false} HeldUntilExpired(h: History, j: int, token: Token)
    requires IssuedLast(h, j, |h|, token)
    requires forall k :: j < k < |h| && h[k].Some? ==> h[k].value.now <= ExpiryAt(h, j)
    ensures token in After(h)
  {
    var n := |h| - 1;
    if j < n {
      var init := h[..n];
      IssuedLastInPrefix(h, j, n, n, token);
      HeldUntilExpired(init, j, token);
      var j' := HeldWasIssued(init, token);
      OneIssue(init, j, j', n, token);
      assert !NamesAt(h, n, token);
    }
  }

  /**
   * The issue at `j` is good for the consumption at `i`: the same binding, in time, and nothing
   * named its token since.
   */
  ghost predicate GoodFor(h: History, j: int, i: int)
    requires ConsumesAt(h, i)
  {
    && IssuedLast(h, j, i, h[i].value.token)
    && h[j].value.binding == h[i].value.binding
    && h[i].value.now <= ExpiryAt(h, j)
  }

  /** An accepted consumption has an issue that is good for it, whatever the clock does. */
  lemma AcceptedWasIssued(h: History, i: int) returns (j: int)
    requires ConsumesAt(h, i) && VerdictAt(h, i).Accepted?
    ensures GoodFor(h, j, i)
  {
    j := HeldWasIssued(h[..i], h[i].value.token);
    IssuedLastInPrefix(h, j, i, i, h[i].value.token);
  }

  /**
   * A consumption is accepted exactly when the last earlier event that names its token issued it
   * for this very binding and the time to live has not run out. No freshness of tokens is
   * assumed, and the sweeps in between do not show.
   */
  lemma AcceptedExactly(h: History, i: int)
    requires Timely(h) && ConsumesAt(h, i)
    ensures VerdictAt(h, i).Accepted? <==> exists j :: GoodFor(h, j, i)
  {
    hide After;
    var before, op := h[..i], h[i].value;
    if VerdictAt(h, i).Accepted? {
      var j := AcceptedWasIssued(h, i);
    }
    if j :| GoodFor(h, j, i) {
      IssuedLastInPrefix(h, j, i, i, op.token);
      HeldUntilExpired(before, j, op.token);
      var j' := HeldWasIssued(before, op.token);
      OneIssue(before, j, j', i, op.token);
    }
  }

  /**
   * What a turned-away consumption is told: of another binding, if the issue is still in time;
   * otherwise that there is no such token, or that it has expired, and that only if it has.
   */
  lemma RejectedExactly(h: History, i: int)
    requires Timely(h) && ConsumesAt(h, i)
    ensures VerdictAt(h, i).Mismatch? <==>
            exists j :: IssuedLast(h, j, i, h[i].value.token) && h[i].value.now <= ExpiryAt(h, j) &&
                        h[j].value.binding != h[i].value.binding
    ensures VerdictAt(h, i).Expired? ==>
            exists j :: IssuedLast(h, j, i, h[i].value.token) && h[i].value.now > ExpiryAt(h, j)
    ensures VerdictAt(h, i).NotFound? || VerdictAt(h, i).Expired? <==>
            forall j :: IssuedLast(h, j, i, h[i].value.token) ==> h[i].value.now > ExpiryAt(h, j)
  {
    hide After;
    var before, op := h[..i], h[i].value;
    if op.token in After(before) {
      var j := HeldWasIssued(before, op.token);
      IssuedLastInPrefix(h, j, i, i, op.token);
      forall j' | IssuedLast(h, j', i, op.token) ensures j' == j {
        OneIssue(h, j, j', i, op.token);
      }
    } else {
      forall j | IssuedLast(h, j, i, op.token) ensures op.now > ExpiryAt(h, j) {
        if op.now <= ExpiryAt(h, j) {
          IssuedLastInPrefix(h, j, i, i, op.token);
          HeldUntilExpired(before, j, op.token);
        }
      }
    }
  }

  /** After an issue with clamped times to live, everything held was issued within the ceiling. */
  lemma HeldIsRecent(h: History, ceiling: int, token: Token) returns (j: int)
    requires 0 <= ceiling && IssuesAt(h, |h| - 1) && token in After(h)
    requires forall i :: IssuesAt(h, i) ==> h[i].value.ttl <= ceiling
    ensures IssuedLast(h, j, |h|, token)
    ensures h[|h| - 1].value.now - ceiling <= h[j].value.now
    ensures Timely(h) ==> h[j].value.now <= h[|h| - 1].value.now
  {
    j := HeldWasIssued(h, token);
    assert h[|h| - 1].value.token == token || After(h)[token].expiresAt >= h[|h| - 1].value.now;
    assert h[|h| - 1].value.token == token ==> NamesAt(h, |h| - 1, token);
  }
}
