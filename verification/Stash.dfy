/** The stash: secrets in the keychain, their names in the index, kept in step by the handlers. */
module Stash {
  import opened Wrappers
  import Idx = Index

  datatype State = State(keys: map<string, string>, entries: seq<Idx.Entry>)

  datatype Reply =
    | NameRequired
    | ClipboardError
    | ClipboardEmpty
    | KeychainError
    | Stored
    | NoSuchSecret
    | Deleted

  /**
   * One handler call with what its surroundings do: `clipboard` is what reading it gives,
   * `keychain` whether the keychain's call goes through, `index` whether the file can be read
   * and written.
   */
  datatype Op =
    | Save(name: string, clipboard: Option<string>, keychain: bool, now: int, index: bool)
    | Delete(name: string, keychain: bool, index: bool)

  predicate ValidKey(key: string) { key != "" && ':' !in key }

  function StashKey(name: string): Idx.Key { Idx.Key(Idx.SOURCE_KEYCHAIN, name) }

  function ReplyTo(s: State, op: Op): Reply {
    if op.name == "" then NameRequired
    else
      match op
      case Save(name, clipboard, keychain, _, _) =>
        if clipboard.None? then ClipboardError
        else if clipboard.value == "" then ClipboardEmpty
        else if !ValidKey(name) || !keychain then KeychainError
        else Stored
      case Delete(name, keychain, _) =>
        if !ValidKey(name) || !keychain then KeychainError
        else if name !in s.keys then NoSuchSecret
        else Deleted
  }

  function Step(s: State, op: Op): State {
    match ReplyTo(s, op)
    case Stored =>
      State(s.keys[op.name := op.clipboard.value],
            if op.index then Idx.AddTo(s.entries, op.name, Idx.SOURCE_KEYCHAIN, op.now) else s.entries)
    case NoSuchSecret =>
      s.(entries := if op.index then Idx.RemoveFrom(s.entries, StashKey(op.name)) else s.entries)
    case Deleted =>
      State(s.keys - {op.name},
            if op.index then Idx.RemoveFrom(s.entries, StashKey(op.name)) else s.entries)
    case _ => s
  }

  class Stash {
    var keys: map<string, string>
    const index: Idx.Index

    ghost function Now(): State
      reads this, index
    {
      State(keys, index.Entries())
    }

    constructor (index: Idx.Index)
      requires index.file.Missing?
      ensures this.index == index && Now() == State(map[], [])
    {
      keys := map[];
      this.index := index;
    }

    method HandleSave(name: string, clipboard: Option<string>, keychain: bool, now: int, indexOk: bool)
      returns (r: Reply)
      modifies this, index
      ensures index.file.Malformed? <==> old(index.file).Malformed?
      ensures var op := Save(name, clipboard, keychain, now, indexOk && !old(index.file).Malformed?);
              r == ReplyTo(old(Now()), op) && Now() == Step(old(Now()), op)
    {
      if name == "" {
        return NameRequired;
      }
      if clipboard.None? {
        return ClipboardError;
      }
      if clipboard.value == "" {
        return ClipboardEmpty;
      }
      if !ValidKey(name) || !keychain {
        return KeychainError;
      }
      keys := keys[name := clipboard.value];
      var _ := index.Add(name, Idx.SOURCE_KEYCHAIN, now, indexOk, indexOk);
      r := Stored;
    }

    method HandleDelete(name: string, keychain: bool, indexOk: bool) returns (r: Reply)
      modifies this, index
      ensures index.file.Malformed? <==> old(index.file).Malformed?
      ensures var op := Delete(name, keychain, indexOk && !old(index.file).Malformed?);
              r == ReplyTo(old(Now()), op) && Now() == Step(old(Now()), op)
    {
      if name == "" {
        return NameRequired;
      }
      if !ValidKey(name) || !keychain {
        return KeychainError;
      }
      if name !in keys {
        var _ := index.Remove(name, Idx.SOURCE_KEYCHAIN, indexOk, indexOk);
        return NoSuchSecret;
      }
      keys := keys - {name};
      var _ := index.Remove(name, Idx.SOURCE_KEYCHAIN, indexOk, indexOk);
      r := Deleted;
    }

    method HandleList(readable: bool) returns (r: Option<seq<Idx.Entry>>)
      ensures r.Some? <==> readable && !index.file.Malformed?
      ensures r.Some? ==> Idx.Sorted(r.value) && multiset(r.value) == multiset(Now().entries)
    {
      r := index.List(readable);
    }
  }

  // ---------------------------------------------------------------- agreement

  function Run(ops: seq<Op>): State {
    if ops == [] then State(map[], []) else Step(Run(ops[..|ops| - 1]), ops[|ops| - 1])
  }

  /** The index tracks the name exactly when the keychain holds it. */
  ghost predicate Agree(s: State, name: string) {
    Idx.Tracked(s.entries, StashKey(name)) <==> name in s.keys
  }

  /** The handler got as far as the index. */
  predicate ReachesIndex(s: State, op: Op) {
    ReplyTo(s, op) in {Stored, NoSuchSecret, Deleted}
  }

  lemma TrackedAfterAdd(es: seq<Idx.Entry>, name: string, now: int, other: string)
    ensures var added := Idx.AddTo(es, name, Idx.SOURCE_KEYCHAIN, now);
            Idx.Tracked(added, StashKey(other)) <==> other == name || Idx.Tracked(es, StashKey(other))
  {
    var added := Idx.AddTo(es, name, Idx.SOURCE_KEYCHAIN, now);
    if added != es {
      assert Idx.KeyOf(added[|es|]) == StashKey(name);
      if i :| 0 <= i < |es| && Idx.KeyOf(es[i]) == StashKey(other) {
        assert Idx.KeyOf(added[i]) == StashKey(other);
      }
      if i :| 0 <= i < |added| && Idx.KeyOf(added[i]) == StashKey(other) {
        assert i < |es| ==> Idx.KeyOf(es[i]) == StashKey(other);
      }
    }
  }

  lemma TrackedAfterRemove(es: seq<Idx.Entry>, name: string, other: string)
    ensures var left := Idx.RemoveFrom(es, StashKey(name));
            Idx.Tracked(left, StashKey(other)) <==> other != name && Idx.Tracked(es, StashKey(other))
  {
    var left := Idx.RemoveFrom(es, StashKey(name));
    Idx.RemoveExactly(es, StashKey(name));
    if i :| 0 <= i < |left| && Idx.KeyOf(left[i]) == StashKey(other) {
      assert left[i] in left;
      var j :| 0 <= j < |es| && es[j] == left[i];
    }
    if i :| 0 <= i < |es| && Idx.KeyOf(es[i]) == StashKey(other) && other != name {
      assert es[i] in left;
      var j :| 0 <= j < |left| && left[j] == es[i];
    }
  }

  /** A call that reaches a working index restores agreement on its name, whatever went before. */
  lemma Repairs(s: State, op: Op)
    requires ReachesIndex(s, op) && op.index
    ensures Agree(Step(s, op), op.name)
  {
    if op.Save? {
      TrackedAfterAdd(s.entries, op.name, op.now, op.name);
    } else {
      TrackedAfterRemove(s.entries, op.name, op.name);
    }
  }

  /** A call leaves agreement on every other name as it was, and on its own when it does not reach the index. */
  lemma LeavesAlone(s: State, op: Op, name: string)
    requires name != op.name || !ReachesIndex(s, op)
    ensures Agree(Step(s, op), name) <==> Agree(s, name)
  {
    if op.Save? {
      TrackedAfterAdd(s.entries, op.name, op.now, name);
    } else {
      TrackedAfterRemove(s.entries, op.name, name);
    }
  }

  /** The last call that reached the index for this name found it failing. */
  ghost predicate LastIndexCallFailed(ops: seq<Op>, name: string, i: int) {
    && 0 <= i < |ops|
    && ops[i].name == name && ReachesIndex(Run(ops[..i]), ops[i]) && !ops[i].index
    && forall k :: i < k < |ops| && ops[k].name == name ==> !ReachesIndex(Run(ops[..k]), ops[k])
  }

  /** Drift is confined: only a name whose last index call failed can be out of step. */
  lemma {:induction false} DriftIsConfined(ops: seq<Op>, name: string)
    requires !Agree(Run(ops), name)
    ensures exists i :: LastIndexCallFailed(ops, name, i)
  {
    if ops != [] {
      var n := |ops| - 1;
      var init, op := ops[..n], ops[n];
      var s := Run(init);
      if op.name == name && ReachesIndex(s, op) {
        if op.index {
          Repairs(s, op);
        }
        assert LastIndexCallFailed(ops, name, n);
      } else {
        LeavesAlone(s, op, name);
        DriftIsConfined(init, name);
        var i :| LastIndexCallFailed(init, name, i);
        assert init[..i] == ops[..i];
        forall k | i < k < |ops| && ops[k].name == name ensures !ReachesIndex(Run(ops[..k]), ops[k]) {
          if k < n {
            assert init[..k] == ops[..k] && init[k] == ops[k];
          }
        }
        assert LastIndexCallFailed(ops, name, i);
      }
    }
  }

  /** While the index works, the names it tracks for the keychain are the keychain's names. */
  lemma InStepWhileIndexWorks(ops: seq<Op>)
    requires forall i :: 0 <= i < |ops| ==> ops[i].index
    ensures forall name :: Agree(Run(ops), name)
  {
    forall name ensures Agree(Run(ops), name) {
      if !Agree(Run(ops), name) {
        DriftIsConfined(ops, name);
      }
    }
  }

  // ---------------------------------------------------------------- what is stored

  /** A save that is stored: a name without a colon, a clipboard with something on it, a keychain that works. */
  predicate Stores(op: Op) {
    && op.Save? && op.name != "" && ':' !in op.name
    && op.clipboard.Some? && op.clipboard.value != ""
    && op.keychain
  }

  /** A delete that gets to look for its name in the keychain. */
  predicate Clears(op: Op) {
    op.Delete? && op.name != "" && ':' !in op.name && op.keychain
  }

  /** What each call answers, by what it was given and met. */
  lemma RepliesExactly(s: State, op: Op)
    ensures ReplyTo(s, op).Stored? <==> Stores(op)
    ensures ReplyTo(s, op).Deleted? <==> Clears(op) && op.name in s.keys
    ensures ReplyTo(s, op).NoSuchSecret? <==> Clears(op) && op.name !in s.keys
    ensures ReplyTo(s, op).NameRequired? <==> op.name == ""
    ensures ReplyTo(s, op).ClipboardError? <==> op.Save? && op.name != "" && op.clipboard.None?
    ensures ReplyTo(s, op).ClipboardEmpty? <==> op.Save? && op.name != "" && op.clipboard == Some("")
  {
  }

  /** The last call that stored the name, or cleared it, is the one at `i`. */
  ghost predicate LastFor(ops: seq<Op>, i: int, name: string) {
    && 0 <= i < |ops| && ops[i].name == name && (Stores(ops[i]) || Clears(ops[i]))
    && forall k :: i < k < |ops| && ops[k].name == name ==> !Stores(ops[k]) && !Clears(ops[k])
  }

  lemma {:induction false} KeysFollow(ops: seq<Op>, name: string)
    ensures name in Run(ops).keys ==> exists i :: LastFor(ops, i, name) && Stores(ops[i])
    ensures forall i :: LastFor(ops, i, name) && Stores(ops[i]) ==>
              name in Run(ops).keys && Run(ops).keys[name] == ops[i].clipboard.value
  {
    if ops != [] {
      var n := |ops| - 1;
      var init, op := ops[..n], ops[n];
      KeysFollow(init, name);
      RepliesExactly(Run(init), op);
      if op.name == name && (Stores(op) || Clears(op)) {
        assert Stores(op) ==> LastFor(ops, n, name);
      } else {
        forall i | 0 <= i < n ensures LastFor(ops, i, name) <==> LastFor(init, i, name) {
        }
        forall i | LastFor(ops, i, name) ensures i < n {
        }
      }
    }
  }

  /**
   * The keychain holds a name exactly when the last call that stored or cleared it stored it, and
   * then what was on the clipboard at that call.
   */
  lemma KeychainHolds(ops: seq<Op>, name: string, secret: string)
    ensures name in Run(ops).keys && Run(ops).keys[name] == secret <==>
            exists i :: LastFor(ops, i, name) && Stores(ops[i]) && ops[i].clipboard.value == secret
  {
    hide Run, LastFor;
    KeysFollow(ops, name);
  }

  /** What the handlers do to the index, in order. */
  function IndexOps(ops: seq<Op>): seq<Idx.Op> {
    if ops == [] then []
    else
      var before, op := IndexOps(ops[..|ops| - 1]), ops[|ops| - 1];
      before +
      if Stores(op) then [Idx.AddOp(op.name, Idx.SOURCE_KEYCHAIN, op.now, op.index)]
      else if Clears(op) then [Idx.RemoveOp(op.name, Idx.SOURCE_KEYCHAIN, op.index)]
      else []
  }

  /** So the index of a run is a run of the index, with the time of every save that was stored. */
  lemma {:induction false} EntriesFollow(ops: seq<Op>)
    ensures Run(ops).entries == Idx.Run(IndexOps(ops))
  {
    if ops != [] {
      var n := |ops| - 1;
      var init, op := ops[..n], ops[n];
      EntriesFollow(init);
      RepliesExactly(Run(init), op);
      var before := IndexOps(init);
      assert IndexOps(ops) == before || IndexOps(ops)[..|before|] == before;
    }
  }
}
