/** The registry's cache: loaded on first success, under double-checked locking. */
module RegistryCache {
  import opened Wrappers
  import Reg = Registry

  type Registry = Reg.Registry

  /** What reading and parsing the file gives at some moment. */
  type FileContent = Result<Registry, string>

  function Loaded(cached: Option<Registry>, file: FileContent): Option<Registry> {
    if cached.Some? then cached else if file.Success? then Some(file.value) else None
  }

  function Answer(cached: Option<Registry>, file: FileContent): Result<Registry, string> {
    if cached.Some? then Success(cached.value) else file
  }

  class Cache {
    var cached: Option<Registry>

    constructor ()
      ensures cached == None
    {
      cached := None;
    }

    /** The look under the read lock. */
    method Peek() returns (r: Option<Registry>)
      ensures r == cached
    {
      r := cached;
    }

    /** The section under the write lock looks again before it reads the file. */
    method LoadLocked(file: FileContent) returns (r: Result<Registry, string>)
      modifies this
      ensures old(cached).Some? ==> r == Success(old(cached).value) && cached == old(cached)
      ensures old(cached).None? ==> r == file && cached == if file.Success? then Some(file.value) else None
      ensures cached == Loaded(old(cached), file)
      ensures r == Answer(old(cached), file)
    {
      if cached.Some? {
        return Success(cached.value);
      }
      if file.Failure? {
        return Failure(file.error);
      }
      cached := Some(file.value);
      r := Success(file.value);
    }

    /** One call on its own: `file` is looked at only when nothing is cached, and errors are not kept. */
    method LoadRegistry(file: FileContent) returns (r: Result<Registry, string>)
      modifies this
      ensures old(cached).Some? ==> r == Success(old(cached).value) && cached == old(cached)
      ensures old(cached).None? ==> r == file && cached == if file.Success? then Some(file.value) else None
      ensures cached == Loaded(old(cached), file)
      ensures r == Answer(old(cached), file)
    {
      var hit := Peek();
      if hit.Some? {
        return Success(hit.value);
      }
      r := LoadLocked(file);
    }
  }

  // ---------------------------------------------------------------- any number of callers

  datatype Caller =
    | Idle
    | Reading                              // holds the read lock
    | Missed                               // holds no lock, found nothing
    | Writing                              // holds the write lock, has not looked again
    | Checked                              // holds the write lock, found nothing again
    | Read(file: FileContent)              // holds the write lock, has read the file
    | Leaving(answer: Result<Registry, string>, reader: bool)

  datatype State = State(
    cached: Option<Registry>,
    file: FileContent,
    callers: map<nat, Caller>,
    writes: nat,
    answers: seq<Result<Registry, string>>)

  datatype Action =
    | FileChanges(file: FileContent)
    | ReadLock(t: nat)
    | Look(t: nat)
    | WriteLock(t: nat)
    | LookAgain(t: nat)
    | ReadFile(t: nat)
    | Publish(t: nat)
    | Unlock(t: nat)

  function Start(file: FileContent): State {
    State(None, file, map[], 0, [])
  }

  function CallerOf(s: State, t: nat): Caller {
    if t in s.callers then s.callers[t] else Idle
  }

  function SetCaller(s: State, t: nat, c: Caller): State {
    s.(callers := s.callers[t := c])
  }

  predicate HoldsWrite(c: Caller) { c.Writing? || c.Checked? || c.Read? || (c.Leaving? && !c.reader) }

  predicate HoldsRead(c: Caller) { c.Reading? || (c.Leaving? && c.reader) }

  predicate NoWriter(s: State) { forall t :: t in s.callers ==> !HoldsWrite(s.callers[t]) }

  predicate NoReader(s: State) { forall t :: t in s.callers ==> !HoldsRead(s.callers[t]) }

  /** One step of one caller, or a change of the file; a step that is blocked or out of turn does nothing. */
  function Step(s: State, a: Action): State {
    match a
    case FileChanges(file) => s.(file := file)
    case ReadLock(t) => if CallerOf(s, t).Idle? && NoWriter(s) then SetCaller(s, t, Reading) else s
    case Look(t) =>
      if !CallerOf(s, t).Reading? then s
      else if s.cached.Some? then SetCaller(s, t, Leaving(Success(s.cached.value), true))
      else SetCaller(s, t, Missed)
    case WriteLock(t) =>
      if CallerOf(s, t).Missed? && NoWriter(s) && NoReader(s) then SetCaller(s, t, Writing) else s
    case LookAgain(t) =>
      if !CallerOf(s, t).Writing? then s
      else if s.cached.Some? then SetCaller(s, t, Leaving(Success(s.cached.value), false))
      else SetCaller(s, t, Checked)
    case ReadFile(t) => if CallerOf(s, t).Checked? then SetCaller(s, t, Read(s.file)) else s
    case Publish(t) =>
      (match CallerOf(s, t)
       case Read(Failure(e)) => SetCaller(s, t, Leaving(Failure(e), false))
       case Read(Success(reg)) =>
         SetCaller(s.(cached := Some(reg), writes := s.writes + 1), t, Leaving(Success(reg), false))
       case _ => s)
    case Unlock(t) =>
      (match CallerOf(s, t)
       case Leaving(answer, _) => SetCaller(s.(answers := s.answers + [answer]), t, Idle)
       case _ => s)
  }

  function Run(file: FileContent, actions: seq<Action>): State {
    if actions == [] then Start(file) else Step(Run(file, actions[..|actions| - 1]), actions[|actions| - 1])
  }

  /** The write lock excludes, and whoever holds it past its second look found nothing and nobody has written since. */
  ghost predicate Exclusive(s: State) {
    && (forall t, u :: t in s.callers && u in s.callers && HoldsWrite(s.callers[t]) ==>
          (HoldsWrite(s.callers[u]) ==> t == u) && !HoldsRead(s.callers[u]))
    && (forall t :: t in s.callers && (s.callers[t].Checked? || s.callers[t].Read?) ==> s.cached.None?)
    && (forall t :: t in s.callers && s.callers[t].Leaving? ==>
          match s.callers[t].answer
          case Success(reg) => s.cached == Some(reg)
          case Failure(_) => s.cached.None? && !s.callers[t].reader)
  }

  lemma StepKeepsExclusive(s: State, a: Action)
    requires Exclusive(s)
    ensures Exclusive(Step(s, a))
  {
  }

  lemma {:induction false} RunExclusive(file: FileContent, actions: seq<Action>)
    ensures Exclusive(Run(file, actions))
  {
    if actions != [] {
      RunExclusive(file, actions[..|actions| - 1]);
      StepKeepsExclusive(Run(file, actions[..|actions| - 1]), actions[|actions| - 1]);
    }
  }

  /** Errors first, then the cached registry: what is answered in order of completion. */
  ghost predicate ErrorsThenOne(answers: seq<Result<Registry, string>>, cached: Option<Registry>, errors: nat) {
    && errors <= |answers|
    && (cached.None? ==> errors == |answers|)
    && (forall i :: 0 <= i < errors ==> answers[i].Failure?)
    && (forall i :: errors <= i < |answers| ==> cached.Some? && answers[i] == Success(cached.value))
  }

  /**
   * In every interleaving, with a file that may change or vanish at any time: the cache is written
   * once if ever, calls that complete before that all fail or are still under way, and every call
   * that completes after it answers that one registry. Failures leave nothing behind.
   */
  lemma {:induction false} LoadedOnce(file: FileContent, actions: seq<Action>)
    ensures var s := Run(file, actions);
            && s.writes == (if s.cached.Some? then 1 else 0)
            && exists errors: nat :: ErrorsThenOne(s.answers, s.cached, errors)
  {
    var s := Run(file, actions);
    if actions == [] {
      assert ErrorsThenOne(s.answers, s.cached, 0);
    } else {
      var n := |actions| - 1;
      LoadedOnce(file, actions[..n]);
      RunExclusive(file, actions[..n]);
      var before, a := Run(file, actions[..n]), actions[n];
      var errors: nat :| ErrorsThenOne(before.answers, before.cached, errors);
      if a.Unlock? && CallerOf(before, a.t).Leaving? && CallerOf(before, a.t).answer.Failure? {
        assert ErrorsThenOne(s.answers, s.cached, errors + 1);
      } else {
        assert ErrorsThenOne(s.answers, s.cached, errors);
      }
    }
  }

  /** Once cached, for good: no later action changes the registry. */
  lemma {:induction false} CachedForGood(file: FileContent, actions: seq<Action>, more: seq<Action>)
    requires Run(file, actions).cached.Some?
    ensures Run(file, actions + more).cached == Run(file, actions).cached
  {
    if more == [] {
      assert actions + more == actions;
    } else {
      var n := |more| - 1;
      var all := actions + more;
      assert all[..|all| - 1] == actions + more[..n] && all[|all| - 1] == more[n];
      CachedForGood(file, actions, more[..n]);
      RunExclusive(file, actions + more[..n]);
    }
  }

  function Alone(t: nat): seq<Action> {
    [ReadLock(t), Look(t), WriteLock(t), LookAgain(t), ReadFile(t), Publish(t), Unlock(t)]
  }

  function RunOn(s: State, actions: seq<Action>): State
    decreases |actions|
  {
    if actions == [] then s else RunOn(Step(s, actions[0]), actions[1..])
  }

  lemma SetCallerTwice(s: State, t: nat, c: Caller, d: Caller)
    ensures SetCaller(SetCaller(s, t, c), t, d) == SetCaller(s, t, d)
  {
    assert s.callers[t := c][t := d] == s.callers[t := d];
  }

  lemma UndisturbedLook(s: State, t: nat)
    requires NoWriter(s) && NoReader(s) && CallerOf(s, t).Idle?
    ensures Step(Step(Step(s, ReadLock(t)), Look(t)), WriteLock(t)) ==
            SetCaller(s, t, if s.cached.Some? then Leaving(Success(s.cached.value), true) else Writing)
  {
    var s1 := Step(s, ReadLock(t));
    assert s1 == SetCaller(s, t, Reading);
    var s2 := Step(s1, Look(t));
    SetCallerTwice(s, t, Reading, Missed);
    SetCallerTwice(s, t, Missed, Writing);
    if s.cached.Some? {
      SetCallerTwice(s, t, Reading, Leaving(Success(s.cached.value), true));
    } else {
      assert s2 == SetCaller(s, t, Missed) && NoWriter(s2) && NoReader(s2);
    }
  }

  lemma UndisturbedRest(s: State, t: nat)
    requires CallerOf(s, t) == if s.cached.Some? then Leaving(Success(s.cached.value), true) else Writing
    ensures var r := Step(Step(Step(Step(s, LookAgain(t)), ReadFile(t)), Publish(t)), Unlock(t));
            r.cached == Loaded(s.cached, s.file) && r.answers == s.answers + [Answer(s.cached, s.file)]
  {
    var s4 := Step(s, LookAgain(t));
    var s5 := Step(s4, ReadFile(t));
    var s6 := Step(s5, Publish(t));
    assert CallerOf(s5, t) == if s.cached.Some? then Leaving(Success(s.cached.value), true) else Read(s.file);
    assert s6.answers == s.answers && CallerOf(s6, t).Leaving? && CallerOf(s6, t).answer == Answer(s.cached, s.file);
  }

  lemma RunSeven(s: State, a: Action, b: Action, c: Action, d: Action, e: Action, f: Action, g: Action)
    ensures RunOn(s, [a, b, c, d, e, f, g]) == Step(Step(Step(Step(Step(Step(Step(s, a), b), c), d), e), f), g)
  {
    hide Step;
    var s1 := Step(s, a);
    var s2 := Step(s1, b);
    var s3 := Step(s2, c);
    var s4 := Step(s3, d);
    var s5 := Step(s4, e);
    var s6 := Step(s5, f);
    assert [a, b, c, d, e, f, g][1..] == [b, c, d, e, f, g];
    assert [b, c, d, e, f, g][1..] == [c, d, e, f, g];
    assert RunOn(s, [a, b, c, d, e, f, g]) == RunOn(s2, [c, d, e, f, g]);
    assert [c, d, e, f, g][1..] == [d, e, f, g];
    assert [d, e, f, g][1..] == [e, f, g];
    assert RunOn(s2, [c, d, e, f, g]) == RunOn(s4, [e, f, g]);
    assert [e, f, g][1..] == [f, g];
    assert [f, g][1..] == [g];
    assert RunOn(s4, [e, f, g]) == RunOn(s6, [g]);
    assert [g][1..] == [];
  }

  lemma RunAlone(s: State, t: nat)
    ensures RunOn(s, Alone(t)) ==
            var looked := Step(Step(Step(s, ReadLock(t)), Look(t)), WriteLock(t));
            Step(Step(Step(Step(looked, LookAgain(t)), ReadFile(t)), Publish(t)), Unlock(t))
  {
    hide RunOn, Step;
    RunSeven(s, ReadLock(t), Look(t), WriteLock(t), LookAgain(t), ReadFile(t), Publish(t), Unlock(t));
  }

  /**
   * A call that finds the locks free and runs undisturbed answers what is cached; with nothing
   * cached, and so after every failure, it reads the file, answers what it finds and keeps a success.
   */
  lemma UndisturbedCall(s: State, t: nat)
    requires NoWriter(s) && NoReader(s) && CallerOf(s, t).Idle?
    ensures var r := RunOn(s, Alone(t));
            && r.cached == Loaded(s.cached, s.file) && r.answers == s.answers + [Answer(s.cached, s.file)]
            && (s.cached.Some? ==> r.cached == s.cached && r.answers == s.answers + [Success(s.cached.value)])
            && (s.cached.None? ==>
                  && r.cached == (if s.file.Success? then Some(s.file.value) else None)
                  && r.answers == s.answers + [s.file])
  {
    UndisturbedLook(s, t);
    UndisturbedRest(Step(Step(Step(s, ReadLock(t)), Look(t)), WriteLock(t)), t);
    RunAlone(s, t);
    hide Step, RunOn;
  }
}
