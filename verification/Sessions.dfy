/** The process-wide session that every secret-touching call must pass. Times are nanoseconds. */
module Sessions {

  datatype Phase = New | Active | Expired

  datatype State = State(phase: Phase, unlockedAt: int, lastActivity: int)

  datatype Limits = Limits(idle: int, absolute: int)

  datatype Reply = Granted | Refused(wrapsExpired: bool)

  predicate Overrun(s: State, limits: Limits, now: int) {
    now - s.unlockedAt > limits.absolute || now - s.lastActivity > limits.idle
  }

  /** Whether a touch at `now` goes to the unlock policy. */
  predicate Prompts(s: State, limits: Limits, now: int) {
    s.phase.Active? ==> Overrun(s, limits, now)
  }

  /** `unlocks` is the answer the unlock policy gives if it is asked. */
  function Touched(s: State, limits: Limits, now: int, unlocks: bool): (State, Reply) {
    if !Prompts(s, limits, now) then (s.(lastActivity := now), Granted)
    else if unlocks then (State(Active, now, now), Granted)
    else if s.phase.New? then (s, Refused(false))
    else (s.(phase := Expired), Refused(true))
  }

  class Session {
    var phase: Phase
    var unlockedAt: int
    var lastActivity: int
    const limits: Limits

    function Now(): State
      reads this
    {
      State(phase, unlockedAt, lastActivity)
    }

    constructor (limits: Limits)
      ensures Now() == State(New, 0, 0) && this.limits == limits
    {
      phase, unlockedAt, lastActivity := New, 0, 0;
      this.limits := limits;
    }

    method Touch(now: int, unlocks: bool) returns (r: Reply)
      modifies this
      ensures (Now(), r) == Touched(old(Now()), limits, now, unlocks)
    {
      if phase.Active? {
        if now - unlockedAt > limits.absolute {
          phase := Expired;
        } else if now - lastActivity > limits.idle {
          phase := Expired;
        } else {
          lastActivity := now;
          return Granted;
        }
      }
      var wasExpired := phase.Expired?;
      if !unlocks {
        return Refused(wasExpired);
      }
      phase, unlockedAt, lastActivity := Active, now, now;
      r := Granted;
    }

    method Lock()
      modifies this
      ensures Now() == old(Now()).(phase := Expired)
    {
      phase := Expired;
    }
  }

  // ---------------------------------------------------------------- runs

  datatype Event = Touch(now: int, unlocks: bool) | Lock

  function Apply(s: State, limits: Limits, e: Event): State {
    match e
    case Touch(now, unlocks) => Touched(s, limits, now, unlocks).0
    case Lock => s.(phase := Expired)
  }

  function After(limits: Limits, es: seq<Event>): State {
    if es == [] then State(New, 0, 0) else Apply(After(limits, es[..|es| - 1]), limits, es[|es| - 1])
  }

  predicate IsTouch(es: seq<Event>, i: int) { 0 <= i < |es| && es[i].Touch? }

  predicate PromptsAt(limits: Limits, es: seq<Event>, i: int)
    requires IsTouch(es, i)
  {
    Prompts(After(limits, es[..i]), limits, es[i].now)
  }

  /** The touch at `i` was prompted for and the user unlocked. */
  predicate UnlockAt(limits: Limits, es: seq<Event>, i: int) {
    IsTouch(es, i) && PromptsAt(limits, es, i) && es[i].unlocks
  }

  /** The touch at `i` was granted without a prompt. */
  predicate SilentAt(limits: Limits, es: seq<Event>, i: int) {
    IsTouch(es, i) && !PromptsAt(limits, es, i)
  }

  function ReplyAt(limits: Limits, es: seq<Event>, i: int): Reply
    requires IsTouch(es, i)
  {
    Touched(After(limits, es[..i]), limits, es[i].now, es[i].unlocks).1
  }

  ghost predicate Timely(es: seq<Event>) {
    forall i, j :: 0 <= i < j < |es| && es[i].Touch? && es[j].Touch? ==> es[i].now <= es[j].now
  }

  /** From `j` to `i` there are touches only, none idle too long after the one before, all within the absolute limit. */
  ghost predicate Window(limits: Limits, es: seq<Event>, j: int, i: int) {
    && 0 <= j <= i < |es|
    && (forall k :: j <= k <= i ==> es[k].Touch?)
    && (forall k :: j < k <= i ==> es[k].now - es[k - 1].now <= limits.idle && es[k].now - es[j].now <= limits.absolute)
  }

  lemma PrefixUnlock(limits: Limits, es: seq<Event>, n: nat, i: int)
    requires n <= |es| && i < n
    ensures UnlockAt(limits, es[..n], i) <==> UnlockAt(limits, es, i)
    ensures SilentAt(limits, es[..n], i) <==> SilentAt(limits, es, i)
  {
    if 0 <= i {
      assert es[..n][..i] == es[..i];
    }
  }

  lemma LastStep(limits: Limits, es: seq<Event>, n: nat)
    requires n < |es|
    ensures After(limits, es[..n + 1]) == Apply(After(limits, es[..n]), limits, es[n])
  {
    assert es[..n + 1][..n] == es[..n];
  }

  /** A touch that leaves the session active either unlocked it or found it active and within its limits. */
  lemma LastActive(limits: Limits, es: seq<Event>)
    requires es != [] && After(limits, es).phase.Active?
    ensures var n := |es| - 1;
            var before := After(limits, es[..n]);
            && es[n].Touch?
            && if UnlockAt(limits, es, n) then After(limits, es) == State(Active, es[n].now, es[n].now)
               else
                 && SilentAt(limits, es, n) && before.phase.Active? && !Overrun(before, limits, es[n].now)
                 && After(limits, es) == before.(lastActivity := es[n].now)
  {
  }

  /** An active session has a window behind it, opened by an unlock and silent since. */
  lemma {:induction false} ActiveHasWindow(limits: Limits, es: seq<Event>) returns (j: int)
    requires After(limits, es).phase.Active?
    ensures UnlockAt(limits, es, j) && Window(limits, es, j, |es| - 1)
    ensures forall k :: j < k < |es| ==> SilentAt(limits, es, k)
    ensures After(limits, es) == State(Active, es[j].now, es[|es| - 1].now)
  {
    var n := |es| - 1;
    LastActive(limits, es);
    if UnlockAt(limits, es, n) {
      j := n;
    } else {
      var init := es[..n];
      j := ActiveHasWindow(limits, init);
      hide After, UnlockAt, SilentAt, Touched;
      PrefixUnlock(limits, es, n, j);
      forall k | j < k < n ensures SilentAt(limits, es, k) {
        PrefixUnlock(limits, es, n, k);
        assert SilentAt(limits, init, k);
      }
    }
  }

  /** A window opened by an unlock keeps the session active. */
  lemma {:induction false} WindowKeepsActive(limits: Limits, es: seq<Event>, j: int, n: nat)
    requires j < n <= |es| && UnlockAt(limits, es, j) && Window(limits, es, j, n - 1)
    ensures After(limits, es[..n]) == State(Active, es[j].now, es[n - 1].now)
    decreases n
  {
    LastStep(limits, es, n - 1);
    if n - 1 > j {
      WindowKeepsActive(limits, es, j, n - 1);
    }
  }

  /**
   * A touch is granted without a prompt exactly when, looking back, an unlock opened a window
   * that reaches it: no lock and no over-long pause in between, and the unlock not too old.
   */
  lemma SilentExactly(limits: Limits, es: seq<Event>, i: int)
    requires IsTouch(es, i)
    ensures SilentAt(limits, es, i) <==> exists j :: j < i && UnlockAt(limits, es, j) && Window(limits, es, j, i)
  {
    hide After, UnlockAt, Touched;
    var before := es[..i];
    if SilentAt(limits, es, i) {
      var j := ActiveHasWindow(limits, before);
      PrefixUnlock(limits, es, i, j);
      assert Window(limits, es, j, i);
    }
    if j :| j < i && UnlockAt(limits, es, j) && Window(limits, es, j, i) {
      assert Window(limits, es, j, i - 1);
      WindowKeepsActive(limits, es, j, i);
    }
  }

  /** The unlock at `j` is the last before `i`, and everything since was a silent touch within the limits. */
  ghost predicate Descends(limits: Limits, es: seq<Event>, j: int, i: int) {
    UnlockAt(limits, es, j) && Window(limits, es, j, i) && forall k :: j < k <= i ==> SilentAt(limits, es, k)
  }

  /** Every granted touch descends from a most recent unlock. */
  lemma GrantedHasUnlock(limits: Limits, es: seq<Event>, i: int)
    requires IsTouch(es, i) && ReplyAt(limits, es, i).Granted?
    ensures exists j :: Descends(limits, es, j, i)
  {
    if SilentAt(limits, es, i) {
      var j := ActiveHasWindow(limits, es[..i]);
      PrefixUnlock(limits, es, i, j);
      forall k | j < k <= i ensures SilentAt(limits, es, k) {
        if k < i {
          PrefixUnlock(limits, es, i, k);
          assert SilentAt(limits, es[..i], k);
        }
      }
      assert Descends(limits, es, j, i);
    } else {
      assert Descends(limits, es, i, i);
    }
  }

  lemma {:induction false} NewExactly(limits: Limits, es: seq<Event>)
    ensures After(limits, es).phase.New? <==>
            forall k :: 0 <= k < |es| ==> es[k].Touch? && !UnlockAt(limits, es, k)
  {
    if es != [] {
      var n := |es| - 1;
      NewExactly(limits, es[..n]);
      forall k | 0 <= k < n
        ensures UnlockAt(limits, es[..n], k) <==> UnlockAt(limits, es, k)
        ensures es[..n][k] == es[k]
      {
        PrefixUnlock(limits, es, n, k);
      }
      assert es[..n + 1] == es;
      if After(limits, es[..n]).phase.New? && es[n].Touch? {
        assert UnlockAt(limits, es, n) <==> es[n].unlocks;
      }
    }
  }

  /**
   * A refusal is a prompt the user turned down, and it carries the expiry error exactly when the
   * session had been unlocked or locked before.
   */
  lemma RefusedExactly(limits: Limits, es: seq<Event>, i: int)
    requires IsTouch(es, i)
    ensures ReplyAt(limits, es, i).Refused? <==> !SilentAt(limits, es, i) && !es[i].unlocks
    ensures ReplyAt(limits, es, i).Refused? ==>
              (ReplyAt(limits, es, i).wrapsExpired <==>
               exists k :: 0 <= k < i && (es[k].Lock? || UnlockAt(limits, es, k)))
  {
    NewExactly(limits, es[..i]);
    forall k | 0 <= k < i
      ensures UnlockAt(limits, es[..i], k) <==> UnlockAt(limits, es, k)
      ensures es[..i][k] == es[k]
    {
      PrefixUnlock(limits, es, i, k);
    }
  }

  // ---------------------------------------------------------------- how often the user is asked

  /** The times of the successful unlocks of a run, in order. */
  function Unlocks(limits: Limits, es: seq<Event>): seq<int> {
    if es == [] then []
    else
      var n := |es| - 1;
      var e := es[n];
      Unlocks(limits, es[..n]) +
      (if e.Touch? && Prompts(After(limits, es[..n]), limits, e.now) && e.unlocks then [e.now] else [])
  }

  /** The times of the granted touches of a run, in order. */
  function Grants(limits: Limits, es: seq<Event>): seq<int> {
    if es == [] then []
    else
      var n := |es| - 1;
      var e := es[n];
      Grants(limits, es[..n]) +
      (if e.Touch? && Touched(After(limits, es[..n]), limits, e.now, e.unlocks).1.Granted? then [e.now] else [])
  }

  function Shorter(limits: Limits): int {
    if limits.idle < limits.absolute then limits.idle else limits.absolute
  }

  ghost predicate NoLock(es: seq<Event>) { forall i :: 0 <= i < |es| ==> es[i].Touch? }

  /** After the last unlock the session is active, or more than the shorter limit has gone by. */
  ghost predicate Spaced(limits: Limits, times: seq<int>, s: State, clock: int) {
    && (forall i :: 0 < i < |times| ==> times[i] - times[i - 1] > Shorter(limits))
    && (s.phase.New? <==> times == [])
    && (times != [] ==>
          if s.phase.Active? then s.unlockedAt == times[|times| - 1] && s.unlockedAt <= s.lastActivity <= clock
          else clock - times[|times| - 1] > Shorter(limits))
  }

  function Noted(times: seq<int>, s: State, limits: Limits, now: int, unlocks: bool): seq<int> {
    if Prompts(s, limits, now) && unlocks then times + [now] else times
  }

  lemma TouchKeepsSpaced(limits: Limits, times: seq<int>, s: State, clock: int, now: int, unlocks: bool)
    requires Spaced(limits, times, s, clock) && (times != [] ==> clock <= now)
    ensures Spaced(limits, Noted(times, s, limits, now, unlocks), Touched(s, limits, now, unlocks).0, now)
  {
  }

  lemma NothingSpaced(limits: Limits)
    ensures Spaced(limits, [], State(New, 0, 0), 0)
  {
  }

  lemma {:induction false} RunSpaced(limits: Limits, es: seq<Event>)
    requires Timely(es) && NoLock(es)
    ensures Spaced(limits, Unlocks(limits, es), After(limits, es), if es == [] then 0 else es[|es| - 1].now)
  {
    hide Prompts, Touched, Spaced;
    if es == [] {
      NothingSpaced(limits);
    } else {
      var n := |es| - 1;
      var init, e := es[..n], es[n];
      RunSpaced(limits, init);
      assert n > 0 ==> init[n - 1].now <= e.now;
      var times, s := Unlocks(limits, init), After(limits, init);
      assert Unlocks(limits, es) == Noted(times, s, limits, e.now, e.unlocks);
      assert After(limits, es) == Touched(s, limits, e.now, e.unlocks).0;
      TouchKeepsSpaced(limits, times, s, if n == 0 then 0 else init[n - 1].now, e.now, e.unlocks);
    }
  }

  lemma {:induction false} SpacedSpan(times: seq<int>, step: int)
    requires times != [] && forall i :: 0 < i < |times| ==> times[i] - times[i - 1] > step
    ensures times[|times| - 1] - times[0] >= (|times| - 1) * (step + 1)
  {
    if |times| > 1 {
      var n := |times| - 1;
      SpacedSpan(times[..n], step);
      assert n * (step + 1) == (n - 1) * (step + 1) + (step + 1);
    }
  }

  /** Without locks, `k` unlocks span more than `k - 1` times the shorter limit. */
  lemma UnlocksAreRare(limits: Limits, es: seq<Event>)
    requires Timely(es) && NoLock(es) && |Unlocks(limits, es)| >= 2
    ensures var times := Unlocks(limits, es);
            times[|times| - 1] - times[0] > (|times| - 1) * Shorter(limits)
  {
    RunSpaced(limits, es);
    var times := Unlocks(limits, es);
    SpacedSpan(times, Shorter(limits));
    var k := |times| - 1;
    assert k * (Shorter(limits) + 1) == k * Shorter(limits) + k;
  }

  ghost predicate Busy(limits: Limits, es: seq<Event>) {
    var grants := Grants(limits, es);
    forall i :: 0 < i < |grants| ==> grants[i] - grants[i - 1] <= limits.idle
  }

  /** Where a busy run stands: its unlocks, its grants and its state. */
  ghost predicate Covered(limits: Limits, times: seq<int>, grants: seq<int>, s: State) {
    && (times == [] <==> grants == [])
    && (s.phase.Active? ==> times != [] && s.unlockedAt == times[|times| - 1])
    && (times != [] ==>
          && grants[0] == times[0]
          && times[|times| - 1] - times[0] <= (|times| - 1) * (limits.absolute + limits.idle)
          && grants[|grants| - 1] <= times[|times| - 1] + limits.absolute)
  }

  lemma SilentKeepsCovered(limits: Limits, times: seq<int>, grants: seq<int>, s: State, now: int)
    requires Covered(limits, times, grants, s) && !Prompts(s, limits, now)
    ensures Covered(limits, times, grants + [now], s.(lastActivity := now))
  {
  }

  lemma UnlockKeepsCovered(limits: Limits, times: seq<int>, grants: seq<int>, s: State, now: int)
    requires Covered(limits, times, grants, s) && 0 <= limits.absolute
    requires grants != [] ==> now - grants[|grants| - 1] <= limits.idle
    ensures Covered(limits, times + [now], grants + [now], State(Active, now, now))
  {
    if times != [] {
      var k, span := |times|, limits.absolute + limits.idle;
      assert k * span == (k - 1) * span + span;
    }
  }

  lemma BusyPrefix(limits: Limits, es: seq<Event>)
    requires es != [] && Busy(limits, es)
    ensures Busy(limits, es[..|es| - 1])
  {
    var grants, shorter := Grants(limits, es), Grants(limits, es[..|es| - 1]);
    assert shorter == grants[..|shorter|];
  }

  lemma {:induction false} RunCovered(limits: Limits, es: seq<Event>)
    requires 0 <= limits.absolute && Busy(limits, es)
    ensures Covered(limits, Unlocks(limits, es), Grants(limits, es), After(limits, es))
  {
    if es != [] {
      var n := |es| - 1;
      var init, e := es[..n], es[n];
      BusyPrefix(limits, es);
      RunCovered(limits, init);
      var times, grants, s := Unlocks(limits, init), Grants(limits, init), After(limits, init);
      if SilentAt(limits, es, n) {
        SilentKeepsCovered(limits, times, grants, s, e.now);
        hide Covered;
        assert Grants(limits, es) == grants + [e.now] && Unlocks(limits, es) == times;
      } else if UnlockAt(limits, es, n) {
        assert Grants(limits, es) == grants + [e.now] && Unlocks(limits, es) == times + [e.now];
        assert grants != [] ==> Grants(limits, es)[|grants|] - Grants(limits, es)[|grants| - 1] <= limits.idle;
        hide Covered, Busy, Unlocks, Grants;
        UnlockKeepsCovered(limits, times, grants, s, e.now);
      }
    }
  }

  lemma Distribute(k: int, a: int, b: int)
    ensures k * (a + b) == k * a + k * b && (k + 1) * a == k * a + a
  {
  }

  /** Of a user who never pauses too long, `k` unlocks cover at most `k` absolute limits and `k - 1` idle ones. */
  lemma UnlocksLast(limits: Limits, es: seq<Event>)
    requires 0 <= limits.absolute && Busy(limits, es) && Grants(limits, es) != []
    ensures var times, grants := Unlocks(limits, es), Grants(limits, es);
            grants[|grants| - 1] - grants[0] <= |times| * limits.absolute + (|times| - 1) * limits.idle
  {
    RunCovered(limits, es);
    hide Unlocks, Grants, After, Busy;
    var k := |Unlocks(limits, es)|;
    Distribute(k - 1, limits.absolute, limits.idle);
  }
}
