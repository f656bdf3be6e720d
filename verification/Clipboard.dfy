/** Secrets on the clipboard for a while: overlapping windows that each put back what they found. */
module Clipboard {
  import opened Wrappers

  /** What a copy remembers until its time is up. */
  datatype Window = Window(secret: string, prev: string)

  datatype Ending = Restored | UserModified | ContextCanceled

  class Board {
    var content: string

    constructor (content: string)
      ensures this.content == content
    {
      this.content := content;
    }

    /** `canRead` and `canWrite` say whether the platform's calls succeed; a failed write changes nothing. */
    method SetWithAutoClear(supported: bool, secret: string, ttl: int, canRead: bool, canWrite: bool)
      returns (r: Result<Window, string>)
      modifies this
      ensures r.Success? <==> supported && ttl > 0 && canWrite
      ensures r.Success? ==> r.value == Window(secret, if canRead then old(content) else "") && content == secret
      ensures r.Failure? ==> content == old(content)
    {
      if !supported {
        return Failure("not supported on this platform");
      }
      if ttl <= 0 {
        return Failure("ttl must be positive");
      }
      var prev := content;
      if !canRead {
        prev := "";
      }
      if !canWrite {
        return Failure("write");
      }
      content := secret;
      r := Success(Window(secret, prev));
    }

    /** The end of a window: its time is up, unless the caller gave up first. */
    method Expire(w: Window, canceled: bool, canRead: bool, canWrite: bool) returns (r: Ending)
      modifies this
      ensures r == if canceled then ContextCanceled
                   else if canRead && old(content) != w.secret then UserModified
                   else Restored
      ensures content == if r.Restored? && canWrite then w.prev else old(content)
    {
      if canceled {
        return ContextCanceled;
      }
      if !canRead {
        if canWrite {
          content := w.prev;
        }
        return Restored;
      }
      if content != w.secret {
        return UserModified;
      }
      if canWrite {
        content := w.prev;
      }
      r := Restored;
    }
  }

  // ---------------------------------------------------------------- runs, with calls that succeed

  /** The clipboard and the windows still open, oldest first. */
  datatype State = State(board: string, open: seq<Window>)

  datatype Action = Copy(secret: string) | UserWrites(text: string) | Expires(i: nat)

  function Without(open: seq<Window>, i: nat): seq<Window>
    requires i < |open|
  {
    open[..i] + open[i + 1..]
  }

  /** What `Board.Expire` leaves when nothing fails. */
  function PutBack(board: string, w: Window): string {
    if board == w.secret then w.prev else board
  }

  function Step(s: State, a: Action): State {
    match a
    case Copy(secret) => State(secret, s.open + [Window(secret, s.board)])
    case UserWrites(text) => s.(board := text)
    case Expires(i) => if i < |s.open| then State(PutBack(s.board, s.open[i]), Without(s.open, i)) else s
  }

  function Run(board: string, actions: seq<Action>): State {
    if actions == [] then State(board, [])
    else Step(Run(board, actions[..|actions| - 1]), actions[|actions| - 1])
  }

  // ---------------------------------------------------------------- one secret, any order

  ghost predicate OnlySecret(actions: seq<Action>, secret: string) {
    forall i :: 0 <= i < |actions| ==>
      (actions[i].Copy? ==> actions[i].secret == secret) && (actions[i].UserWrites? ==> actions[i].text != secret)
  }

  /** While the secret shows, some open window remembers something else. */
  ghost predicate WillLeave(s: State, secret: string) {
    && (forall i :: 0 <= i < |s.open| ==> s.open[i].secret == secret)
    && (s.board == secret ==> exists i :: 0 <= i < |s.open| && s.open[i].prev != secret)
  }

  lemma StepWillLeave(s: State, a: Action, secret: string)
    requires WillLeave(s, secret) && OnlySecret([a], secret)
    ensures WillLeave(Step(s, a), secret)
  {
    var r := Step(s, a);
    assert [a][0] == a;
    if s.board == secret {
      var k :| 0 <= k < |s.open| && s.open[k].prev != secret;
      match a {
        case Copy(_) => assert r.open[k] == s.open[k];
        case Expires(i) =>
          if i < k < |s.open| {
            assert r.open[k - 1] == s.open[k];
          } else if k < i < |s.open| {
            assert r.open[k] == s.open[k];
          }
        case _ =>
      }
    } else if a.Copy? {
      assert r.open[|s.open|].prev != secret;
    }
  }

  lemma {:induction false} RunWillLeave(board: string, actions: seq<Action>, secret: string)
    requires board != secret && OnlySecret(actions, secret)
    ensures WillLeave(Run(board, actions), secret)
  {
    if actions != [] {
      var n := |actions| - 1;
      RunWillLeave(board, actions[..n], secret);
      StepWillLeave(Run(board, actions[..n]), actions[n], secret);
    }
  }

  /**
   * However many times one secret is copied, whatever else the user writes meanwhile and in
   * whatever order the windows end, the secret is gone once none is open.
   */
  lemma SecretLeaves(board: string, actions: seq<Action>, secret: string)
    requires board != secret && OnlySecret(actions, secret) && Run(board, actions).open == []
    ensures Run(board, actions).board != secret
  {
    RunWillLeave(board, actions, secret);
  }

  // ---------------------------------------------------------------- what the user writes stays

  function EndAll(s: State, ends: seq<nat>): State
    decreases |ends|
  {
    if ends == [] then s else EndAll(Step(s, Expires(ends[0])), ends[1..])
  }

  lemma {:induction false} UserTextStays(s: State, text: string, ends: seq<nat>)
    requires s.board == text && forall i :: 0 <= i < |s.open| ==> s.open[i].secret != text
    ensures EndAll(s, ends).board == text
    decreases |ends|
  {
    if ends != [] {
      UserTextStays(Step(s, Expires(ends[0])), text, ends[1..]);
    }
  }

  // ---------------------------------------------------------------- any secrets, nested or not

  /** What the clipboard would come back to if the windows ended newest first. */
  function Bottom(open: seq<Window>, board: string): string {
    if open == [] then board
    else
      var n := |open| - 1;
      Bottom(open[..n], PutBack(board, open[n]))
  }

  ghost predicate NoUser(actions: seq<Action>) {
    forall i :: 0 <= i < |actions| ==> !actions[i].UserWrites?
  }

  /** Every window that ends is the newest one open. */
  ghost predicate Nested(board: string, actions: seq<Action>) {
    forall i :: 0 <= i < |actions| && actions[i].Expires? ==>
      actions[i].i >= |Run(board, actions[..i]).open| - 1
  }

  lemma NestedPrefix(board: string, actions: seq<Action>)
    requires actions != []
    ensures var n := |actions| - 1;
            Nested(board, actions) <==>
            Nested(board, actions[..n]) && (actions[n].Expires? ==> actions[n].i >= |Run(board, actions[..n]).open| - 1)
  {
    var n := |actions| - 1;
    var init := actions[..n];
    forall i | 0 <= i < n ensures init[..i] == actions[..i] && init[i] == actions[i] {
    }
  }

  lemma NestedStepKeepsBottom(s: State, a: Action)
    requires !a.UserWrites? && (a.Expires? ==> a.i >= |s.open| - 1)
    ensures Bottom(Step(s, a).open, Step(s, a).board) == Bottom(s.open, s.board)
  {
    var r := Step(s, a);
    if a.Copy? {
      assert r.open[..|s.open|] == s.open;
    } else if a.i < |s.open| {
      assert r.open == s.open[..|s.open| - 1];
    }
  }

  lemma {:induction false} NestedKeepsBottom(board: string, actions: seq<Action>)
    requires NoUser(actions) && Nested(board, actions)
    ensures Bottom(Run(board, actions).open, Run(board, actions).board) == board
  {
    if actions != [] {
      var n := |actions| - 1;
      NestedPrefix(board, actions);
      NestedKeepsBottom(board, actions[..n]);
      NestedStepKeepsBottom(Run(board, actions[..n]), actions[n]);
    }
  }

  /** Nested windows over any secrets, repeated ones included, give back the original content. */
  lemma NestedRestores(board: string, actions: seq<Action>)
    requires NoUser(actions) && Nested(board, actions) && Run(board, actions).open == []
    ensures Run(board, actions).board == board
  {
    NestedKeepsBottom(board, actions);
  }

  /** The secrets copied differ from one another and from the original content. */
  ghost predicate Distinct(board: string, actions: seq<Action>) {
    forall i :: 0 <= i < |actions| && actions[i].Copy? ==>
      actions[i].secret != board &&
      forall j :: 0 <= j < i && actions[j].Copy? ==> actions[j].secret != actions[i].secret
  }

  ghost predicate Copied(actions: seq<Action>, text: string) {
    exists i :: 0 <= i < |actions| && actions[i].Copy? && actions[i].secret == text
  }

  /** No window's secret is the original content or was known to an older window. */
  ghost predicate Layered(open: seq<Window>, board: string) {
    && (forall k :: 0 <= k < |open| ==> open[k].secret != board)
    && (forall j, k :: 0 <= j < k < |open| ==> open[k].secret != open[j].secret && open[k].secret != open[j].prev)
  }

  /** Everything in sight was on the clipboard at the start or was copied. */
  ghost predicate Accounted(s: State, board: string, actions: seq<Action>) {
    && (s.board == board || Copied(actions, s.board))
    && (forall k :: 0 <= k < |s.open| ==>
          Copied(actions, s.open[k].secret) && (s.open[k].prev == board || Copied(actions, s.open[k].prev)))
  }

  lemma CopiedPrefix(actions: seq<Action>)
    requires actions != []
    ensures forall text :: Copied(actions[..|actions| - 1], text) ==> Copied(actions, text)
  {
    var init := actions[..|actions| - 1];
    forall text | Copied(init, text) ensures Copied(actions, text) {
      var i :| 0 <= i < |init| && init[i].Copy? && init[i].secret == text;
      assert actions[i] == init[i];
    }
  }

  lemma CopyKeepsLayered(s: State, secret: string, board: string)
    requires Layered(s.open, board) && secret != board && secret != s.board
    requires forall k :: 0 <= k < |s.open| ==> secret != s.open[k].secret && secret != s.open[k].prev
    ensures Layered(Step(s, Copy(secret)).open, board)
  {
  }

  lemma EndKeepsLayered(s: State, i: nat, board: string, actions: seq<Action>)
    requires Layered(s.open, board) && Accounted(s, board, actions)
    ensures Layered(Step(s, Expires(i)).open, board) && Accounted(Step(s, Expires(i)), board, actions)
  {
    hide Copied;
  }

  lemma {:induction false} RunLayered(board: string, actions: seq<Action>)
    requires NoUser(actions) && Distinct(board, actions)
    ensures Layered(Run(board, actions).open, board) && Accounted(Run(board, actions), board, actions)
  {
    if actions != [] {
      var n := |actions| - 1;
      var init, a := actions[..n], actions[n];
      RunLayered(board, init);
      CopiedPrefix(actions);
      var s := Run(board, init);
      assert Run(board, actions) == Step(s, a);
      hide Run;
      assert Accounted(s, board, actions);
      if a.Copy? {
        assert Copied(actions, a.secret) && !Copied(init, a.secret);
        hide Copied, Distinct;
        CopyKeepsLayered(s, a.secret, board);
      } else {
        EndKeepsLayered(s, a.i, board, actions);
      }
    }
  }

  lemma {:induction false} BottomOfStranger(open: seq<Window>, text: string)
    requires forall k :: 0 <= k < |open| ==> open[k].secret != text
    ensures Bottom(open, text) == text
  {
    if open != [] {
      BottomOfStranger(open[..|open| - 1], text);
    }
  }

  lemma WithoutOlder(open: seq<Window>, i: nat)
    requires i < |open| - 1
    ensures var n := |open| - 1; Without(open, i) == Without(open[..n], i) + [open[n]]
    ensures var rest := Without(open[..|open| - 1], i);
            |rest| == |open| - 2 && forall k :: 0 <= k < |rest| ==> rest[k] == open[if k < i then k else k + 1]
  {
    var n := |open| - 1;
    assert open[..n][i + 1..] + [open[n]] == open[i + 1..];
  }

  lemma BottomUnder(open: seq<Window>, last: Window, text: string)
    ensures Bottom(open + [last], text) == Bottom(open, PutBack(text, last))
  {
    assert (open + [last])[..|open|] == open;
  }

  /** A window that ends out of turn can only become the bottom itself. */
  lemma {:induction false} RemovalBottom(open: seq<Window>, text: string, i: nat, board: string)
    requires Layered(open, board) && i < |open|
    ensures var b := Bottom(Without(open, i), PutBack(text, open[i]));
            b == Bottom(open, text) || b == open[i].secret
    decreases |open|
  {
    hide Bottom;
    var n := |open| - 1;
    var init, last := open[..n], open[n];
    assert open == init + [last];
    BottomUnder(init, last, text);
    if i == n {
      assert Without(open, i) == init;
    } else {
      hide Without;
      var put := PutBack(text, open[i]);
      WithoutOlder(open, i);
      BottomUnder(Without(init, i), last, put);
      if text == last.secret && last.prev == open[i].secret {
        BottomOfStranger(Without(init, i), open[i].secret);
      } else {
        RemovalBottom(init, PutBack(text, last), i, board);
      }
    }
  }

  /** Open windows chained from the clipboard down to the original content. */
  ghost predicate Chained(open: seq<Window>, text: string, board: string) {
    if open == [] then text == board
    else text == open[|open| - 1].secret && Chained(open[..|open| - 1], open[|open| - 1].prev, board)
  }

  lemma {:induction false} RunChained(board: string, actions: seq<Action>)
    requires NoUser(actions) && Nested(board, actions)
    ensures Chained(Run(board, actions).open, Run(board, actions).board, board)
  {
    if actions != [] {
      var n := |actions| - 1;
      NestedPrefix(board, actions);
      RunChained(board, actions[..n]);
      var s, r := Run(board, actions[..n]), Run(board, actions);
      if actions[n].Copy? {
        assert r.open[..|s.open|] == s.open;
      } else if actions[n].i < |s.open| {
        assert r.open == s.open[..|s.open| - 1];
      }
    }
  }

  /** In a chain, a window that ends out of turn is stranded: its secret becomes the bottom. */
  lemma {:induction false} ChainBreaks(open: seq<Window>, text: string, i: nat, board: string)
    requires Layered(open, board) && Chained(open, text, board) && i < |open| - 1
    ensures Bottom(Without(open, i), PutBack(text, open[i])) == open[i].secret
    decreases |open|
  {
    hide Bottom, Without;
    var n := |open| - 1;
    var init, last := open[..n], open[n];
    WithoutOlder(open, i);
    BottomUnder(Without(init, i), last, text);
    assert Chained(init, last.prev, board) && text == last.secret && last.prev == init[n - 1].secret;
    if i == n - 1 {
      BottomOfStranger(Without(init, i), open[i].secret);
    } else {
      ChainBreaks(init, last.prev, i, board);
    }
  }

  lemma {:induction false} BottomExactly(board: string, actions: seq<Action>)
    requires NoUser(actions) && Distinct(board, actions)
    ensures Bottom(Run(board, actions).open, Run(board, actions).board) == board <==> Nested(board, actions)
  {
    if actions != [] {
      var n := |actions| - 1;
      var s, a := Run(board, actions[..n]), actions[n];
      NestedPrefix(board, actions);
      BottomExactly(board, actions[..n]);
      if !a.Expires? || a.i >= |s.open| - 1 {
        NestedStepKeepsBottom(s, a);
      } else {
        RunLayered(board, actions[..n]);
        RemovalBottom(s.open, s.board, a.i, board);
        if Nested(board, actions[..n]) {
          RunChained(board, actions[..n]);
          ChainBreaks(s.open, s.board, a.i, board);
        }
      }
    }
  }

  /** With distinct secrets, the original content comes back exactly when the windows are nested. */
  lemma RestoredExactly(board: string, actions: seq<Action>)
    requires NoUser(actions) && Distinct(board, actions) && Run(board, actions).open == []
    ensures Run(board, actions).board == board <==> Nested(board, actions)
  {
    BottomExactly(board, actions);
  }

  /** With distinct secrets, one of them is left on the clipboard exactly when the windows are not nested. */
  lemma LeftBehindExactly(board: string, actions: seq<Action>)
    requires NoUser(actions) && Distinct(board, actions) && Run(board, actions).open == []
    ensures Copied(actions, Run(board, actions).board) <==> !Nested(board, actions)
  {
    hide Run, Nested;
    RestoredExactly(board, actions);
    RunLayered(board, actions);
  }

  lemma RunStep(board: string, actions: seq<Action>, a: Action)
    ensures Run(board, actions + [a]) == Step(Run(board, actions), a)
  {
    assert (actions + [a])[..|actions|] == actions;
  }

  lemma FourSteps(board: string, a: Action, b: Action, c: Action, d: Action)
    ensures Run(board, [a, b, c, d]) == Step(Step(Step(Step(State(board, []), a), b), c), d)
  {
    assert Run(board, []) == State(board, []);
    hide Run, Step;
    assert Run(board, [a]) == Step(State(board, []), a) by {
      RunStep(board, [], a);
      assert [] + [a] == [a];
    }
    assert Run(board, [a, b]) == Step(Run(board, [a]), b) by {
      RunStep(board, [a], b);
      assert [a] + [b] == [a, b];
    }
    assert Run(board, [a, b, c]) == Step(Run(board, [a, b]), c) by {
      RunStep(board, [a, b], c);
      assert [a, b] + [c] == [a, b, c];
    }
    assert Run(board, [a, b, c, d]) == Step(Run(board, [a, b, c]), d) by {
      RunStep(board, [a, b, c], d);
      assert [a, b, c] + [d] == [a, b, c, d];
    }
  }

  /** Two copies, the first window ending first: the first secret ends up on the clipboard for good. */
  lemma CrossedWindows(board: string, a: string, b: string)
    requires a != b
    ensures Run(board, [Copy(a), Copy(b), Expires(0), Expires(0)]) == State(a, [])
  {
    hide Run;
    FourSteps(board, Copy(a), Copy(b), Expires(0), Expires(0));
    var older, newer := Window(a, board), Window(b, a);
    assert [] + [older] == [older] && [older] + [newer] == [older, newer];
    assert Without([older, newer], 0) == [newer] && Without([newer], 0) == [];
  }

  /** Runs are made of the methods of `Board`, with calls that succeed. */
  method Replay(board: Board, a: Action, open: seq<Window>) returns (left: seq<Window>)
    modifies board
    ensures State(board.content, left) == Step(State(old(board.content), open), a)
  {
    left := open;
    match a
    case Copy(secret) =>
      var w := board.SetWithAutoClear(true, secret, 1, true, true);
      left := open + [w.value];
    case UserWrites(text) => board.content := text;
    case Expires(i) =>
      if i < |open| {
        var _ := board.Expire(open[i], false, true, true);
        left := open[..i] + open[i + 1..];
      }
  }
}
