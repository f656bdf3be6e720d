/** The index file: which secret names are tracked, and since when. */
module Index {
  import opened Sequences
  import opened Wrappers

  const SOURCE_KEYCHAIN: string := "keychain"

  datatype Entry = Entry(name: string, source: string, createdAt: int)

  /** The file on disk. */
  datatype File = Missing | Malformed | Present(entries: seq<Entry>)

  datatype Key = Key(source: string, name: string)

  function KeyOf(e: Entry): Key { Key(e.source, e.name) }

  predicate Tracked(es: seq<Entry>, k: Key) {
    exists i :: 0 <= i < |es| && KeyOf(es[i]) == k
  }

  function AddTo(es: seq<Entry>, name: string, source: string, now: int): seq<Entry> {
    if Tracked(es, Key(source, name)) then es else es + [Entry(name, source, now)]
  }

  function RemoveFrom(es: seq<Entry>, k: Key): seq<Entry> {
    if es == [] then []
    else
      var n := |es| - 1;
      RemoveFrom(es[..n], k) + if KeyOf(es[n]) == k then [] else [es[n]]
  }

  // ---------------------------------------------------------------- order

  predicate TextLess(a: string, b: string) {
    b != "" && (a == "" || a[0] < b[0] || (a[0] == b[0] && TextLess(a[1..], b[1..])))
  }

  predicate Less(a: Key, b: Key) {
    if a.source != b.source then TextLess(a.source, b.source) else TextLess(a.name, b.name)
  }

  lemma {:induction false} TextOrder(a: string, b: string)
    ensures !(TextLess(a, b) && TextLess(b, a))
    ensures a == b <==> !TextLess(a, b) && !TextLess(b, a)
  {
    if a != "" && b != "" {
      TextOrder(a[1..], b[1..]);
      assert a == [a[0]] + a[1..] && b == [b[0]] + b[1..];
    }
  }

  lemma {:induction false} TextTransitive(a: string, b: string, c: string)
    requires TextLess(a, b) && TextLess(b, c)
    ensures TextLess(a, c)
  {
    if a != "" && a[0] == b[0] == c[0] {
      TextTransitive(a[1..], b[1..], c[1..]);
    }
  }

  /** One text comes before another if, behind what they share, it ends or goes on with the smaller character. */
  lemma {:induction false} TextLessExactly(a: string, b: string)
    ensures TextLess(a, b) <==>
            exists n: nat :: n <= |a| && n < |b| && a[..n] == b[..n] && (n == |a| || a[n] < b[n])
  {
    if a != "" && b != "" && a[0] == b[0] {
      TextLessExactly(a[1..], b[1..]);
      if TextLess(a[1..], b[1..]) {
        var c, d := a[1..], b[1..];
        var n: nat :| n <= |c| && n < |d| && c[..n] == d[..n] && (n == |c| || c[n] < d[n]);
        assert a[..n + 1] == [a[0]] + a[1..][..n] && b[..n + 1] == [b[0]] + b[1..][..n];
      }
      if n: nat :| n <= |a| && n < |b| && a[..n] == b[..n] && (n == |a| || a[n] < b[n]) {
        assert n > 0 && a[1..][..n - 1] == a[..n][1..] && b[1..][..n - 1] == b[..n][1..];
      }
    } else {
      assert a[..0] == b[..0];
      forall n: nat | 0 < n <= |a| && n < |b| ensures a[..n] != b[..n] {
        assert a[..n][0] == a[0] && b[..n][0] == b[0];
      }
    }
  }

  /** Entries are listed by source, and by name within a source. */
  lemma LessExactly(a: Key, b: Key)
    ensures Less(a, b) <==> TextLess(a.source, b.source) || (a.source == b.source && TextLess(a.name, b.name))
  {
    TextOrder(a.source, b.source);
  }

  lemma KeyOrder(a: Key, b: Key)
    ensures !(Less(a, b) && Less(b, a))
    ensures a == b <==> !Less(a, b) && !Less(b, a)
  {
    TextOrder(a.source, b.source);
    TextOrder(a.name, b.name);
  }

  lemma KeyTransitive(a: Key, b: Key, c: Key)
    requires Less(a, b) && Less(b, c)
    ensures Less(a, c)
  {
    if a.source == b.source == c.source {
      TextTransitive(a.name, b.name, c.name);
    } else if a.source != b.source && b.source != c.source {
      TextTransitive(a.source, b.source, c.source);
      TextOrder(a.source, b.source);
    }
  }

  /** No later entry comes before an earlier one. */
  ghost predicate Sorted(es: seq<Entry>) {
    forall i, j :: 0 <= i < j < |es| ==> !Less(KeyOf(es[j]), KeyOf(es[i]))
  }

  ghost predicate StrictlySorted(es: seq<Entry>) {
    forall i, j :: 0 <= i < j < |es| ==> Less(KeyOf(es[i]), KeyOf(es[j]))
  }

  /** Where `e` goes in a sorted list: behind every entry that does not come after it. */
  function Place(es: seq<Entry>, e: Entry): seq<Entry> {
    if es == [] || !Less(KeyOf(e), KeyOf(es[|es| - 1])) then es + [e]
    else Place(es[..|es| - 1], e) + [es[|es| - 1]]
  }

  lemma {:induction false} PlaceContents(es: seq<Entry>, e: Entry)
    ensures multiset(Place(es, e)) == multiset(es) + multiset{e}
  {
    if es != [] && Less(KeyOf(e), KeyOf(es[|es| - 1])) {
      PlaceContents(es[..|es| - 1], e);
      assert es == es[..|es| - 1] + [es[|es| - 1]];
    }
  }

  lemma NotAfterLast(es: seq<Entry>, e: Entry, i: nat)
    requires Sorted(es) && i < |es| && Less(KeyOf(e), KeyOf(es[i]))
    ensures Less(KeyOf(e), KeyOf(es[|es| - 1]))
  {
    var a, b := KeyOf(es[i]), KeyOf(es[|es| - 1]);
    KeyOrder(a, b);
    if a != b {
      assert i < |es| - 1;
      KeyTransitive(KeyOf(e), a, b);
    }
  }

  lemma {:induction false} PlaceSorted(es: seq<Entry>, e: Entry)
    requires Sorted(es)
    ensures Sorted(Place(es, e))
  {
    hide Less, KeyOf;
    if es != [] && Less(KeyOf(e), KeyOf(es[|es| - 1])) {
      var n := |es| - 1;
      var init, last := es[..n], es[n];
      PlaceSorted(init, e);
      var p := Place(init, e);
      forall i | 0 <= i < |p| ensures !Less(KeyOf(last), KeyOf(p[i])) {
        KeyOrder(KeyOf(e), KeyOf(last));
        PlaceContents(init, e);
        assert p[i] in multiset(p);
        assert p[i] == e || p[i] in init;
      }
    } else {
      forall i | 0 <= i < |es| ensures !Less(KeyOf(e), KeyOf(es[i])) {
        if Less(KeyOf(e), KeyOf(es[i])) {
          NotAfterLast(es, e, i);
        }
      }
    }
  }

  // ---------------------------------------------------------------- the file and its methods

  /**
   * The filter writes what it keeps over the front of the very buffer it reads from. Returns how
   * much it kept.
   */
  method FilterInPlace(a: array<Entry>, k: Key) returns (kept: nat)
    modifies a
    ensures kept <= a.Length && a[..kept] == RemoveFrom(old(a[..]), k)
  {
    ghost var was := a[..];
    kept := 0;
    for i := 0 to a.Length
      invariant kept <= i
      invariant a[..kept] == RemoveFrom(was[..i], k)
      invariant a[i..] == was[i..]
    {
      var e := a[i];
      assert e == was[i] && was[..i + 1][..i] == was[..i] && was[..i + 1][i] == e;
      ghost var rest := a[i + 1..];
      assert rest == was[i + 1..];
      assert KeyOf(e) == k <==> e.name == k.name && e.source == k.source;
      if e.name == k.name && e.source == k.source {
        continue;
      }
      a[kept] := e;
      assert a[..kept + 1] == a[..kept] + [e] && a[i + 1..] == rest;
      kept := kept + 1;
    }
    assert was[..a.Length] == was;
  }

  class Index {
    var file: File

    constructor (file: File)
      ensures this.file == file
    {
      this.file := file;
    }

    function Entries(): seq<Entry>
      reads this
    {
      if file.Present? then file.entries else []
    }

    method Load(readable: bool) returns (r: Option<seq<Entry>>)
      ensures r == if readable && !file.Malformed? then Some(Entries()) else None
    {
      if !readable {
        return None;
      }
      match file
      case Missing => r := Some([]);
      case Malformed => r := None;
      case Present(es) => r := Some(es);
    }

    /** Written next to the file and renamed: it is replaced whole or not at all. */
    method Save(es: seq<Entry>, writable: bool) returns (ok: bool)
      modifies this
      ensures ok == writable
      ensures file == if writable then Present(es) else old(file)
    {
      if writable {
        file := Present(es);
      }
      ok := writable;
    }

    method Add(name: string, source: string, now: int, readable: bool, writable: bool) returns (ok: bool)
      modifies this
      ensures ok <==> readable && !old(file).Malformed? && (writable || Tracked(old(Entries()), Key(source, name)))
      ensures Entries() == if ok then AddTo(old(Entries()), name, source, now) else old(Entries())
      ensures !ok ==> file == old(file)
      ensures file.Malformed? <==> old(file).Malformed?
    {
      var loaded := Load(readable);
      if loaded.None? {
        return false;
      }
      var es := loaded.value;
      for i := 0 to |es|
        invariant forall k :: 0 <= k < i ==> KeyOf(es[k]) != Key(source, name)
      {
        if es[i].name == name && es[i].source == source {
          assert KeyOf(es[i]) == Key(source, name);
          return true;
        }
      }
      ok := Save(es + [Entry(name, source, now)], writable);
    }

    method Remove(name: string, source: string, readable: bool, writable: bool) returns (ok: bool)
      modifies this
      ensures ok <==> readable && !old(file).Malformed? && writable
      ensures Entries() == if ok then RemoveFrom(old(Entries()), Key(source, name)) else old(Entries())
      ensures !ok ==> file == old(file)
      ensures file.Malformed? <==> old(file).Malformed?
    {
      var loaded := Load(readable);
      if loaded.None? {
        return false;
      }
      var es := loaded.value;
      var buffer := new Entry[|es|](i requires 0 <= i < |es| => es[i]);
      assert buffer[..] == es;
      var kept := FilterInPlace(buffer, Key(source, name));
      ok := Save(buffer[..kept], writable);
    }

    /** The entries in order. The library's sort is unstable; this one stands for any that sorts. */
    method List(readable: bool) returns (r: Option<seq<Entry>>)
      ensures r.Some? <==> readable && !file.Malformed?
      ensures r.Some? ==> Sorted(r.value) && multiset(r.value) == multiset(Entries())
    {
      var loaded := Load(readable);
      if loaded.None? {
        return None;
      }
      var es, out := loaded.value, [];
      for i := 0 to |es|
        invariant Sorted(out) && multiset(out) == multiset(es[..i])
      {
        PlaceSorted(out, es[i]);
        PlaceContents(out, es[i]);
        out := Place(out, es[i]);
        assert es[..i + 1] == es[..i] + [es[i]];
      }
      assert es[..|es|] == es;
      r := Some(out);
    }
  }

  // ---------------------------------------------------------------- the index is a map

  datatype Op =
    | AddOp(name: string, source: string, now: int, ok: bool)
    | RemoveOp(name: string, source: string, ok: bool)

  /** The file's entries after a run from no file; `ok` says whether the call succeeded. */
  function Run(ops: seq<Op>): seq<Entry> {
    if ops == [] then []
    else
      var es, op := Run(ops[..|ops| - 1]), ops[|ops| - 1];
      if !op.ok then es
      else if op.AddOp? then AddTo(es, op.name, op.source, op.now)
      else RemoveFrom(es, Key(op.source, op.name))
  }

  /** The same run over a map from names to the times they were first tracked. */
  function MapRun(ops: seq<Op>): map<Key, int> {
    if ops == [] then map[]
    else
      var m, op := MapRun(ops[..|ops| - 1]), ops[|ops| - 1];
      if !op.ok then m
      else if op.RemoveOp? then m - {Key(op.source, op.name)}
      else if Key(op.source, op.name) in m then m
      else m[Key(op.source, op.name) := op.now]
  }

  ghost predicate UniqueKeys(es: seq<Entry>) {
    forall i, j :: 0 <= i < j < |es| ==> KeyOf(es[i]) != KeyOf(es[j])
  }

  /** The list holds exactly the pairs of the map. */
  ghost predicate Represents(es: seq<Entry>, m: map<Key, int>) {
    && (forall e :: e in es ==> KeyOf(e) in m && m[KeyOf(e)] == e.createdAt)
    && (forall k :: k in m ==> Entry(k.name, k.source, m[k]) in es)
  }

  ghost predicate AddsAt(ops: seq<Op>, i: int, k: Key) {
    0 <= i < |ops| && ops[i].ok && ops[i].AddOp? && Key(ops[i].source, ops[i].name) == k
  }

  ghost predicate RemovesAt(ops: seq<Op>, i: int, k: Key) {
    0 <= i < |ops| && ops[i].ok && ops[i].RemoveOp? && Key(ops[i].source, ops[i].name) == k
  }

  ghost predicate RemovedBetween(ops: seq<Op>, i: int, j: int, k: Key) {
    exists r :: i < r < j && RemovesAt(ops, r, k)
  }

  /** The add at `j` is the first of its key since the last removal. */
  ghost predicate TrackedSince(ops: seq<Op>, j: int, k: Key) {
    && AddsAt(ops, j, k) && !RemovedBetween(ops, j, |ops|, k)
    && forall i :: 0 <= i < j && AddsAt(ops, i, k) ==> RemovedBetween(ops, i, j, k)
  }

  /** Removal takes away exactly the entries of that key. */
  lemma {:induction false} RemoveExactly(es: seq<Entry>, k: Key)
    ensures forall e :: e in RemoveFrom(es, k) <==> e in es && KeyOf(e) != k
  {
    if es != [] {
      var n := |es| - 1;
      RemoveExactly(es[..n], k);
      assert es == es[..n] + [es[n]];
    }
  }

  /** Removal keeps the order of what it keeps. */
  lemma {:induction false} RemoveKeepsOrder(es: seq<Entry>, k: Key)
    ensures IsSubsequence(RemoveFrom(es, k), es)
  {
    if es != [] {
      var n := |es| - 1;
      RemoveKeepsOrder(es[..n], k);
      var r := RemoveFrom(es, k);
      if KeyOf(es[n]) != k {
        assert r[..|r| - 1] == RemoveFrom(es[..n], k);
      } else {
        assert r == RemoveFrom(es[..n], k);
      }
    }
  }

  lemma {:induction false} RemoveKeepsUnique(es: seq<Entry>, k: Key)
    requires UniqueKeys(es)
    ensures UniqueKeys(RemoveFrom(es, k))
  {
    if es != [] {
      var n := |es| - 1;
      RemoveKeepsUnique(es[..n], k);
      var r := RemoveFrom(es[..n], k);
      forall i | 0 <= i < |r| ensures KeyOf(r[i]) != KeyOf(es[n]) {
        RemoveExactly(es[..n], k);
        assert r[i] in es[..n];
      }
    }
  }

  lemma TrackedIsKey(es: seq<Entry>, m: map<Key, int>, k: Key)
    requires Represents(es, m)
    ensures Tracked(es, k) <==> k in m
  {
    if k in m {
      assert Entry(k.name, k.source, m[k]) in es;
    }
    if i :| 0 <= i < |es| && KeyOf(es[i]) == k {
      assert es[i] in es;
    }
  }

  lemma RemovedInPrefix(ops: seq<Op>, i: int, j: int, n: nat, k: Key)
    requires j <= n <= |ops| && -1 <= i
    ensures RemovedBetween(ops[..n], i, j, k) <==> RemovedBetween(ops, i, j, k)
  {
    forall r | i < r < j ensures RemovesAt(ops[..n], r, k) <==> RemovesAt(ops, r, k) {
    }
    if RemovedBetween(ops, i, j, k) {
      var r :| i < r < j && RemovesAt(ops, r, k);
      assert RemovesAt(ops[..n], r, k);
    }
  }

  /** Where a key was added and not removed since, it has been tracked since some add. */
  lemma {:induction false} FirstAdd(ops: seq<Op>, i: int, k: Key) returns (j: int)
    requires AddsAt(ops, i, k) && !RemovedBetween(ops, i, |ops|, k)
    ensures TrackedSince(ops, j, k)
    decreases i
  {
    if h :| 0 <= h < i && AddsAt(ops, h, k) && !RemovedBetween(ops, h, i, k) {
      forall r | h < r < |ops| ensures !RemovesAt(ops, r, k) {
        if r > i {
          assert !RemovedBetween(ops, i, |ops|, k);
        }
      }
      j := FirstAdd(ops, h, k);
    } else {
      j := i;
    }
  }

  /** What the last operation does to being tracked since an earlier add. */
  lemma TrackedInPrefix(ops: seq<Op>, j: int, k: Key)
    requires ops != [] && j < |ops| - 1
    ensures TrackedSince(ops, j, k) <==> TrackedSince(ops[..|ops| - 1], j, k) && !RemovesAt(ops, |ops| - 1, k)
  {
    var n := |ops| - 1;
    var init := ops[..n];
    if 0 <= j {
      assert AddsAt(init, j, k) <==> AddsAt(ops, j, k);
      RemovedInPrefix(ops, j, n, n, k);
      assert RemovedBetween(ops, j, n + 1, k) <==> RemovedBetween(ops, j, n, k) || RemovesAt(ops, n, k);
      forall i | 0 <= i < j ensures AddsAt(init, i, k) <==> AddsAt(ops, i, k) {
      }
      forall i | 0 <= i < j ensures RemovedBetween(init, i, j, k) <==> RemovedBetween(ops, i, j, k) {
        RemovedInPrefix(ops, i, j, n, k);
      }
    }
  }

  lemma AddedEntries(es: seq<Entry>, name: string, source: string, now: int, e: Entry)
    ensures e in AddTo(es, name, source, now) <==>
            e in es || (e == Entry(name, source, now) && !Tracked(es, Key(source, name)))
  {
  }

  lemma AddIsFirst(ops: seq<Op>, k: Key)
    requires ops != [] && AddsAt(ops, |ops| - 1, k)
    ensures TrackedSince(ops, |ops| - 1, k) <==> (var init := ops[..|ops| - 1]; !exists j :: TrackedSince(init, j, k))
  {
    var n := |ops| - 1;
    var init := ops[..n];
    if j :| TrackedSince(init, j, k) {
      RemovedInPrefix(ops, j, n, n, k);
      assert AddsAt(ops, j, k) && !RemovedBetween(ops, j, n, k);
    }
    if i :| 0 <= i < n && AddsAt(ops, i, k) && !RemovedBetween(ops, i, n, k) {
      RemovedInPrefix(ops, i, n, n, k);
      assert AddsAt(init, i, k);
      var j := FirstAdd(init, i, k);
    }
    assert !RemovedBetween(ops, n, n + 1, k);
  }

  lemma NothingTracked(k: Key)
    ensures forall j :: !TrackedSince([], j, k)
  {
  }

  lemma TrackedIsAdded(ops: seq<Op>, j: int, k: Key)
    ensures TrackedSince(ops, j, k) ==> AddsAt(ops, j, k)
  {
  }

  /** An entry is in the file exactly when its key was added, at its time, first since the last removal. */
  lemma {:induction false} KeepsFirstTime(ops: seq<Op>, e: Entry)
    ensures e in Run(ops) <==> exists j :: TrackedSince(ops, j, KeyOf(e)) && ops[j].now == e.createdAt
    decreases |ops|, 0
  {
    hide TrackedSince, AddTo, RemoveFrom;
    var k := KeyOf(e);
    if ops == [] {
      NothingTracked(k);
    } else {
      var n := |ops| - 1;
      var init, op := ops[..n], ops[n];
      KeepsFirstTime(init, e);
      forall j | j < n ensures TrackedSince(ops, j, k) <==> TrackedSince(init, j, k) && !RemovesAt(ops, n, k) {
        TrackedInPrefix(ops, j, k);
      }
      forall j ensures TrackedSince(ops, j, k) ==> AddsAt(ops, j, k) {
        TrackedIsAdded(ops, j, k);
      }
      forall j ensures TrackedSince(init, j, k) ==> AddsAt(init, j, k) {
        TrackedIsAdded(init, j, k);
      }
      if AddsAt(ops, n, k) {
        AddedEntries(Run(init), op.name, op.source, op.now, e);
        TrackedByAdd(init, k);
        AddIsFirst(ops, k);
      } else {
        AddedEntries(Run(init), op.name, op.source, if op.AddOp? then op.now else 0, e);
        RemoveExactly(Run(init), Key(op.source, op.name));
      }
    }
  }

  lemma {:induction false} TrackedByAdd(ops: seq<Op>, k: Key)
    ensures Tracked(Run(ops), k) <==> exists j :: TrackedSince(ops, j, k)
    decreases |ops|, 1
  {
    hide TrackedSince;
    var es := Run(ops);
    if i :| 0 <= i < |es| && KeyOf(es[i]) == k {
      KeepsFirstTime(ops, es[i]);
    }
    if j :| TrackedSince(ops, j, k) {
      TrackedIsAdded(ops, j, k);
      var e := Entry(k.name, k.source, ops[j].now);
      KeepsFirstTime(ops, e);
      var i :| 0 <= i < |es| && es[i] == e;
      assert KeyOf(es[i]) == k;
    }
  }

  /** From an empty file, keys stay unique and the entries are those of the map; the first time tracked stays. */
  lemma {:induction false} IndexIsMap(ops: seq<Op>)
    ensures UniqueKeys(Run(ops)) && Represents(Run(ops), MapRun(ops))
  {
    if ops != [] {
      var n := |ops| - 1;
      var op := ops[n];
      IndexIsMap(ops[..n]);
      var es, m, k := Run(ops[..n]), MapRun(ops[..n]), Key(op.source, op.name);
      TrackedIsKey(es, m, k);
      if op.ok && op.RemoveOp? {
        RemoveExactly(es, k);
        RemoveKeepsUnique(es, k);
      }
    }
  }

  lemma SameFirst(a: seq<Entry>, b: seq<Entry>)
    requires a != [] && b != [] && StrictlySorted(a) && StrictlySorted(b) && a[0] in b && b[0] in a
    ensures a[0] == b[0]
  {
    var i :| 0 <= i < |b| && b[i] == a[0];
    var j :| 0 <= j < |a| && a[j] == b[0];
    KeyOrder(KeyOf(a[0]), KeyOf(b[0]));
  }

  lemma NotInTail(a: seq<Entry>)
    requires a != [] && StrictlySorted(a)
    ensures a[0] !in a[1..] && StrictlySorted(a[1..])
    ensures forall e :: e in a <==> e == a[0] || e in a[1..]
  {
    KeyOrder(KeyOf(a[0]), KeyOf(a[0]));
    assert a == [a[0]] + a[1..];
  }

  lemma {:induction false} SortedIsUnique(a: seq<Entry>, b: seq<Entry>)
    requires StrictlySorted(a) && StrictlySorted(b) && forall e :: e in a <==> e in b
    ensures a == b
  {
    assert (a == [] || a[0] in a) && (b == [] || b[0] in b);
    if a != [] {
      SameFirst(a, b);
      NotInTail(a);
      NotInTail(b);
      SortedIsUnique(a[1..], b[1..]);
      assert a == [a[0]] + a[1..] && b == [b[0]] + b[1..];
    }
  }

  lemma TwiceInSorted(s: seq<Entry>, i: nat, j: nat)
    requires i < j < |s| && s[i] == s[j]
    ensures multiset(s)[s[i]] >= 2
  {
    assert s == s[..i] + [s[i]] + s[i + 1..j] + [s[j]] + s[j + 1..];
  }

  lemma {:induction false} OnceInUnique(es: seq<Entry>, e: Entry)
    requires UniqueKeys(es)
    ensures multiset(es)[e] <= 1
  {
    if es != [] {
      var n := |es| - 1;
      OnceInUnique(es[..n], e);
      assert es == es[..n] + [es[n]];
      if es[n] == e {
        assert e !in es[..n];
      }
    }
  }

  lemma UniqueSortedIsStrict(es: seq<Entry>, sorted: seq<Entry>)
    requires UniqueKeys(es) && Sorted(sorted) && multiset(sorted) == multiset(es)
    ensures StrictlySorted(sorted)
  {
    forall i, j | 0 <= i < j < |sorted| ensures Less(KeyOf(sorted[i]), KeyOf(sorted[j])) {
      KeyOrder(KeyOf(sorted[i]), KeyOf(sorted[j]));
      if KeyOf(sorted[i]) == KeyOf(sorted[j]) {
        var a, b := sorted[i], sorted[j];
        assert a in multiset(sorted) && b in multiset(sorted);
        assert a in es && b in es;
        assert a == b;
        TwiceInSorted(sorted, i, j);
        OnceInUnique(es, a);
        assert false;
      }
    }
  }

  /**
   * Whatever way the entries are sorted, the listing is the one strictly sorted listing of the
   * map: that the library's sort is unstable cannot show.
   */
  lemma ListingIsUnique(ops: seq<Op>, listed: seq<Entry>)
    requires Sorted(listed) && multiset(listed) == multiset(Run(ops))
    ensures StrictlySorted(listed) && Represents(listed, MapRun(ops))
    ensures forall other :: StrictlySorted(other) && Represents(other, MapRun(ops)) ==> other == listed
  {
    IndexIsMap(ops);
    var es, m := Run(ops), MapRun(ops);
    UniqueSortedIsStrict(es, listed);
    forall e ensures e in listed <==> e in es {
      assert e in listed <==> e in multiset(listed);
    }
    forall other | StrictlySorted(other) && Represents(other, m) ensures other == listed {
      forall e ensures e in other <==> e in listed {
        if e in other { assert Entry(KeyOf(e).name, KeyOf(e).source, m[KeyOf(e)]) == e; }
        if e in listed { assert Entry(KeyOf(e).name, KeyOf(e).source, m[KeyOf(e)]) == e; }
      }
      SortedIsUnique(other, listed);
    }
  }
}
