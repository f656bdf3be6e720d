/** Login items: searching, reading, adding and updating them in a vault of encrypted records. */
module VaultItems {
  import opened ByteStrings
  import opened Sequences
  import opened Wrappers
  import EncString

  type Text = Bytes

  type Crypto = EncString.Crypto

  type Iv = EncString.Iv

  datatype RawClient = RawClient(symKeySet: bool, symKey: Bytes)

  /** A client holds 64 bytes of key, the first half for the cipher and the second for the digest. */
  type Client = c: RawClient | |c.symKey| == 64 witness RawClient(false, seq(64, i => 0))

  datatype Login = Login(username: string, password: string, uris: seq<string>)

  /** A record as the server holds it; `kind` 1 is a login, and every text is encrypted. */
  datatype RawCipher = RawCipher(id: string, kind: int, name: string, login: Option<Login>)

  type Items = map<string, RawCipher>

  datatype VaultError = Unauthorized | HttpFailed | NotLoggedIn | NotALogin | Unreadable | NoRandomness | LoginFailed

  /** How the server answers a read. */
  datatype ReadAnswer = Served | Read401 | ReadFailed

  /** How the server answers a write; when it refuses, `after` is what it then holds. */
  datatype WriteAnswer = Written | Write401(after: Items) | WriteFailed(after: Items)

  // ---------------------------------------------------------------- the session key

  function DecryptStr(p: Crypto, c: Client, s: string): Outcome<Text, VaultError> {
    if !c.symKeySet then Err(NotLoggedIn)
    else
      match EncString.Decrypt(p, s, c.symKey[..32], c.symKey[32..])
      case Ok(text) => Ok(text)
      case Err(_) => Err(Unreadable)
      case Panic => Panic
  }

  /** A client reads with the first half of its key and checks with the second; nothing is read before it logged in. */
  lemma ReadsExactly(p: Crypto, c: Client, s: string, text: Text)
    ensures DecryptStr(p, c, s) == Ok(text) <==>
            && c.symKeySet
            && if s == "" then text == []
               else exists parts ::
                      EncString.Spells(s, parts) && EncString.Carries(p, parts, c.symKey[..32], c.symKey[32..], text)
  {
    hide EncString.Decrypt, EncString.Spells, EncString.Carries;
    EncString.DecryptsExactly(p, s, c.symKey[..32], c.symKey[32..], text);
  }

  function EncryptStr(p: Crypto, c: Client, text: Text, iv: Option<Iv>): Result<string, VaultError> {
    match EncString.Encrypt(p, text, iv, c.symKey[..32], c.symKey[32..])
    case Success(s) => Success(s)
    case Failure(_) => Failure(NoRandomness)
  }

  lemma DecryptEncrypted(p: Crypto, c: Client, text: Text, iv: Option<Iv>)
    requires c.symKeySet && EncryptStr(p, c, text, iv).Success?
    ensures DecryptStr(p, c, EncryptStr(p, c, text, iv).value) == Ok(text)
  {
    var some: Iv := if iv.Some? then iv.value else seq(16, i => 0);
    EncString.RoundTrip(p, text, some, c.symKey[..32], c.symKey[32..]);
  }

  function EncryptURIs(p: Crypto, c: Client, uris: seq<Text>, ivs: nat -> Option<Iv>): Result<seq<string>, VaultError> {
    if uris == [] then Success([])
    else
      var n := |uris| - 1;
      match EncryptURIs(p, c, uris[..n], ivs)
      case Failure(e) => Failure(e)
      case Success(done) =>
        match EncryptStr(p, c, uris[n], ivs(n))
        case Failure(e) => Failure(e)
        case Success(s) => Success(done + [s])
  }

  lemma {:induction false} FailsForGood(p: Crypto, c: Client, uris: seq<Text>, ivs: nat -> Option<Iv>, i: nat)
    requires i <= |uris| && EncryptURIs(p, c, uris[..i], ivs).Failure?
    ensures EncryptURIs(p, c, uris, ivs) == EncryptURIs(p, c, uris[..i], ivs)
    decreases |uris|
  {
    if i < |uris| {
      assert uris[..|uris| - 1][..i] == uris[..i];
      FailsForGood(p, c, uris[..|uris| - 1], ivs, i);
    } else {
      assert uris[..i] == uris;
    }
  }

  method EncryptAll(p: Crypto, c: Client, uris: seq<Text>, ivs: nat -> Option<Iv>)
    returns (r: Result<seq<string>, VaultError>)
    ensures r == EncryptURIs(p, c, uris, ivs)
  {
    var out := [];
    for i := 0 to |uris|
      invariant EncryptURIs(p, c, uris[..i], ivs) == Success(out)
    {
      assert uris[..i + 1][..i] == uris[..i];
      var enc := EncryptStr(p, c, uris[i], ivs(i));
      if enc.Failure? {
        FailsForGood(p, c, uris, ivs, i + 1);
        return Failure(enc.error);
      }
      out := out + [enc.value];
    }
    assert uris[..|uris|] == uris;
    r := Success(out);
  }

  lemma {:induction false} EncryptedURIs(p: Crypto, c: Client, uris: seq<Text>, ivs: nat -> Option<Iv>)
    requires c.symKeySet && EncryptURIs(p, c, uris, ivs).Success?
    ensures var out := EncryptURIs(p, c, uris, ivs).value;
            |out| == |uris| && forall i :: 0 <= i < |uris| ==> DecryptStr(p, c, out[i]) == Ok(uris[i])
  {
    hide DecryptStr, EncryptStr;
    if uris != [] {
      var n := |uris| - 1;
      EncryptedURIs(p, c, uris[..n], ivs);
      DecryptEncrypted(p, c, uris[n], ivs(n));
    }
  }

  // ---------------------------------------------------------------- what a record says

  datatype View = View(
    name: Outcome<Text, VaultError>,
    username: Outcome<Text, VaultError>,
    password: Outcome<Text, VaultError>,
    uris: seq<Outcome<Text, VaultError>>)

  function ViewOf(p: Crypto, c: Client, r: RawCipher): View
    requires r.login.Some?
  {
    var l := r.login.value;
    View(DecryptStr(p, c, r.name), DecryptStr(p, c, l.username), DecryptStr(p, c, l.password),
         seq(|l.uris|, i requires 0 <= i < |l.uris| => DecryptStr(p, c, l.uris[i])))
  }

  // ---------------------------------------------------------------- reading

  function SecretOf(p: Crypto, c: Client, items: Items, id: string, get: ReadAnswer): Outcome<Text, VaultError> {
    if !c.symKeySet then Err(NotLoggedIn)
    else
      match get
      case Read401 => Err(Unauthorized)
      case ReadFailed => Err(HttpFailed)
      case Served =>
        if id !in items then Err(HttpFailed)
        else if items[id].login.None? then Err(NotALogin)
        else DecryptStr(p, c, items[id].login.value.password)
  }

  /** Only a 401 of the server to a client that is logged in makes a read unauthorized. */
  lemma SecretUnauthorized(p: Crypto, c: Client, items: Items, id: string, get: ReadAnswer)
    ensures SecretOf(p, c, items, id, get) == Err(Unauthorized) <==> c.symKeySet && get.Read401?
    ensures SecretOf(p, c, items, id, get) == Err(NotLoggedIn) <==> !c.symKeySet
    ensures SecretOf(p, c, items, id, get) == Err(HttpFailed) <==>
            c.symKeySet && (get.ReadFailed? || (get.Served? && id !in items))
    ensures SecretOf(p, c, items, id, get) == Err(NotALogin) <==>
            c.symKeySet && get.Served? && id in items && items[id].login.None?
  {
    hide EncString.Decrypt;
  }

  datatype Item = Item(id: string, name: Text, username: Text, uris: seq<Text>)

  function Plain(o: Outcome<Text, VaultError>): Text {
    if o.Ok? then o.value else []
  }

  /** The URIs that decrypt to something; one that brings the process down does so here. */
  function ReadableURIs(p: Crypto, c: Client, uris: seq<string>): Outcome<seq<Text>, VaultError> {
    if uris == [] then Ok([])
    else
      var n := |uris| - 1;
      var init, last := ReadableURIs(p, c, uris[..n]), DecryptStr(p, c, uris[n]);
      if init.Panic? || last.Panic? then Panic
      else if init.Err? then init
      else if last.Ok? && last.value != [] then Ok(init.value + [last.value])
      else init
  }

  /** What a search shows of a record: nothing unless it is a login with a readable name. */
  function Shown(p: Crypto, c: Client, r: RawCipher): Outcome<Option<Item>, VaultError> {
    if r.kind != 1 || r.login.None? then Ok(None)
    else
      var name := DecryptStr(p, c, r.name);
      if name.Panic? then Panic
      else if name.Err? then Ok(None)
      else
        var username, uris := DecryptStr(p, c, r.login.value.username), ReadableURIs(p, c, r.login.value.uris);
        if username.Panic? || uris.Panic? then Panic
        else if uris.Err? then Err(uris.error)
        else Ok(Some(Item(r.id, name.value, Plain(username), uris.value)))
  }

  predicate ContainsAt(s: Text, q: Text, i: int) {
    0 <= i <= |s| - |q| && s[i..i + |q|] == q
  }

  predicate Contains(s: Text, q: Text) {
    exists i :: 0 <= i <= |s| && ContainsAt(s, q, i)
  }

  predicate UrisContain(lower: Text -> Text, uris: seq<Text>, q: Text) {
    exists i :: 0 <= i < |uris| && Contains(lower(uris[i]), q)
  }

  predicate Hit(lower: Text -> Text, it: Item, q: Text) {
    q == [] || Contains(lower(it.name), q) || Contains(lower(it.username), q) || UrisContain(lower, it.uris, q)
  }

  /** `q` is the query already lowered. */
  function Found(p: Crypto, c: Client, lower: Text -> Text, listing: seq<RawCipher>, q: Text)
    : Outcome<seq<Item>, VaultError>
  {
    if listing == [] then Ok([])
    else
      var n := |listing| - 1;
      var init, last := Found(p, c, lower, listing[..n], q), Shown(p, c, listing[n]);
      if !init.Ok? then init
      else if last.Panic? then Panic
      else if last.Err? then Err(last.error)
      else if last.value.Some? && Hit(lower, last.value.value, q) then Ok(init.value + [last.value.value])
      else init
  }

  method UrisContainLoop(lower: Text -> Text, uris: seq<Text>, q: Text) returns (r: bool)
    ensures r <==> UrisContain(lower, uris, q)
  {
    for i := 0 to |uris|
      invariant forall k :: 0 <= k < i ==> !Contains(lower(uris[k]), q)
    {
      if Contains(lower(uris[i]), q) {
        return true;
      }
    }
    r := false;
  }

  lemma {:induction false} UrisNeverFail(p: Crypto, c: Client, uris: seq<string>)
    ensures !ReadableURIs(p, c, uris).Err?
  {
    if uris != [] {
      UrisNeverFail(p, c, uris[..|uris| - 1]);
    }
  }

  lemma {:induction false} PanicStays(p: Crypto, c: Client, uris: seq<string>, i: nat)
    requires i <= |uris| && ReadableURIs(p, c, uris[..i]).Panic?
    ensures ReadableURIs(p, c, uris).Panic?
    decreases |uris|
  {
    if i < |uris| {
      assert uris[..|uris| - 1][..i] == uris[..i];
      PanicStays(p, c, uris[..|uris| - 1], i);
    } else {
      assert uris[..i] == uris;
    }
  }

  lemma {:induction false} FoundStops(p: Crypto, c: Client, lower: Text -> Text, listing: seq<RawCipher>, q: Text,
                                      i: nat)
    requires i <= |listing| && !Found(p, c, lower, listing[..i], q).Ok?
    ensures Found(p, c, lower, listing, q) == Found(p, c, lower, listing[..i], q)
    decreases |listing|
  {
    if i < |listing| {
      assert listing[..|listing| - 1][..i] == listing[..i];
      FoundStops(p, c, lower, listing[..|listing| - 1], q, i);
    } else {
      assert listing[..i] == listing;
    }
  }

  method DecryptURIs(p: Crypto, c: Client, uris: seq<string>) returns (r: Outcome<seq<Text>, VaultError>)
    ensures r == ReadableURIs(p, c, uris)
  {
    var out: seq<Text> := [];
    for i := 0 to |uris|
      invariant ReadableURIs(p, c, uris[..i]) == Ok(out)
    {
      assert uris[..i + 1][..i] == uris[..i];
      var uri := DecryptStr(p, c, uris[i]);
      if uri.Panic? {
        PanicStays(p, c, uris, i + 1);
        return Panic;
      }
      if uri.Ok? && uri.value != [] {
        out := out + [uri.value];
      }
    }
    assert uris[..|uris|] == uris;
    r := Ok(out);
  }

  // ---------------------------------------------------------------- searching

  lemma ContainsTransitive(s: Text, q: Text, r: Text)
    requires Contains(s, q) && Contains(q, r)
    ensures Contains(s, r)
  {
    var i :| 0 <= i <= |s| && ContainsAt(s, q, i);
    var j :| 0 <= j <= |q| && ContainsAt(q, r, j);
    assert s[i..i + |q|] == q && q[j..j + |r|] == r;
    assert forall k :: 0 <= k < |q| ==> s[i + k] == q[k];
    assert forall k :: 0 <= k < |r| ==> q[j + k] == r[k];
    assert s[i + j..i + j + |r|] == r;
    assert ContainsAt(s, r, i + j);
  }

  lemma HitTransitive(lower: Text -> Text, it: Item, wide: Text, narrow: Text)
    requires Contains(narrow, wide) && Hit(lower, it, narrow)
    ensures Hit(lower, it, wide)
  {
    if wide != [] {
      assert narrow != [];
      if Contains(lower(it.name), narrow) {
        ContainsTransitive(lower(it.name), narrow, wide);
      } else if Contains(lower(it.username), narrow) {
        ContainsTransitive(lower(it.username), narrow, wide);
      } else {
        var i :| 0 <= i < |it.uris| && Contains(lower(it.uris[i]), narrow);
        ContainsTransitive(lower(it.uris[i]), narrow, wide);
      }
    }
  }

  lemma KeepsSubsequence(few: seq<Item>, many: seq<Item>, it: Item)
    requires IsSubsequence(few, many)
    ensures IsSubsequence(few, many + [it]) && IsSubsequence(few + [it], many + [it])
  {
    assert (many + [it])[..|many|] == many && (few + [it])[..|few|] == few;
  }

  /** A query contained in another finds all that the other finds, in the same order. */
  lemma {:induction false} SearchIsMonotone(p: Crypto, c: Client, lower: Text -> Text, listing: seq<RawCipher>,
                                            wide: Text, narrow: Text)
    requires Contains(narrow, wide)
    ensures var few, many := Found(p, c, lower, listing, narrow), Found(p, c, lower, listing, wide);
            if few.Ok? then many.Ok? && IsSubsequence(few.value, many.value) else many == few
  {
    if listing != [] {
      var n := |listing| - 1;
      SearchIsMonotone(p, c, lower, listing[..n], wide, narrow);
      var shown := Shown(p, c, listing[n]);
      hide Shown, Contains, Hit;
      if shown.Ok? && shown.value.Some? {
        if Hit(lower, shown.value.value, narrow) {
          HitTransitive(lower, shown.value.value, wide, narrow);
        }
        if Found(p, c, lower, listing[..n], narrow).Ok? {
          KeepsSubsequence(Found(p, c, lower, listing[..n], narrow).value, Found(p, c, lower, listing[..n], wide).value,
                           shown.value.value);
        }
      }
    }
  }

  /** The position `i` of the listing is shown as item `it`. */
  ghost predicate ShownAt(p: Crypto, c: Client, listing: seq<RawCipher>, i: int, it: Item) {
    0 <= i < |listing| && Shown(p, c, listing[i]) == Ok(Some(it))
  }

  /** `at` lists, in order, the positions whose records are shown and hit: the answer holds one item for each. */
  ghost predicate ListedAt(p: Crypto, c: Client, lower: Text -> Text, listing: seq<RawCipher>, q: Text,
                           items: seq<Item>, at: seq<int>)
  {
    && |at| == |items|
    && (forall k :: 0 <= k < |at| ==> ShownAt(p, c, listing, at[k], items[k]) && Hit(lower, items[k], q))
    && (forall k, l :: 0 <= k < l < |at| ==> at[k] < at[l])
    && (forall i, it :: ShownAt(p, c, listing, i, it) && Hit(lower, it, q) ==> i in at)
  }

  lemma ListOneMore(p: Crypto, c: Client, lower: Text -> Text, listing: seq<RawCipher>, q: Text, items: seq<Item>,
                    at: seq<int>, it: Item)
    requires listing != []
    ensures ListedAt(p, c, lower, listing[..|listing| - 1], q, items, at) &&
            Shown(p, c, listing[|listing| - 1]) == Ok(Some(it)) && Hit(lower, it, q) ==>
              ListedAt(p, c, lower, listing, q, items + [it], at + [|listing| - 1])
  {
    hide Shown, Hit;
    if !(ListedAt(p, c, lower, listing[..|listing| - 1], q, items, at) &&
         Shown(p, c, listing[|listing| - 1]) == Ok(Some(it)) && Hit(lower, it, q)) {
      return;
    }
    var n := |listing| - 1;
    var at', items' := at + [n], items + [it];
    assert ShownAt(p, c, listing, n, it);
    forall k | 0 <= k < |at'| ensures ShownAt(p, c, listing, at'[k], items'[k]) && Hit(lower, items'[k], q) {
      if k < n {
        assert k < |at| ==> ShownAt(p, c, listing[..n], at[k], items[k]);
      }
    }
    forall i, x | ShownAt(p, c, listing, i, x) && Hit(lower, x, q) ensures i in at' {
      if i < n {
        assert ShownAt(p, c, listing[..n], i, x);
      } else {
        assert at'[|at|] == i;
      }
    }
    assert forall k :: 0 <= k < |at| ==> ShownAt(p, c, listing[..n], at[k], items[k]);
  }

  lemma ListNoMore(p: Crypto, c: Client, lower: Text -> Text, listing: seq<RawCipher>, q: Text, items: seq<Item>,
                   at: seq<int>)
    requires listing != [] && forall it :: Shown(p, c, listing[|listing| - 1]) == Ok(Some(it)) ==> !Hit(lower, it, q)
    requires ListedAt(p, c, lower, listing[..|listing| - 1], q, items, at)
    ensures ListedAt(p, c, lower, listing, q, items, at)
  {
    hide Shown, Hit;
    var n := |listing| - 1;
    forall k | 0 <= k < |at| ensures ShownAt(p, c, listing, at[k], items[k]) {
      assert ShownAt(p, c, listing[..n], at[k], items[k]);
    }
    forall i, x | ShownAt(p, c, listing, i, x) && Hit(lower, x, q) ensures i in at {
      assert i != n;
      assert ShownAt(p, c, listing[..n], i, x);
    }
  }

  /** A search answers, in the order of the listing, exactly the shown records that the query hits. */
  lemma {:induction false} FoundExactly(p: Crypto, c: Client, lower: Text -> Text, listing: seq<RawCipher>, q: Text)
    requires Found(p, c, lower, listing, q).Ok?
    ensures exists at :: ListedAt(p, c, lower, listing, q, Found(p, c, lower, listing, q).value, at)
  {
    if listing == [] {
      assert ListedAt(p, c, lower, listing, q, [], []);
    } else {
      var n := |listing| - 1;
      var init := listing[..n];
      FoundExactly(p, c, lower, init, q);
      var items := Found(p, c, lower, init, q).value;
      var at :| ListedAt(p, c, lower, init, q, items, at);
      var shown := Shown(p, c, listing[n]);
      hide Shown, Hit;
      if shown.value.Some? && Hit(lower, shown.value.value, q) {
        ListOneMore(p, c, lower, listing, q, items, at, shown.value.value);
      } else {
        ListNoMore(p, c, lower, listing, q, items, at);
      }
    }
  }

  // ---------------------------------------------------------------- searching, in terms of decryption

  ghost predicate Occurs(q: Text, s: Text) {
    exists head: Text, tail: Text :: s == head + q + tail
  }

  lemma OccursIsContains(q: Text, s: Text)
    ensures Occurs(q, s) <==> Contains(s, q)
  {
    if Contains(s, q) {
      var i :| 0 <= i <= |s| && ContainsAt(s, q, i);
      assert s == s[..i] + q + s[i + |q|..];
    }
    if head: Text, tail: Text :| s == head + q + tail {
      assert s[|head|..|head| + |q|] == q && ContainsAt(s, q, |head|);
    }
  }

  /** A login whose name can be read. */
  ghost predicate NameReads(p: Crypto, c: Client, r: RawCipher) {
    r.kind == 1 && r.login.Some? && DecryptStr(p, c, r.name).Ok?
  }

  /** What a text decrypts to, or nothing. */
  ghost predicate ReadsAs(p: Crypto, c: Client, s: string, text: Text) {
    if DecryptStr(p, c, s).Ok? then text == DecryptStr(p, c, s).value else text == []
  }

  /** `texts` are, in order, what those URIs decrypt to that decrypt to something. */
  ghost predicate UrisRead(p: Crypto, c: Client, uris: seq<string>, texts: seq<Text>) {
    if uris == [] then texts == []
    else
      var n, m := |uris| - 1, |texts| - 1;
      if DecryptStr(p, c, uris[n]).Ok? && DecryptStr(p, c, uris[n]).value != [] then
        texts != [] && texts[m] == DecryptStr(p, c, uris[n]).value && UrisRead(p, c, uris[..n], texts[..m])
      else UrisRead(p, c, uris[..n], texts)
  }

  ghost predicate UriAsks(p: Crypto, c: Client, lower: Text -> Text, uri: string, q: Text) {
    DecryptStr(p, c, uri).Ok? && DecryptStr(p, c, uri).value != [] && Occurs(q, lower(DecryptStr(p, c, uri).value))
  }

  /** The query is empty, or occurs in the lowered name, username or some URI of the record. */
  ghost predicate Asks(p: Crypto, c: Client, lower: Text -> Text, r: RawCipher, q: Text)
    requires r.login.Some?
  {
    || q == []
    || (DecryptStr(p, c, r.name).Ok? && Occurs(q, lower(DecryptStr(p, c, r.name).value)))
    || (exists text: Text :: ReadsAs(p, c, r.login.value.username, text) && Occurs(q, lower(text)))
    || (exists i :: 0 <= i < |r.login.value.uris| && UriAsks(p, c, lower, r.login.value.uris[i], q))
  }

  /** The item carries the record's id and what its name, username and URIs decrypt to. */
  ghost predicate Describes(p: Crypto, c: Client, r: RawCipher, it: Item)
    requires r.login.Some?
  {
    && it.id == r.id
    && DecryptStr(p, c, r.name) == Ok(it.name)
    && ReadsAs(p, c, r.login.value.username, it.username)
    && UrisRead(p, c, r.login.value.uris, it.uris)
  }

  /** Reading the record meets no text that brings the process down. */
  ghost predicate ReadsSafely(p: Crypto, c: Client, r: RawCipher) {
    r.kind == 1 && r.login.Some? && !DecryptStr(p, c, r.name).Err? ==>
      && DecryptStr(p, c, r.name).Ok? && !DecryptStr(p, c, r.login.value.username).Panic?
      && forall i :: 0 <= i < |r.login.value.uris| ==> !DecryptStr(p, c, r.login.value.uris[i]).Panic?
  }

  lemma OneMoreUri(lower: Text -> Text, uris: seq<Text>, uri: Text, q: Text)
    ensures UrisContain(lower, uris + [uri], q) <==> UrisContain(lower, uris, q) || Contains(lower(uri), q)
    ensures (uris + [uri])[..|uris|] == uris
  {
    hide Contains;
    var all := uris + [uri];
    if i :| 0 <= i < |uris| && Contains(lower(uris[i]), q) {
      assert all[i] == uris[i];
    }
    if Contains(lower(uri), q) {
      assert all[|uris|] == uri;
    }
  }

  lemma {:induction false} UrisByDecryption(p: Crypto, c: Client, lower: Text -> Text, uris: seq<string>, q: Text)
    ensures ReadableURIs(p, c, uris).Ok? <==> forall i :: 0 <= i < |uris| ==> !DecryptStr(p, c, uris[i]).Panic?
    ensures var r := ReadableURIs(p, c, uris);
            r.Ok? ==>
              && UrisRead(p, c, uris, r.value)
              && (UrisContain(lower, r.value, q) <==>
                  exists i :: 0 <= i < |uris| && UriAsks(p, c, lower, uris[i], q))
  {
    hide DecryptStr, Occurs, Contains;
    if uris != [] {
      var n := |uris| - 1;
      UrisByDecryption(p, c, lower, uris[..n], q);
      UrisNeverFail(p, c, uris[..n]);
      assert (forall i :: 0 <= i < n ==> uris[..n][i] == uris[i]);
      var before, last := ReadableURIs(p, c, uris[..n]), DecryptStr(p, c, uris[n]);
      if before.Ok? && last.Ok? && last.value != [] {
        OccursIsContains(q, lower(last.value));
        OneMoreUri(lower, before.value, last.value, q);
      }
    }
  }

  lemma ShownByDecryption(p: Crypto, c: Client, lower: Text -> Text, r: RawCipher, q: Text)
    ensures (Shown(p, c, r).Panic? || Shown(p, c, r).Ok?) && (Shown(p, c, r).Ok? <==> ReadsSafely(p, c, r))
    ensures Shown(p, c, r).Ok? ==> (Shown(p, c, r).value.Some? <==> NameReads(p, c, r))
    ensures Shown(p, c, r).Ok? && Shown(p, c, r).value.Some? ==>
              var it := Shown(p, c, r).value.value;
              Describes(p, c, r, it) && (Hit(lower, it, q) <==> Asks(p, c, lower, r, q))
  {
    hide DecryptStr, Occurs, Contains, ReadableURIs, UrisContain, UriAsks, UrisRead;
    if r.login.Some? {
      UrisByDecryption(p, c, lower, r.login.value.uris, q);
      UrisNeverFail(p, c, r.login.value.uris);
      if Shown(p, c, r).Ok? && Shown(p, c, r).value.Some? {
        var it := Shown(p, c, r).value.value;
        OccursIsContains(q, lower(it.name));
        OccursIsContains(q, lower(it.username));
        assert ReadsAs(p, c, r.login.value.username, it.username);
      }
    }
  }

  /** A search goes through unless some record it reads brings the process down. */
  lemma {:induction false} FoundUnlessCrash(p: Crypto, c: Client, lower: Text -> Text, listing: seq<RawCipher>, q: Text)
    ensures Found(p, c, lower, listing, q).Ok? <==> forall i :: 0 <= i < |listing| ==> ReadsSafely(p, c, listing[i])
  {
    hide Shown, ReadsSafely, Hit;
    if listing != [] {
      var n := |listing| - 1;
      FoundUnlessCrash(p, c, lower, listing[..n], q);
      ShownByDecryption(p, c, lower, listing[n], q);
      assert forall i :: 0 <= i < n ==> listing[..n][i] == listing[i];
    }
  }

  ghost predicate AnswersAt(p: Crypto, c: Client, lower: Text -> Text, listing: seq<RawCipher>, q: Text,
                            items: seq<Item>, at: seq<int>)
  {
    && |at| == |items|
    && (forall k, l :: 0 <= k < l < |at| ==> at[k] < at[l])
    && (forall k :: 0 <= k < |at| ==>
          0 <= at[k] < |listing| && listing[at[k]].login.Some? && Describes(p, c, listing[at[k]], items[k]))
    && (forall i :: 0 <= i < |listing| ==>
          (i in at <==> NameReads(p, c, listing[i]) && Asks(p, c, lower, listing[i], q)))
  }

  /**
   * The answer is, in the order of the listing, one item for each login whose name can be read and
   * that the query asks for.
   */
  ghost predicate Answers(p: Crypto, c: Client, lower: Text -> Text, listing: seq<RawCipher>, q: Text,
                          items: seq<Item>)
  {
    exists at: seq<int> :: AnswersAt(p, c, lower, listing, q, items, at)
  }

  lemma FoundByDecryption(p: Crypto, c: Client, lower: Text -> Text, listing: seq<RawCipher>, q: Text)
    requires Found(p, c, lower, listing, q).Ok?
    ensures Answers(p, c, lower, listing, q, Found(p, c, lower, listing, q).value)
  {
    FoundUnlessCrash(p, c, lower, listing, q);
    FoundExactly(p, c, lower, listing, q);
    var items := Found(p, c, lower, listing, q).value;
    var at :| ListedAt(p, c, lower, listing, q, items, at);
    hide Found, Shown, Hit, Asks, Describes, ReadsSafely, DecryptStr;
    forall i | 0 <= i < |listing|
      ensures Shown(p, c, listing[i]).Ok?
      ensures Shown(p, c, listing[i]).value.Some? <==> NameReads(p, c, listing[i])
      ensures Shown(p, c, listing[i]).value.Some? ==>
                var it := Shown(p, c, listing[i]).value.value;
                Describes(p, c, listing[i], it) && (Hit(lower, it, q) <==> Asks(p, c, lower, listing[i], q))
    {
      ShownByDecryption(p, c, lower, listing[i], q);
    }
    assert forall k :: 0 <= k < |at| ==> ShownAt(p, c, listing, at[k], items[k]);
    forall i | 0 <= i < |listing| && NameReads(p, c, listing[i]) && Asks(p, c, lower, listing[i], q) ensures i in at {
      assert ShownAt(p, c, listing, i, Shown(p, c, listing[i]).value.value);
    }
    assert AnswersAt(p, c, lower, listing, q, items, at);
  }

  /** `at` are the positions of all logins whose names can be read, and the items describe them in order. */
  ghost predicate ListsAllAt(p: Crypto, c: Client, listing: seq<RawCipher>, items: seq<Item>, at: seq<int>) {
    && |at| == |items|
    && (forall k, l :: 0 <= k < l < |at| ==> at[k] < at[l])
    && (forall i :: i in at <==> 0 <= i < |listing| && NameReads(p, c, listing[i]))
    && (forall k :: 0 <= k < |at| ==>
          0 <= at[k] < |listing| && listing[at[k]].login.Some? && Describes(p, c, listing[at[k]], items[k]))
  }

  /** The empty query answers every login whose name can be read, in order. */
  lemma EmptyQueryListsAll(p: Crypto, c: Client, lower: Text -> Text, listing: seq<RawCipher>)
    requires lower([]) == [] && Found(p, c, lower, listing, lower([])).Ok?
    ensures exists at: seq<int> :: ListsAllAt(p, c, listing, Found(p, c, lower, listing, lower([])).value, at)
  {
    FoundByDecryption(p, c, lower, listing, []);
    var items := Found(p, c, lower, listing, []).value;
    hide Found, DecryptStr;
    var at :| AnswersAt(p, c, lower, listing, [], items, at);
    assert ListsAllAt(p, c, listing, items, at);
  }

  /** `listing` is what the server lists when it serves the read. */
  method Search(p: Crypto, c: Client, lower: Text -> Text, listing: seq<RawCipher>, get: ReadAnswer, query: Text)
    returns (r: Outcome<seq<Item>, VaultError>)
    ensures !c.symKeySet ==> r == Err(NotLoggedIn)
    ensures c.symKeySet && get.Read401? ==> r == Err(Unauthorized)
    ensures c.symKeySet && get.ReadFailed? ==> r == Err(HttpFailed)
    ensures c.symKeySet && get.Served? ==> r == Found(p, c, lower, listing, lower(query))
    ensures c.symKeySet && get.Served? ==>
              (r.Ok? <==> forall i :: 0 <= i < |listing| ==> ReadsSafely(p, c, listing[i])) &&
              (r.Ok? ==> Answers(p, c, lower, listing, lower(query), r.value))
  {
    if !c.symKeySet {
      return Err(NotLoggedIn);
    }
    if get.Read401? {
      return Err(Unauthorized);
    }
    if get.ReadFailed? {
      return Err(HttpFailed);
    }
    hide ReadsSafely, Answers;
    var q := lower(query);
    FoundUnlessCrash(p, c, lower, listing, q);
    var results: seq<Item> := [];
    for i := 0 to |listing|
      invariant Found(p, c, lower, listing[..i], q) == Ok(results)
    {
      assert listing[..i + 1][..i] == listing[..i];
      var rec := listing[i];
      if rec.kind != 1 || rec.login.None? {
        continue;
      }
      var name := DecryptStr(p, c, rec.name);
      if name.Panic? {
        FoundStops(p, c, lower, listing, q, i + 1);
        return Panic;
      }
      if name.Err? {
        continue;
      }
      var username := DecryptStr(p, c, rec.login.value.username);
      if username.Panic? {
        FoundStops(p, c, lower, listing, q, i + 1);
        return Panic;
      }
      var uris := DecryptURIs(p, c, rec.login.value.uris);
      UrisNeverFail(p, c, rec.login.value.uris);
      if uris.Panic? {
        FoundStops(p, c, lower, listing, q, i + 1);
        return Panic;
      }
      var it := Item(rec.id, name.value, Plain(username), uris.value);
      assert Shown(p, c, rec) == Ok(Some(it));
      var inUris := UrisContainLoop(lower, it.uris, q);
      if q == [] || Contains(lower(it.name), q) || Contains(lower(it.username), q) || inUris {
        results := results + [it];
      }
    }
    assert listing[..|listing|] == listing;
    r := Ok(results);
    FoundByDecryption(p, c, lower, listing, q);
  }
}
