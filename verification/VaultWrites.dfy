/** Adding and updating login items on the server. */
module VaultWrites {
  import opened Wrappers
  import opened VaultItems
  import EncString

  /** The random IVs of one write, in the order they are drawn; `None` where the source fails. */
  datatype Ivs = Ivs(name: Option<Iv>, username: Option<Iv>, password: Option<Iv>, uris: nat -> Option<Iv>)

  function After(items: Items, id: string, rec: RawCipher, answer: WriteAnswer): Items {
    match answer
    case Written => items[id := rec]
    case Write401(after) => after
    case WriteFailed(after) => after
  }

  function Reply(answer: WriteAnswer): Outcome<(), VaultError> {
    match answer
    case Written => Ok(())
    case Write401(_) => Err(Unauthorized)
    case WriteFailed(_) => Err(HttpFailed)
  }

  /** The encrypted record of a new login, or the first encryption that fails. */
  function NewRecord(p: Crypto, c: Client, id: string, name: Text, username: Text, password: Text, uris: seq<Text>,
                     ivs: Ivs)
    : Result<RawCipher, VaultError>
  {
    var encName := EncryptStr(p, c, name, ivs.name);
    var encUser := EncryptStr(p, c, username, ivs.username);
    var encPass := EncryptStr(p, c, password, ivs.password);
    var encURIs := EncryptURIs(p, c, uris, ivs.uris);
    if encName.Failure? then Failure(encName.error)
    else if encUser.Failure? then Failure(encUser.error)
    else if encPass.Failure? then Failure(encPass.error)
    else if encURIs.Failure? then Failure(encURIs.error)
    else Success(RawCipher(id, 1, encName.value, Some(Login(encUser.value, encPass.value, encURIs.value))))
  }

  /** `Add` on the server's items: what they become and what the caller is told. `id` is the server's choice. */
  function Added(p: Crypto, c: Client, items: Items, id: string, name: Text, username: Text, password: Text,
                 uris: seq<Text>, ivs: Ivs, answer: WriteAnswer): (Items, Outcome<string, VaultError>)
  {
    if !c.symKeySet then (items, Err(NotLoggedIn))
    else
      var rec := NewRecord(p, c, id, name, username, password, uris, ivs);
      if rec.Failure? then (items, Err(rec.error))
      else
        (After(items, id, rec.value, answer), if answer.Written? then Ok(id) else Err(Reply(answer).error))
  }

  /** The plaintext an update writes for a field: the new one if given, else whatever the old one decrypts to. */
  function Final(given: Text, old_: Outcome<Text, VaultError>): Text {
    if given != [] then given else Plain(old_)
  }

  /** What an update asks for; an empty text leaves its field alone, as does `updateURIs` false for the URIs. */
  datatype Change = Change(name: Text, username: Text, password: Text, uris: seq<Text>, updateURIs: bool)

  function ChangedRecord(p: Crypto, c: Client, r: RawCipher, ch: Change, ivs: Ivs): Result<RawCipher, VaultError>
    requires r.login.Some?
  {
    var l := r.login.value;
    var encName := EncryptStr(p, c, Final(ch.name, DecryptStr(p, c, r.name)), ivs.name);
    var encUser := EncryptStr(p, c, Final(ch.username, DecryptStr(p, c, l.username)), ivs.username);
    var encPass := if ch.password != [] then EncryptStr(p, c, ch.password, ivs.password) else Success(l.password);
    var encURIs := if ch.updateURIs then EncryptURIs(p, c, ch.uris, ivs.uris) else Success(l.uris);
    if encName.Failure? then Failure(encName.error)
    else if encUser.Failure? then Failure(encUser.error)
    else if encPass.Failure? then Failure(encPass.error)
    else if encURIs.Failure? then Failure(encURIs.error)
    else Success(RawCipher(r.id, 1, encName.value, Some(Login(encUser.value, encPass.value, encURIs.value))))
  }

  /** An update decrypts the name or the username only where it keeps it, and may crash on what it finds. */
  predicate Crashes(p: Crypto, c: Client, r: RawCipher, ch: Change)
    requires r.login.Some?
  {
    (ch.name == [] && DecryptStr(p, c, r.name).Panic?) ||
    (ch.username == [] && DecryptStr(p, c, r.login.value.username).Panic?)
  }

  function Updated(p: Crypto, c: Client, items: Items, id: string, ch: Change, ivs: Ivs, get: ReadAnswer,
                   put: WriteAnswer)
    : (Items, Outcome<(), VaultError>)
  {
    if !c.symKeySet then (items, Err(NotLoggedIn))
    else if get.Read401? then (items, Err(Unauthorized))
    else if get.ReadFailed? || id !in items then (items, Err(HttpFailed))
    else if items[id].login.None? then (items, Err(NotALogin))
    else if Crashes(p, c, items[id], ch) then (items, Panic)
    else
      match ChangedRecord(p, c, items[id], ch, ivs)
      case Failure(e) => (items, Err(e))
      case Success(rec) => (After(items, id, rec, put), Reply(put))
  }

  /** The loop that carries the stored URIs over, ciphertexts untouched. */
  method Kept(uris: seq<string>) returns (out: seq<string>)
    ensures out == uris
  {
    out := [];
    for i := 0 to |uris|
      invariant out == uris[..i]
    {
      out := out + [uris[i]];
    }
  }

  class Server {
    var items: Items

    constructor (items: Items)
      ensures this.items == items
    {
      this.items := items;
    }

    method Write(id: string, rec: RawCipher, answer: WriteAnswer) returns (r: Outcome<(), VaultError>)
      modifies this
      ensures items == After(old(items), id, rec, answer) && r == Reply(answer)
    {
      match answer {
        case Written => items := items[id := rec];
        case Write401(after) => items := after;
        case WriteFailed(after) => items := after;
      }
      r := Reply(answer);
    }

    method Secret(p: Crypto, c: Client, id: string, get: ReadAnswer) returns (r: Outcome<Text, VaultError>)
      ensures r == SecretOf(p, c, items, id, get)
    {
      if !c.symKeySet {
        return Err(NotLoggedIn);
      }
      if get.Read401? {
        return Err(Unauthorized);
      }
      if get.ReadFailed? || id !in items {
        return Err(HttpFailed);
      }
      var raw := items[id];
      if raw.login.None? {
        return Err(NotALogin);
      }
      r := DecryptStr(p, c, raw.login.value.password);
    }

    method Add(p: Crypto, c: Client, id: string, name: Text, username: Text, password: Text, uris: seq<Text>, ivs: Ivs,
               answer: WriteAnswer)
      returns (r: Outcome<string, VaultError>)
      modifies this
      ensures (items, r) == Added(p, c, old(items), id, name, username, password, uris, ivs, answer)
    {
      if !c.symKeySet {
        return Err(NotLoggedIn);
      }
      var encName := EncryptStr(p, c, name, ivs.name);
      if encName.Failure? {
        return Err(encName.error);
      }
      var encUser := EncryptStr(p, c, username, ivs.username);
      if encUser.Failure? {
        return Err(encUser.error);
      }
      var encPass := EncryptStr(p, c, password, ivs.password);
      if encPass.Failure? {
        return Err(encPass.error);
      }
      var encURIs := EncryptAll(p, c, uris, ivs.uris);
      if encURIs.Failure? {
        return Err(encURIs.error);
      }
      var rec := RawCipher(id, 1, encName.value, Some(Login(encUser.value, encPass.value, encURIs.value)));
      var done := Write(id, rec, answer);
      r := if done.Ok? then Ok(id) else Err(done.error);
    }

    method Update(p: Crypto, c: Client, id: string, ch: Change, ivs: Ivs, get: ReadAnswer, put: WriteAnswer)
      returns (r: Outcome<(), VaultError>)
      modifies this
      ensures (items, r) == Updated(p, c, old(items), id, ch, ivs, get, put)
    {
      if !c.symKeySet {
        return Err(NotLoggedIn);
      }
      if get.Read401? {
        return Err(Unauthorized);
      }
      if get.ReadFailed? || id !in items {
        return Err(HttpFailed);
      }
      var raw := items[id];
      if raw.login.None? {
        return Err(NotALogin);
      }
      var finalName := ch.name;
      if finalName == [] {
        var name := DecryptStr(p, c, raw.name);
        if name.Panic? {
          return Panic;
        }
        finalName := Plain(name);
      }
      var finalUser := ch.username;
      if finalUser == [] {
        var username := DecryptStr(p, c, raw.login.value.username);
        if username.Panic? {
          return Panic;
        }
        finalUser := Plain(username);
      }
      var encName := EncryptStr(p, c, finalName, ivs.name);
      if encName.Failure? {
        return Err(encName.error);
      }
      var encUser := EncryptStr(p, c, finalUser, ivs.username);
      if encUser.Failure? {
        return Err(encUser.error);
      }
      var encPass := raw.login.value.password;
      if ch.password != [] {
        var enc := EncryptStr(p, c, ch.password, ivs.password);
        if enc.Failure? {
          return Err(enc.error);
        }
        encPass := enc.value;
      }
      var encURIs: seq<string> := [];
      if ch.updateURIs {
        var enc := EncryptAll(p, c, ch.uris, ivs.uris);
        if enc.Failure? {
          return Err(enc.error);
        }
        encURIs := enc.value;
      } else {
        encURIs := Kept(raw.login.value.uris);
      }
      r := Write(id, RawCipher(raw.id, 1, encName.value, Some(Login(encUser.value, encPass, encURIs))), put);
    }
  }

  // ---------------------------------------------------------------- what a write achieves

  function AllOk(texts: seq<Text>): seq<Outcome<Text, VaultError>> {
    seq(|texts|, i requires 0 <= i < |texts| => Ok(texts[i]))
  }

  /** A view overridden by exactly what a change supplies. */
  function Override(v: View, ch: Change): View {
    View(if ch.name != [] then Ok(ch.name) else v.name,
         if ch.username != [] then Ok(ch.username) else v.username,
         if ch.password != [] then Ok(ch.password) else v.password,
         if ch.updateURIs then AllOk(ch.uris) else v.uris)
  }

  lemma ChangedView(p: Crypto, c: Client, r: RawCipher, ch: Change, ivs: Ivs)
    requires c.symKeySet && r.login.Some?
    ensures var n, v, o := ChangedRecord(p, c, r, ch, ivs), ViewOf(p, c, r), Override(ViewOf(p, c, r), ch);
            n.Success? ==>
              && n.value.login.Some?
              && ViewOf(p, c, n.value) ==
                 View(Ok(Final(ch.name, v.name)), Ok(Final(ch.username, v.username)), o.password, o.uris)
  {
    hide DecryptStr, EncryptStr, EncryptURIs;
    if ChangedRecord(p, c, r, ch, ivs).Failure? {
      return;
    }
    var l := r.login.value;
    var name, user := Final(ch.name, DecryptStr(p, c, r.name)), Final(ch.username, DecryptStr(p, c, l.username));
    DecryptEncrypted(p, c, name, ivs.name);
    DecryptEncrypted(p, c, user, ivs.username);
    if ch.password != [] {
      DecryptEncrypted(p, c, ch.password, ivs.password);
    }
    if ch.updateURIs {
      EncryptedURIs(p, c, ch.uris, ivs.uris);
    }
  }

  /**
   * A successful update leaves every other item alone and keeps the ciphertexts of a password or
   * of URIs it was not asked to change.
   */
  lemma UpdateTouchesOneItem(p: Crypto, c: Client, items: Items, id: string, ch: Change, ivs: Ivs, get: ReadAnswer,
                             put: WriteAnswer)
    ensures var (after, r) := Updated(p, c, items, id, ch, ivs, get, put);
            r.Ok? ==>
              && id in items && after.Keys == items.Keys
              && (forall other :: other in items && other != id ==> after[other] == items[other])
              && items[id].login.Some? && after[id].login.Some? && after[id].id == items[id].id
              && (ch.password == [] ==> after[id].login.value.password == items[id].login.value.password)
              && (!ch.updateURIs ==> after[id].login.value.uris == items[id].login.value.uris)
  {
    hide DecryptStr, EncryptStr, EncryptURIs;
  }

  /** A kept field survives an update exactly when it can be decrypted; otherwise it is written empty. */
  predicate Readable(p: Crypto, c: Client, r: RawCipher, ch: Change)
    requires r.login.Some?
  {
    && (ch.name == [] ==> DecryptStr(p, c, r.name).Ok?)
    && (ch.username == [] ==> DecryptStr(p, c, r.login.value.username).Ok?)
  }

  /**
   * A successful update refines a record override, view for view, exactly when each of name and
   * username is either supplied or readable as stored.
   */
  lemma UpdateOverridesExactly(p: Crypto, c: Client, items: Items, id: string, ch: Change, ivs: Ivs, get: ReadAnswer,
                               put: WriteAnswer)
    ensures var (after, r) := Updated(p, c, items, id, ch, ivs, get, put);
            r.Ok? ==>
              && id in items && id in after && items[id].login.Some? && after[id].login.Some?
              && (ViewOf(p, c, after[id]) == Override(ViewOf(p, c, items[id]), ch) <==> Readable(p, c, items[id], ch))
  {
    hide DecryptStr, ChangedRecord;
    if Updated(p, c, items, id, ch, ivs, get, put).1.Ok? {
      UpdateTouchesOneItem(p, c, items, id, ch, ivs, get, put);
      ChangedView(p, c, items[id], ch, ivs);
    }
  }

  /** No random source that an update draws from fails. */
  ghost predicate Random(ivs: Ivs) {
    ivs.name.Some? && ivs.username.Some? && ivs.password.Some? && forall i: nat :: ivs.uris(i).Some?
  }

  lemma TextEncrypts(p: Crypto, c: Client, text: Text, iv: Option<Iv>)
    requires iv.Some?
    ensures EncryptStr(p, c, text, iv).Success?
  {
    assert |c.symKey[..32]| == 32;
  }

  lemma {:induction false} UrisEncrypt(p: Crypto, c: Client, uris: seq<Text>, ivs: nat -> Option<Iv>)
    requires forall i: nat :: ivs(i).Some?
    ensures EncryptURIs(p, c, uris, ivs).Success?
  {
    hide EncryptStr;
    if uris != [] {
      var n: nat := |uris| - 1;
      UrisEncrypt(p, c, uris[..n], ivs);
      assert ivs(n).Some?;
      TextEncrypts(p, c, uris[n], ivs(n));
      assert EncryptURIs(p, c, uris, ivs) ==
             Success(EncryptURIs(p, c, uris[..n], ivs).value + [EncryptStr(p, c, uris[n], ivs(n)).value]);
    }
  }

  /**
   * With randomness and a server that answers, an update goes through exactly on a login that it
   * can read without a crash.
   */
  lemma UpdateSucceeds(p: Crypto, c: Client, items: Items, id: string, ch: Change, ivs: Ivs)
    requires Random(ivs)
    ensures Updated(p, c, items, id, ch, ivs, Served, Written).1.Ok? <==>
            c.symKeySet && id in items && items[id].login.Some? && !Crashes(p, c, items[id], ch)
  {
    hide EncryptStr, DecryptStr;
    UrisEncrypt(p, c, ch.uris, ivs.uris);
    if id in items && items[id].login.Some? {
      var r := items[id];
      TextEncrypts(p, c, Final(ch.name, DecryptStr(p, c, r.name)), ivs.name);
      TextEncrypts(p, c, Final(ch.username, DecryptStr(p, c, r.login.value.username)), ivs.username);
      TextEncrypts(p, c, ch.password, ivs.password);
    }
  }

  lemma Texts(p: Crypto, c: Client)
    requires c.symKeySet
    ensures DecryptStr(p, c, "unreadable") == Err(Unreadable) && DecryptStr(p, c, "") == Ok([])
  {
    hide EncString.ParseParts, EncString.OpenParts;
    EncString.NoTypePrefix(p, "unreadable", c.symKey[..32], c.symKey[32..]);
  }

  /** A stored name that cannot be read: an update of the password alone goes through and writes the name empty. */
  lemma NameIsLost(p: Crypto, c: Client, password: Text, ivs: Ivs)
    requires c.symKeySet && Random(ivs)
    ensures var items := map["id" := RawCipher("id", 1, "unreadable", Some(Login("", "", [])))];
            var ch := Change([], [], password, [], false);
            var (after, r) := Updated(p, c, items, "id", ch, ivs, Served, Written);
            && r.Ok? && "id" in after && after["id"].login.Some?
            && ViewOf(p, c, items["id"]).name == Err(Unreadable)
            && ViewOf(p, c, after["id"]).name == Ok([])
            && ViewOf(p, c, after["id"]) != Override(ViewOf(p, c, items["id"]), ch)
  {
    hide DecryptStr, EncryptStr, ChangedRecord;
    Texts(p, c);
    var r := RawCipher("id", 1, "unreadable", Some(Login("", "", [])));
    var ch := Change([], [], password, [], false);
    UpdateSucceeds(p, c, map["id" := r], "id", ch, ivs);
    ChangedView(p, c, r, ch, ivs);
  }

  function NonEmpty(texts: seq<Text>): seq<Text> {
    if texts == [] then []
    else NonEmpty(texts[..|texts| - 1]) + (if texts[|texts| - 1] != [] then [texts[|texts| - 1]] else [])
  }

  lemma {:induction false} ReadableBack(p: Crypto, c: Client, enc: seq<string>, texts: seq<Text>)
    requires |enc| == |texts| && forall i :: 0 <= i < |enc| ==> DecryptStr(p, c, enc[i]) == Ok(texts[i])
    ensures ReadableURIs(p, c, enc) == Ok(NonEmpty(texts))
  {
    hide DecryptStr;
    if enc != [] {
      var n := |enc| - 1;
      ReadableBack(p, c, enc[..n], texts[..n]);
      assert DecryptStr(p, c, enc[n]) == Ok(texts[n]);
      assert texts[n] == [] ==> NonEmpty(texts) == NonEmpty(texts[..n]);
    }
  }

  /**
   * A successful add creates one item under a new id: it is shown with the metadata given, empty
   * URIs dropped, its password is the one given, and no other item changes.
   */
  lemma AddThenRead(p: Crypto, c: Client, items: Items, id: string, name: Text, username: Text, password: Text,
                    uris: seq<Text>, ivs: Ivs, answer: WriteAnswer)
    requires id !in items
    requires Added(p, c, items, id, name, username, password, uris, ivs, answer).1.Ok?
    ensures var r := Added(p, c, items, id, name, username, password, uris, ivs, answer);
            && r.1 == Ok(id)
            && r.0.Keys == items.Keys + {id} && (forall other :: other in items ==> r.0[other] == items[other])
            && Shown(p, c, r.0[id]) == Ok(Some(Item(id, name, username, NonEmpty(uris))))
            && SecretOf(p, c, r.0, id, Served) == Ok(password)
  {
    hide DecryptStr, EncryptStr, EncryptURIs;
    var rec := NewRecord(p, c, id, name, username, password, uris, ivs).value;
    DecryptEncrypted(p, c, name, ivs.name);
    DecryptEncrypted(p, c, username, ivs.username);
    DecryptEncrypted(p, c, password, ivs.password);
    EncryptedURIs(p, c, uris, ivs.uris);
    ReadableBack(p, c, rec.login.value.uris, uris);
  }

  /** A listing of the server: each of its records once, in some order. */
  ghost predicate Lists(listing: seq<RawCipher>, items: Items) {
    && (forall i :: 0 <= i < |listing| ==> listing[i].id in items && items[listing[i].id] == listing[i])
    && (forall id :: id in items ==> exists i :: 0 <= i < |listing| && listing[i] == items[id])
    && (forall i, j :: 0 <= i < j < |listing| ==> listing[i].id != listing[j].id)
  }

  /** A search answers an item shown once in the listing exactly when the query asks for it. */
  lemma SearchAnswers(p: Crypto, c: Client, lower: Text -> Text, items: Items, id: string, it: Item,
                      listing: seq<RawCipher>, q: Text)
    requires id in items && Lists(listing, items) && it.id == items[id].id
    requires Shown(p, c, items[id]) == Ok(Some(it)) && Found(p, c, lower, listing, q).Ok?
    ensures it in Found(p, c, lower, listing, q).value <==> Hit(lower, it, q)
  {
    FoundExactly(p, c, lower, listing, q);
    var found := Found(p, c, lower, listing, q).value;
    var at :| ListedAt(p, c, lower, listing, q, found, at);
    var i :| 0 <= i < |listing| && listing[i] == items[id];
    hide Found, Shown, Hit;
    assert ShownAt(p, c, listing, i, it);
    if Hit(lower, it, q) {
      assert i in at;
      var k :| 0 <= k < |at| && at[k] == i;
      assert ShownAt(p, c, listing, at[k], found[k]);
    }
  }

  /** The query is empty, or occurs in the lowered name, username or some URI of the item. */
  ghost predicate AsksFor(lower: Text -> Text, it: Item, q: Text) {
    || q == [] || Occurs(q, lower(it.name)) || Occurs(q, lower(it.username))
    || exists i :: 0 <= i < |it.uris| && Occurs(q, lower(it.uris[i]))
  }

  lemma HitIsAsked(lower: Text -> Text, it: Item, q: Text)
    ensures Hit(lower, it, q) <==> AsksFor(lower, it, q)
  {
    hide Occurs, Contains;
    OccursIsContains(q, lower(it.name));
    OccursIsContains(q, lower(it.username));
    forall i | 0 <= i < |it.uris| ensures Occurs(q, lower(it.uris[i])) <==> Contains(lower(it.uris[i]), q) {
      OccursIsContains(q, lower(it.uris[i]));
    }
  }

  lemma AddedId(p: Crypto, c: Client, items: Items, id: string, name: Text, username: Text, password: Text,
                uris: seq<Text>, ivs: Ivs, answer: WriteAnswer)
    requires Added(p, c, items, id, name, username, password, uris, ivs, answer).1.Ok?
    ensures var after := Added(p, c, items, id, name, username, password, uris, ivs, answer).0;
            id in after && after[id].id == id && after[id].kind == 1
  {
    hide EncryptStr, EncryptURIs;
  }

  /** After an add, every search whose query asks for the new item's metadata answers it. */
  lemma AddThenSearch(p: Crypto, c: Client, lower: Text -> Text, items: Items, id: string, name: Text, username: Text,
                      password: Text, uris: seq<Text>, ivs: Ivs, answer: WriteAnswer, listing: seq<RawCipher>,
                      q: Text)
    requires id !in items
    ensures var (after, r) := Added(p, c, items, id, name, username, password, uris, ivs, answer);
            var found, it := Found(p, c, lower, listing, q), Item(id, name, username, NonEmpty(uris));
            r.Ok? && Lists(listing, after) && found.Ok? ==> (it in found.value <==> AsksFor(lower, it, q))
  {
    var (after, r) := Added(p, c, items, id, name, username, password, uris, ivs, answer);
    if r.Ok? && Lists(listing, after) && Found(p, c, lower, listing, q).Ok? {
      var it := Item(id, name, username, NonEmpty(uris));
      AddThenRead(p, c, items, id, name, username, password, uris, ivs, answer);
      AddedId(p, c, items, id, name, username, password, uris, ivs, answer);
      hide Added, Found, Shown, Hit, Lists;
      SearchAnswers(p, c, lower, after, id, it, listing, q);
      HitIsAsked(lower, it, q);
    }
  }

  /** An add with randomness goes through exactly if the client is logged in and the server takes it. */
  lemma AddSucceeds(p: Crypto, c: Client, items: Items, id: string, name: Text, username: Text, password: Text,
                    uris: seq<Text>, ivs: Ivs, answer: WriteAnswer)
    requires Random(ivs)
    ensures var r := Added(p, c, items, id, name, username, password, uris, ivs, answer).1;
            && (r.Ok? <==> c.symKeySet && answer.Written?)
            && (r == Err(Unauthorized) <==> c.symKeySet && answer.Write401?)
  {
    hide EncryptStr, EncryptURIs;
    TextEncrypts(p, c, name, ivs.name);
    TextEncrypts(p, c, username, ivs.username);
    TextEncrypts(p, c, password, ivs.password);
    UrisEncrypt(p, c, uris, ivs.uris);
  }

  /** On a server that takes what it is asked to write, an add or an update that fails changes nothing. */
  lemma FailedWriteChangesNothing(p: Crypto, c: Client, items: Items, id: string, d: Change, ivs: Ivs, get: ReadAnswer,
                                  put: WriteAnswer)
    requires put.Written?
    ensures var (after, r) := Added(p, c, items, id, d.name, d.username, d.password, d.uris, ivs, put);
            !r.Ok? ==> after == items
    ensures var (after, r) := Updated(p, c, items, id, d, ivs, get, put);
            !r.Ok? ==> after == items
  {
    hide EncryptStr, EncryptURIs, DecryptStr;
  }

  /** An update answers that the client is unauthorized exactly if the server said so to its read or to its write. */
  lemma UpdateUnauthorized(p: Crypto, c: Client, items: Items, id: string, ch: Change, ivs: Ivs, get: ReadAnswer,
                           put: WriteAnswer)
    requires Random(ivs)
    ensures Updated(p, c, items, id, ch, ivs, get, put).1 == Err(Unauthorized) <==>
            c.symKeySet && (get.Read401? ||
                            (get.Served? && id in items && items[id].login.Some? && !Crashes(p, c, items[id], ch) &&
                             put.Write401?))
  {
    hide EncryptStr, DecryptStr;
    UrisEncrypt(p, c, ch.uris, ivs.uris);
    if id in items && items[id].login.Some? {
      var r := items[id];
      TextEncrypts(p, c, Final(ch.name, DecryptStr(p, c, r.name)), ivs.name);
      TextEncrypts(p, c, Final(ch.username, DecryptStr(p, c, r.login.value.username)), ivs.username);
      TextEncrypts(p, c, ch.password, ivs.password);
    }
  }

  /** A text that an update leaves alone is written as what it decrypts to, or as nothing if it does not. */
  ghost predicate WrittenAs(p: Crypto, c: Client, given: Text, stored: string, text: Text) {
    if given != [] then text == given else ReadsAs(p, c, stored, text)
  }

  /**
   * After a successful update the item is a login, shown with the supplied fields and what the
   * others were read as, its id kept, and its password is the one supplied or the one it had.
   */
  lemma UpdateThenRead(p: Crypto, c: Client, items: Items, id: string, ch: Change, ivs: Ivs, get: ReadAnswer,
                       put: WriteAnswer)
    ensures var (after, r) := Updated(p, c, items, id, ch, ivs, get, put);
            r.Ok? ==>
              && id in items && items[id].login.Some?
              && id in after && after[id].kind == 1 && after[id].login.Some? && after[id].id == items[id].id
              && SecretOf(p, c, after, id, Served) ==
                 (if ch.password != [] then Ok(ch.password) else SecretOf(p, c, items, id, Served))
              && forall it: Item :: Shown(p, c, after[id]) == Ok(Some(it)) <==>
                   && it.id == items[id].id
                   && WrittenAs(p, c, ch.name, items[id].name, it.name)
                   && WrittenAs(p, c, ch.username, items[id].login.value.username, it.username)
                   && (if ch.updateURIs then it.uris == NonEmpty(ch.uris)
                       else ReadableURIs(p, c, items[id].login.value.uris) == Ok(it.uris))
  {
    hide DecryptStr, EncryptStr, EncryptURIs, ReadableURIs;
    if !Updated(p, c, items, id, ch, ivs, get, put).1.Ok? {
      return;
    }
    var r := items[id];
    var n := ChangedRecord(p, c, r, ch, ivs).value;
    DecryptEncrypted(p, c, Final(ch.name, DecryptStr(p, c, r.name)), ivs.name);
    DecryptEncrypted(p, c, Final(ch.username, DecryptStr(p, c, r.login.value.username)), ivs.username);
    if ch.password != [] {
      DecryptEncrypted(p, c, ch.password, ivs.password);
    }
    if ch.updateURIs {
      EncryptedURIs(p, c, ch.uris, ivs.uris);
      ReadableBack(p, c, n.login.value.uris, ch.uris);
    }
    UrisNeverFail(p, c, n.login.value.uris);
  }

  /**
   * After a successful update a search answers the item, with its new metadata, exactly when the
   * query asks for that.
   */
  lemma UpdateThenSearch(p: Crypto, c: Client, lower: Text -> Text, items: Items, id: string, ch: Change, ivs: Ivs,
                         get: ReadAnswer, put: WriteAnswer, it: Item, listing: seq<RawCipher>, q: Text)
    requires id in items && items[id].login.Some? && it.id == items[id].id
    requires WrittenAs(p, c, ch.name, items[id].name, it.name)
    requires WrittenAs(p, c, ch.username, items[id].login.value.username, it.username)
    requires if ch.updateURIs then it.uris == NonEmpty(ch.uris)
             else ReadableURIs(p, c, items[id].login.value.uris) == Ok(it.uris)
    ensures var (after, r) := Updated(p, c, items, id, ch, ivs, get, put);
            var found := Found(p, c, lower, listing, q);
            r.Ok? && Lists(listing, after) && found.Ok? ==> (it in found.value <==> AsksFor(lower, it, q))
  {
    hide Updated, Found, Shown, Hit, Lists, DecryptStr, ReadableURIs;
    var (after, r) := Updated(p, c, items, id, ch, ivs, get, put);
    if r.Ok? && Lists(listing, after) && Found(p, c, lower, listing, q).Ok? {
      UpdateThenRead(p, c, items, id, ch, ivs, get, put);
      SearchAnswers(p, c, lower, after, id, it, listing, q);
      HitIsAsked(lower, it, q);
    }
  }
}
