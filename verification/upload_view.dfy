/**
 * `getContent`: the metadata view of a link. In order: lazy expiry, the
 * password gate, the quota charge (a conditional increment when a limit
 * is set), burn-after-reading for one-time text, and the public reply.
 * Each store call is one atomic step; the sequence here is the handler
 * running alone (the interleaved model is in `QuotaInterleaving`).
 */
module UploadView {
  import opened Wrappers
  import opened JsText
  import opened JsValues
  import opened UploadModel
  import opened Replies
  import opened UriComponent

  /** `bcrypt.compare(plain, hash)`, which the model cannot see. */
  type Verifier = (string, string) -> bool

  /** The password the handler works with: the query string's if it is a
      string, else the body's (or `""` when that is falsy), trimmed. A
      truthy body value that is not a string has no `trim`, and the
      handler fails (`None`). */
  function SuppliedPassword(query: Option<string>, body: FormField): (r: Option<string>)
    ensures query.Some? ==> r == Some(Trim(query.value))
    ensures query.None? && !Truthy(body) ==> r == Some("")
    ensures r.None? <==> query.None? && Truthy(body) && !body.Str?
  {
    if query.Some? then Some(Trim(query.value))
    else if !Truthy(body) then Some("")
    else if body.Str? then Some(Trim(body.s))
    else None
  }

  /** Outcome of the password check on a record. */
  datatype Gate = Open | NeedPassword | WrongPassword

  function PasswordGate(r: Record, password: string, verify: Verifier): (g: Gate)
    ensures g == Open <==> !HasPassword(r) || (password != "" && verify(password, r.password.value))
    ensures g == NeedPassword <==> HasPassword(r) && password == ""
  {
    if !HasPassword(r) then Open
    else if password == "" then NeedPassword
    else if verify(password, r.password.value) then Open
    else WrongPassword
  }

  const ProxyBase := "http://localhost:5000/api/upload/download/"
  const PasswordParam := "?password="

  /** The proxy download link a file record's view carries; a supplied
      password rides along, URI-encoded. */
  function ProxyLink(id: string, password: string): string {
    ProxyBase + id + (if password == "" then "" else PasswordParam + EncodeUriComponent(password))
  }

  /** The password can be read back from the link: the query value
      percent-decodes to exactly its UTF-8 bytes. */
  lemma ProxyLinkCarriesPassword(id: string, password: string)
    requires password != ""
    ensures var url := ProxyLink(id, password);
      var start := |ProxyBase| + |id| + |PasswordParam|;
      start <= |url| && DecodePercent(url[start..]) == Some(Utf8Bytes(password))
  {
    var url := ProxyLink(id, password);
    var start := |ProxyBase| + |id| + |PasswordParam|;
    assert url[start..] == EncodeUriComponent(password);
    DecodeEncode(password);
  }

  /** The body of the reply: the record without its secrets, and for a
      file the proxy link in place of the blob URL. */
  function Publish(data: Record, id: string, password: string): PublicRecord {
    var v := Strip(data);
    if data.kind == File then v.(fileUrl := Some(ProxyLink(id, password))) else v
  }

  /** Removes the record and, when `destroy` holds, its blob. */
  function Purge(w: World, id: string, destroy: bool): (w': World)
    ensures w'.store == w.store - {id} && w'.temp == w.temp
    ensures w'.blobs == if destroy then w.blobs - {BlobKey(id)} else w.blobs
  {
    var w1 := RemoveRecord(w, id);
    if destroy then DestroyBlob(w1, id) else w1
  }

  /** The counter step. With a limit, the conditional increment succeeds
      only below the limit and hands back the updated document; at the
      limit the record (and a file's blob) is deleted. Without a limit the
      increment is unconditional and the handler keeps the document it
      read before. */
  datatype Charged = Charged(ok: bool, data: Record, world: World)

  function Charge(w: World, id: string, r: Record): (c: Charged)
    requires id in w.store && w.store[id] == r
    ensures c.ok <==> r.maxDownloads.None? || r.currentDownloads < r.maxDownloads.value
    ensures c.ok ==> c.world == w.(store := w.store[id := r.(currentDownloads := r.currentDownloads + 1)])
    ensures c.ok && r.maxDownloads.Some? ==> c.data == r.(currentDownloads := r.currentDownloads + 1)
    ensures c.ok && r.maxDownloads.None? ==> c.data == r
    ensures !c.ok ==> c.world == Purge(w, id, r.kind == File)
  {
    var bumped := r.(currentDownloads := r.currentDownloads + 1);
    match r.maxDownloads
    case Some(m) =>
      if r.currentDownloads < m then Charged(true, bumped, w.(store := w.store[id := bumped]))
      else Charged(false, r, Purge(w, id, r.kind == File))
    case None => Charged(true, r, w.(store := w.store[id := bumped]))
  }

  /** The view handler. `query` is the query-string password when it is a
      string; `body` the request body's `password` field. */
  function GetContent(w: World, id: string, query: Option<string>, body: FormField, now: int, verify: Verifier): (Reply, World)
  {
    match SuppliedPassword(query, body)
    case None => (Failed(500, MsgServerError), w)
    case Some(password) =>
      if id !in w.store then (Failed(403, MsgLinkGone), w)
      else
        var r := w.store[id];
        if IsExpired(r, now) then
          (Failed(403, MsgLinkGone), Purge(w, id, r.kind == File && HasFileUrl(r)))
        else match PasswordGate(r, password, verify)
          case NeedPassword => (Failed(401, MsgPasswordRequired), w)
          case WrongPassword => (Failed(403, MsgIncorrectPassword), w)
          case Open => Serve(w, id, r, password)
  }

  /** The view once the link is live and the password check passed: the
      counter step, burn-after-reading for one-time text, and the reply. */
  function Serve(w: World, id: string, r: Record, password: string): (Reply, World)
    requires id in w.store && w.store[id] == r
  {
    var c := Charge(w, id, r);
    if !c.ok then (Failed(403, MsgMaxViews), c.world)
    else
      var w' := if c.data.kind == Text && c.data.oneTimeView then RemoveRecord(c.world, id) else c.world;
      (Content(Publish(c.data, id, password)), w')
  }

  /** A missing record, an expired one, and a failed password check are
      all refused before the counter is touched: the only change is the
      lazy removal of an expired record and, for a file with a URL, of
      its blob. */
  lemma ViewRefusals(w: World, id: string, password: string, now: int, verify: Verifier)
    ensures id !in w.store ==> GetContent(w, id, Some(password), Missing, now, verify) == (Failed(403, MsgLinkGone), w)
    ensures id in w.store && IsExpired(w.store[id], now) ==>
      var r := w.store[id];
      GetContent(w, id, Some(password), Missing, now, verify) == (Failed(403, MsgLinkGone), Purge(w, id, r.kind == File && HasFileUrl(r)))
    ensures id in w.store && !IsExpired(w.store[id], now) && HasPassword(w.store[id]) && Trim(password) == "" ==>
      GetContent(w, id, Some(password), Missing, now, verify) == (Failed(401, MsgPasswordRequired), w)
    ensures id in w.store && !IsExpired(w.store[id], now) && HasPassword(w.store[id]) && Trim(password) != ""
            && !verify(Trim(password), w.store[id].password.value) ==>
      GetContent(w, id, Some(password), Missing, now, verify) == (Failed(403, MsgIncorrectPassword), w)
  {
  }

  /** Only a live link whose password check passed reaches the counter:
      a success and a max-views refusal both come from `Serve`. */
  lemma OpenView(w: World, id: string, query: Option<string>, body: FormField, now: int, verify: Verifier)
    ensures var (reply, w') := GetContent(w, id, query, body, now, verify);
      (reply.Content? || reply == Failed(403, MsgMaxViews)) ==>
        && id in w.store && SuppliedPassword(query, body).Some?
        && !IsExpired(w.store[id], now)
        && PasswordGate(w.store[id], SuppliedPassword(query, body).value, verify) == Open
        && (reply, w') == Serve(w, id, w.store[id], SuppliedPassword(query, body).value)
  {
    assert |MsgLinkGone| != |MsgMaxViews| && |MsgIncorrectPassword| != |MsgMaxViews|;
  }

  /** What a served view does to the counter and the record. */
  lemma ServeCounts(w: World, id: string, r: Record, password: string)
    requires id in w.store && w.store[id] == r
    ensures var (reply, w') := Serve(w, id, r, password);
      && (reply.Content? ==>
            && (r.maxDownloads.Some? ==>
                  && r.currentDownloads < r.maxDownloads.value
                  && reply.view.currentDownloads == r.currentDownloads + 1)
            && (r.maxDownloads.None? ==> reply.view.currentDownloads == r.currentDownloads)
            && (id in w'.store ==> w'.store[id] == r.(currentDownloads := r.currentDownloads + 1))
            && (r.kind == Text && r.oneTimeView <==> id !in w'.store)
            && w'.blobs == w.blobs)
      && (!reply.Content? ==>
            && reply == Failed(403, MsgMaxViews)
            && r.maxDownloads.Some? && r.currentDownloads >= r.maxDownloads.value
            && w' == Purge(w, id, r.kind == File))
  {
  }

  /** A view touches only the link it was asked for: no other record
      changes, none is added, and the only blob it can destroy is that
      link's own. */
  lemma ViewFrame(w: World, id: string, query: Option<string>, body: FormField, now: int, verify: Verifier)
    ensures var (_, w') := GetContent(w, id, query, body, now, verify);
      && w'.store.Keys <= w.store.Keys
      && (forall k | k in w.store && k != id :: k in w'.store && w'.store[k] == w.store[k])
      && w'.blobs <= w.blobs && w.blobs - w'.blobs <= {BlobKey(id)}
  {
    var supplied := SuppliedPassword(query, body);
    if supplied.Some? && id in w.store {
      var r := w.store[id];
      if IsExpired(r, now) {
        PurgeFrame(w, id, r.kind == File && HasFileUrl(r));
      } else if PasswordGate(r, supplied.value, verify) == Open {
        assert GetContent(w, id, query, body, now, verify) == Serve(w, id, r, supplied.value);
        ServeFrame(w, id, r, supplied.value);
      }
    }
  }

  lemma PurgeFrame(w: World, id: string, destroy: bool)
    ensures var w' := Purge(w, id, destroy);
      && w'.store.Keys <= w.store.Keys
      && (forall k | k in w.store && k != id :: k in w'.store && w'.store[k] == w.store[k])
      && w'.blobs <= w.blobs && w.blobs - w'.blobs <= {BlobKey(id)}
  {
  }

  /** `Serve` changes at most the record it serves and that link's blob. */
  lemma ServeFrame(w: World, id: string, r: Record, password: string)
    requires id in w.store && w.store[id] == r
    ensures var (_, w') := Serve(w, id, r, password);
      && w'.store.Keys <= w.store.Keys
      && (forall k | k in w.store && k != id :: k in w'.store && w'.store[k] == w.store[k])
      && w'.blobs <= w.blobs && w.blobs - w'.blobs <= {BlobKey(id)}
  {
    var c := Charge(w, id, r);
    if !c.ok {
      PurgeFrame(w, id, r.kind == File);
    } else {
      assert c.world.store == w.store[id := r.(currentDownloads := r.currentDownloads + 1)];
    }
  }

  /** A successful view of a limited record raises its counter by exactly
      one from below the limit; a view at the limit deletes the record
      (and a file's blob) and is refused. */
  lemma ViewChargesQuota(w: World, id: string, query: Option<string>, body: FormField, now: int, verify: Verifier)
    requires id in w.store && w.store[id].maxDownloads.Some?
    ensures var r := w.store[id];
      var (reply, w') := GetContent(w, id, query, body, now, verify);
      && (reply.Content? ==>
            && r.currentDownloads < r.maxDownloads.value
            && reply.view.currentDownloads == r.currentDownloads + 1
            && (id in w'.store ==> w'.store[id] == r.(currentDownloads := r.currentDownloads + 1)))
      && (reply == Failed(403, MsgMaxViews) ==>
            && r.currentDownloads >= r.maxDownloads.value
            && w' == Purge(w, id, r.kind == File))
    ensures var (_, w') := GetContent(w, id, query, body, now, verify);
      && w'.store.Keys <= w.store.Keys
      && (forall k | k in w.store && k != id :: k in w'.store && w'.store[k] == w.store[k])
      && w'.blobs <= w.blobs && w.blobs - w'.blobs <= {BlobKey(id)}
  {
    ViewFrame(w, id, query, body, now, verify);
    OpenView(w, id, query, body, now, verify);
    var supplied := SuppliedPassword(query, body);
    if supplied.Some? {
      ServeCounts(w, id, w.store[id], supplied.value);
    }
  }

  /** Without a limit every admitted view counts, but the reply shows the
      document as it was read, before the increment. */
  lemma ViewUnlimited(w: World, id: string, query: Option<string>, body: FormField, now: int, verify: Verifier)
    requires id in w.store && w.store[id].maxDownloads.None?
    ensures var r := w.store[id];
      var (reply, w') := GetContent(w, id, query, body, now, verify);
      reply.Content? ==>
        && reply.view.currentDownloads == r.currentDownloads
        && (id in w'.store ==> w'.store[id].currentDownloads == r.currentDownloads + 1)
    ensures var (_, w') := GetContent(w, id, query, body, now, verify);
      && w'.store.Keys <= w.store.Keys
      && (forall k | k in w.store && k != id :: k in w'.store && w'.store[k] == w.store[k])
      && w'.blobs <= w.blobs && w.blobs - w'.blobs <= {BlobKey(id)}
  {
    ViewFrame(w, id, query, body, now, verify);
    OpenView(w, id, query, body, now, verify);
    var supplied := SuppliedPassword(query, body);
    if supplied.Some? {
      ServeCounts(w, id, w.store[id], supplied.value);
    }
  }

  /** After a successful view of one-time text the record is gone; a
      file's record stays for the download to consume. */
  lemma ViewBurnsOneTimeText(w: World, id: string, query: Option<string>, body: FormField, now: int, verify: Verifier)
    requires id in w.store
    ensures var r := w.store[id];
      var (reply, w') := GetContent(w, id, query, body, now, verify);
      reply.Content? ==>
        && (r.kind == Text && r.oneTimeView <==> id !in w'.store)
        && w'.blobs == w.blobs
    ensures var (_, w') := GetContent(w, id, query, body, now, verify);
      && w'.store.Keys <= w.store.Keys
      && (forall k | k in w.store && k != id :: k in w'.store && w'.store[k] == w.store[k])
      && w'.blobs <= w.blobs && w.blobs - w'.blobs <= {BlobKey(id)}
  {
    ViewFrame(w, id, query, body, now, verify);
    OpenView(w, id, query, body, now, verify);
    var supplied := SuppliedPassword(query, body);
    if supplied.Some? {
      ServeCounts(w, id, w.store[id], supplied.value);
    }
  }

  /** A successful view describes the record it was asked for, keeps every
      public field, and for a file replaces the blob URL by the proxy
      link. */
  lemma ViewReplyShape(w: World, id: string, query: Option<string>, body: FormField, now: int, verify: Verifier)
    requires id in w.store
    ensures var r := w.store[id];
      var (reply, _) := GetContent(w, id, query, body, now, verify);
      reply.Content? ==>
        && SuppliedPassword(query, body).Some?
        && reply.view.kind == r.kind && reply.view.textContent == r.textContent
        && reply.view.originalName == r.originalName && reply.view.expiresAt == r.expiresAt
        && reply.view.uniqueId == r.uniqueId && reply.view.userId == r.userId
        && (r.kind == File ==> reply.view.fileUrl == Some(ProxyLink(id, SuppliedPassword(query, body).value)))
        && (r.kind == Text ==> reply.view.fileUrl == r.fileUrl)
  {
    var r := w.store[id];
    var supplied := SuppliedPassword(query, body);
    if supplied.Some? && !IsExpired(r, now) && PasswordGate(r, supplied.value, verify) == Open {
      assert GetContent(w, id, query, body, now, verify) == Serve(w, id, r, supplied.value);
      ServeShape(w, id, r, supplied.value);
    }
  }

  /** A served view shows the record's public fields, with the count it
      was charged at when the link is limited. */
  lemma ServeShape(w: World, id: string, r: Record, password: string)
    requires id in w.store && w.store[id] == r
    ensures var (reply, _) := Serve(w, id, r, password);
      reply.Content? ==>
        && reply.view.kind == r.kind && reply.view.textContent == r.textContent
        && reply.view.originalName == r.originalName && reply.view.expiresAt == r.expiresAt
        && reply.view.uniqueId == r.uniqueId && reply.view.userId == r.userId
        && (r.kind == File ==> reply.view.fileUrl == Some(ProxyLink(id, password)))
        && (r.kind == Text ==> reply.view.fileUrl == r.fileUrl)
  {
    var c := Charge(w, id, r);
    if c.ok {
      assert c.data == r || c.data == r.(currentDownloads := r.currentDownloads + 1);
    }
  }

  /** A view keeps the stores consistent: the record it updates stays
      well formed (its counter stays within the limit), and whatever it
      deletes takes its blob along. */
  lemma ViewConsistent(w: World, id: string, query: Option<string>, body: FormField, now: int, verify: Verifier)
    requires Consistent(w)
    ensures Consistent(GetContent(w, id, query, body, now, verify).1)
  {
    var supplied := SuppliedPassword(query, body);
    if supplied.Some? && id in w.store {
      var r := w.store[id];
      if IsExpired(r, now) {
        PurgeConsistent(w, id, r.kind == File && HasFileUrl(r));
      } else if PasswordGate(r, supplied.value, verify) == Open {
        assert GetContent(w, id, query, body, now, verify) == Serve(w, id, r, supplied.value);
        ServeConsistent(w, id, r, supplied.value);
      }
    }
  }

  /** Deleting a record, with or without its blob, keeps the stores
      consistent. */
  lemma PurgeConsistent(w: World, id: string, destroy: bool)
    requires Consistent(w)
    ensures Consistent(Purge(w, id, destroy))
  {
    var w' := Purge(w, id, destroy);
    forall k | k in w'.store && w'.store[k].kind == File
      ensures BlobKey(k) in w'.blobs
    {
      if BlobKey(k) == BlobKey(id) { BlobKeyInjective(k, id); }
    }
  }

  /** A served view keeps the stores consistent: the counter it raises
      stays within the limit. */
  lemma ServeConsistent(w: World, id: string, r: Record, password: string)
    requires Consistent(w) && id in w.store && w.store[id] == r
    ensures Consistent(Serve(w, id, r, password).1)
  {
    var c := Charge(w, id, r);
    if !c.ok {
      PurgeConsistent(w, id, r.kind == File);
    } else {
      var bumped := r.(currentDownloads := r.currentDownloads + 1);
      assert c.world == w.(store := w.store[id := bumped]);
      assert WellFormed(bumped) && bumped.uniqueId == id;
      assert Consistent(c.world) by {
        forall k | k in c.world.store
          ensures c.world.store[k].uniqueId == k && WellFormed(c.world.store[k])
          ensures c.world.store[k].kind == File ==> BlobKey(k) in c.world.blobs
        {
          if k != id { assert c.world.store[k] == w.store[k]; }
        }
      }
    }
  }

  /** `n` views of the same link, one after another: how many succeeded,
      and the stores afterwards. */
  function ViewRepeatedly(w: World, id: string, n: nat, password: string, now: int, verify: Verifier): (World, nat)
    decreases n
  {
    if n == 0 then (w, 0)
    else
      var (reply, w1) := GetContent(w, id, Some(password), Missing, now, verify);
      var (w2, later) := ViewRepeatedly(w1, id, n - 1, password, now, verify);
      (w2, later + if reply.Content? then 1 else 0)
  }

  /** Views the link still allows: the limit minus the count, or none once
      the record is gone. */
  function Remaining(w: World, id: string): int
    requires id in w.store ==> w.store[id].maxDownloads.Some?
  {
    if id !in w.store then 0 else w.store[id].maxDownloads.value - w.store[id].currentDownloads
  }

  /** One view of a limited link, as the quota inductions need it: the
      record's counter moves by one exactly on success, and a live,
      unprotected link that is not one-time text succeeds below its limit
      and is deleted at it. */
  lemma QuotaStep(w: World, id: string, password: string, now: int, verify: Verifier)
    requires id in w.store && w.store[id].maxDownloads.Some?
    ensures var r := w.store[id];
      var (reply, w1) := GetContent(w, id, Some(password), Missing, now, verify);
      && (id in w1.store ==> w1.store[id] == r.(currentDownloads := r.currentDownloads + if reply.Content? then 1 else 0))
      && (!IsExpired(r, now) && !HasPassword(r) && !(r.kind == Text && r.oneTimeView) ==>
            if r.currentDownloads < r.maxDownloads.value then reply.Content? && id in w1.store else id !in w1.store)
  {
    var r := w.store[id];
    var pw := Trim(password);
    OpenView(w, id, Some(password), Missing, now, verify);
    ServeCounts(w, id, r, pw);
    if !IsExpired(r, now) && PasswordGate(r, pw, verify) == Open {
      assert GetContent(w, id, Some(password), Missing, now, verify) == Serve(w, id, r, pw);
    }
  }

  /** However many times a limited link is viewed in sequence, at most the
      remaining quota of views succeed. */
  lemma {:induction false} ViewsWithinQuota(w: World, id: string, n: nat, password: string, now: int, verify: Verifier)
    requires id in w.store ==> w.store[id].maxDownloads.Some? && WithinQuota(w.store[id])
    ensures ViewRepeatedly(w, id, n, password, now, verify).1 <= Remaining(w, id)
    decreases n
  {
    if n > 0 {
      var (reply, w1) := GetContent(w, id, Some(password), Missing, now, verify);
      if id in w.store {
        QuotaStep(w, id, password, now, verify);
      } else {
        assert w1 == w;
      }
      ViewsWithinQuota(w1, id, n - 1, password, now, verify);
    }
  }

  /** A live, unprotected link that is not one-time text serves exactly
      its remaining quota of views, and every later view is refused. */
  lemma {:induction false} ViewsExhaustQuota(w: World, id: string, n: nat, password: string, now: int, verify: Verifier)
    requires id in w.store
    requires var r := w.store[id];
      && r.maxDownloads.Some? && WithinQuota(r) && !IsExpired(r, now) && !HasPassword(r)
      && !(r.kind == Text && r.oneTimeView)
    ensures var used := ViewRepeatedly(w, id, n, password, now, verify).1;
      used == if n <= Remaining(w, id) then n else Remaining(w, id)
    decreases n
  {
    if n > 0 {
      var r := w.store[id];
      var (reply, w1) := GetContent(w, id, Some(password), Missing, now, verify);
      QuotaStep(w, id, password, now, verify);
      if r.currentDownloads < r.maxDownloads.value {
        ViewsExhaustQuota(w1, id, n - 1, password, now, verify);
      } else {
        assert id !in w1.store;
        ViewsWithinQuota(w1, id, n - 1, password, now, verify);
      }
    }
  }
}
