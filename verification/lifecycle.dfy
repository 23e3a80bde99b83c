/**
 * Whole-life properties of a link that tie the handlers together: the
 * blob a file upload stores is the one the reaper later destroys, and a
 * one-time text link can be read once.
 */
module Lifecycle {
  import opened Wrappers
  import opened JsText
  import opened JsValues
  import opened UploadModel
  import opened Replies
  import opened UploadCreate
  import opened UploadView
  import opened Reaper

  /** An expired file record that the sweep's scan covers is removed
      together with its blob by a sweep that meets no failure. */
  lemma ExpiredFileIsReaped(w: World, id: string, later: int, scan: seq<string>)
    requires id in w.store && w.store[id].uniqueId == id && w.store[id].kind == File && id != ""
    requires w.store[id].expiresAt < later
    requires Distinct(scan) && forall k | k in w.store :: k in scan
    ensures var w' := Sweep(w, later, scan, {}, NoFault);
      id !in w'.store && BlobKey(id) !in w'.blobs
  {
    SweepRemovesExpired(w, later, scan, {});
    assert DestroysBlob(w.store[id]);
  }

  /** A file link created at `env.now`, once its expiry has passed, is
      removed together with its blob by a sweep that meets no failure:
      upload and sweep name the blob by the same key. */
  lemma CreatedFileIsReaped(w: World, req: CreateRequest, env: CreateEnv, later: int, scan: seq<string>)
    requires EnvReady(w.store, env)
    requires req.file.Some?
    ensures var (reply, w1) := UploadContent(w, req, env);
      reply.Created? && later > reply.expiresAt && Distinct(scan) && (forall k | k in w1.store :: k in scan) ==>
        && BlobKey(reply.uniqueId) in w1.blobs
        && var w2 := Sweep(w1, later, scan, {}, NoFault);
           reply.uniqueId !in w2.store && BlobKey(reply.uniqueId) !in w2.blobs
  {
    var (reply, w1) := UploadContent(w, req, env);
    CreatedRecord(w, req, env);
    UploadContentStore(w, req, env);
    if reply.Created? && later > reply.expiresAt && Distinct(scan) && (forall k | k in w1.store :: k in scan) {
      ExpiredFileIsReaped(w1, reply.uniqueId, later, scan);
    }
  }

  /** A text link, stored one-time and unprotected, is shown on the first
      view and refused as gone on the second. */
  lemma OneTimeTextReadOnce(w: World, id: string, now: int, verify: Verifier)
    requires id in w.store
    requires var r := w.store[id];
      && r.kind == Text && r.oneTimeView && r.maxDownloads == Some(1) && r.currentDownloads == 0
      && !IsExpired(r, now) && !HasPassword(r)
    ensures var (first, w1) := GetContent(w, id, None, Missing, now, verify);
      && first.Content? && first.view.textContent == w.store[id].textContent
      && GetContent(w1, id, None, Missing, now, verify).0 == Failed(403, MsgLinkGone)
  {
    ViewBurnsOneTimeText(w, id, None, Missing, now, verify);
    ViewReplyShape(w, id, None, Missing, now, verify);
  }

  /** A protected link cannot be read without its password, and reading
      it with the right one shows it. */
  lemma PasswordGuardsView(w: World, id: string, password: string, now: int, verify: Verifier)
    requires id in w.store
    requires !IsExpired(w.store[id], now) && HasPassword(w.store[id])
    requires w.store[id].maxDownloads.None? || w.store[id].currentDownloads < w.store[id].maxDownloads.value
    ensures GetContent(w, id, None, Missing, now, verify) == (Failed(401, MsgPasswordRequired), w)
    ensures password != "" && password == Trim(password) && verify(password, w.store[id].password.value) ==>
      GetContent(w, id, Some(password), Missing, now, verify).0.Content?
  {
  }
}
