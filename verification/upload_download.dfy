/**
 * `downloadContent`: the secure download proxy. It repeats the existence,
 * expiry and password checks of the view, refuses text records, never
 * touches the counter, and for a one-time file deletes the record and
 * blob once the response has ended. The cleanup is wired to both the
 * `finish` and the `close` event of the response and guarded by a flag.
 */
module UploadDownload {
  import opened Wrappers
  import opened JsText
  import opened UploadModel
  import opened Replies
  import opened UploadView

  /** The download handler. `query` is the query-string password when it
      is a string; `fetchOk` whether fetching the blob URL succeeds. The
      handler itself writes nothing: the reply says whether a one-shot
      cleanup was armed. */
  function Download(store: map<string, Record>, id: string, query: Option<string>, now: int, verify: Verifier, fetchOk: bool): (r: Reply)
    ensures r.Stream? ==>
      && id in store && !IsExpired(store[id], now) && store[id].kind == File
      && store[id].fileUrl == Some(r.url) && r.fileName == store[id].originalName
      && r.oneShotCleanup == store[id].oneTimeView
  {
    var password := if query.Some? then Trim(query.value) else "";
    if id !in store then Failed(403, MsgInvalidLink)
    else
      var data := store[id];
      if IsExpired(data, now) then Failed(403, MsgLinkExpired)
      else if data.kind != File then Failed(400, MsgNotAFile)
      else match PasswordGate(data, password, verify)
        case NeedPassword => Failed(401, MsgDownloadPasswordRequired)
        case WrongPassword => Failed(403, MsgWrongPassword)
        case Open =>
          match data.fileUrl
          // unreachable for well-formed file records; without a URL the
          // request has nothing to fetch and fails like a failed fetch
          case None => Failed(500, "")
          case Some(url) =>
            if !fetchOk then Failed(500, "")
            else Stream(url, data.originalName, data.oneTimeView)
  }

  /** The refusals of the download: a missing link, an expired one (which
      stays in the store), a text record, and a failed password check. */
  lemma DownloadRefusals(store: map<string, Record>, id: string, password: string, now: int, verify: Verifier, fetchOk: bool)
    ensures id !in store ==> Download(store, id, Some(password), now, verify, fetchOk) == Failed(403, MsgInvalidLink)
    ensures id in store && IsExpired(store[id], now) ==>
      Download(store, id, Some(password), now, verify, fetchOk) == Failed(403, MsgLinkExpired)
    ensures id in store && !IsExpired(store[id], now) && store[id].kind == Text ==>
      Download(store, id, Some(password), now, verify, fetchOk) == Failed(400, MsgNotAFile)
    ensures id in store && !IsExpired(store[id], now) && store[id].kind == File && HasPassword(store[id]) ==>
      var reply := Download(store, id, Some(password), now, verify, fetchOk);
      && (Trim(password) == "" ==> reply == Failed(401, MsgDownloadPasswordRequired))
      && (Trim(password) != "" && !verify(Trim(password), store[id].password.value) ==> reply == Failed(403, MsgWrongPassword))
  {
  }

  /** A view's proxy link, followed with the same password, passes the
      download's password check: both handlers trim the same string. */
  lemma ViewPasswordOpensDownload(r: Record, password: string, verify: Verifier)
    requires PasswordGate(r, Trim(password), verify) == Open
    ensures PasswordGate(r, Trim(Trim(password)), verify) == Open
  {
    TrimUnpadded(Trim(password));
  }

  /** The response events the cleanup listens to. */
  datatype StreamEvent = Finish | Close

  /** What the cleanup did: the stores afterwards, the guard flag, and how
      many times its body ran (each run issues one record delete and one
      blob destroy, failures swallowed). */
  datatype Cleanup = Cleanup(world: World, cleaned: bool, runs: nat)

  function OnEvent(c: Cleanup, id: string): (c': Cleanup)
    ensures c'.cleaned
    ensures c'.runs == c.runs + (if c.cleaned then 0 else 1)
  {
    if c.cleaned then c
    else Cleanup(Purge(c.world, id, true), true, c.runs + 1)
  }

  function Deliver(c: Cleanup, id: string, events: seq<StreamEvent>): Cleanup
    decreases |events|
  {
    if |events| == 0 then c else Deliver(OnEvent(c, id), id, events[1..])
  }

  /** However the two events arrive (one, both, either order, repeated),
      the cleanup body runs exactly once if any event arrives, and leaves
      neither the record nor its blob; the counters of other records are
      untouched. */
  lemma {:induction false} CleanupRunsOnce(w: World, id: string, events: seq<StreamEvent>)
    ensures var c := Deliver(Cleanup(w, false, 0), id, events);
      && c.runs == (if |events| == 0 then 0 else 1)
      && c.world == (if |events| == 0 then w else Purge(w, id, true))
  {
    if |events| > 0 {
      AlreadyCleaned(Cleanup(Purge(w, id, true), true, 1), id, events[1..]);
    }
  }

  /** Once the guard is set, further events change nothing. */
  lemma {:induction false} AlreadyCleaned(c: Cleanup, id: string, events: seq<StreamEvent>)
    requires c.cleaned
    ensures Deliver(c, id, events) == c
    decreases |events|
  {
    if |events| > 0 {
      AlreadyCleaned(OnEvent(c, id), id, events[1..]);
    }
  }

  /** The whole download, cleanup included, never changes any counter:
      every record left in the store is the one that was there. */
  lemma DownloadKeepsCounters(w: World, id: string, events: seq<StreamEvent>)
    ensures var w' := Deliver(Cleanup(w, false, 0), id, events).world;
      forall k | k in w'.store :: k in w.store && w'.store[k] == w.store[k]
  {
    CleanupRunsOnce(w, id, events);
  }

  /** The cleanup keeps the stores consistent. */
  lemma CleanupConsistent(w: World, id: string, events: seq<StreamEvent>)
    requires Consistent(w)
    ensures Consistent(Deliver(Cleanup(w, false, 0), id, events).world)
  {
    CleanupRunsOnce(w, id, events);
    var w' := Deliver(Cleanup(w, false, 0), id, events).world;
    forall k | k in w'.store && w'.store[k].kind == File
      ensures BlobKey(k) in w'.blobs
    {
      if BlobKey(k) == BlobKey(id) { BlobKeyInjective(k, id); }
    }
  }
}
