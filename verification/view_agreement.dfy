/**
 * The interleaved view process and the sequential `getContent` describe
 * the same handler: a view that runs with no other event between its
 * store calls leaves both stores as `GetContent` does, and replies with
 * success exactly when `GetContent` does.
 */
module ViewAgreement {
  import opened Wrappers
  import opened JsValues
  import opened UploadModel
  import opened Replies
  import opened UploadView
  import opened QuotaInterleaving

  /** Whether the handler's password check lets the view through; this is
      what a process's `admitted` flag abstracts. */
  predicate Admits(w: World, id: string, password: string, verify: Verifier) {
    id in w.store && PasswordGate(w.store[id], password, verify) == Open
  }

  /** A request arrives for `id` and its process makes four store calls
      in a row (the longest path: find, increment, delete, destroy). */
  function SoloEvents(id: string, admitted: bool, k: nat): seq<Event> {
    [Spawn(id, admitted), Step(k), Step(k), Step(k), Step(k)]
  }

  /** `Step(k)` applied `n` times. */
  function StepsOf(s: Sys, k: nat, n: nat): (s': Sys)
    requires Inv(s)
    ensures Inv(s')
    decreases n
  {
    if n == 0 then s
    else
      ApplyInv(s, Step(k));
      StepsOf(Apply(s, Step(k)), k, n - 1)
  }

  lemma {:induction false} RunSteps(s: Sys, k: nat, n: nat)
    requires Inv(s)
    ensures Run(s, seq(n, _ => Step(k))) == StepsOf(s, k, n)
    decreases n
  {
    if n > 0 {
      ApplyInv(s, Step(k));
      assert seq(n, _ => Step(k))[0] == Step(k);
      assert seq(n, _ => Step(k))[1..] == seq(n - 1, _ => Step(k));
      RunSteps(Apply(s, Step(k)), k, n - 1);
    }
  }

  /** One more step in front of the rest. */
  lemma StepsOfSucc(s: Sys, k: nat, n: nat)
    requires Inv(s)
    ensures Inv(Apply(s, Step(k)))
    ensures StepsOf(s, k, n + 1) == StepsOf(Apply(s, Step(k)), k, n)
  {
    ApplyInv(s, Step(k));
  }

  /** Once a process is done, further steps change nothing. */
  lemma {:induction false} DoneSteps(s: Sys, k: nat, n: nat)
    requires Inv(s) && k < |s.procs| && s.procs[k].pc.Done?
    ensures StepsOf(s, k, n) == s
    decreases n
  {
    if n > 0 {
      assert s.procs[k := s.procs[k]] == s.procs;
      assert Apply(s, Step(k)) == s;
      StepsOfSucc(s, k, n - 1);
      DoneSteps(s, k, n - 1);
    }
  }

  /** The first store call: the `findOne` and the checks on its result
      that touch no store (expiry, password). */
  lemma FindStep(s1: Sys, k: nat, id: string, admitted: bool)
    requires Inv(s1) && k == |s1.procs| - 1 && s1.procs[k] == Proc(id, admitted, None, AtFind)
    ensures var s2 := Apply(s1, Step(k));
      && Inv(s2) && |s2.procs| == k + 1
      && s2.store == s1.store && s2.blobs == s1.blobs
      && (id !in s1.store ==> s2.procs[k].pc == Done(false))
      && (id in s1.store ==>
            var d := s1.store[id];
            s2.procs[k] ==
              if s1.clock > d.expiresAt then Proc(id, admitted, Some(d), AtExpiredDelete)
              else if !admitted then Proc(id, admitted, Some(d), Done(false))
              else Proc(id, admitted, Some(d), AtIncrement))
  {
    ApplyInv(s1, Step(k));
    assert ProcOk(s1, s1.procs[k]);
  }

  /** Lazy expiry: the record goes, then (for a file with a URL) its blob. */
  lemma ExpiredSteps(s2: Sys, k: nat, id: string, admitted: bool, d: Record)
    requires Inv(s2) && k == |s2.procs| - 1 && s2.procs[k] == Proc(id, admitted, Some(d), AtExpiredDelete)
    ensures var s' := StepsOf(s2, k, 3);
      && |s'.procs| == k + 1 && s'.procs[k].pc == Done(false)
      && s'.store == s2.store - {id}
      && s'.blobs == if d.kind == File && HasFileUrl(d) then s2.blobs - {BlobKey(id)} else s2.blobs
  {
    StepsOfSucc(s2, k, 2);
    var s3 := Apply(s2, Step(k));
    assert ProcOk(s2, s2.procs[k]);
    assert s3.store == s2.store - {id} && s3.blobs == s2.blobs && |s3.procs| == k + 1;
    StepsOfSucc(s3, k, 1);
    if d.kind == File && HasFileUrl(d) {
      assert s3.procs[k] == Proc(id, admitted, Some(d), AtExpiredDestroy);
      var s4 := Apply(s3, Step(k));
      assert ProcOk(s3, s3.procs[k]);
      assert s4.blobs == s2.blobs - {BlobKey(id)} && s4.store == s3.store && s4.procs[k].pc == Done(false);
      DoneSteps(s4, k, 1);
    } else {
      DoneSteps(s3, k, 2);
    }
  }

  /** The view process, run alone on a system whose store, blobs and
      clock are the handler's, ends where `GetContent` ends. */
  lemma SoloViewAgrees(w: World, s: Sys, id: string, query: Option<string>, body: FormField, now: int, verify: Verifier)
    requires Inv(s) && s.store == w.store && s.blobs == w.blobs && s.clock == now
    requires SuppliedPassword(query, body).Some?
    ensures var admitted := Admits(w, id, SuppliedPassword(query, body).value, verify);
      var s' := Run(s, SoloEvents(id, admitted, |s.procs|));
      var (reply, w') := GetContent(w, id, query, body, now, verify);
      && |s'.procs| == |s.procs| + 1
      && s'.procs[|s.procs|].pc == Done(reply.Content?)
      && s'.store == w'.store && s'.blobs == w'.blobs
  {
    var password := SuppliedPassword(query, body).value;
    var admitted := Admits(w, id, password, verify);
    var k := |s.procs|;
    var evs := SoloEvents(id, admitted, k);
    var s1 := Apply(s, Spawn(id, admitted));
    ApplyInv(s, Spawn(id, admitted));
    assert evs[0] == Spawn(id, admitted) && evs[1..] == seq(4, _ => Step(k));
    RunSteps(s1, k, 4);
    assert Run(s, evs) == StepsOf(s1, k, 4);
    assert s1.procs[k] == Proc(id, admitted, None, AtFind) && |s1.procs| == k + 1;
    SoloFromFind(w, s1, k, id, query, body, admitted, now, verify);
  }

  /** The four steps from the process's first store call. */
  lemma SoloFromFind(w: World, s1: Sys, k: nat, id: string, query: Option<string>, body: FormField, admitted: bool, now: int, verify: Verifier)
    requires Inv(s1) && s1.store == w.store && s1.blobs == w.blobs && s1.clock == now
    requires k == |s1.procs| - 1 && s1.procs[k] == Proc(id, admitted, None, AtFind)
    requires SuppliedPassword(query, body).Some?
    requires admitted == Admits(w, id, SuppliedPassword(query, body).value, verify)
    ensures var s' := StepsOf(s1, k, 4);
      var (reply, w') := GetContent(w, id, query, body, now, verify);
      && |s'.procs| == k + 1
      && s'.procs[k].pc == Done(reply.Content?)
      && s'.store == w'.store && s'.blobs == w'.blobs
  {
    var password := SuppliedPassword(query, body).value;
    FindStep(s1, k, id, admitted);
    StepsOfSucc(s1, k, 3);
    GetContentCases(w, id, query, body, now, verify);
    var s2 := Apply(s1, Step(k));
    if id !in w.store || (!IsExpired(w.store[id], now) && !admitted) {
      DoneSteps(s2, k, 3);
    } else if IsExpired(w.store[id], now) {
      ExpiredSteps(s2, k, id, admitted, w.store[id]);
    } else {
      SoloFromIncrement(w, s2, k, id, admitted, w.store[id], password);
    }
  }

  /** `GetContent` by cases, once the password is read. */
  lemma GetContentCases(w: World, id: string, query: Option<string>, body: FormField, now: int, verify: Verifier)
    requires SuppliedPassword(query, body).Some?
    ensures var password := SuppliedPassword(query, body).value;
      var (reply, w') := GetContent(w, id, query, body, now, verify);
      && (id !in w.store ==> !reply.Content? && w' == w)
      && (id in w.store && IsExpired(w.store[id], now) ==>
            var r := w.store[id];
            !reply.Content? && w' == Purge(w, id, r.kind == File && HasFileUrl(r)))
      && (id in w.store && !IsExpired(w.store[id], now) && !Admits(w, id, password, verify) ==>
            !reply.Content? && w' == w)
      && (id in w.store && !IsExpired(w.store[id], now) && Admits(w, id, password, verify) ==>
            (reply, w') == Serve(w, id, w.store[id], password))
  {
  }

  /** The counting step and whatever follows it, against `Serve`. */
  lemma SoloFromIncrement(w: World, s2: Sys, k: nat, id: string, admitted: bool, r: Record, password: string)
    requires Inv(s2) && s2.store == w.store && s2.blobs == w.blobs
    requires id in w.store && w.store[id] == r
    requires k == |s2.procs| - 1 && s2.procs[k] == Proc(id, admitted, Some(r), AtIncrement)
    ensures var s' := StepsOf(s2, k, 3);
      var (reply, w') := Serve(w, id, r, password);
      && |s'.procs| == k + 1
      && s'.procs[k].pc == Done(reply.Content?)
      && s'.store == w'.store && s'.blobs == w'.blobs
  {
    IncrementStep(w, s2, k, id, admitted, r);
    StepsOfSucc(s2, k, 2);
    ServeCases(w, id, r, password);
    var s3 := Apply(s2, Step(k));
    if r.maxDownloads.Some? && r.currentDownloads >= r.maxDownloads.value {
      RejectSteps(s3, k, id, admitted, r);
    } else if r.kind == Text && r.oneTimeView {
      BurnStep(s3, k, id);
      StepsOfSucc(s3, k, 1);
      DoneSteps(Apply(s3, Step(k)), k, 1);
    } else {
      DoneSteps(s3, k, 2);
    }
  }

  /** `Serve` by cases: refused at the limit, otherwise served with the
      counter raised and one-time text removed. */
  lemma ServeCases(w: World, id: string, r: Record, password: string)
    requires id in w.store && w.store[id] == r
    ensures var (reply, w') := Serve(w, id, r, password);
      var bumped := r.(currentDownloads := r.currentDownloads + 1);
      if r.maxDownloads.Some? && r.currentDownloads >= r.maxDownloads.value then
        !reply.Content? && w' == Purge(w, id, r.kind == File)
      else
        && reply.Content? && w'.blobs == w.blobs
        && w'.store == if r.kind == Text && r.oneTimeView then w.store[id := bumped] - {id} else w.store[id := bumped]
  {
  }

  /** The conditional (or plain) increment, run with the store as read. */
  lemma IncrementStep(w: World, s2: Sys, k: nat, id: string, admitted: bool, r: Record)
    requires Inv(s2) && s2.store == w.store && s2.blobs == w.blobs
    requires id in w.store && w.store[id] == r
    requires k == |s2.procs| - 1 && s2.procs[k] == Proc(id, admitted, Some(r), AtIncrement)
    ensures var s3 := Apply(s2, Step(k));
      && Inv(s3) && |s3.procs| == k + 1 && s3.blobs == w.blobs
      && if r.maxDownloads.Some? && r.currentDownloads >= r.maxDownloads.value then
           s3.store == w.store && s3.procs[k] == Proc(id, admitted, Some(r), AtRejectDelete)
         else
           && s3.store == w.store[id := r.(currentDownloads := r.currentDownloads + 1)]
           && s3.procs[k].id == id
           && s3.procs[k].pc == (if r.kind == Text && r.oneTimeView then AtBurn else Done(true))
  {
    ApplyInv(s2, Step(k));
    assert ProcOk(s2, s2.procs[k]);
  }

  /** A refused count deletes the record, then a file's blob. */
  lemma RejectSteps(s3: Sys, k: nat, id: string, admitted: bool, r: Record)
    requires Inv(s3) && k == |s3.procs| - 1 && s3.procs[k] == Proc(id, admitted, Some(r), AtRejectDelete)
    ensures var s' := StepsOf(s3, k, 2);
      && |s'.procs| == k + 1 && s'.procs[k].pc == Done(false)
      && s'.store == s3.store - {id}
      && s'.blobs == if r.kind == File then s3.blobs - {BlobKey(id)} else s3.blobs
  {
    StepsOfSucc(s3, k, 1);
    var s4 := Apply(s3, Step(k));
    assert ProcOk(s3, s3.procs[k]);
    assert s4.store == s3.store - {id} && s4.blobs == s3.blobs && |s4.procs| == k + 1;
    if r.kind == File {
      assert s4.procs[k] == Proc(id, admitted, Some(r), AtRejectDestroy);
      StepsOfSucc(s4, k, 0);
      assert ProcOk(s4, s4.procs[k]);
    } else {
      DoneSteps(s4, k, 1);
    }
  }

  /** Burning one-time text removes the record and ends the view. */
  lemma BurnStep(s3: Sys, k: nat, id: string)
    requires Inv(s3) && k == |s3.procs| - 1 && s3.procs[k].id == id && s3.procs[k].pc == AtBurn
    ensures var s4 := Apply(s3, Step(k));
      && Inv(s4) && |s4.procs| == k + 1 && s4.procs[k].pc == Done(true)
      && s4.store == s3.store - {id} && s4.blobs == s3.blobs
  {
    ApplyInv(s3, Step(k));
    assert ProcOk(s3, s3.procs[k]);
  }
}
