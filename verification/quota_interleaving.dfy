/**
 * The quota invariant under concurrency. Every running `getContent` is a
 * process that performs its store calls one atomic step at a time (find,
 * conditional or plain increment, deletes, blob destroys); between any two
 * of its steps other views, creations, deletions and sweeps may run. Over
 * every interleaving, no stored counter passes its limit, and the views
 * that succeed on a limited link never outnumber its limit.
 *
 * Ids are assumed never to be issued twice. Creation only checks the
 * live store, so an id could in principle return after its record was
 * deleted; a view still holding the old document would then apply the
 * old limit to the new record.
 */
module QuotaInterleaving {
  import opened Wrappers
  import opened UploadModel

  /** Where a view process stands: before its next store call, or done
      with the reply's outcome. */
  datatype Pc =
    | AtFind
    | AtExpiredDelete | AtExpiredDestroy
    | AtIncrement
    | AtRejectDelete | AtRejectDestroy
    | AtBurn
    | Done(ok: bool)

  /** A view of link `id`; `admitted` abstracts the password check (it
      touches no store); `snap` is the document the process holds. */
  datatype Proc = Proc(id: string, admitted: bool, snap: Option<Record>, pc: Pc)

  datatype Sys = Sys(
    store: map<string, Record>,
    blobs: set<string>,
    clock: int,
    issued: map<string, Option<int>>,  // every id ever created, with its limit
    granted: map<string, nat>,         // successful conditional increments per id
    served: map<string, nat>,          // successful views per id
    procs: seq<Proc>)

  datatype Event =
    | Spawn(id: string, admitted: bool)   // a view request arrives
    | Step(i: nat)                        // process i performs its next store call
    | Tick(now: int)                      // the clock moves
    | Create(r: Record)                   // an upload writes a new record
    | Remove(id: string)                  // a delete, sweep or download cleanup removes a record
    | Destroy(key: string)                // ... or a blob

  function Init(): Sys {
    Sys(map[], {}, 0, map[], map[], map[], [])
  }

  /** Whether the process holds a document at this point. */
  predicate HoldsSnapshot(pc: Pc) {
    !pc.AtFind? && !pc.Done?
  }

  /** The step a process with document `d` takes after a successful count. */
  function AfterCount(d: Record): Pc {
    if d.kind == Text && d.oneTimeView then AtBurn else Done(true)
  }

  function Bump(m: map<string, nat>, id: string): map<string, nat>
    requires id in m
  {
    m[id := m[id] + 1]
  }

  /** One atomic step of process `p` on the stores. */
  function Advance(s: Sys, p: Proc): (Sys, Proc)
    requires HoldsSnapshot(p.pc) ==> p.snap.Some?
    requires p.pc.AtBurn? ==> p.id in s.served
    requires p.pc.AtIncrement? && p.snap.value.maxDownloads.Some? && p.id in s.store ==> p.id in s.granted && p.id in s.served
    requires p.pc.AtIncrement? && p.snap.value.maxDownloads.None? ==> p.id in s.served
  {
    match p.pc
    case AtFind =>
      if p.id !in s.store then (s, p.(pc := Done(false)))
      else
        var d := s.store[p.id];
        if s.clock > d.expiresAt then (s, p.(snap := Some(d), pc := AtExpiredDelete))
        else if !p.admitted then (s, p.(snap := Some(d), pc := Done(false)))
        else (s, p.(snap := Some(d), pc := AtIncrement))
    case AtExpiredDelete =>
      var d := p.snap.value;
      (s.(store := s.store - {p.id}), p.(pc := if d.kind == File && HasFileUrl(d) then AtExpiredDestroy else Done(false)))
    case AtExpiredDestroy =>
      (s.(blobs := s.blobs - {BlobKey(p.id)}), p.(pc := Done(false)))
    case AtIncrement =>
      var d := p.snap.value;
      (match d.maxDownloads
       case Some(m) =>
         // findOneAndUpdate({ uniqueId, currentDownloads: { $lt: m } }, { $inc: 1 })
         if p.id in s.store && s.store[p.id].currentDownloads < m then
           var updated := s.store[p.id].(currentDownloads := s.store[p.id].currentDownloads + 1);
           var next := AfterCount(updated);
           var s1 := s.(store := s.store[p.id := updated], granted := Bump(s.granted, p.id));
           (if next.Done? then s1.(served := Bump(s.served, p.id)) else s1, p.(snap := Some(updated), pc := next))
         else (s, p.(pc := AtRejectDelete))
       case None =>
         // updateOne({ uniqueId }, { $inc: 1 }); the handler keeps its old document
         var s1 := if p.id in s.store
           then s.(store := s.store[p.id := s.store[p.id].(currentDownloads := s.store[p.id].currentDownloads + 1)])
           else s;
         var next := AfterCount(d);
         (if next.Done? then s1.(served := Bump(s.served, p.id)) else s1, p.(pc := next)))
    case AtRejectDelete =>
      (s.(store := s.store - {p.id}), p.(pc := if p.snap.value.kind == File then AtRejectDestroy else Done(false)))
    case AtRejectDestroy =>
      (s.(blobs := s.blobs - {BlobKey(p.id)}), p.(pc := Done(false)))
    case AtBurn =>
      (s.(store := s.store - {p.id}, served := Bump(s.served, p.id)), p.(pc := Done(true)))
    case Done(_) => (s, p)
  }

  /** Processes past the counting step of `id` that have not yet replied. */
  function Pending(procs: seq<Proc>, id: string): nat {
    if |procs| == 0 then 0
    else Pending(procs[..|procs| - 1], id) + PendingOne(procs[|procs| - 1], id)
  }

  function PendingOne(p: Proc, id: string): nat {
    if p.id == id && p.pc.AtBurn? then 1 else 0
  }

  lemma {:induction false} PendingUpdate(procs: seq<Proc>, i: nat, p: Proc, id: string)
    requires i < |procs|
    ensures Pending(procs[i := p], id) + PendingOne(procs[i], id) == Pending(procs, id) + PendingOne(p, id)
    decreases |procs|
  {
    var last := |procs| - 1;
    if i < last {
      assert procs[i := p][..last] == procs[..last][i := p];
      PendingUpdate(procs[..last], i, p, id);
    } else {
      assert procs[i := p][..last] == procs[..last];
    }
  }

  lemma PendingAppend(procs: seq<Proc>, p: Proc, id: string)
    ensures Pending(procs + [p], id) == Pending(procs, id) + PendingOne(p, id)
  {
    assert (procs + [p])[..|procs|] == procs;
  }

  /** What each process may assume about its own document. */
  predicate ProcOk(s: Sys, p: Proc) {
    && (HoldsSnapshot(p.pc) ==> p.snap.Some?)
    && (p.snap.Some? ==> p.id in s.issued && p.snap.value.maxDownloads == s.issued[p.id])
  }

  /** The system invariant, in three parts. */
  predicate KeysOk(s: Sys) {
    s.granted.Keys == s.issued.Keys && s.served.Keys == s.issued.Keys
  }

  /** Each stored record was issued with the limit it carries, and a
      limited record's counter is the number of granted increments. */
  predicate StoreOk(s: Sys)
    requires KeysOk(s)
  {
    forall id | id in s.store ::
      && id in s.issued
      && s.store[id].maxDownloads == s.issued[id]
      && (s.issued[id].Some? ==> s.store[id].currentDownloads == s.granted[id])
  }

  /** The increments granted on a limited link stay within its limit, and
      each one is a view that has replied or is about to. */
  predicate QuotaOk(s: Sys)
    requires KeysOk(s)
  {
    forall id | id in s.issued && s.issued[id].Some? ::
      && s.granted[id] <= s.issued[id].value
      && s.served[id] + Pending(s.procs, id) == s.granted[id]
  }

  predicate Inv(s: Sys) {
    && KeysOk(s)
    && StoreOk(s)
    && QuotaOk(s)
    && (forall i | 0 <= i < |s.procs| :: ProcOk(s, s.procs[i]))
  }

  lemma InitInv()
    ensures Inv(Init())
  {
  }

  function Apply(s: Sys, e: Event): Sys
    requires Inv(s)
  {
    match e
    case Spawn(id, admitted) => s.(procs := s.procs + [Proc(id, admitted, None, AtFind)])
    case Step(i) =>
      if i >= |s.procs| then s
      else
        assert ProcOk(s, s.procs[i]);
        var (s1, p) := Advance(s, s.procs[i]);
        s1.(procs := s.procs[i := p])
    case Tick(now) => s.(clock := now)
    case Create(r) =>
      // the record the upload saves: fresh id, no views yet, schema-valid
      if r.uniqueId in s.issued || r.currentDownloads != 0 || !SchemaValid(r) then s
      else
        s.(store := s.store[r.uniqueId := r],
           blobs := if r.kind == File then s.blobs + {BlobKey(r.uniqueId)} else s.blobs,
           issued := s.issued[r.uniqueId := r.maxDownloads],
           granted := s.granted[r.uniqueId := 0],
           served := s.served[r.uniqueId := 0])
    case Remove(id) => s.(store := s.store - {id})
    case Destroy(key) => s.(blobs := s.blobs - {key})
  }

  /** `s1` differs from `s` at most in the link `id` (and the blobs and
      clock, which the invariant does not mention). */
  predicate Frame(s: Sys, s1: Sys, id: string) {
    && s1.issued == s.issued && s1.procs == s.procs
    && s1.granted.Keys == s.granted.Keys && s1.served.Keys == s.served.Keys
    && (forall k | k in s.granted && k != id :: s1.granted[k] == s.granted[k])
    && (forall k | k in s.served && k != id :: s1.served[k] == s.served[k])
    && s1.store.Keys - {id} == s.store.Keys - {id}
    && (forall k | k in s.store && k != id :: k in s1.store && s1.store[k] == s.store[k])
  }

  /** One step of process `p` only touches `p`'s own link. */
  lemma AdvanceFrame(s: Sys, p: Proc)
    requires KeysOk(s) && ProcOk(s, p)
    requires p.id in s.store ==> p.id in s.issued && s.store[p.id].maxDownloads == s.issued[p.id]
    ensures var (s1, p') := Advance(s, p);
      && Frame(s, s1, p.id) && p'.id == p.id && ProcOk(s1, p')
      && (p.id in s1.store ==> p.id in s.store && s1.store[p.id].maxDownloads == s.store[p.id].maxDownloads)
  {
    match p.pc
    case AtFind =>
    case AtExpiredDelete =>
    case AtExpiredDestroy =>
    case AtIncrement =>
      if p.snap.value.maxDownloads.Some? {
        assert p.id in s.store ==> p.id in s.granted;
      }
    case AtRejectDelete =>
    case AtRejectDestroy =>
    case AtBurn =>
    case Done(_) =>
  }

  /** The same step, seen from `p`'s own link when it is limited: granted
      and served counts move in step with `p`'s progress. */
  lemma AdvanceOwnLink(s: Sys, p: Proc)
    requires KeysOk(s) && ProcOk(s, p)
    requires p.id in s.issued && s.issued[p.id].Some?
    requires p.id in s.store ==> s.store[p.id].maxDownloads == s.issued[p.id] && s.store[p.id].currentDownloads == s.granted[p.id]
    requires s.granted[p.id] <= s.issued[p.id].value
    ensures var (s1, p') := Advance(s, p);
      var m := s.issued[p.id].value;
      && p.id in s1.granted && p.id in s1.served
      && s1.granted[p.id] <= m
      && s1.served[p.id] + PendingOne(p', p.id) == s.served[p.id] + PendingOne(p, p.id) + (s1.granted[p.id] - s.granted[p.id])
      && (p.id in s1.store ==> s1.store[p.id].maxDownloads == s.issued[p.id]
                                && s1.store[p.id].currentDownloads == s1.granted[p.id])
  {
    AdvanceFrame(s, p);
    match p.pc
    case AtFind =>
    case AtExpiredDelete =>
    case AtExpiredDestroy =>
    case AtIncrement =>
      assert p.snap.value.maxDownloads == s.issued[p.id];
    case AtRejectDelete =>
    case AtRejectDestroy =>
    case AtBurn =>
    case Done(_) =>
  }

  /** The store part of the invariant survives any change confined to one
      link that keeps that link's limit and counter in order. */
  lemma StoreOkFrame(s: Sys, s1: Sys, pid: string)
    requires KeysOk(s) && StoreOk(s) && Frame(s, s1, pid)
    requires pid in s1.store ==> pid in s.store && s1.store[pid].maxDownloads == s.store[pid].maxDownloads
    requires pid in s1.store && s.issued[pid].Some? ==> s1.store[pid].currentDownloads == s1.granted[pid]
    ensures KeysOk(s1) && StoreOk(s1)
  {
    forall id | id in s1.store
      ensures id in s1.issued && s1.store[id].maxDownloads == s1.issued[id]
      ensures s1.issued[id].Some? ==> s1.store[id].currentDownloads == s1.granted[id]
    {
      if id != pid {
        assert id in s1.store.Keys - {pid};
        assert id in s.store && s1.store[id] == s.store[id];
      }
    }
  }

  /** Advancing one process keeps the store part of the invariant. */
  lemma StepStoreOk(s: Sys, i: nat)
    requires Inv(s) && i < |s.procs|
    ensures KeysOk(Apply(s, Step(i))) && StoreOk(Apply(s, Step(i)))
  {
    var p := s.procs[i];
    assert ProcOk(s, p);
    var (s1, p') := Advance(s, p);
    AdvanceFrame(s, p);
    if p.id in s.issued && s.issued[p.id].Some? {
      AdvanceOwnLink(s, p);
    }
    StoreOkFrame(s, s1, p.id);
    var s' := Apply(s, Step(i));
    assert s' == s1.(procs := s.procs[i := p']);
  }

  /** Advancing one process keeps the quota part of the invariant. */
  lemma StepQuotaOk(s: Sys, i: nat)
    requires Inv(s) && i < |s.procs|
    ensures KeysOk(Apply(s, Step(i))) && QuotaOk(Apply(s, Step(i)))
  {
    var p := s.procs[i];
    assert ProcOk(s, p);
    var (s1, p') := Advance(s, p);
    var s' := Apply(s, Step(i));
    assert s'.procs == s.procs[i := p'] && s'.issued == s1.issued && s'.granted == s1.granted && s'.served == s1.served;
    AdvanceFrame(s, p);
    if p.id in s.issued && s.issued[p.id].Some? {
      AdvanceOwnLink(s, p);
    }
    forall id | id in s'.issued && s'.issued[id].Some?
      ensures s'.granted[id] <= s'.issued[id].value
      ensures s'.served[id] + Pending(s'.procs, id) == s'.granted[id]
    {
      PendingUpdate(s.procs, i, p', id);
      if id != p.id {
        assert PendingOne(p, id) == 0 && PendingOne(p', id) == 0;
      }
    }
  }

  /** Advancing one process keeps every process's view of its document. */
  lemma StepProcsOk(s: Sys, i: nat)
    requires Inv(s) && i < |s.procs|
    ensures forall j | 0 <= j < |Apply(s, Step(i)).procs| :: ProcOk(Apply(s, Step(i)), Apply(s, Step(i)).procs[j])
  {
    var p := s.procs[i];
    assert ProcOk(s, p);
    var (s1, p') := Advance(s, p);
    var s' := Apply(s, Step(i));
    assert s' == s1.(procs := s.procs[i := p']);
    AdvanceFrame(s, p);
    forall j | 0 <= j < |s'.procs|
      ensures ProcOk(s', s'.procs[j])
    {
      if j != i {
        assert ProcOk(s, s.procs[j]);
      }
    }
  }

  lemma StepInv(s: Sys, i: nat)
    requires Inv(s) && i < |s.procs|
    ensures Inv(Apply(s, Step(i)))
  {
    StepStoreOk(s, i);
    StepQuotaOk(s, i);
    StepProcsOk(s, i);
  }

  /** No view of an id that was never issued can be past its count. */
  lemma {:induction false} PendingNotIssued(s: Sys, procs: seq<Proc>, id: string)
    requires id !in s.issued
    requires forall j | 0 <= j < |procs| :: ProcOk(s, procs[j])
    ensures Pending(procs, id) == 0
    decreases |procs|
  {
    if |procs| > 0 {
      assert ProcOk(s, procs[|procs| - 1]);
      PendingNotIssued(s, procs[..|procs| - 1], id);
    }
  }

  lemma ApplyInv(s: Sys, e: Event)
    requires Inv(s)
    ensures Inv(Apply(s, e))
  {
    match e
    case Step(i) =>
      if i < |s.procs| {
        StepInv(s, i);
      }
    case Spawn(id, admitted) =>
      var p := Proc(id, admitted, None, AtFind);
      forall id' ensures Pending(s.procs + [p], id') == Pending(s.procs, id') {
        PendingAppend(s.procs, p, id');
      }
      var s' := Apply(s, e);
      forall j | 0 <= j < |s'.procs|
        ensures ProcOk(s', s'.procs[j])
      {
        if j < |s.procs| {
          assert ProcOk(s, s.procs[j]);
        }
      }
    case Create(r) =>
      var s' := Apply(s, e);
      if r.uniqueId !in s.issued {
        PendingNotIssued(s, s.procs, r.uniqueId);
      }
      forall j | 0 <= j < |s'.procs|
        ensures ProcOk(s', s'.procs[j])
      {
        assert ProcOk(s, s.procs[j]);
      }
    case _ =>
      var s' := Apply(s, e);
      forall j | 0 <= j < |s'.procs|
        ensures ProcOk(s', s'.procs[j])
      {
        assert ProcOk(s, s.procs[j]);
      }
  }

  function Run(s: Sys, events: seq<Event>): Sys
    requires Inv(s)
    decreases |events|
  {
    if |events| == 0 then s
    else
      ApplyInv(s, events[0]);
      Run(Apply(s, events[0]), events[1..])
  }

  lemma {:induction false} RunInv(s: Sys, events: seq<Event>)
    requires Inv(s)
    ensures Inv(Run(s, events))
    decreases |events|
  {
    if |events| > 0 {
      ApplyInv(s, events[0]);
      RunInv(Apply(s, events[0]), events[1..]);
    }
  }

  /** Whatever the interleaving of views, uploads, deletions, sweeps and
      clock ticks: every stored counter is within its limit, and a limited
      link has served at most its limit of successful views. */
  lemma QuotaHolds(events: seq<Event>)
    ensures var s := Run(Init(), events);
      && (forall id | id in s.store :: WithinQuota(s.store[id]))
      && s.served.Keys == s.issued.Keys
      && (forall id | id in s.issued && id in s.served && s.issued[id].Some? :: s.served[id] <= s.issued[id].value)
  {
    InitInv();
    RunInv(Init(), events);
  }
}
