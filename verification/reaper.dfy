/**
 * The scheduled sweep of `cron.js`: select every record whose expiry is
 * strictly before now, and for each (in the order found) destroy the
 * blob of a file record, swallowing a failure there, then delete the
 * record. A failure of the query or of a record delete ends the sweep,
 * and the outer handler catches it, so the next run starts afresh.
 */
module Reaper {
  import opened UploadModel

  /** Where a store call fails during one sweep, if anywhere: the query,
      or the record delete of the `k`-th selected record. */
  datatype Fault = NoFault | FindFails | DeleteFailsAt(k: nat)

  predicate Distinct(ids: seq<string>) {
    forall i, j :: 0 <= i < j < |ids| ==> ids[i] != ids[j]
  }

  /** `Upload.find({ expiresAt: { $lt: now } })`, in scan order. */
  function Selected(store: map<string, Record>, scan: seq<string>, now: int): (r: seq<string>)
    ensures forall id :: id in r <==> id in scan && id in store && store[id].expiresAt < now
    ensures Distinct(scan) ==> Distinct(r)
    ensures forall id | id in r :: id in store
  {
    if |scan| == 0 then []
    else
      var rest := Selected(store, scan[1..], now);
      assert forall i :: 0 < i < |scan| ==> scan[i] == scan[1..][i - 1];
      var id := scan[0];
      if id in store && store[id].expiresAt < now then [id] + rest else rest
  }

  /** Whether the sweep asks the blob store to destroy this record's blob:
      file records with a non-empty id. */
  predicate DestroysBlob(r: Record) {
    r.kind == File && r.uniqueId != ""
  }

  /** The blob step for one selected record: a failed destroy (its key in
      `blobFails`) is logged and changes nothing. */
  function BlobStep(w: World, r: Record, blobFails: set<string>): (w': World)
    ensures w'.store == w.store && w'.temp == w.temp
    ensures w'.blobs == if DestroysBlob(r) && BlobKey(r.uniqueId) !in blobFails then w.blobs - {BlobKey(r.uniqueId)} else w.blobs
  {
    if DestroysBlob(r) && BlobKey(r.uniqueId) !in blobFails then DestroyBlob(w, r.uniqueId) else w
  }

  /** The `for` loop over the selected records (`snap` is the documents
      the query returned; `k` the index of `ids[0]` among them). */
  function SweepLoop(snap: map<string, Record>, w: World, ids: seq<string>, k: nat, blobFails: set<string>, fault: Fault): World
    requires forall id | id in ids :: id in snap
    decreases |ids|
  {
    if |ids| == 0 then w
    else
      var w1 := BlobStep(w, snap[ids[0]], blobFails);
      if fault == DeleteFailsAt(k) then w1
      else SweepLoop(snap, RemoveRecord(w1, ids[0]), ids[1..], k + 1, blobFails, fault)
  }

  /** One run of the scheduled job. */
  function Sweep(w: World, now: int, scan: seq<string>, blobFails: set<string>, fault: Fault): World
  {
    if fault.FindFails? then w
    else SweepLoop(w.store, w, Selected(w.store, scan, now), 0, blobFails, fault)
  }

  /** The loop never adds or alters records, leaves every record it was not
      given alone, and without a delete failure inside its range removes
      every record it was given, whatever the blob store did. Blobs only
      disappear for the selected file records. */
  lemma {:induction false} SweepLoopEffect(snap: map<string, Record>, w: World, ids: seq<string>, k: nat, blobFails: set<string>, fault: Fault)
    requires forall id | id in ids :: id in snap
    requires Distinct(ids)
    ensures var w' := SweepLoop(snap, w, ids, k, blobFails, fault);
      && w'.temp == w.temp && w'.blobs <= w.blobs
      && (forall key | key in w'.store :: key in w.store && w'.store[key] == w.store[key])
      && (forall key | key in w.store && key !in ids :: key in w'.store)
      && (!(fault.DeleteFailsAt? && k <= fault.k < k + |ids|) ==> forall key | key in ids :: key !in w'.store)
      && (forall b | b in w.blobs && b !in w'.blobs :: exists id | id in ids :: DestroysBlob(snap[id]) && b == BlobKey(snap[id].uniqueId))
      && (blobFails == {} && !(fault.DeleteFailsAt? && k <= fault.k < k + |ids|) ==>
            forall id | id in ids && DestroysBlob(snap[id]) :: BlobKey(snap[id].uniqueId) !in w'.blobs)
    decreases |ids|
  {
    if |ids| > 0 {
      var w1 := BlobStep(w, snap[ids[0]], blobFails);
      if fault != DeleteFailsAt(k) {
        var w2 := RemoveRecord(w1, ids[0]);
        assert Distinct(ids[1..]) by {
          forall i, j | 0 <= i < j < |ids[1..]| ensures ids[1..][i] != ids[1..][j] {
            assert ids[1..][i] == ids[i + 1] && ids[1..][j] == ids[j + 1];
          }
        }
        assert forall id | id in ids[1..] :: id in ids && id != ids[0];
        assert forall id | id in ids :: id == ids[0] || id in ids[1..];
        SweepLoopEffect(snap, w2, ids[1..], k + 1, blobFails, fault);
        var w' := SweepLoop(snap, w2, ids[1..], k + 1, blobFails, fault);
        assert w' == SweepLoop(snap, w, ids, k, blobFails, fault);
        forall b | b in w.blobs && b !in w'.blobs
          ensures exists id | id in ids :: DestroysBlob(snap[id]) && b == BlobKey(snap[id].uniqueId)
        {
          if b in w2.blobs {
            var id :| id in ids[1..] && DestroysBlob(snap[id]) && b == BlobKey(snap[id].uniqueId);
            assert id in ids;
          } else {
            assert ids[0] in ids;
          }
        }
      }
    }
  }

  /** Records that have not expired (`expiresAt >= now`) survive a sweep
      unchanged, whatever fails during it. */
  lemma SweepKeepsLive(w: World, now: int, scan: seq<string>, blobFails: set<string>, fault: Fault)
    requires Distinct(scan)
    ensures var w' := Sweep(w, now, scan, blobFails, fault);
      forall key | key in w.store && w.store[key].expiresAt >= now :: key in w'.store && w'.store[key] == w.store[key]
  {
    if !fault.FindFails? {
      SweepLoopEffect(w.store, w, Selected(w.store, scan, now), 0, blobFails, fault);
    }
  }

  /** Without a store failure, no record that the scan covers and that
      expired before `now` is left, even when blob destroys fail; with no
      blob failure either, none of their blobs is left. */
  lemma SweepRemovesExpired(w: World, now: int, scan: seq<string>, blobFails: set<string>)
    requires Distinct(scan)
    requires forall key | key in w.store :: key in scan
    ensures var w' := Sweep(w, now, scan, blobFails, NoFault);
      && (forall key | key in w'.store :: w'.store[key].expiresAt >= now)
      && (forall key | key in w.store && w.store[key].expiresAt < now :: key !in w'.store)
      && (blobFails == {} ==>
            forall key | key in w.store && w.store[key].expiresAt < now && DestroysBlob(w.store[key]) ::
              BlobKey(w.store[key].uniqueId) !in w'.blobs)
  {
    SweepLoopEffect(w.store, w, Selected(w.store, scan, now), 0, blobFails, NoFault);
  }

  /** A sweep only ever destroys blobs of selected file records: a text
      record triggers no blob call, and a blob no record points at is never
      reclaimed. */
  lemma SweepBlobTargets(w: World, now: int, scan: seq<string>, blobFails: set<string>, fault: Fault)
    requires Distinct(scan)
    ensures var w' := Sweep(w, now, scan, blobFails, fault);
      && w'.blobs <= w.blobs
      && forall b | b in w.blobs && b !in w'.blobs ::
           exists id | id in w.store :: w.store[id].expiresAt < now && DestroysBlob(w.store[id]) && b == BlobKey(w.store[id].uniqueId)
  {
    if !fault.FindFails? {
      SweepLoopEffect(w.store, w, Selected(w.store, scan, now), 0, blobFails, fault);
    }
  }

  /** A failure in one run does not carry over: whatever it left behind, a
      later run without failures clears every record expired by then. */
  lemma FailedSweepRecovers(w: World, now: int, later: int, scan: seq<string>, scan2: seq<string>, blobFails: set<string>, fault: Fault)
    requires now <= later && Distinct(scan) && Distinct(scan2)
    requires forall key | key in w.store :: key in scan2
    ensures var w1 := Sweep(w, now, scan, blobFails, fault);
      forall key | key in Sweep(w1, later, scan2, {}, NoFault).store :: key in w.store && w.store[key].expiresAt >= later
  {
    var w1 := Sweep(w, now, scan, blobFails, fault);
    if !fault.FindFails? {
      SweepLoopEffect(w.store, w, Selected(w.store, scan, now), 0, blobFails, fault);
    }
    SweepRemovesExpired(w1, later, scan2, {});
    SweepLoopEffect(w1.store, w1, Selected(w1.store, scan2, later), 0, {}, NoFault);
  }

  /** A clean sweep keeps the stores consistent: the records it keeps keep
      their blobs. */
  lemma SweepConsistent(w: World, now: int, scan: seq<string>, blobFails: set<string>)
    requires Consistent(w) && Distinct(scan)
    ensures Consistent(Sweep(w, now, scan, blobFails, NoFault))
  {
    var w' := Sweep(w, now, scan, blobFails, NoFault);
    var ids := Selected(w.store, scan, now);
    SweepLoopEffect(w.store, w, ids, 0, blobFails, NoFault);
  }

  /** Whatever fails during a sweep, the remaining records stay well formed
      and every remaining live file record keeps its blob: the blobs a sweep
      destroys belong to expired records only. */
  lemma SweepFaultConsistent(w: World, now: int, scan: seq<string>, blobFails: set<string>, fault: Fault)
    requires Consistent(w) && Distinct(scan)
    ensures var w' := Sweep(w, now, scan, blobFails, fault);
      && StoreInv(w'.store)
      && forall id | id in w'.store && w'.store[id].kind == File && w'.store[id].expiresAt >= now :: BlobKey(id) in w'.blobs
  {
    var w' := Sweep(w, now, scan, blobFails, fault);
    if !fault.FindFails? {
      SweepLoopEffect(w.store, w, Selected(w.store, scan, now), 0, blobFails, fault);
    }
    SweepBlobTargets(w, now, scan, blobFails, fault);
  }

  /** A failed record delete strands the record: the blob of an expired
      file record is destroyed first, and when the delete after it throws
      the run ends with the record still stored and its blob gone, until a
      later run removes the record. */
  lemma DeleteFailureStrandsRecord(w: World, now: int, id: string)
    requires Consistent(w) && id in w.store && w.store[id].kind == File && w.store[id].expiresAt < now
    ensures var w' := Sweep(w, now, [id], {}, DeleteFailsAt(0));
      && id in w'.store && BlobKey(id) !in w'.blobs && !Consistent(w')
  {
    var w' := Sweep(w, now, [id], {}, DeleteFailsAt(0));
    assert Selected(w.store, [id], now) == [id];
    assert DestroysBlob(w.store[id]);
    assert w' == BlobStep(w, w.store[id], {});
  }
}
