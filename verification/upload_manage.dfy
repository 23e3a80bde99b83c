/**
 * `deleteContent` (manual delete by owner or delete token) and
 * `getMyUploads` (the caller's links, newest first, without secrets).
 */
module UploadManage {
  import opened Wrappers
  import opened JsValues
  import opened UploadModel
  import opened Replies

  /** `req.user.id === data.userId.toString()`. */
  predicate IsOwner(caller: Option<UserId>, r: Record) {
    caller.Some? && r.userId.Some? && caller.value == r.userId.value
  }

  /** `deleteToken && deleteToken === data.deleteToken`: a non-empty
      string equal to the stored token. */
  predicate TokenMatches(token: FormField, r: Record) {
    Truthy(token) && token == Str(r.deleteToken)
  }

  /** The delete handler. `blobOk` is whether the blob destroy call goes
      through; it runs first, so when it fails the record is kept. */
  function DeleteContent(w: World, id: string, caller: Option<UserId>, token: FormField, blobOk: bool): (Reply, World)
  {
    if id !in w.store then (Failed(404, MsgNotFound), w)
    else
      var data := w.store[id];
      if !IsOwner(caller, data) && !TokenMatches(token, data) then (Failed(403, MsgBadDeleteToken), w)
      else if data.kind == File && !blobOk then (Failed(500, MsgServerError), w)
      else
        var w1 := if data.kind == File then DestroyBlob(w, data.uniqueId) else w;
        (Deleted, RemoveRecord(w1, id))
  }

  /** A delete succeeds exactly for the owner or the holder of the
      (non-empty) token, removes that one record, and destroys a blob only
      for a file record; an unknown id is a 404 and a stranger a 403, both
      changing nothing. */
  lemma DeleteAuthorisation(w: World, id: string, caller: Option<UserId>, token: FormField, blobOk: bool)
    requires StoreInv(w.store)
    ensures var (reply, w') := DeleteContent(w, id, caller, token, blobOk);
      && (id !in w.store ==> reply == Failed(404, MsgNotFound) && w' == w)
      && (id in w.store ==>
            var r := w.store[id];
            && (reply == Deleted <==> (IsOwner(caller, r) || (token.Str? && token.s != "" && token.s == r.deleteToken))
                                      && (r.kind == File ==> blobOk))
            && (reply == Deleted ==>
                  && w'.store == w.store - {id}
                  && w'.blobs == (if r.kind == File then w.blobs - {BlobKey(id)} else w.blobs))
            && (reply != Deleted ==> w' == w))
  {
  }

  /** A delete keeps the stores consistent. */
  lemma DeleteConsistent(w: World, id: string, caller: Option<UserId>, token: FormField, blobOk: bool)
    requires Consistent(w)
    ensures Consistent(DeleteContent(w, id, caller, token, blobOk).1)
  {
    var (reply, w') := DeleteContent(w, id, caller, token, blobOk);
    forall k | k in w'.store && w'.store[k].kind == File
      ensures BlobKey(k) in w'.blobs
    {
      if BlobKey(k) == BlobKey(id) { BlobKeyInjective(k, id); }
    }
  }

  /** Newest first: `createdAt` never increases along the list. */
  predicate NewestFirst(s: seq<PublicRecord>) {
    forall i, j :: 0 <= i < j < |s| ==> s[i].createdAt >= s[j].createdAt
  }

  function Insert(x: PublicRecord, s: seq<PublicRecord>): (r: seq<PublicRecord>)
    requires NewestFirst(s)
    ensures NewestFirst(r)
    ensures multiset(r) == multiset(s) + multiset{x}
  {
    if |s| == 0 then [x]
    else if x.createdAt >= s[0].createdAt then [x] + s
    else
      var tail := Insert(x, s[1..]);
      InsertBehindHead(x, s, tail);
      [s[0]] + tail
  }

  /** An element older than the head goes behind it: the head stays in
      front of everything the recursive insertion returns. */
  lemma InsertBehindHead(x: PublicRecord, s: seq<PublicRecord>, tail: seq<PublicRecord>)
    requires |s| > 0 && NewestFirst(s) && x.createdAt < s[0].createdAt
    requires NewestFirst(tail) && multiset(tail) == multiset(s[1..]) + multiset{x}
    ensures NewestFirst([s[0]] + tail)
    ensures multiset([s[0]] + tail) == multiset(s) + multiset{x}
  {
    assert s == [s[0]] + s[1..];
    forall k | 0 <= k < |tail|
      ensures tail[k].createdAt <= s[0].createdAt
    {
      assert tail[k] in multiset(tail);
      if tail[k] != x {
        assert tail[k] in multiset(s[1..]);
        var j :| 0 <= j < |s[1..]| && s[1..][j] == tail[k];
        assert s[j + 1] == tail[k];
      }
    }
    var r := [s[0]] + tail;
    forall i, j | 0 <= i < j < |r|
      ensures r[i].createdAt >= r[j].createdAt
    {
      if i > 0 {
        assert r[i] == tail[i - 1] && r[j] == tail[j - 1];
      } else {
        assert r[j] == tail[j - 1];
      }
    }
  }

  /** `.sort({ createdAt: -1 })`. */
  function SortNewestFirst(s: seq<PublicRecord>): (r: seq<PublicRecord>)
    ensures NewestFirst(r)
    ensures multiset(r) == multiset(s)
  {
    if |s| == 0 then []
    else
      assert s == [s[0]] + s[1..];
      Insert(s[0], SortNewestFirst(s[1..]))
  }

  /** The keys in the order the store scans them: each stored id once. */
  predicate Enumerates(scan: seq<string>, store: map<string, Record>) {
    && (forall k | k in store :: k in scan)
    && (forall i | 0 <= i < |scan| :: scan[i] in store)
    && (forall i, j :: 0 <= i < j < |scan| ==> scan[i] != scan[j])
  }

  /** `Upload.find({ userId })` with the secrets deselected, in scan order. */
  function OwnedBy(store: map<string, Record>, scan: seq<string>, user: UserId): (r: seq<PublicRecord>)
    ensures forall x :: x in r <==>
      exists i :: 0 <= i < |scan| && scan[i] in store && store[scan[i]].userId == Some(user) && x == Strip(store[scan[i]])
  {
    if |scan| == 0 then []
    else
      var rest := OwnedBy(store, scan[1..], user);
      assert forall i :: 0 < i < |scan| ==> scan[i] == scan[1..][i - 1];
      var k := scan[0];
      if k in store && store[k].userId == Some(user) then [Strip(store[k])] + rest else rest
  }

  /** The records a user owns. */
  function OwnedIds(store: map<string, Record>, user: UserId): set<string> {
    set k | k in store && store[k].userId == Some(user)
  }

  /** The owned ids among the first keys of a scan. */
  function OwnedIn(store: map<string, Record>, scan: seq<string>, user: UserId): set<string> {
    set k | k in scan && k in store && store[k].userId == Some(user)
  }

  lemma {:induction false} OwnedByCountIn(store: map<string, Record>, scan: seq<string>, user: UserId)
    requires forall i, j :: 0 <= i < j < |scan| ==> scan[i] != scan[j]
    ensures |OwnedBy(store, scan, user)| == |OwnedIn(store, scan, user)|
  {
    if |scan| == 0 {
      assert OwnedIn(store, scan, user) == {};
    } else {
      var k := scan[0];
      var tail := scan[1..];
      assert forall i, j :: 0 <= i < j < |tail| ==> tail[i] != tail[j] by {
        forall i, j | 0 <= i < j < |tail| ensures tail[i] != tail[j] {
          assert tail[i] == scan[i + 1] && tail[j] == scan[j + 1];
        }
      }
      OwnedByCountIn(store, tail, user);
      assert k !in tail by {
        forall i | 0 <= i < |tail| ensures tail[i] != k {
          assert tail[i] == scan[i + 1];
        }
      }
      assert forall x :: x in scan <==> x == k || x in tail by {
        assert scan == [k] + tail;
      }
      if k in store && store[k].userId == Some(user) {
        assert OwnedIn(store, scan, user) == OwnedIn(store, tail, user) + {k};
      } else {
        assert OwnedIn(store, scan, user) == OwnedIn(store, tail, user);
      }
    }
  }

  /** The listing has one entry per record the user owns: its length is
      exactly the number of owned records, so each appears once. */
  lemma OwnedByCount(store: map<string, Record>, scan: seq<string>, user: UserId)
    requires Enumerates(scan, store)
    ensures |OwnedBy(store, scan, user)| == |OwnedIds(store, user)|
  {
    OwnedByCountIn(store, scan, user);
    assert OwnedIn(store, scan, user) == OwnedIds(store, user);
  }

  /** The listing handler. */
  function ListMine(store: map<string, Record>, caller: Option<UserId>, scan: seq<string>): (r: Reply)
    requires Enumerates(scan, store)
    ensures caller.None? <==> r == Failed(401, MsgAuthRequired)
    ensures r.Listing? ==> NewestFirst(r.items) && multiset(r.items) == multiset(OwnedBy(store, scan, caller.value))
  {
    if caller.None? then Failed(401, MsgAuthRequired)
    else Listing(SortNewestFirst(OwnedBy(store, scan, caller.value)))
  }

  /** The caller sees exactly their own records, every one of them, and
      nobody else's. */
  lemma ListMineExactlyOwn(store: map<string, Record>, user: UserId, scan: seq<string>)
    requires Enumerates(scan, store)
    ensures var r := ListMine(store, Some(user), scan);
      forall x :: x in r.items <==> exists k | k in store :: store[k].userId == Some(user) && x == Strip(store[k])
  {
    var r := ListMine(store, Some(user), scan);
    forall x
      ensures x in r.items <==> exists k | k in store :: store[k].userId == Some(user) && x == Strip(store[k])
    {
      assert x in r.items <==> x in multiset(r.items);
      assert x in OwnedBy(store, scan, user) <==> x in multiset(OwnedBy(store, scan, user));
      if x in r.items {
        var i :| 0 <= i < |scan| && scan[i] in store && store[scan[i]].userId == Some(user) && x == Strip(store[scan[i]]);
        assert store[scan[i]].userId == Some(user) && x == Strip(store[scan[i]]);
      }
      if exists k | k in store :: store[k].userId == Some(user) && x == Strip(store[k]) {
        var k :| k in store && store[k].userId == Some(user) && x == Strip(store[k]);
        assert k in scan;
        var i :| 0 <= i < |scan| && scan[i] == k;
        assert x in OwnedBy(store, scan, user);
      }
    }
  }
}
