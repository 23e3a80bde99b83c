/**
 * The upload record, its schema constraints and defaults, and the two
 * stores it lives in: the metadata store, a map from `uniqueId` to
 * record, and the blob store, a set of keys `linkvault/<uniqueId>`.
 */
module UploadModel {
  import opened Wrappers

  type UserId = string

  datatype Kind = File | Text

  /** One link. `password` is the stored hash; `maxDownloads` of `None` is
      the schema's `null` (no limit). Times are milliseconds. */
  datatype Record = Record(
    uniqueId: string,
    kind: Kind,
    textContent: Option<string>,
    fileUrl: Option<string>,
    originalName: Option<string>,
    password: Option<string>,
    oneTimeView: bool,
    maxDownloads: Option<int>,
    currentDownloads: int,
    userId: Option<UserId>,
    deleteToken: string,
    createdAt: int,
    expiresAt: int)

  /** Largest distance from the epoch a JavaScript `Date` can represent. */
  const MaxDateMs := 8_640_000_000_000_000

  predicate IsValidDate(t: int) {
    -MaxDateMs <= t <= MaxDateMs
  }

  /** The document `new Upload(...)` builds before the caller's fields are
      applied: every schema default in place. */
  function NewRecord(uniqueId: string, kind: Kind, deleteToken: string, expiresAt: int, now: int): Record {
    Record(uniqueId, kind, None, None, None, None, false, None, 0, None, deleteToken, now, expiresAt)
  }

  /** What the schema's validators demand of a saved document: the
      required strings non-empty, `maxDownloads` at least 1 when set,
      `currentDownloads` non-negative, both dates representable. */
  predicate SchemaValid(r: Record) {
    && r.uniqueId != ""
    && r.deleteToken != ""
    && (r.maxDownloads.Some? ==> r.maxDownloads.value >= 1)
    && r.currentDownloads >= 0
    && IsValidDate(r.createdAt)
    && IsValidDate(r.expiresAt)
  }

  /** Text records carry text and no file link; file records the reverse. */
  predicate PayloadMatchesKind(r: Record) {
    && (r.kind == Text ==> r.textContent.Some? && r.fileUrl.None?)
    && (r.kind == File ==> r.fileUrl.Some? && r.textContent.None?)
  }

  /** The quota invariant: the counter never passes the limit. */
  predicate WithinQuota(r: Record) {
    r.maxDownloads.Some? ==> r.currentDownloads <= r.maxDownloads.value
  }

  /** A one-time link allows exactly one access. */
  predicate OneTimeIsSingleUse(r: Record) {
    r.oneTimeView ==> r.maxDownloads == Some(1)
  }

  predicate WellFormed(r: Record) {
    SchemaValid(r) && PayloadMatchesKind(r) && WithinQuota(r) && OneTimeIsSingleUse(r)
  }

  /** Every stored record is keyed by its own `uniqueId` (the unique index)
      and well formed. */
  predicate StoreInv(store: map<string, Record>) {
    forall id | id in store :: store[id].uniqueId == id && WellFormed(store[id])
  }

  /** A freshly built document is schema-valid exactly when its id, token
      and dates are, and starts with no accesses counted. */
  lemma NewRecordDefaults(uniqueId: string, kind: Kind, deleteToken: string, expiresAt: int, now: int)
    ensures var r := NewRecord(uniqueId, kind, deleteToken, expiresAt, now);
      && r.currentDownloads == 0 && r.maxDownloads.None? && !r.oneTimeView && r.userId.None?
      && r.createdAt == now && WithinQuota(r) && OneTimeIsSingleUse(r)
      && (SchemaValid(r) <==> uniqueId != "" && deleteToken != "" && IsValidDate(now) && IsValidDate(expiresAt))
  {
  }

  /** Folder the blob store keeps uploads in. */
  const BlobFolder := "linkvault"

  /** Key of a record's blob: the folder plus the record's id as public id. */
  function BlobKey(id: string): (k: string)
    ensures |k| == |BlobFolder| + 1 + |id| && k[|BlobFolder| + 1..] == id
  {
    BlobFolder + "/" + id
  }

  /** Distinct records never share a blob. */
  lemma BlobKeyInjective(a: string, b: string)
    requires BlobKey(a) == BlobKey(b)
    ensures a == b
  {
    assert a == BlobKey(a)[|BlobFolder| + 1..];
  }

  /** The metadata store, the blob store, and the staged upload files. */
  datatype World = World(store: map<string, Record>, blobs: set<string>, temp: set<string>)

  /** Every stored file record still has its blob. */
  predicate BlobsCover(w: World) {
    forall id | id in w.store && w.store[id].kind == File :: BlobKey(id) in w.blobs
  }

  predicate Consistent(w: World) {
    StoreInv(w.store) && BlobsCover(w)
  }

  /** `new Date() > expiresAt`: the record is dead at time `now`. */
  predicate IsExpired(r: Record, now: int) {
    now > r.expiresAt
  }

  /** `data.password` is truthy. */
  predicate HasPassword(r: Record) {
    r.password.Some? && r.password.value != ""
  }

  /** `data.fileUrl` is truthy. */
  predicate HasFileUrl(r: Record) {
    r.fileUrl.Some? && r.fileUrl.value != ""
  }

  function RemoveRecord(w: World, id: string): (w': World)
    ensures w'.store.Keys == w.store.Keys - {id}
    ensures forall k | k in w'.store :: w'.store[k] == w.store[k]
    ensures w'.blobs == w.blobs && w'.temp == w.temp
  {
    w.(store := w.store - {id})
  }

  function DestroyBlob(w: World, id: string): (w': World)
    ensures w'.blobs == w.blobs - {BlobKey(id)}
    ensures w'.store == w.store && w'.temp == w.temp
  {
    w.(blobs := w.blobs - {BlobKey(id)})
  }

  /** A record as a caller other than the server sees it: every field but
      the password hash and the delete token (and Mongo's `_id`/`__v`,
      which the model does not carry). */
  datatype PublicRecord = PublicRecord(
    uniqueId: string,
    kind: Kind,
    textContent: Option<string>,
    fileUrl: Option<string>,
    originalName: Option<string>,
    oneTimeView: bool,
    maxDownloads: Option<int>,
    currentDownloads: int,
    userId: Option<UserId>,
    createdAt: int,
    expiresAt: int)

  function Strip(r: Record): PublicRecord {
    PublicRecord(r.uniqueId, r.kind, r.textContent, r.fileUrl, r.originalName, r.oneTimeView,
                 r.maxDownloads, r.currentDownloads, r.userId, r.createdAt, r.expiresAt)
  }

  /** Stripping forgets exactly the two secrets: two records have the
      same public form if and only if they differ at most in their
      password hash and delete token. */
  lemma StripForgetsExactlySecrets(a: Record, b: Record)
    ensures Strip(a) == Strip(b) <==> a.(password := b.password, deleteToken := b.deleteToken) == b
  {
  }
}
