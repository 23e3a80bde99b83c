/**
 * `uploadContent`: validation, normalisation of the options, choice of a
 * fresh identifier, and the blob-first, record-second write. Randomness,
 * the clock, password hashing and the blob upload's outcome are inputs.
 */
module UploadCreate {
  import opened Wrappers
  import opened JsText
  import opened JsValues
  import opened HexId
  import opened UploadModel
  import opened Replies

  /** `isTruthy`: booleans as they are, strings by their trimmed,
      lower-cased spelling, everything else false. */
  predicate IsTruthy(value: FormField) {
    match value
    case Bool(b) => b
    case Str(s) =>
      var n := Lower(Trim(s));
      n == "true" || n == "1" || n == "yes" || n == "on"
    case _ => false
  }

  /** The spelling of a string flag does not matter: upper or lower case,
      it reads the same. */
  lemma IsTruthyIgnoresCase(s: string)
    ensures IsTruthy(Str(Lower(s))) == IsTruthy(Str(s))
  {
    TrimLower(s);
    LowerIdempotent(Trim(s));
  }

  /** A checkbox state sent through a multipart form (`"true"`/`"false"`)
      reads back as the state. */
  lemma IsTruthyFormFlag(b: bool)
    ensures IsTruthy(Str(if b then "true" else "false")) == b
  {
    var s := if b then "true" else "false";
    TrimUnpadded(s);
    assert Lower(s) == s;
  }

  /** The text field as the handler reads it: a string, or empty. */
  function TextOf(f: FormField): string {
    if f.Str? then f.s else ""
  }

  predicate HasText(req: CreateRequest) {
    Trim(TextOf(req.text)) != ""
  }

  /** The file multer staged: the client's name and the temporary path. */
  datatype UploadedFile = UploadedFile(originalName: Option<string>, path: string)

  datatype CreateRequest = CreateRequest(
    text: FormField,
    file: Option<UploadedFile>,
    expiresIn: FormField,
    password: FormField,
    oneTimeView: FormField,
    maxDownloads: FormField,
    user: Option<UserId>)

  /** What the handler draws from its surroundings: the clock, the random
      bytes of every `generateId()` call in order and of the delete token,
      the password hasher, the blob upload's secure URL (`None` if the
      upload fails), and whether the metadata write goes through. */
  datatype CreateEnv = CreateEnv(
    now: int,
    idDraws: seq<seq<Byte>>,
    tokenBytes: seq<Byte>,
    hash: string -> string,
    blobUpload: Option<string>,
    saveOk: bool)

  const MaxFileNameLength := 255

  /** The error message for an unacceptable original file name, if any. */
  function FileNameProblem(name: Option<string>): (r: Option<string>)
    ensures r.None? <==> name.Some? && 0 < |name.value| <= MaxFileNameLength && '\0' !in name.value
    ensures r.Some? ==> r.value == MsgInvalidFileName || r.value == MsgFileNameTooLong
  {
    if name.None? || name.value == "" then Some(MsgInvalidFileName)
    else if |name.value| > MaxFileNameLength then Some(MsgFileNameTooLong)
    else if '\0' in name.value then Some(MsgInvalidFileName)
    else None
  }

  datatype MaxDownloads = InvalidMax | FinalMax(limit: Option<int>)

  /** The `maxDownloads` option: absent or falsy means no limit; otherwise
      it must parse (`parseInt` without radix) to at least 1; a one-time
      link then always ends with a limit of exactly 1. */
  function NormalizeMaxDownloads(field: FormField, burn: bool): (r: MaxDownloads)
    ensures r.InvalidMax? <==>
      Truthy(field) && (ParseIntField(field, true).None? || ParseIntField(field, true).value < 1)
    ensures r.FinalMax? && burn ==> r.limit == Some(1)
    ensures r.FinalMax? && !burn ==> r.limit == (if Truthy(field) then ParseIntField(field, true) else None)
    ensures r.FinalMax? && r.limit.Some? ==> r.limit.value >= 1
  {
    var requested :=
      if !Truthy(field) then FinalMax(None)
      else match ParseIntField(field, true)
        case None => InvalidMax
        case Some(n) => if n < 1 then InvalidMax else FinalMax(Some(n));
    if requested.FinalMax? && burn then FinalMax(Some(1)) else requested
  }

  /** The limit a form sends as a decimal string: at least 1 is kept
      (unless the link is one-time, which forces 1), below 1 is refused,
      and an absent or empty field means no limit. */
  lemma MaxDownloadsFromForm(n: int, burn: bool)
    ensures NormalizeMaxDownloads(Str(SignedDecimal(n)), burn) ==
      if n < 1 then InvalidMax else FinalMax(Some(if burn then 1 else n))
    ensures NormalizeMaxDownloads(Missing, burn) == FinalMax(if burn then Some(1) else None)
    ensures NormalizeMaxDownloads(Str(""), burn) == FinalMax(if burn then Some(1) else None)
  {
    var s := SignedDecimal(n);
    ParseDecimalPrefix(n, "", true);
    assert s + "" == s;
    assert ParseIntField(Str(s), true) == Some(n);
    assert Truthy(Str(s)) by {
      assert |Decimal(if n < 0 then -n else n)| > 0;
    }
    ParseNonNumeric(Missing, true);
  }

  const DefaultExpiryMinutes := 10
  const MsPerMinute := 60_000

  /** `parseInt(expiresIn, 10)` if that is a positive integer, else 10. */
  function ExpiryMinutes(field: FormField): (m: int)
    ensures m >= 1
    ensures ParseIntField(field, false).Some? && ParseIntField(field, false).value > 0
            ==> m == ParseIntField(field, false).value
    ensures !(ParseIntField(field, false).Some? && ParseIntField(field, false).value > 0)
            ==> m == DefaultExpiryMinutes
  {
    match ParseIntField(field, false)
    case Some(p) => if p > 0 then p else DefaultExpiryMinutes
    case None => DefaultExpiryMinutes
  }

  /** The lifetime a request asks for: a missing or non-numeric field gets
      the 10-minute default, a positive integer is taken as it is. */
  lemma ExpiryOfFields(n: int)
    ensures ExpiryMinutes(Missing) == DefaultExpiryMinutes
    ensures ExpiryMinutes(Num(n)) == if n > 0 then n else DefaultExpiryMinutes
  {
    ParseNonNumeric(Missing, false);
    ParseIntegralField(n, false);
  }

  predicate WellDrawn(draws: seq<seq<Byte>>) {
    forall i :: 0 <= i < |draws| ==> |draws[i]| == IdBytes
  }

  predicate HasFreshDraw(store: map<string, Record>, draws: seq<seq<Byte>>) {
    exists i :: 0 <= i < |draws| && EncodeHex(draws[i]) !in store
  }

  /** `while (await Upload.findOne({ uniqueId })) uniqueId = generateId()`:
      the first drawn id no record holds. */
  function FirstFreshId(store: map<string, Record>, draws: seq<seq<Byte>>): (id: string)
    requires WellDrawn(draws) && HasFreshDraw(store, draws)
    ensures id !in store && IsHexId(id)
    ensures exists i :: 0 <= i < |draws| && id == EncodeHex(draws[i]) && DrawsTaken(store, draws[..i])
    decreases |draws|
  {
    if EncodeHex(draws[0]) !in store then
      assert draws[..0] == [];
      GenerateId(draws[0])
    else
      FreshDrawInTail(store, draws);
      var id := FirstFreshId(store, draws[1..]);
      TakenExtends(store, draws, id);
      id
  }

  lemma FreshDrawInTail(store: map<string, Record>, draws: seq<seq<Byte>>)
    requires WellDrawn(draws) && HasFreshDraw(store, draws) && EncodeHex(draws[0]) in store
    ensures WellDrawn(draws[1..]) && HasFreshDraw(store, draws[1..])
  {
    var i :| 0 <= i < |draws| && EncodeHex(draws[i]) !in store;
    assert draws[1..][i - 1] == draws[i];
  }

  /** A collision in front of a taken prefix gives a longer taken prefix. */
  lemma TakenExtends(store: map<string, Record>, draws: seq<seq<Byte>>, id: string)
    requires |draws| > 0 && EncodeHex(draws[0]) in store
    requires exists j :: 0 <= j < |draws| - 1 && id == EncodeHex(draws[1..][j]) && DrawsTaken(store, draws[1..][..j])
    ensures exists i :: 0 <= i < |draws| && id == EncodeHex(draws[i]) && DrawsTaken(store, draws[..i])
  {
    var j :| 0 <= j < |draws| - 1 && id == EncodeHex(draws[1..][j]) && DrawsTaken(store, draws[1..][..j]);
    assert draws[..j + 1] == [draws[0]] + draws[1..][..j];
    assert DrawsTaken(store, draws[..j + 1]);
  }

  /** Every draw in `prefix` collided with a stored id. */
  predicate DrawsTaken(store: map<string, Record>, prefix: seq<seq<Byte>>) {
    forall j :: 0 <= j < |prefix| ==> EncodeHex(prefix[j]) in store
  }

  /** The random source is well formed and eventually yields an unused id
      (the loop's probabilistic termination, taken as given). */
  predicate EnvReady(store: map<string, Record>, env: CreateEnv) {
    && WellDrawn(env.idDraws)
    && HasFreshDraw(store, env.idDraws)
    && |env.tokenBytes| == IdBytes
    && 0 <= env.now <= MaxDateMs
  }

  /** The handler's effect on the two stores, and whether it reached the
      `finally` that unlinks the staged file. */
  datatype CreateStep = CreateStep(reply: Reply, store: map<string, Record>, blobs: set<string>, unlinksTemp: bool)

  /** The outcome of the checks that run before anything is written: a
      refusal, or the normalised limit and the password hash to store. */
  datatype Admission = Refused(status: int, message: string) | Admitted(limit: Option<int>, hashed: Option<string>)

  function Admit(req: CreateRequest, hash: string -> string): (a: Admission)
    ensures HasText(req) == req.file.Some? ==> a == Refused(400, MsgEitherOr)
    ensures a.Admitted? ==>
      && HasText(req) != req.file.Some?
      && (req.file.Some? ==> FileNameProblem(req.file.value.originalName).None?)
      && NormalizeMaxDownloads(req.maxDownloads, IsTruthy(req.oneTimeView)) == FinalMax(a.limit)
      && (a.hashed.Some? <==> Truthy(req.password))
      && (a.hashed.Some? ==> req.password.Str? && a.hashed.value == hash(req.password.s))
    ensures a.Refused? && a.status == 500 ==> Truthy(req.password) && !req.password.Str?
    ensures a.Refused? <==>
      || HasText(req) == req.file.Some?
      || (req.file.Some? && FileNameProblem(req.file.value.originalName).Some?)
      || NormalizeMaxDownloads(req.maxDownloads, IsTruthy(req.oneTimeView)).InvalidMax?
      || (Truthy(req.password) && !req.password.Str?)
    ensures HasText(req) != req.file.Some? && req.file.Some? && FileNameProblem(req.file.value.originalName).Some?
            ==> a == Refused(400, FileNameProblem(req.file.value.originalName).value)
    ensures HasText(req) != req.file.Some? && (req.file.Some? ==> FileNameProblem(req.file.value.originalName).None?)
            && NormalizeMaxDownloads(req.maxDownloads, IsTruthy(req.oneTimeView)).InvalidMax?
            ==> a == Refused(400, MsgMaxDownloads)
    ensures HasText(req) != req.file.Some? && (req.file.Some? ==> FileNameProblem(req.file.value.originalName).None?)
            && NormalizeMaxDownloads(req.maxDownloads, IsTruthy(req.oneTimeView)).FinalMax?
            && Truthy(req.password) && !req.password.Str?
            ==> a == Refused(500, MsgUploadServerError)
  {
    if HasText(req) == req.file.Some? then Refused(400, MsgEitherOr)
    else if req.file.Some? && FileNameProblem(req.file.value.originalName).Some? then
      Refused(400, FileNameProblem(req.file.value.originalName).value)
    else match NormalizeMaxDownloads(req.maxDownloads, IsTruthy(req.oneTimeView))
      case InvalidMax => Refused(400, MsgMaxDownloads)
      case FinalMax(limit) =>
        if !Truthy(req.password) then Admitted(limit, None)
        // bcrypt.hash rejects a secret that is not a string
        else if !req.password.Str? then Refused(500, MsgUploadServerError)
        else Admitted(limit, Some(hash(req.password.s)))
  }

  /** The record a successful request writes, before the payload. */
  function PlannedRecord(store: map<string, Record>, req: CreateRequest, env: CreateEnv, limit: Option<int>, hashed: Option<string>): Record
    requires EnvReady(store, env)
  {
    var id := FirstFreshId(store, env.idDraws);
    var token := GenerateId(env.tokenBytes);
    var expiresAt := env.now + ExpiryMinutes(req.expiresIn) * MsPerMinute;
    NewRecord(id, if req.file.Some? then File else Text, token, expiresAt, env.now)
      .(password := hashed, oneTimeView := IsTruthy(req.oneTimeView), maxDownloads := limit, userId := req.user)
  }

  /** The writes: for a file, the blob first and the record second (a failed
      record write leaves the blob behind); for text, the record only. */
  function Persist(w: World, req: CreateRequest, env: CreateEnv, rec: Record): CreateStep {
    var saves := env.saveOk && IsValidDate(rec.expiresAt);
    var created := Created(rec.uniqueId, rec.deleteToken, rec.expiresAt);
    if req.file.Some? then
      match env.blobUpload
      case None => CreateStep(Failed(500, MsgUploadServerError), w.store, w.blobs, true)
      case Some(url) =>
        var blobs := w.blobs + {BlobKey(rec.uniqueId)};
        if !saves then CreateStep(Failed(500, MsgUploadServerError), w.store, blobs, true)
        else
          var fileRec := rec.(fileUrl := Some(url), originalName := req.file.value.originalName);
          CreateStep(created, w.store[rec.uniqueId := fileRec], blobs, true)
    else if !saves then CreateStep(Failed(500, MsgUploadServerError), w.store, w.blobs, false)
    else CreateStep(created, w.store[rec.uniqueId := rec.(textContent := Some(TextOf(req.text)))], w.blobs, false)
  }

  function CreateCore(w: World, req: CreateRequest, env: CreateEnv): CreateStep
    requires EnvReady(w.store, env)
  {
    match Admit(req, env.hash)
    case Refused(status, message) => CreateStep(Failed(status, message), w.store, w.blobs, false)
    case Admitted(limit, hashed) => Persist(w, req, env, PlannedRecord(w.store, req, env, limit, hashed))
  }

  /** `uploadContent` as written: the staged file is unlinked only by the
      `finally` around the blob upload, which the early rejections never
      reach. */
  function UploadContentAsWritten(w: World, req: CreateRequest, env: CreateEnv): (r: (Reply, World))
    requires EnvReady(w.store, env)
    ensures r.1.temp <= w.temp
  {
    var c := CreateCore(w, req, env);
    (c.reply, World(c.store, c.blobs, if c.unlinksTemp then w.temp - {req.file.value.path} else w.temp))
  }

  /** A request with both text and a file is rejected, and the file multer
      already staged stays on disk. */
  lemma TempFileLeaksAsWritten(w: World, req: CreateRequest, env: CreateEnv)
    requires EnvReady(w.store, env)
    requires HasText(req) && req.file.Some? && req.file.value.path in w.temp
    ensures UploadContentAsWritten(w, req, env).0 == Failed(400, MsgEitherOr)
    ensures req.file.value.path in UploadContentAsWritten(w, req, env).1.temp
  {
  }

  /** `uploadContent` with the staged file removed on every exit path, as
      the `finally` block's comment intends. */
  function UploadContent(w: World, req: CreateRequest, env: CreateEnv): (r: (Reply, World))
    requires EnvReady(w.store, env)
    ensures r.1.temp == w.temp - (if req.file.Some? then {req.file.value.path} else {})
  {
    var c := CreateCore(w, req, env);
    (c.reply, World(c.store, c.blobs, if req.file.Some? then w.temp - {req.file.value.path} else w.temp))
  }

  /** An admitted request succeeds whenever its writes do: the blob
      upload for a file, the record write, and an expiry that is a valid
      date. The `201` then names the first fresh id drawn. */
  lemma AdmittedSucceeds(w: World, req: CreateRequest, env: CreateEnv)
    requires EnvReady(w.store, env)
    requires Admit(req, env.hash).Admitted?
    requires env.saveOk && (req.file.Some? ==> env.blobUpload.Some?)
    requires IsValidDate(env.now + ExpiryMinutes(req.expiresIn) * MsPerMinute)
    ensures var (reply, w') := UploadContent(w, req, env);
      && reply.Created?
      && reply.uniqueId == FirstFreshId(w.store, env.idDraws)
      && reply.deleteToken == GenerateId(env.tokenBytes)
      && reply.uniqueId in w'.store
  {
    var a := Admit(req, env.hash);
    var rec := PlannedRecord(w.store, req, env, a.limit, a.hashed);
    assert CreateCore(w, req, env) == Persist(w, req, env, rec);
    PlannedRecordFacts(w.store, req, env, a.limit, a.hashed);
    PersistStore(w, req, env, rec);
  }

  /** `Persist` writes at most the one record it is given, under its id. */
  lemma PersistStore(w: World, req: CreateRequest, env: CreateEnv, rec: Record)
    ensures var c := Persist(w, req, env, rec);
      && (!c.reply.Created? ==> c.store == w.store)
      && (c.reply.Created? ==>
            && c.reply.uniqueId == rec.uniqueId
            && rec.uniqueId in c.store
            && c.store == w.store[rec.uniqueId := c.store[rec.uniqueId]])
  {
  }

  /** Only a `201` writes a record, and it adds exactly one record under
      an id no record held; every other reply leaves the store as it was. */
  lemma UploadContentStore(w: World, req: CreateRequest, env: CreateEnv)
    requires EnvReady(w.store, env)
    ensures var (reply, w') := UploadContent(w, req, env);
      && (!reply.Created? ==> w'.store == w.store)
      && (reply.Created? ==>
            && reply.uniqueId !in w.store
            && reply.uniqueId in w'.store
            && w'.store == w.store[reply.uniqueId := w'.store[reply.uniqueId]])
  {
    var c := CreateCore(w, req, env);
    assert UploadContent(w, req, env) == (c.reply, World(c.store, c.blobs, UploadContent(w, req, env).1.temp));
    match Admit(req, env.hash)
    case Refused(_, _) =>
    case Admitted(limit, hashed) =>
      var rec := PlannedRecord(w.store, req, env, limit, hashed);
      assert rec.uniqueId !in w.store;
      PersistStore(w, req, env, rec);
  }

  /** What `Persist` stores under a `201`: the planned record with the
      payload of its kind, and for a file the blob it points at. */
  lemma PersistRecord(w: World, req: CreateRequest, env: CreateEnv, rec: Record)
    ensures var c := Persist(w, req, env, rec);
      c.reply.Created? ==>
        && IsValidDate(rec.expiresAt)
        && (req.file.Some? ==>
              && c.store[rec.uniqueId] == rec.(fileUrl := Some(env.blobUpload.value), originalName := req.file.value.originalName)
              && c.blobs == w.blobs + {BlobKey(rec.uniqueId)})
        && (req.file.None? ==>
              && c.store[rec.uniqueId] == rec.(textContent := Some(TextOf(req.text)))
              && c.blobs == w.blobs)
  {
  }

  /** The planned record: a fresh hex id, a hex token, no accesses
      counted, created now and expiring the requested minutes later. */
  lemma PlannedRecordFacts(store: map<string, Record>, req: CreateRequest, env: CreateEnv, limit: Option<int>, hashed: Option<string>)
    requires EnvReady(store, env)
    ensures var r := PlannedRecord(store, req, env, limit, hashed);
      && r.uniqueId !in store && IsHexId(r.uniqueId) && IsHexId(r.deleteToken)
      && r.currentDownloads == 0 && r.createdAt == env.now
      && r.expiresAt == env.now + ExpiryMinutes(req.expiresIn) * MsPerMinute > env.now
      && (r.kind == File <==> req.file.Some?)
      && r.textContent.None? && r.fileUrl.None?
      && r.oneTimeView == IsTruthy(req.oneTimeView)
      && r.maxDownloads == limit && r.password == hashed && r.userId == req.user
  {
    var m := ExpiryMinutes(req.expiresIn);
    assert m * MsPerMinute >= MsPerMinute by {
      assert m >= 1;
    }
  }

  /** What the write step leaves under a `201`, for the planned record of
      an admitted request. */
  lemma PersistedFacts(w: World, req: CreateRequest, env: CreateEnv, limit: Option<int>, hashed: Option<string>)
    requires EnvReady(w.store, env)
    requires NormalizeMaxDownloads(req.maxDownloads, IsTruthy(req.oneTimeView)) == FinalMax(limit)
    ensures var c := Persist(w, req, env, PlannedRecord(w.store, req, env, limit, hashed));
      c.reply.Created? ==>
        && c.reply.uniqueId in c.store
        && var r := c.store[c.reply.uniqueId];
        && r.uniqueId == c.reply.uniqueId && IsHexId(r.uniqueId)
        && r.deleteToken == c.reply.deleteToken && IsHexId(r.deleteToken)
        && r.expiresAt == c.reply.expiresAt
        && WellFormed(r)
        && r.currentDownloads == 0
        && r.createdAt == env.now
        && r.expiresAt == env.now + ExpiryMinutes(req.expiresIn) * MsPerMinute > env.now
        && (r.kind == File <==> req.file.Some?)
        && (r.kind == Text ==> r.textContent == Some(TextOf(req.text)))
        && (r.kind == File ==> r.originalName == req.file.value.originalName && BlobKey(r.uniqueId) in c.blobs)
        && r.oneTimeView == IsTruthy(req.oneTimeView)
        && r.maxDownloads == limit
        && r.password == hashed
        && r.userId == req.user
  {
    var rec := PlannedRecord(w.store, req, env, limit, hashed);
    var c := Persist(w, req, env, rec);
    if c.reply.Created? {
      PlannedRecordFacts(w.store, req, env, limit, hashed);
      PersistStore(w, req, env, rec);
      PersistRecord(w, req, env, rec);
      var r := c.store[rec.uniqueId];
      assert PayloadMatchesKind(r) by {
        if req.file.Some? {
          assert r == rec.(fileUrl := Some(env.blobUpload.value), originalName := req.file.value.originalName);
        } else {
          assert r == rec.(textContent := Some(TextOf(req.text)));
        }
      }
      assert SchemaValid(r) && WithinQuota(r) && OneTimeIsSingleUse(r);
    }
  }

  /** The record a `201` leaves behind is well formed, carries the
      returned id and token, starts with no accesses, lives for the
      requested minutes, keeps the normalised limit, and a file record's
      blob is in place. */
  lemma CreatedRecord(w: World, req: CreateRequest, env: CreateEnv)
    requires EnvReady(w.store, env)
    ensures var (reply, w') := UploadContent(w, req, env);
      reply.Created? ==>
        && reply.uniqueId in w'.store
        && var r := w'.store[reply.uniqueId];
        && r.uniqueId == reply.uniqueId && IsHexId(r.uniqueId)
        && r.deleteToken == reply.deleteToken && IsHexId(r.deleteToken)
        && r.expiresAt == reply.expiresAt
        && WellFormed(r)
        && r.currentDownloads == 0
        && r.createdAt == env.now
        && r.expiresAt == env.now + ExpiryMinutes(req.expiresIn) * MsPerMinute > env.now
        && (r.kind == File <==> req.file.Some?)
        && (r.kind == Text ==> r.textContent == Some(TextOf(req.text)))
        && (r.kind == File ==> r.originalName == req.file.value.originalName && BlobKey(r.uniqueId) in w'.blobs)
        && r.oneTimeView == IsTruthy(req.oneTimeView)
        && NormalizeMaxDownloads(req.maxDownloads, IsTruthy(req.oneTimeView)) == FinalMax(r.maxDownloads)
        && (r.password.Some? <==> Truthy(req.password))
        && r.userId == req.user
  {
    match Admit(req, env.hash)
    case Refused(_, _) =>
    case Admitted(limit, hashed) =>
      var c := Persist(w, req, env, PlannedRecord(w.store, req, env, limit, hashed));
      assert CreateCore(w, req, env) == c;
      PersistedFacts(w, req, env, limit, hashed);
  }

  /** Creating a link keeps the two stores consistent: every record stays
      well formed under its own id, and every file record keeps its blob. */
  lemma UploadContentConsistent(w: World, req: CreateRequest, env: CreateEnv)
    requires EnvReady(w.store, env) && Consistent(w)
    ensures Consistent(UploadContent(w, req, env).1)
  {
    var (reply, w') := UploadContent(w, req, env);
    UploadContentStore(w, req, env);
    CreatedRecord(w, req, env);
    BlobsOnlyGrow(w, req, env);
    if reply.Created? {
      var id := reply.uniqueId;
      forall k | k in w'.store
        ensures w'.store[k].uniqueId == k && WellFormed(w'.store[k])
        ensures w'.store[k].kind == File ==> BlobKey(k) in w'.blobs
      {
        if k != id {
          assert w'.store[k] == w.store[k];
        }
      }
    }
  }

  /** No path of the handler removes a blob. */
  lemma BlobsOnlyGrow(w: World, req: CreateRequest, env: CreateEnv)
    requires EnvReady(w.store, env)
    ensures w.blobs <= UploadContent(w, req, env).1.blobs
  {
  }

  /** When the blob upload succeeds but the record cannot be written (here:
      an expiry past the largest `Date`), the reply is a `500` and the
      blob stays behind with no record pointing at it. */
  lemma FailedSaveOrphansBlob(w: World, req: CreateRequest, env: CreateEnv)
    requires EnvReady(w.store, env)
    requires req.file.Some? && env.blobUpload.Some?
    requires Admit(req, env.hash).Admitted?
    requires !env.saveOk
    ensures var (reply, w') := UploadContent(w, req, env);
      && reply == Failed(500, MsgUploadServerError)
      && w'.store == w.store
      && BlobKey(FirstFreshId(w.store, env.idDraws)) in w'.blobs
      && FirstFreshId(w.store, env.idDraws) !in w'.store
  {
  }

  /** A request with both a text and a file, or with neither, changes
      nothing but the staged file. */
  lemma EitherOrRefused(w: World, req: CreateRequest, env: CreateEnv)
    requires EnvReady(w.store, env)
    requires HasText(req) == req.file.Some?
    ensures var (reply, w') := UploadContent(w, req, env);
      reply == Failed(400, MsgEitherOr) && w'.store == w.store && w'.blobs == w.blobs
  {
  }

  /** No record without its blob: when the blob upload fails, a file
      request writes nothing to either store. */
  lemma BlobFailureWritesNothing(w: World, req: CreateRequest, env: CreateEnv)
    requires EnvReady(w.store, env)
    requires req.file.Some? && env.blobUpload.None?
    ensures var (reply, w') := UploadContent(w, req, env);
      reply.Failed? && w'.store == w.store && w'.blobs == w.blobs
  {
    match Admit(req, env.hash)
    case Refused(_, _) =>
    case Admitted(limit, hashed) =>
      var rec := PlannedRecord(w.store, req, env, limit, hashed);
      assert CreateCore(w, req, env) == Persist(w, req, env, rec);
  }
}
