# LinkVault core in Dafny

LinkVault shares a text snippet or a file through a link that expires.
A link can have a password, a cap on the number of views, and a "one-time
view" flag. This project models the server's link lifecycle:

- creating a link (`uploadContent`);
- viewing its metadata (`getContent`), where views are counted against the cap;
- the download proxy (`downloadContent`), including its one-shot cleanup after a one-time download;
- manual deletion by the owner or the holder of the delete token (`deleteContent`);
- listing the caller's links (`getMyUploads`);
- the scheduled sweep of expired links (`cron.js`).

It also models the record schema, the id generator, the staging-file naming rule, and the account controller's input normalisation and regex escaping. From the browser client it models the view page's classification of replies, its double-fetch guard, and the dashboard's statistics.

The metadata store is a `map` from `uniqueId` to `Record`. The blob store is a `set` of keys `linkvault/<id>`. Files staged on disk are a `set` of paths. These three together are a `World`. Each handler is a pure function from a `World` and a request to a reply and a new `World`. Each store call is one atomic step. Everything the handlers take from outside enters as a parameter:

- the clock;
- random bytes;
- bcrypt;
- whether a blob upload, destroy or fetch succeeds.

`QuotaInterleaving` drops the "one handler at a time" assumption. It runs views as processes whose store calls interleave with each other and with creations, deletions, blob destroys and clock ticks. It proves the view limit over every interleaving.

Modules, in dependency order:

- Shared helpers:
  - `Wrappers`: `Option`.
  - `JsText`: `trim`, ASCII `toLowerCase`, `includes`, decimal rendering.
  - `JsValues`: request-body values as JavaScript sees them: truthiness and `parseInt`.
  - `HexId`: `generateId`.
  - `UriComponent`: `encodeURIComponent`.
- Data model and request handlers:
  - `UploadModel`: the record, its schema, the two stores.
  - `Replies`: HTTP replies and their messages.
  - `UploadNaming`: multer naming and the size limit.
  - `UploadCreate`, `UploadView`, `UploadDownload`, `UploadManage`: one per handler group.
  - `Reaper`: the scheduled sweep.
  - `QuotaInterleaving`: the concurrent view model.
  - `ViewAgreement`: a view process run alone agrees with the sequential view handler.
  - `Lifecycle`: properties across handlers.
- Accounts: `RegexEscape` and `Accounts`.
- Client: `ViewPage` and `Dashboard`.

Behaviour of the code worth knowing, which the model follows:

- **No extension denylist.** File names are checked only for presence, length (at most 255) and NUL characters.
- **Downloads are not charged.** The download proxy does not touch the counter. Only the metadata view charges a view (`DownloadKeepsCounters`).
- **The staged file is not always removed.** It is removed only on the paths that reach the file branch's `finally`. This is the finding below.
- **Orphan blobs are never reclaimed.** A blob whose record write failed stays behind, and no component removes it. The sweep scans records only (`FailedSaveOrphansBlob`, `SweepBlobTargets`).
- **The two expiry tests differ.** The sweep selects `expiresAt < now`, while the view and download treat a link as dead when `now > expiresAt`. A link whose expiry is exactly `now` is still served and is not swept.
- **A failed record delete strands a record.** The sweep destroys the blob before deleting the record. If that delete throws, the run ends, and an expired file record is left without its blob until the next run (`DeleteFailureStrandsRecord`).
- **The two deletion paths treat blobs differently.** A view at the limit destroys the blob of every file record. A view of an expired file record destroys the blob only when the record has a file URL.

## Model

| member | source | states |
|---|---|---|
| UploadModel.NewRecordDefaults | backend/models/Upload.js:3-30 | a new document has no accesses counted, no limit, no owner and is not one-time; it is schema-valid exactly when id, token and both dates are valid |
| UploadModel.BlobKeyInjective | backend/controllers/uploadController.js:88-92 | two ids with the same blob key `linkvault/<id>` are the same id |
| UploadModel.StripForgetsExactlySecrets | backend/controllers/uploadController.js:193-197 | two records have the same public form if and only if they differ at most in the password hash and the delete token |
| HexId.DecodeEncode | backend/utils/generateId.js:4-6 | hex decoding of the lower-case hex encoding gives back the bytes |
| HexId.EncodeDecode | backend/utils/generateId.js:4-6 | every even-length lower-case hex string is the encoding of its decoding |
| HexId.EncodeInjective | backend/utils/generateId.js:4-6 | different byte strings have different hex encodings |
| HexId.GenerateId | backend/utils/generateId.js:4-6 | the id of 16 random bytes is 32 lower-case hex characters that decode to those bytes |
| JsText.Trim | backend/controllers/userController.js:16-17 | the result has no white space at either end, and it is empty exactly when the input is all white space |
| JsText.TrimLower | backend/controllers/userController.js:17 | trimming and lower-casing commute |
| JsValues.ParseDecimalPrefix | backend/controllers/uploadController.js:47 | `parseInt` reads back the decimal rendering of any integer, and stops at the first following non-digit |
| JsValues.ParseIntegralField | backend/controllers/uploadController.js:63 | `parseInt(String(n))` is `n` for every integral number, with or without a radix |
| JsValues.ParseNonNumeric | backend/controllers/uploadController.js:63 | a missing field, a boolean and an object all parse to NaN |
| JsValues.ParseArrayFirst | backend/controllers/uploadController.js:47 | `parseInt` of an array field reads its first element's number, since the comma of the join ends it |
| JsValues.NonNumericStart | backend/controllers/uploadController.js:47 | a string that starts with anything but white space, a sign or a digit parses to NaN |
| UploadNaming.ReplaceUnsafe | backend/middleware/uploadMiddleware.js:12-13 | the length is kept, a safe character stays at its position, and every other character becomes `_` |
| UploadNaming.SafeNameShape | backend/middleware/uploadMiddleware.js:11-14 | the sanitised name has only safe characters, is capped at 120, and keeps each safe character of the original at its position |
| UploadNaming.SafeNameDefault | backend/middleware/uploadMiddleware.js:12 | a missing or empty original name becomes `upload.bin` |
| UploadNaming.SafeNameIdempotent | backend/middleware/uploadMiddleware.js:12-14 | sanitising a sanitised name changes nothing |
| UploadNaming.TempFileName | backend/middleware/uploadMiddleware.js:15 | the staged name has only safe characters, and its length is bounded by the timestamp digits plus 121 |
| UploadNaming.TempFileNameSplits | backend/middleware/uploadMiddleware.js:15 | the staged name splits back into its parts: `parseInt` reads the timestamp, and the sanitised name follows the first `-` |
| UploadNaming.MaxFileSizeDefault | backend/middleware/uploadMiddleware.js:5 | without a setting, the size limit is 10 MiB |
| UploadNaming.MaxFileSizeDecimal | backend/middleware/uploadMiddleware.js:5 | a decimal setting `n` gives a limit of `n` MiB |
| UploadCreate.IsTruthyIgnoresCase | backend/controllers/uploadController.js:9-14 | a string flag reads the same whatever its letter case |
| UploadCreate.IsTruthyFormFlag | backend/controllers/uploadController.js:9-14 | the strings `"true"` and `"false"` read back as the boolean they spell |
| UploadCreate.FileNameProblem | backend/controllers/uploadController.js:30-40 | a file name is accepted exactly when it is present, non-empty, at most 255 long and free of NUL, and each refusal carries one of the two messages |
| UploadCreate.NormalizeMaxDownloads | backend/controllers/uploadController.js:45-57 | refused exactly when the field is truthy and does not parse to at least 1; otherwise the limit is the parsed value or none, forced to 1 for a one-time link, and never below 1 |
| UploadCreate.MaxDownloadsFromForm | backend/controllers/uploadController.js:45-57 | a decimal limit below 1 is refused and one of at least 1 is kept, unless one-time forces 1; an absent or empty field means no limit |
| UploadCreate.ExpiryMinutes | backend/controllers/uploadController.js:63-65 | the lifetime is at least one minute; it is the parsed value when that is a positive integer, else the default of 10 |
| UploadCreate.ExpiryOfFields | backend/controllers/uploadController.js:63-65 | a missing field gets 10 minutes, and a number field `n` gets `n` minutes if positive, else 10 |
| UploadCreate.FirstFreshId | backend/controllers/uploadController.js:59-60 | the chosen id is held by no record, is 32 hex characters, and is the first draw that did not collide |
| UploadCreate.Admit | backend/controllers/uploadController.js:19-71 | refused exactly when both or neither of text and file are given, the file name is unacceptable, the limit is invalid, or a truthy password is not a string; each refusal has its own status and message, in the handler's order; an admitted request has an acceptable file name, the normalised limit, and a hash exactly when the password is truthy |
| UploadCreate.AdmittedSucceeds | backend/controllers/uploadController.js:85-126 | an admitted request whose blob upload and record write go through, with a valid expiry date, gets a 201 naming the first fresh id and the drawn delete token, and its record is stored |
| UploadCreate.UploadContentAsWritten | backend/controllers/uploadController.js:17-132 | the handler as written never adds staged files (the leak is `TempFileLeaksAsWritten`) |
| UploadCreate.TempFileLeaksAsWritten | backend/controllers/uploadController.js:25-27 | with text and a file, the reply is a 400 and the staged file stays on disk |
| UploadCreate.UploadContent | backend/controllers/uploadController.js:107-112 | the corrected handler removes the staged file on every exit path and touches no other staged file |
| UploadCreate.UploadContentStore | backend/controllers/uploadController.js:97-98 | only a 201 writes, and it adds exactly one record under an id no record held; any other reply leaves the store as it was |
| UploadCreate.PersistStore | backend/controllers/uploadController.js:85-126 | the write step adds at most the one record it is given, under that record's id |
| UploadCreate.PersistRecord | backend/controllers/uploadController.js:85-126 | a 201 stores the record with its payload: a file record gets the blob URL, its name and its blob; a text record gets the text |
| UploadCreate.PlannedRecordFacts | backend/controllers/uploadController.js:59-83 | the planned record has a fresh hex id and a hex token, no accesses, was created now, and expires the requested number of minutes later |
| UploadCreate.CreatedRecord | backend/controllers/uploadController.js:74-126 | the record behind a 201 is well formed and carries the returned id, token and expiry; it keeps the kind, payload, flag, normalised limit and owner, and has a password hash exactly when one was given |
| UploadCreate.UploadContentConsistent | backend/controllers/uploadController.js:85-126 | creating a link keeps every record well formed under its own id, and every file record keeps its blob |
| UploadCreate.BlobsOnlyGrow | backend/controllers/uploadController.js:17-132 | creating a link never removes a blob |
| UploadCreate.FailedSaveOrphansBlob | backend/controllers/uploadController.js:88-98 | when the blob upload succeeds but the record write fails, the reply is a 500 and the blob is left with no record |
| UploadCreate.EitherOrRefused | backend/controllers/uploadController.js:25-27 | both or neither of text and file is a 400 that writes nothing |
| UploadCreate.BlobFailureWritesNothing | backend/controllers/uploadController.js:87-98 | when the blob upload fails, nothing is written to either store |
| UriComponent.DecodeEncode | backend/controllers/uploadController.js:203 | percent-decoding the encoded text gives exactly its UTF-8 bytes |
| UriComponent.EncodeUriComponent | backend/controllers/uploadController.js:203 | the encoding is never shorter than the input and contains only unreserved characters and `%`, so it cannot break out of its query parameter |
| UriComponent.EncodeUnreserved | backend/controllers/uploadController.js:203 | a string of unreserved characters is encoded as itself |
| UploadView.SuppliedPassword | backend/controllers/uploadController.js:138-139 | a string query password wins and is trimmed; a falsy body value gives `""`; the handler fails only on a truthy body value that is not a string |
| UploadView.PasswordGate | backend/controllers/uploadController.js:159-163 | the gate opens exactly when the record has no password, or a non-empty supplied password verifies; it asks for a password exactly when the record has one and none was given |
| UploadView.ProxyLinkCarriesPassword | backend/controllers/uploadController.js:200-204 | the password can be read back from the proxy link: its query value decodes to the password's UTF-8 bytes |
| UploadView.Purge | backend/controllers/uploadController.js:151-154 | deletion removes exactly the record, and also its blob when asked to |
| UploadView.ViewRefusals | backend/controllers/uploadController.js:145-163 | a missing link, an expired one, a missing password and a wrong one are refused before the counter is touched; only an expired record (and its blob, when it has a URL) is removed |
| UploadView.ViewFrame | backend/controllers/uploadController.js:142-190 | a view changes no other record, adds none, and can destroy only its own link's blob |
| UploadView.ViewChargesQuota | backend/controllers/uploadController.js:166-180 | a successful view of a limited link starts below the limit and raises the counter by exactly one; a refusal for max views happens only at the limit, and it deletes the record and a file's blob; no other record changes |
| UploadView.ViewUnlimited | backend/controllers/uploadController.js:181-184 | without a limit, every admitted view is counted, but the reply shows the count as it was read; no other record changes |
| UploadView.ViewBurnsOneTimeText | backend/controllers/uploadController.js:186-190 | after a successful view, the record is gone exactly when it is one-time text; no blob is touched and no other record changes |
| UploadView.ViewReplyShape | backend/controllers/uploadController.js:192-204 | a successful view shows the requested record's public fields; for a file, the blob URL is replaced by the proxy link |
| UploadView.ViewConsistent | backend/controllers/uploadController.js:135-217 | a view keeps every record well formed and every file record's blob in place |
| UploadView.ViewsWithinQuota | backend/controllers/uploadController.js:166-179 | however many views follow one another, no more succeed than the limit minus the count |
| UploadView.ViewsExhaustQuota | backend/controllers/uploadController.js:166-179 | a live, open, limited link that is not one-time text serves exactly its remaining views, and refuses every later one |
| UploadDownload.Download | backend/controllers/uploadController.js:220-282 | a stream is started only for a live file record, from its blob URL under its original name; the cleanup is armed exactly for a one-time record |
| UploadDownload.DownloadRefusals | backend/controllers/uploadController.js:228-244 | a missing link, an expired one (which stays stored), a text record, a missing password and a wrong one each get their own refusal |
| UploadDownload.ViewPasswordOpensDownload | backend/controllers/uploadController.js:223 | a password that opens the view also opens the download, because trimming twice is trimming once |
| UploadDownload.OnEvent | backend/controllers/uploadController.js:263-268 | after any response event the guard is set, and the cleanup body runs only if the guard was clear |
| UploadDownload.CleanupRunsOnce | backend/controllers/uploadController.js:261-271 | however the `finish` and `close` events arrive, the cleanup runs exactly once if any event arrives, and removes the record and its blob |
| UploadDownload.AlreadyCleaned | backend/controllers/uploadController.js:264 | once the guard is set, further events change nothing |
| UploadDownload.DownloadKeepsCounters | backend/controllers/uploadController.js:246-247 | a download, cleanup included, changes no record: what stays in the store is what was there |
| UploadDownload.CleanupConsistent | backend/controllers/uploadController.js:263-268 | the cleanup keeps every remaining file record's blob in place |
| UploadManage.DeleteAuthorisation | backend/controllers/uploadController.js:285-308 | an unknown id is a 404 and a stranger a 403, neither changing anything; a delete succeeds exactly for the owner or the holder of the non-empty token (and, for a file, when the blob destroy succeeds), and then removes just that record and a file's blob |
| UploadManage.DeleteConsistent | backend/controllers/uploadController.js:301-302 | a delete keeps every remaining file record's blob in place |
| UploadManage.Insert | backend/controllers/uploadController.js:316 | inserting into a newest-first list keeps it newest first and adds exactly the one element |
| UploadManage.SortNewestFirst | backend/controllers/uploadController.js:316 | the sorted list is newest first and a permutation of the input |
| UploadManage.OwnedBy | backend/controllers/uploadController.js:314-315 | the selection holds exactly the public forms of the scanned records the user owns |
| UploadManage.OwnedByCount | backend/controllers/uploadController.js:314-315 | the selection has exactly one entry per record the user owns, so the listing's length is the number of the user's records |
| UploadManage.ListMine | backend/controllers/uploadController.js:311-321 | an anonymous caller gets a 401 and nobody else does; a listing is newest first and a permutation of the caller's records |
| UploadManage.ListMineExactlyOwn | backend/controllers/uploadController.js:314-316 | the caller sees every one of their own records, without secrets, and nobody else's |
| Reaper.Selected | backend/utils/cron.js:11-12 | the sweep selects exactly the scanned records whose expiry is strictly before now, each once |
| Reaper.BlobStep | backend/utils/cron.js:19-27 | the blob step leaves the records alone, and removes a file record's blob unless its destroy fails |
| Reaper.SweepLoopEffect | backend/utils/cron.js:17-30 | the loop never adds or alters records, keeps the records it was not given, and removes all it was given unless a delete fails; it only removes blobs of the selected file records |
| Reaper.SweepKeepsLive | backend/utils/cron.js:11-30 | a record whose expiry is not before now survives any sweep unchanged, whatever fails |
| Reaper.SweepRemovesExpired | backend/utils/cron.js:11-30 | a sweep without store failures leaves no expired record, even when blob destroys fail; with no blob failure either, it leaves none of their blobs |
| Reaper.SweepBlobTargets | backend/utils/cron.js:19-27 | a sweep only destroys blobs of expired file records, so a blob without a record is never reclaimed |
| Reaper.FailedSweepRecovers | backend/utils/cron.js:33-35 | whatever a failed run left behind, a later clean run clears every record expired by then |
| Reaper.SweepConsistent | backend/utils/cron.js:17-30 | a sweep without store failures keeps every remaining record well formed and every remaining file record's blob in place |
| Reaper.SweepFaultConsistent | backend/utils/cron.js:17-34 | whatever fails, remaining records stay well formed and every remaining unexpired file record keeps its blob |
| Reaper.DeleteFailureStrandsRecord | backend/utils/cron.js:20-33 | when the record delete after a blob destroy throws, the expired file record stays stored without its blob, so the stores are no longer consistent |
| QuotaInterleaving.AdvanceFrame | backend/controllers/uploadController.js:142-190 | one store call of a view touches only its own link's record, blob and counters |
| QuotaInterleaving.AdvanceOwnLink | backend/controllers/uploadController.js:168-179 | on its own limited link, a view's call raises the counter by one exactly when the conditional increment succeeds, and only below the limit |
| QuotaInterleaving.InitInv | backend/models/Upload.js:13-22 | the empty system satisfies the quota invariant |
| QuotaInterleaving.StepInv | backend/controllers/uploadController.js:142-190 | any store call of any view keeps the invariant |
| QuotaInterleaving.ApplyInv | backend/controllers/uploadController.js:166-184 | every event keeps the invariant: a new view, a store call of a view, a clock tick, an upload, a deletion or a blob destroy |
| QuotaInterleaving.RunInv | backend/controllers/uploadController.js:166-184 | every sequence of events keeps the invariant |
| ViewAgreement.SoloViewAgrees | backend/controllers/uploadController.js:135-190 | a view process run with no other event between its store calls ends with the stores `GetContent` leaves, and reports success exactly when `GetContent` serves the content |
| QuotaInterleaving.QuotaHolds | backend/controllers/uploadController.js:166-184 | over every interleaving, every stored counter is within its limit, and a limited link has served at most its limit of successful views |
| RegexEscape.Escape | backend/controllers/userController.js:8 | the escaped text is as long as the input plus one backslash per special character |
| RegexEscape.EscapeIsLiteral | backend/controllers/userController.js:8 | the escaped text is a purely literal pattern for exactly the input |
| RegexEscape.EscapeInjective | backend/controllers/userController.js:8 | different names give different patterns |
| RegexEscape.EscapePlain | backend/controllers/userController.js:8 | a string without special characters is its own escape |
| Accounts.CleanUsername | backend/controllers/userController.js:16 | a string name is trimmed, a missing one stays absent, and exactly the other values make the handler throw |
| Accounts.CleanEmail | backend/controllers/userController.js:17 | a string e-mail is trimmed and lower-cased, a missing one stays absent, and exactly the other values make the handler throw |
| Accounts.RegisterUser | backend/controllers/userController.js:11-53 | registration adds an account exactly when it succeeds; the account has the trimmed name, the trimmed lower-case e-mail and the hash; all three fields were present, and no account clashed ignoring case; a name or e-mail that is neither absent nor a string is a 500; a missing or blank field is the 400 of line 20; with all fields present, a clash is the 400 of line 32, a string password registers, and any other password is a 500 |
| Accounts.RegisterRequiresAllFields | backend/controllers/userController.js:19-21 | a blank name or e-mail, or a falsy password, is a 400 whatever the accounts |
| Accounts.RegisterKeepsDistinct | backend/controllers/userController.js:24-33 | registration keeps names and e-mail addresses distinct ignoring case |
| Accounts.FindByEmail | backend/controllers/userController.js:66-68 | the lookup finds the first account whose e-mail matches ignoring case, or reports that none does |
| Accounts.LoginUser | backend/controllers/userController.js:56-95 | a token is issued only for an account whose e-mail matches and whose hash accepts the password; every refusal is the same 400 |
| Accounts.LoginOutcomes | backend/controllers/userController.js:59-74 | for string inputs, login either issues a token or gives the one refusal; it succeeds exactly when the first matching account's hash accepts the non-empty password |
| ViewPage.Classify | frontend/src/pages/View.jsx:23-65 | a success shows the data, unlocked and without error; a 401 locks; a 403 locks exactly when its message names a password error in any case, and otherwise shows the message or the default; anything else shows the missing-link text; loading and unlocking always end |
| ViewPage.ServerPasswordErrorsLock | frontend/src/pages/View.jsx:43-53 | the server's `Password required`, `Incorrect Password` and `Wrong Password` replies all lock the page |
| ViewPage.LacksNoPasswordError | frontend/src/pages/View.jsx:47-49 | a message without a `p`, or without a `w`, in either case is never taken for a password error |
| ViewPage.LinkGoneShows | frontend/src/pages/View.jsx:54-56 | the server's invalid-or-expired refusal unlocks the page and shows the server's message |
| ViewPage.MaxViewsShows | frontend/src/pages/View.jsx:54-56 | the server's max-views refusal unlocks the page and shows the server's message |
| ViewPage.RequestsPerMount | frontend/src/pages/View.jsx:67-85 | per mount, however often the effect runs, one password-less request goes out if it runs at all, plus one request per unlock with a non-empty password |
| ViewPage.AtMostOneInitialFetch | frontend/src/pages/View.jsx:81-85 | from a fresh mount, at most one request goes out without a password |
| Dashboard.ActiveItems | frontend/src/pages/Dashboard.jsx:58 | the filter keeps exactly the links whose expiry is later than now, each as often as it occurs in the input |
| Dashboard.CalculateStats | frontend/src/pages/Dashboard.jsx:55-60 | the loop's totals are the number of links, the sum of their views left to right, and the number of active links, which never exceeds the total |
| Dashboard.ViewSumBounds | frontend/src/pages/Dashboard.jsx:57 | with non-negative counters, the total is non-negative and at least any single link's views |
| Dashboard.ListingStats | frontend/src/pages/Dashboard.jsx:55-60 | for the records a listing returns, the total views are non-negative and count every link in full |
| Dashboard.ViewSumAppend | frontend/src/pages/Dashboard.jsx:57 | the view total of two lists together is the sum of their totals |
| Lifecycle.ExpiredFileIsReaped | backend/utils/cron.js:11-30 | an expired file record that the scan covers is removed with its blob by a sweep without failures |
| Lifecycle.CreatedFileIsReaped | backend/controllers/uploadController.js:88-98 | a file link created by an upload, once expired, is removed with its blob by a sweep without failures, because the upload and the sweep use the same blob key |
| Lifecycle.OneTimeTextReadOnce | backend/controllers/uploadController.js:186-190 | an open, one-time text link shows its text on the first view and is refused as gone on the second |
| Lifecycle.PasswordGuardsView | backend/controllers/uploadController.js:159-163 | a protected link cannot be viewed without its password, and with the right password the view succeeds |

## Left out

- HTTP plumbing is not modelled: routing, headers (cache control, content disposition), JSON serialisation, multer's streaming to disk, and the size limit's enforcement itself. Only the limit's value is modelled.
- The metadata database is a map updated in atomic steps. Mongoose's `_id`, `__v`, `toObject` and validation-error messages are not modelled. A failed record write is a parameter of the create handler.
- Cloudinary and `https.get` are not modelled. An upload's outcome, a destroy's failure and a fetch's failure are parameters. The bytes of a streamed file are not modelled.
- bcrypt and JWT signing are functions passed in. Salt generation and token expiry are not modelled.
- Randomness enters as the bytes of each `generateId()` call and of the delete token.
- UploadCreate.FirstFreshId: requires that some draw is fresh. The id loop's termination is probabilistic and is not modelled.
- The clock is an integer parameter. node-cron's once-a-minute schedule is not modelled: one call of `Reaper.Sweep` is one run.
- Reaper.Sweep: a failed blob destroy is modelled, but a failed delete ends the run. The blob-destroy and delete calls of the view and download cleanup are taken to succeed, since their failures are swallowed or end the request.
- Strings are sequences of Unicode scalar values, not of UTF-16 code units. A lone surrogate cannot be represented, and `toLowerCase` beyond ASCII is not modelled.
- UploadCreate.FileNameProblem: the 255 limit counts characters, while the source counts UTF-16 code units, so a name of 128 characters outside the Basic Multilingual Plane (256 code units) is refused by the source and accepted by the model.
- UploadNaming.ReplaceUnsafe: a character outside the Basic Multilingual Plane becomes one `_`, while the source's per-code-unit replace writes `__`.
- UploadNaming.SafeNameShape: the 120 limit of `slice(0,120)` counts characters, not UTF-16 code units, so for names with characters outside the Basic Multilingual Plane the model keeps more than the source.
- UploadView.GetContent: a JSON password holding a lone surrogate (`"\ud800"`) on a file link makes `encodeURIComponent` throw a URIError at uploadController.js:203. The reply is then a 500 after the counter was already charged at 168-183. That path is not modelled, because such a string has no counterpart here.
- `parseInt` is modelled on integers. Numbers that are not integers, and precision beyond 2^53, are not modelled.
- A query password that is not a string (an array from a repeated parameter) is treated as absent, as the handlers do.
- Body fields may be arrays (`FormField.Arr`), as JSON or repeated multipart fields deliver them. `parseInt` of an array reads its comma-joined text. `null` is not distinguished from an absent field.
- QuotaInterleaving.QuotaHolds: assumes an id is never issued twice. Creation only checks the live store, so an id could come back after its record was deleted. A view still holding the old document would then apply the old limit to the new record. The password check is abstracted to a flag fixed when the view starts.
- `ViewPage` does not model the toast messages, `localStorage` or rendering. `Dashboard` does not model the fetch, the redirect on 401, deletion from the page, or rendering.
- The remaining files of the repository are not part of this model: routes, server start-up, the authentication middlewares, the user schema, and the other pages.

## Findings

| source | as written | input that shows it | evidently intended | confidence | as-written member | corrected member |
|---|---|---|---|---|---|---|
| backend/controllers/uploadController.js:25-71 | the staged upload is unlinked only in the `finally` around the blob upload (lines 107-112). The earlier returns skip it: the 400s for text plus file, a bad file name and a bad limit, and a 500 from hashing a non-string password | a request with text `"hi"` and a file: 400, and the multer temp file stays on disk | remove the staged file on every exit path, as the comment on line 108 says | not executed | UploadCreate.UploadContentAsWritten, UploadCreate.TempFileLeaksAsWritten | UploadCreate.UploadContent |
