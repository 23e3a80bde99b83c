/**
 * The multer disk-storage naming rule for staged uploads and the upload
 * size limit.
 */
module UploadNaming {
  import opened Wrappers
  import opened JsText
  import opened JsValues

  /** Name used when the client sent no original file name. */
  const DefaultName := "upload.bin"

  /** Longest sanitised name kept. */
  const MaxSafeNameLength := 120

  /** Size limit, in megabytes, when the environment does not set one. */
  const DefaultMaxFileSizeMb := "10"

  const BytesPerMb := 1024 * 1024

  /** The characters `[\w.\-]` matches: ASCII letters, digits, `_`, `.`, `-`. */
  predicate IsSafeChar(c: char) {
    ('A' <= c <= 'Z') || ('a' <= c <= 'z') || ('0' <= c <= '9') || c == '_' || c == '.' || c == '-'
  }

  /** `replace(/[^\w.\-]/g, "_")`: every other character becomes `_`. */
  function ReplaceUnsafe(s: string): (r: string)
    ensures |r| == |s|
    ensures forall k :: 0 <= k < |s| ==> IsSafeChar(r[k])
    ensures forall k :: 0 <= k < |s| ==> (r[k] == s[k] <==> IsSafeChar(s[k]))
  {
    seq(|s|, k requires 0 <= k < |s| => if IsSafeChar(s[k]) then s[k] else '_')
  }

  /** `(originalname || "upload.bin").replace(...).slice(0, 120)`. */
  function SafeName(original: Option<string>): string {
    var name := if original.None? || original.value == "" then DefaultName else original.value;
    var replaced := ReplaceUnsafe(name);
    if |replaced| <= MaxSafeNameLength then replaced else replaced[..MaxSafeNameLength]
  }

  /** The sanitised name is a position-preserving, length-capped image of
      the original: safe characters stay where they were, every other one
      is `_`, and nothing is inserted or dropped before the cap. */
  lemma SafeNameShape(name: string)
    requires name != ""
    ensures |SafeName(Some(name))| == if |name| <= MaxSafeNameLength then |name| else MaxSafeNameLength
    ensures forall k :: 0 <= k < |SafeName(Some(name))| ==>
      IsSafeChar(SafeName(Some(name))[k])
      && (IsSafeChar(name[k]) ==> SafeName(Some(name))[k] == name[k])
      && (!IsSafeChar(name[k]) ==> SafeName(Some(name))[k] == '_')
  {
  }

  /** A missing or empty original name is replaced by the default. */
  lemma SafeNameDefault(original: Option<string>)
    requires original.None? || original.value == ""
    ensures SafeName(original) == DefaultName
  {
    var d := DefaultName;
    assert forall k :: 0 <= k < |d| ==> IsSafeChar(d[k]);
    assert ReplaceUnsafe(d) == d;
  }

  /** Sanitising an already sanitised name changes nothing. */
  lemma SafeNameIdempotent(original: Option<string>)
    ensures SafeName(Some(SafeName(original))) == SafeName(original)
  {
    var s := SafeName(original);
    assert |s| > 0;
    assert ReplaceUnsafe(s) == s;
  }

  /** The staged file's name: `${Date.now()}-${safeName}`. */
  function TempFileName(timestamp: nat, original: Option<string>): (r: string)
    ensures forall k :: 0 <= k < |r| ==> IsSafeChar(r[k])
    ensures |r| <= |Decimal(timestamp)| + 1 + MaxSafeNameLength
  {
    var safe := SafeName(original);
    var r := Decimal(timestamp) + "-" + safe;
    assert forall k :: |Decimal(timestamp)| + 1 <= k < |r| ==> r[k] == safe[k - |Decimal(timestamp)| - 1];
    r
  }

  /** The staged name splits back into its parts: the timestamp is what
      `parseInt` reads from its front, and the sanitised name is what
      follows the first `-`. */
  lemma TempFileNameSplits(timestamp: nat, original: Option<string>)
    ensures ParseInt(TempFileName(timestamp, original), false) == Some(timestamp)
    ensures TempFileName(timestamp, original)[|Decimal(timestamp)|] == '-'
    ensures TempFileName(timestamp, original)[|Decimal(timestamp)| + 1..] == SafeName(original)
  {
    var d := Decimal(timestamp);
    var safe := SafeName(original);
    var rest := "-" + safe;
    assert TempFileName(timestamp, original) == d + rest;
    assert SignedDecimal(timestamp) == d;
    assert EndsNumber(rest);
    ParseDecimalPrefix(timestamp, rest, false);
    assert (d + rest)[|d|] == '-';
    assert (d + rest)[|d| + 1..] == safe;
  }

  /** `process.env.MAX_FILE_SIZE_MB || "10"`. */
  function SizeSetting(setting: Option<string>): string {
    if setting.None? || setting.value == "" then DefaultMaxFileSizeMb else setting.value
  }

  /** `MAX_FILE_SIZE_MB * 1024 * 1024` with `MAX_FILE_SIZE_MB` read as
      `parseInt(process.env.MAX_FILE_SIZE_MB || "10", 10)`; `None` when the
      setting is not a number. */
  function MaxFileSizeBytes(setting: Option<string>): Option<int> {
    match ParseInt(SizeSetting(setting), false)
    case None => None
    case Some(mb) => Some(mb * BytesPerMb)
  }

  /** Without a setting the limit is 10 MiB. */
  lemma MaxFileSizeDefault(setting: Option<string>)
    requires setting.None? || setting.value == ""
    ensures MaxFileSizeBytes(setting) == Some(10 * BytesPerMb)
  {
    assert Decimal(10) == DefaultMaxFileSizeMb;
    assert SizeSetting(setting) == Decimal(10) + "";
    ParseUnsignedPrefix(10, "", false);
  }

  /** A decimal setting of `n` gives `n` MiB. */
  lemma MaxFileSizeDecimal(n: nat)
    ensures MaxFileSizeBytes(Some(Decimal(n))) == Some(n * BytesPerMb)
  {
    var text := Decimal(n);
    assert SizeSetting(Some(text)) == text;
    ParseUnsignedPrefix(n, "", false);
    assert text + "" == text;
  }
}
