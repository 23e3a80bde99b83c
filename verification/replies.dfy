/**
 * What the upload controller answers: a typed reply per operation, or a
 * failure carrying the HTTP status and the `error` message the source
 * sends.
 */
module Replies {
  import opened Wrappers
  import opened UploadModel

  datatype Reply =
    | Created(uniqueId: string, deleteToken: string, expiresAt: int)
    | Content(view: PublicRecord)
    | Stream(url: string, fileName: Option<string>, oneShotCleanup: bool)
    | Deleted
    | Listing(items: seq<PublicRecord>)
    | Failed(status: int, message: string)

  // uploadContent
  const MsgEitherOr := "Please provide either text or a file (only one)."
  const MsgInvalidFileName := "Invalid file name."
  const MsgFileNameTooLong := "File name is too long."
  const MsgMaxDownloads := "Max downloads must be at least 1."
  const MsgUploadServerError := "Server error."

  /** The opening the refusals of a dead or used-up link share. */
  const ForbiddenPrefix := "Access Forbidden: "

  // getContent
  const MsgLinkGone := ForbiddenPrefix + "Link is invalid or has expired."
  const MsgPasswordRequired := "Password required"
  const MsgIncorrectPassword := "Incorrect Password"
  const MsgMaxViews := ForbiddenPrefix + "Max views reached."

  // downloadContent
  const MsgInvalidLink := ForbiddenPrefix + "Link is invalid."
  const MsgLinkExpired := ForbiddenPrefix + "Link has expired."
  const MsgNotAFile := "Not a file."
  const MsgDownloadPasswordRequired := "Password Required"
  const MsgWrongPassword := "Wrong Password"

  // deleteContent, getMyUploads
  const MsgNotFound := "Not found"
  const MsgBadDeleteToken := "Unauthorized. Invalid delete token."
  const MsgAuthRequired := "Authentication required"
  const MsgServerError := "Server error"
}
