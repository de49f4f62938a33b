/** The portal's error type, its HTTP status and its display text, and the
    further error kinds the route handlers raise. */
module Errors {

  /** `GuardianError`: a free-text general error or a missing HTMX header. */
  datatype GuardianError = GeneralError(msg: string) | HtmxTagNotFound

  /** HTTP status a `GuardianError` is answered with. */
  function StatusCode(e: GuardianError): (code: int)
    ensures e.GeneralError? ==> code == 500
    ensures e.HtmxTagNotFound? ==> code == 400
  {
    match e
    case GeneralError(_) => 500
    case HtmxTagNotFound => 400
  }

  const HTMX_TAG_NOT_FOUND_TEXT: string := "HTMX tag not found in header"

  /** The `Display` text of an error. */
  function Display(e: GuardianError): (text: string)
    ensures e.GeneralError? ==> text == e.msg
    ensures e.HtmxTagNotFound? ==> text == HTMX_TAG_NOT_FOUND_TEXT
  {
    match e
    case GeneralError(m) => m
    case HtmxTagNotFound => HTMX_TAG_NOT_FOUND_TEXT
  }

  /** The error kinds the route handlers and middleware raise. Their status
      codes are defined outside the modelled files, so only which kind and
      which payload are modelled. */
  datatype RouteError =
    | General(msg: string)
    | UserNotFound(who: string)
    | UserNotAllowedOnPage(page: string)
    | ServiceDoesNotExist(service: string)
    | Unauthorized(reason: string)
    | InferenceServiceHeaderNotFound
    | AuthorizationServerNotSupported
    | MCPParseIssue
    | BadObjectId(text: string)
    | BadPayload

  /* `BadObjectId` is the `GeneralError` built from the message of the failed
     ObjectId parse, and `BadPayload` the error a failed form or query
     deserialisation is converted into; neither message's wording is
     modelled. */
}
