/** What a request handler answers, reduced to its kind; rendering and flash texts are not modelled. */
module Responses {

  datatype Outcome =
    /** The change (if any) is committed and the browser is redirected onward. */
    | Redirected
    /** A page or fragment is rendered: a GET, or a form that did not validate. Nothing is written. */
    | Shown
    /** The form is rendered again with `message` attached to `field`. */
    | FieldError(field: string, message: string)
    /** The request is refused with a flashed explanation; nothing is written. */
    | Refused
    /** The transaction was rolled back and an error flashed. */
    | Failed
    | NotFound
    | Forbidden
    | BadRequest
    /** An uncaught exception. */
    | ServerError
    /** `@login_required` sends an anonymous visitor to the login page. */
    | LoginRequired
    /** A logged-in trainer asking for the login or register page is sent to the index. */
    | AlreadyAuthenticated
}
