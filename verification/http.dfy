/** What a view hands back to the web layer, reduced to what the views decide. */
module Http {
  import opened Basics
  import opened Models

  /** Where a redirect points: the index page, or a post's `get_absolute_url()`. */
  datatype Target = IndexUrl | AbsoluteUrl(url: string)

  datatype Response =
    | NotFound            // Http404
    | PermissionDenied    // 403
    | LoginRedirect       // bounced to the login page
    | FormInvalid         // the form is shown again with its errors; nothing saved
    | Redirect(target: Target)

  /** A flash message queued for the next page. */
  datatype Message = Success(text: string) | Error(text: string)

  /** The result of a view that may write: the database afterwards, the
      response, and the flash message it queued, if any. */
  datatype Outcome = Outcome(store: Store, response: Response, message: Option<Message>)

  /** The result of a paginated list view. */
  datatype ListPage<T> = ListLoginRedirect | ListNotFound | Page(items: seq<T>)
}
