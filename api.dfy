/**
 * What the page controllers receive from and show around the remote API:
 * the creation record, the outcome of one awaited request, and the toast
 * notice a handler raises. Requests, bearer tokens and toasts themselves are
 * not modelled; a request is represented only by its outcome.
 */
module Api {

  /** JavaScript `null` or a value. */
  datatype Option<T> = None | Some(value: T)

  type CreationId = int
  type UserId = string

  /**
   * One creation as the API returns it. The source's field `type` is called
   * `kind` here (`type` is a keyword); `likes` lists the ids of the users who
   * liked a published creation.
   */
  datatype Creation = Creation(id: CreationId, kind: string, prompt: string, content: string, likes: seq<UserId>)

  /**
   * The outcome of one awaited axios call: a response body whose `success` is
   * true (carrying its payload), a response body whose `success` is false
   * (carrying `data.message`), or an exception thrown by the token lookup or
   * the request (carrying `error.message`).
   */
  datatype Reply<T> = Success(value: T) | Failure(message: string) | Thrown(message: string)

  /** The toast a handler raises, if any. */
  datatype Notice = Quiet | SuccessToast(text: string) | ErrorToast(text: string)

  /** The error toast for a reply that did not succeed, and no toast for one that did. */
  function ErrorNotice<T>(reply: Reply<T>): (n: Notice)
    ensures reply.Success? <==> n == Quiet
    ensures !reply.Success? ==> n == ErrorToast(reply.message)
  {
    match reply
    case Success(_) => Quiet
    case Failure(message) => ErrorToast(message)
    case Thrown(message) => ErrorToast(message)
  }
}
