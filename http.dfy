/** What the routes exchange with the web framework: the request object the
    middlewares annotate, the outcome of a middleware, and a handler's
    response (status, message and payload). */
module Http {
  import opened Common

  /** A handler's response. `Ok` carries the success payload (an empty
      message stands for a body without one); `Err` is `{success: false, message}`. */
  datatype Response<T> =
    | Ok(status: nat, message: string, value: T)
    | Err(status: nat, message: string)

  /** A middleware either calls `next()` or ends the request with a status
      and a `{message}` body (these bodies carry no `success` field). */
  datatype Gate = Next | Halt(status: nat, message: string)

  /** The fields of the request object that the middlewares read and write. */
  class Request {
    /** The `Authorization` header, if sent. */
    var authorization: Option<string>
    /** The text fields of the JSON body that the content filter looks at. */
    var content: Option<string>
    var title: Option<string>
    var description: Option<string>
    /** `req.user`, attached by authentication. */
    var user: Option<User>
    /** `req.flaggedContent` and `req.moderationReason`, stamped by the
        content filter; `None` while unset. */
    var flaggedContent: Option<bool>
    var moderationReason: Option<string>

    constructor (authorization: Option<string>, content: Option<string>,
                 title: Option<string>, description: Option<string>)
      ensures this.authorization == authorization && this.content == content
      ensures this.title == title && this.description == description
      ensures user == None && flaggedContent == None && moderationReason == None
    {
      this.authorization := authorization;
      this.content := content;
      this.title := title;
      this.description := description;
      user := None;
      flaggedContent := None;
      moderationReason := None;
    }
  }
}
