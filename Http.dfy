/** The request/response vocabulary shared by the handlers of
    server/routes.ts and server/auth.ts: JSON response bodies, the outcome of
    a handler, and the session, reduced to its optional `userId`. */
module Http {

  import opened Wrappers
  import opened Schema

  datatype ResponseBody =
    | Note(message: string)               // `{ message: … }`
    | StatusText(text: string)            // `res.sendStatus(code)` with a body
    | NoContent                           // `res.sendStatus(204)`
    | OneCharacter(character: Character)
    | CharacterList(characters: seq<Character>)
    | MessageList(messages: seq<Message>)
    | CurrentUser(id: int)                // `{ id: … }`

  /** A handler either replies, or its promise rejects with an error that no
      code catches, so that no reply is sent. */
  datatype Response = Reply(status: int, body: ResponseBody) | Unhandled

  const Unauthorized: Response := Reply(401, Note("Unauthorized"))
  const CharacterNotFound: Response := Reply(404, Note("Character not found"))

  /** `req.session`; only `userId` matters to the handlers. */
  class Session {
    var userId: Option<int>

    constructor ()
      ensures userId == None
    {
      userId := None;
    }
  }

  /** JavaScript truthiness of `req.session.userId`: absent and 0 are false. */
  predicate SignedIn(userId: Option<int>) {
    userId.Some? && userId.value != 0
  }
}
