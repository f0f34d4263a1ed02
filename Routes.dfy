/** server/routes.ts: `requireAuth` and the handlers of `registerRoutes`,
    each a transition on the store and the session that ends in a response.
    A path `:id` goes through `parseInt`; `None` stands for the NaN it yields
    on a segment that is not a number, which matches no row. The completion
    service is the abstract function `send`; the clock readings are
    parameters. */
module Routes {

  import opened Wrappers
  import opened Schema
  import opened Storage
  import opened OpenRouter
  import opened Http

  type PathId = Option<int>

  /** `requireAuth`: `None` lets the request through. Only the presence of a
      `userId` is checked, not which user it is. */
  function RequireAuth(session: Session): (r: Option<Response>)
    reads session
    ensures r.None? <==> SignedIn(session.userId)
    ensures r.Some? ==> r.value == Unauthorized
  {
    if SignedIn(session.userId) then None else Some(Unauthorized)
  }

  // ---------------------------------------------------------------------
  // Public reads

  /** GET /api/characters */
  method ListCharacters(store: Storage) returns (r: Response)
    ensures r == Reply(200, CharacterList(store.characters))
  {
    var characters := store.GetCharacters();
    r := Reply(200, CharacterList(characters));
  }

  /** GET /api/characters/:id */
  method ShowCharacter(store: Storage, id: PathId) returns (r: Response)
    ensures id.None? || !HasCharacterId(store.characters, id.value) ==> r == CharacterNotFound
    ensures id.Some? && HasCharacterId(store.characters, id.value) ==>
      r.Reply? && r.status == 200 && r.body.OneCharacter?
      && r.body.character in store.characters && r.body.character.id == id.value
  {
    if id.None? {
      return CharacterNotFound;
    }
    var character := store.GetCharacter(id.value);
    if character.None? {
      return CharacterNotFound;
    }
    r := Reply(200, OneCharacter(character.value));
  }

  /** GET /api/characters/:id/messages: the character's history in
      timestamp order, with no session needed. */
  method ListMessages(store: Storage, id: PathId) returns (r: Response)
    ensures r.Reply? && r.status == 200 && r.body.MessageList?
    ensures id.None? ==> r.body.messages == []
    ensures id.Some? ==> IsHistoryOf(r.body.messages, store.messages, id.value)
  {
    if id.None? {
      return Reply(200, MessageList([]));
    }
    var messages := store.GetMessages(id.value);
    r := Reply(200, MessageList(messages));
  }

  // ---------------------------------------------------------------------
  // Sending a message

  /** The value `characterId` gets when merged over the body. */
  function PathValue(id: PathId): (v: Value)
    ensures v.Num? <==> id.Some?
    ensures id.Some? ==> v == Num(id.value)
    ensures id.None? ==> v == NaN
  {
    if id.Some? then Num(id.value) else NaN
  }

  /** `insertMessageSchema.safeParse({...req.body, characterId})`. */
  function MessagePayload(body: Body, id: PathId): (r: Option<NewMessage>)
    ensures r.Some? ==> id.Some? && r.value.characterId == id.value
  {
    var merged := body["characterId" := PathValue(id)];
    NaNCharacterIdRejected(body);
    ParseMessage(merged)
  }

  /** The reply text, or the error the handler's `try` catches: an absent
      character, or a failed generation. */
  function ReplyText(characters: seq<Character>, characterId: int, content: string,
                     send: ChatRequest -> FetchOutcome): (r: Result<string, string>)
    ensures !HasCharacterId(characters, characterId) ==> r.Failure?
    ensures HasCharacterId(characters, characterId) ==>
      var c := CharactersWithId(characters, characterId)[0];
      r == GenerateResponse(c.name, c.personality, content, send)
  {
    match First(CharactersWithId(characters, characterId))
    case None => Failure("Character not found")
    case Some(c) => GenerateResponse(c.name, c.personality, content, send)
  }

  /** The effect of sending a message: the answer, and the message table and
      serial value afterwards. */
  datatype Sent = Sent(response: Response, messages: seq<Message>, serial: int)

  /** The handler of POST /api/characters/:id/messages after validation, as a
      function of the message table and its serial value, where `generated`
      is what looking up the character and generating the reply give
      (`ReplyText`). The user's message is inserted first; if that insert
      fails, the rejection is not caught. Then the reply is inserted with the
      next serial id; a missing character, a failed generation or a failed
      second insert is caught, and the answer is the user's message alone. */
  function StoreMessage(messages: seq<Message>, serial: int, characterId: int, p: NewMessage,
                        generated: Result<string, string>, userTime: int, replyTime: int): Sent
  {
    var userRow := MessageRow(p, serial, userTime);
    var afterUser := serial + (if p.id.None? then 1 else 0);
    if HasMessageId(messages, userRow.id) then Sent(Unhandled, messages, afterUser)
    else
      var stored := messages + [userRow];
      match generated
      case Failure(_) => Sent(Reply(200, MessageList([userRow])), stored, afterUser)
      case Success(text) =>
        var replyRow := Message(afterUser, characterId, text, false, replyTime);
        if HasMessageId(stored, afterUser)
        then Sent(Reply(200, MessageList([userRow])), stored, afterUser + 1)
        else Sent(Reply(200, MessageList([userRow, replyRow])), stored + [replyRow], afterUser + 1)
  }

  /** POST /api/characters/:id/messages: an invalid payload answers 400 and
      stores nothing, a valid one is stored and answered by `StoreMessage`. */
  function SendOutcome(messages: seq<Message>, serial: int, characters: seq<Character>,
                       id: PathId, body: Body, send: ChatRequest -> FetchOutcome,
                       userTime: int, replyTime: int): Sent
  {
    match MessagePayload(body, id)
    case None => Sent(Reply(400, Note("Invalid message data")), messages, serial)
    case Some(p) =>
      StoreMessage(messages, serial, id.value, p, ReplyText(characters, id.value, p.content, send),
                   userTime, replyTime)
  }

  /** An invalid payload answers 400 and stores nothing. */
  lemma InvalidMessageStoresNothing(messages: seq<Message>, serial: int, characters: seq<Character>,
                                    id: PathId, body: Body, send: ChatRequest -> FetchOutcome,
                                    userTime: int, replyTime: int)
    requires MessagePayload(body, id).None?
    ensures SendOutcome(messages, serial, characters, id, body, send, userTime, replyTime)
         == Sent(Reply(400, Note("Invalid message data")), messages, serial)
  {
  }

  /** The answer is unhandled exactly when the user's message collides, and
      then nothing is stored. Otherwise it is 200 and lists one or two
      messages, exactly those are added to the table, and the first is the
      user's message. A second one exists exactly when the character exists,
      generation succeeds and the reply's serial id is free; it is then a
      non-user message of the same character carrying the generated text. */
  lemma StoreMessageAnswersWhatItStores(messages: seq<Message>, serial: int, characterId: int,
                                        p: NewMessage, generated: Result<string, string>,
                                        userTime: int, replyTime: int)
    ensures var o := StoreMessage(messages, serial, characterId, p, generated, userTime, replyTime);
      var userRow := MessageRow(p, serial, userTime);
      var replyId := serial + (if p.id.None? then 1 else 0);
      && (o.response.Unhandled? <==> HasMessageId(messages, userRow.id))
      && (o.response.Unhandled? ==> o.messages == messages)
      && (!o.response.Unhandled? ==>
            && o.response.status == 200 && o.response.body.MessageList?
            && var sent := o.response.body.messages;
            && 1 <= |sent| <= 2
            && o.messages == messages + sent
            && sent[0] == userRow
            && (|sent| == 2 <==> generated.Success? && !HasMessageId(messages + [userRow], replyId))
            && (|sent| == 2 ==>
                  && sent[1] == Message(replyId, characterId, sent[1].content, false, replyTime)
                  && generated == Success(sent[1].content)))
  {
  }

  /** A valid message is stored for the character of the path, with the
      body's content, whatever happens to the reply. */
  lemma SentMessageBelongsToPath(messages: seq<Message>, serial: int, characters: seq<Character>,
                                 id: PathId, body: Body, send: ChatRequest -> FetchOutcome,
                                 userTime: int, replyTime: int)
    requires MessagePayload(body, id).Some?
    ensures var o := SendOutcome(messages, serial, characters, id, body, send, userTime, replyTime);
      o.response.Reply? ==>
        && o.response.body.MessageList? && |o.response.body.messages| >= 1
        && var m := o.response.body.messages[0];
        && m.characterId == id.value && m.content == MessagePayload(body, id).value.content
        && m in o.messages
  {
    var p := MessagePayload(body, id).value;
    StoreMessageAnswersWhatItStores(messages, serial, id.value, p,
                                    ReplyText(characters, id.value, p.content, send), userTime, replyTime);
  }

  /** A missing character gives the answer of a failed generation: the
      user's message alone, stored. */
  lemma MissingCharacterStillStoresUserMessage(messages: seq<Message>, serial: int,
                                               characters: seq<Character>, characterId: int,
                                               p: NewMessage, send: ChatRequest -> FetchOutcome,
                                               userTime: int, replyTime: int)
    requires !HasCharacterId(characters, characterId)
    requires !HasMessageId(messages, MessageRow(p, serial, userTime).id)
    ensures var userRow := MessageRow(p, serial, userTime);
      var o := StoreMessage(messages, serial, characterId, p,
                            ReplyText(characters, characterId, p.content, send), userTime, replyTime);
      o.response == Reply(200, MessageList([userRow])) && o.messages == messages + [userRow]
  {
  }

  /** The body the chat page sends: the text and `isUser: true`. */
  function ChatBody(content: string): Body {
    map["content" := Str(content), "isUser" := Bool(true)]
  }

  /** Sending "hi" to character 5 of an empty history while generation
      fails: the answer is the user's message alone, and every permitted
      answer of the history read afterwards is exactly that message. */
  lemma FailedGenerationScenario(serial: int, characters: seq<Character>,
                                 send: ChatRequest -> FetchOutcome,
                                 userTime: int, replyTime: int, history: seq<Message>)
    requires forall q :: send(q) == Threw
    requires IsHistoryOf(history, SendOutcome([], serial, characters, Some(5), ChatBody("hi"), send,
                                              userTime, replyTime).messages, 5)
    ensures var userRow := Message(serial, 5, "hi", true, userTime);
      && SendOutcome([], serial, characters, Some(5), ChatBody("hi"), send, userTime, replyTime).response
         == Reply(200, MessageList([userRow]))
      && history == [userRow]
  {
    SingleMessageHistory(history, Message(serial, 5, "hi", true, userTime));
  }

  /** Sending "hi" to an existing character 5 while generation answers
      "Hello!": the answer lists the user's message, then the reply. */
  lemma SuccessfulGenerationScenario(serial: int, characters: seq<Character>,
                                     send: ChatRequest -> FetchOutcome,
                                     userTime: int, replyTime: int)
    requires HasCharacterId(characters, 5)
    requires forall q :: send(q) == Completed(["Hello!"])
    ensures SendOutcome([], serial, characters, Some(5), ChatBody("hi"), send, userTime, replyTime).response
         == Reply(200, MessageList([Message(serial, 5, "hi", true, userTime),
                                    Message(serial + 1, 5, "Hello!", false, replyTime)]))
  {
  }

  /** The `try` block of the handler once the user's message `userRow` is
      stored: the reply, when there is one, is inserted with the next serial
      id, and any failure answers with the user's message alone. */
  method StoreReply(store: Storage, userRow: Message, characterId: int,
                    generated: Result<string, string>, replyTime: int)
    returns (r: Response)
    requires store.Valid()
    modifies store`messages, store`messageSerial
    ensures store.Valid()
    ensures generated.Failure? ==>
      r == Reply(200, MessageList([userRow])) && store.messages == old(store.messages)
      && store.messageSerial == old(store.messageSerial)
    ensures generated.Success? ==>
      var replyRow := Message(old(store.messageSerial), characterId, generated.value, false, replyTime);
      && store.messageSerial == old(store.messageSerial) + 1
      && if HasMessageId(old(store.messages), replyRow.id)
         then r == Reply(200, MessageList([userRow])) && store.messages == old(store.messages)
         else r == Reply(200, MessageList([userRow, replyRow]))
              && store.messages == old(store.messages) + [replyRow]
  {
    if generated.Failure? {
      return Reply(200, MessageList([userRow]));
    }
    var aiResponse := store.CreateMessage(NewMessage(None, characterId, generated.value, false), replyTime);
    if aiResponse.Failure? {
      return Reply(200, MessageList([userRow]));
    }
    r := Reply(200, MessageList([userRow, aiResponse.value]));
  }

  /** The handler after validation; its effect is `StoreMessage` of the
      tables before the call. */
  method StoreAndReply(store: Storage, characterId: int, p: NewMessage,
                       send: ChatRequest -> FetchOutcome, userTime: int, replyTime: int)
    returns (r: Response)
    requires store.Valid()
    modifies store`messages, store`messageSerial
    ensures store.Valid()
    ensures var o := StoreMessage(old(store.messages), old(store.messageSerial), characterId, p,
                                  ReplyText(store.characters, characterId, p.content, send),
                                  userTime, replyTime);
      r == o.response && store.messages == o.messages && store.messageSerial == o.serial
  {
    var userMessage := store.CreateMessage(p, userTime);
    if userMessage.Failure? {
      return Unhandled;
    }
    // The character lookup and the generation, whose failures are caught.
    var generated := ReplyText(store.characters, characterId, p.content, send);
    r := StoreReply(store, userMessage.value, characterId, generated, replyTime);
  }

  /** POST /api/characters/:id/messages, which needs no session; its effect is
      `SendOutcome` of the tables before the call. */
  method SendMessage(store: Storage, id: PathId, body: Body, send: ChatRequest -> FetchOutcome,
                     userTime: int, replyTime: int)
    returns (r: Response)
    requires store.Valid()
    modifies store`messages, store`messageSerial
    ensures store.Valid()
    ensures var o := SendOutcome(old(store.messages), old(store.messageSerial), store.characters,
                                 id, body, send, userTime, replyTime);
      r == o.response && store.messages == o.messages && store.messageSerial == o.serial
  {
    var payload := MessagePayload(body, id);
    if payload.None? {
      return Reply(400, Note("Invalid message data"));
    }
    r := StoreAndReply(store, id.value, payload.value, send, userTime, replyTime);
  }

  // ---------------------------------------------------------------------
  // Character administration, behind `requireAuth`

  /** POST /api/characters */
  method CreateCharacter(store: Storage, session: Session, body: Body, isUrl: string -> bool, now: int)
    returns (r: Response)
    requires store.Valid()
    modifies store`characters, store`characterSerial
    ensures store.Valid()
    ensures !SignedIn(session.userId) ==>
      r == Unauthorized
      && store.characters == old(store.characters) && store.characterSerial == old(store.characterSerial)
    ensures SignedIn(session.userId) && ParseCharacter(body, isUrl).None? ==>
      r == Reply(400, Note("Invalid character data"))
      && store.characters == old(store.characters) && store.characterSerial == old(store.characterSerial)
    ensures SignedIn(session.userId) && ParseCharacter(body, isUrl).Some? ==>
      var row := CharacterRow(ParseCharacter(body, isUrl).value, old(store.characterSerial), now);
      && store.characterSerial
         == old(store.characterSerial) + (if ParseCharacter(body, isUrl).value.id.None? then 1 else 0)
      && if HasCharacterId(old(store.characters), row.id)
      then r == Unhandled && store.characters == old(store.characters)
      else r == Reply(201, OneCharacter(row)) && store.characters == old(store.characters) + [row]
  {
    var denied := RequireAuth(session);
    if denied.Some? {
      return denied.value;
    }
    var result := ParseCharacter(body, isUrl);
    if result.None? {
      return Reply(400, Note("Invalid character data"));
    }
    var character := store.CreateCharacter(result.value, now);
    if character.Failure? {
      return Unhandled;
    }
    r := Reply(201, OneCharacter(character.value));
  }

  /** PATCH /api/characters/:id */
  method UpdateCharacter(store: Storage, session: Session, id: PathId, body: Body,
                         isUrl: string -> bool, now: int)
    returns (r: Response)
    requires store.Valid()
    modifies store`characters
    ensures store.Valid()
    ensures !SignedIn(session.userId) ==> r == Unauthorized && store.characters == old(store.characters)
    ensures SignedIn(session.userId) && ParseCharacterPatch(body, isUrl).None? ==>
      r == Reply(400, Note("Invalid character data")) && store.characters == old(store.characters)
    ensures SignedIn(session.userId) && ParseCharacterPatch(body, isUrl).Some?
            && (id.None? || !HasCharacterId(old(store.characters), id.value)) ==>
      r == CharacterNotFound && store.characters == old(store.characters)
    ensures SignedIn(session.userId) && ParseCharacterPatch(body, isUrl).Some?
            && id.Some? && HasCharacterId(old(store.characters), id.value) ==>
      var patch := ParseCharacterPatch(body, isUrl).value;
      var updated := UpdateWhere(old(store.characters), id.value, patch, now);
      if UniqueCharacterIds(updated) then
        store.characters == updated
        && r == Reply(200, OneCharacter(ApplyPatch(CharactersWithId(old(store.characters), id.value)[0], patch, now)))
      else r == Unhandled && store.characters == old(store.characters)
  {
    var denied := RequireAuth(session);
    if denied.Some? {
      return denied.value;
    }
    var result := ParseCharacterPatch(body, isUrl);
    if result.None? {
      return Reply(400, Note("Invalid character data"));
    }
    if id.None? {
      return CharacterNotFound;
    }
    var character := store.UpdateCharacter(id.value, result.value, now);
    match character
    case Failure(_) =>
      r := Unhandled;
    case Success(None) =>
      r := CharacterNotFound;
    case Success(Some(c)) =>
      r := Reply(200, OneCharacter(c));
  }

  /** DELETE /api/characters/:id: the character's messages stay. */
  method DeleteCharacter(store: Storage, session: Session, id: PathId) returns (r: Response)
    requires store.Valid()
    modifies store`characters
    ensures store.Valid()
    ensures store.messages == old(store.messages)
    ensures !SignedIn(session.userId) ==> r == Unauthorized && store.characters == old(store.characters)
    ensures SignedIn(session.userId) && (id.None? || !HasCharacterId(old(store.characters), id.value)) ==>
      r == CharacterNotFound && store.characters == old(store.characters)
    ensures SignedIn(session.userId) && id.Some? && HasCharacterId(old(store.characters), id.value) ==>
      r == Reply(204, NoContent) && store.characters == DeleteWhere(old(store.characters), id.value)
      && !HasCharacterId(store.characters, id.value)
  {
    var denied := RequireAuth(session);
    if denied.Some? {
      return denied.value;
    }
    if id.None? {
      return CharacterNotFound;
    }
    var success := store.DeleteCharacter(id.value);
    if !success {
      return CharacterNotFound;
    }
    r := Reply(204, NoContent);
  }

  /** DELETE /api/characters/:id/messages, which needs no session. */
  method ClearHistory(store: Storage, id: PathId) returns (r: Response)
    requires store.Valid()
    modifies store`messages
    ensures store.Valid()
    ensures r == Reply(204, NoContent)
    ensures id.None? ==> store.messages == old(store.messages)
    ensures id.Some? ==>
      && store.messages == WithoutCharacter(old(store.messages), id.value)
      && ForCharacter(store.messages, id.value) == []
      && forall d :: d != id.value ==> ForCharacter(store.messages, d) == ForCharacter(old(store.messages), d)
  {
    if id.Some? {
      store.ClearMessages(id.value);
    }
    r := Reply(204, NoContent);
  }

  /** GET /api/user */
  method ShowUser(session: Session) returns (r: Response)
    ensures !SignedIn(session.userId) ==> r == Reply(401, StatusText("Unauthorized"))
    ensures SignedIn(session.userId) ==> r == Reply(200, CurrentUser(session.userId.value))
  {
    if !SignedIn(session.userId) {
      return Reply(401, StatusText("Unauthorized"));
    }
    r := Reply(200, CurrentUser(session.userId.value));
  }
}
