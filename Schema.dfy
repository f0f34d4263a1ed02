/** The three tables of shared/schema.ts and the insert schemas that
    drizzle-zod derives from them, as validation functions over request
    bodies. Every column is `notNull`, so every row field is present. */
module Schema {

  import opened Wrappers

  // ---------------------------------------------------------------------
  // Rows, as the tables store them. Timestamps are abstract clock readings.

  datatype User = User(id: int, username: string, password: string, createdAt: int)

  datatype Character = Character(
    id: int,
    name: string,
    anime: string,
    description: string,
    imageUrl: string,
    personality: string,
    createdAt: int,
    updatedAt: int)

  datatype Message = Message(id: int, characterId: int, content: string, isUser: bool, timestamp: int)

  // ---------------------------------------------------------------------
  // Validated insert payloads. `id` is optional because the column is
  // serial; the timestamp columns are optional because they have a default.

  datatype NewUser = NewUser(username: string, password: string)

  datatype NewCharacter = NewCharacter(
    id: Option<int>,
    name: string,
    anime: string,
    description: string,
    imageUrl: string,
    personality: string)

  /** The result of `insertCharacterSchema.partial()`: every field optional. */
  datatype CharacterPatch = CharacterPatch(
    id: Option<int>,
    name: Option<string>,
    anime: Option<string>,
    description: Option<string>,
    imageUrl: Option<string>,
    personality: Option<string>)

  datatype NewMessage = NewMessage(id: Option<int>, characterId: int, content: string, isUser: bool)

  // ---------------------------------------------------------------------
  // Request bodies. A parsed JSON body maps keys to values; `NaN` arises only
  // from `parseInt` on a path segment that is not a number. A JSON body can
  // never hold a `Date`, which is what the timestamp columns' schemas expect.

  datatype Value = Str(s: string) | Num(n: int) | NaN | Bool(b: bool) | Null | Other

  type Body = map<string, Value>

  /** How one key of a body fares against its field schema. */
  datatype Field<T> = Absent | Valid(value: T) | Invalid

  /** `z.string().min(minLength)` on key `k`. */
  function TextField(body: Body, k: string, minLength: nat): (r: Field<string>)
    ensures r.Absent? <==> k !in body
    ensures r.Valid? <==> k in body && body[k].Str? && |body[k].s| >= minLength
    ensures r.Valid? ==> r.value == body[k].s
  {
    if k !in body then Absent
    else match body[k]
      case Str(s) => if |s| >= minLength then Valid(s) else Invalid
      case _ => Invalid
  }

  /** `z.string().url()` on key `k`, with URL syntax left abstract. */
  function UrlField(body: Body, k: string, isUrl: string -> bool): (r: Field<string>)
    ensures r.Absent? <==> k !in body
    ensures r.Valid? <==> k in body && body[k].Str? && isUrl(body[k].s)
    ensures r.Valid? ==> r.value == body[k].s
  {
    if k !in body then Absent
    else match body[k]
      case Str(s) => if isUrl(s) then Valid(s) else Invalid
      case _ => Invalid
  }

  /** `z.number()` on key `k`; `NaN` is rejected. */
  function NumberField(body: Body, k: string): (r: Field<int>)
    ensures r.Absent? <==> k !in body
    ensures r.Valid? <==> k in body && body[k].Num?
    ensures r.Valid? ==> r.value == body[k].n
  {
    if k !in body then Absent
    else match body[k]
      case Num(n) => Valid(n)
      case _ => Invalid
  }

  /** `z.boolean()` on key `k`. */
  function BooleanField(body: Body, k: string): (r: Field<bool>)
    ensures r.Absent? <==> k !in body
    ensures r.Valid? <==> k in body && body[k].Bool?
    ensures r.Valid? ==> r.value == body[k].b
  {
    if k !in body then Absent
    else match body[k]
      case Bool(b) => Valid(b)
      case _ => Invalid
  }

  /** Key `k` of the body holds exactly `v`. */
  predicate Holds(body: Body, k: string, v: Value) {
    k in body && body[k] == v
  }

  /** An optional field is acceptable when it is absent or valid. */
  predicate Acceptable<T>(f: Field<T>) {
    !f.Invalid?
  }

  function AsOption<T>(f: Field<T>): Option<T> {
    if f.Valid? then Some(f.value) else None
  }

  /** A `z.date()` field: only absence passes, since JSON has no dates. */
  predicate NoDateGiven(body: Body, k: string) {
    k !in body
  }

  // ---------------------------------------------------------------------
  // The insert schemas

  /** `insertUserSchema`: a non-empty username and a password of at least
      six characters; `id` may be given, `createdAt` may not. */
  function ParseUser(body: Body): (r: Option<NewUser>)
    ensures r.Some? ==> |r.value.username| >= 1 && |r.value.password| >= 6
    ensures r.Some? ==> Holds(body, "username", Str(r.value.username))
    ensures r.Some? ==> Holds(body, "password", Str(r.value.password))
    ensures r.Some? <==>
      TextField(body, "username", 1).Valid? && TextField(body, "password", 6).Valid?
      && Acceptable(NumberField(body, "id")) && NoDateGiven(body, "createdAt")
  {
    match (TextField(body, "username", 1), TextField(body, "password", 6))
    case (Valid(u), Valid(p)) =>
      if Acceptable(NumberField(body, "id")) && NoDateGiven(body, "createdAt")
      then Some(NewUser(u, p)) else None
    case _ => None
  }

  const CharacterTextKeys: seq<string> := ["name", "anime", "description", "personality"]

  /** `insertCharacterSchema`: name, anime, description and personality
      non-empty, imageUrl a URL; `id` optional; no timestamps. */
  function ParseCharacter(body: Body, isUrl: string -> bool): (r: Option<NewCharacter>)
    ensures r.Some? ==>
      && |r.value.name| >= 1 && |r.value.anime| >= 1
      && |r.value.description| >= 1 && |r.value.personality| >= 1
      && isUrl(r.value.imageUrl)
    ensures r.Some? ==>
      && Holds(body, "name", Str(r.value.name)) && Holds(body, "anime", Str(r.value.anime))
      && Holds(body, "description", Str(r.value.description))
      && Holds(body, "personality", Str(r.value.personality))
      && Holds(body, "imageUrl", Str(r.value.imageUrl))
      && r.value.id == AsOption(NumberField(body, "id"))
    ensures r.Some? <==>
      (forall k :: k in CharacterTextKeys ==> TextField(body, k, 1).Valid?)
      && UrlField(body, "imageUrl", isUrl).Valid?
      && Acceptable(NumberField(body, "id"))
      && NoDateGiven(body, "createdAt") && NoDateGiven(body, "updatedAt")
  {
    match (TextField(body, "name", 1), TextField(body, "anime", 1), TextField(body, "description", 1),
           TextField(body, "personality", 1), UrlField(body, "imageUrl", isUrl))
    case (Valid(n), Valid(a), Valid(d), Valid(p), Valid(u)) =>
      var id := NumberField(body, "id");
      if Acceptable(id) && NoDateGiven(body, "createdAt") && NoDateGiven(body, "updatedAt")
      then Some(NewCharacter(AsOption(id), n, a, d, u, p))
      else None
    case _ => None
  }

  /** `insertCharacterSchema.partial()`: each field may be absent, and a
      field that is present obeys the rule of the full schema. */
  function ParseCharacterPatch(body: Body, isUrl: string -> bool): (r: Option<CharacterPatch>)
    ensures r.Some? ==>
      && (r.value.name.Some? ==> |r.value.name.value| >= 1)
      && (r.value.anime.Some? ==> |r.value.anime.value| >= 1)
      && (r.value.description.Some? ==> |r.value.description.value| >= 1)
      && (r.value.personality.Some? ==> |r.value.personality.value| >= 1)
      && (r.value.imageUrl.Some? ==> isUrl(r.value.imageUrl.value))
    ensures r.Some? ==>
      && r.value.name == AsOption(TextField(body, "name", 1))
      && r.value.anime == AsOption(TextField(body, "anime", 1))
      && r.value.description == AsOption(TextField(body, "description", 1))
      && r.value.personality == AsOption(TextField(body, "personality", 1))
      && r.value.imageUrl == AsOption(UrlField(body, "imageUrl", isUrl))
      && r.value.id == AsOption(NumberField(body, "id"))
    ensures r.Some? <==>
      (forall k :: k in CharacterTextKeys ==> Acceptable(TextField(body, k, 1)))
      && Acceptable(UrlField(body, "imageUrl", isUrl))
      && Acceptable(NumberField(body, "id"))
      && NoDateGiven(body, "createdAt") && NoDateGiven(body, "updatedAt")
  {
    var name := TextField(body, "name", 1);
    var anime := TextField(body, "anime", 1);
    var description := TextField(body, "description", 1);
    var personality := TextField(body, "personality", 1);
    var imageUrl := UrlField(body, "imageUrl", isUrl);
    var id := NumberField(body, "id");
    if Acceptable(name) && Acceptable(anime) && Acceptable(description) && Acceptable(personality)
       && Acceptable(imageUrl) && Acceptable(id)
       && NoDateGiven(body, "createdAt") && NoDateGiven(body, "updatedAt")
    then Some(CharacterPatch(AsOption(id), AsOption(name), AsOption(anime), AsOption(description),
                             AsOption(imageUrl), AsOption(personality)))
    else None
  }

  /** `insertMessageSchema`: characterId a number, content any string,
      isUser a boolean; `id` optional; no timestamp. */
  function ParseMessage(body: Body): (r: Option<NewMessage>)
    ensures r.Some? ==>
      && Holds(body, "characterId", Num(r.value.characterId))
      && Holds(body, "content", Str(r.value.content))
      && Holds(body, "isUser", Bool(r.value.isUser))
      && r.value.id == AsOption(NumberField(body, "id"))
    ensures r.Some? <==>
      NumberField(body, "characterId").Valid? && TextField(body, "content", 0).Valid?
      && BooleanField(body, "isUser").Valid?
      && Acceptable(NumberField(body, "id")) && NoDateGiven(body, "timestamp")
  {
    match (NumberField(body, "characterId"), TextField(body, "content", 0), BooleanField(body, "isUser"))
    case (Valid(c), Valid(t), Valid(u)) =>
      var id := NumberField(body, "id");
      if Acceptable(id) && NoDateGiven(body, "timestamp")
      then Some(NewMessage(AsOption(id), c, t, u))
      else None
    case _ => None
  }

  // ---------------------------------------------------------------------
  // Properties of the schemas

  /** The partial schema accepts an empty body, with every field absent. */
  lemma EmptyPatchAccepted(isUrl: string -> bool)
    ensures ParseCharacterPatch(map[], isUrl) == Some(CharacterPatch(None, None, None, None, None, None))
  {
  }

  /** Whatever the full character schema accepts, the partial schema accepts
      too, with every field present and equal. */
  lemma FullImpliesPartial(body: Body, isUrl: string -> bool)
    requires ParseCharacter(body, isUrl).Some?
    ensures var c := ParseCharacter(body, isUrl).value;
      ParseCharacterPatch(body, isUrl) ==
        Some(CharacterPatch(c.id, Some(c.name), Some(c.anime), Some(c.description),
                            Some(c.imageUrl), Some(c.personality)))
  {
  }

  /** A body whose characterId is overridden with a number yields a message
      for exactly that character, whatever the body said before. */
  lemma OverriddenCharacterId(body: Body, n: int)
    requires ParseMessage(body["characterId" := Num(n)]).Some?
    ensures ParseMessage(body["characterId" := Num(n)]).value.characterId == n
  {
  }

  /** A characterId of NaN, which is what an unparsable path yields, is
      always rejected. */
  lemma NaNCharacterIdRejected(body: Body)
    ensures ParseMessage(body["characterId" := NaN]).None?
  {
  }
}
