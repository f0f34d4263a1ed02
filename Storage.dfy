/** server/storage.ts: `DatabaseStorage` over three in-memory tables.
    Each table is a sequence of rows in insertion order. A `where id = …`
    query is a filter, and `const [row] = …` takes the first row of its
    result. The primary keys and the unique `username` column are
    constraints: a statement that would break one fails with
    `DuplicateKey` and changes nothing. Each serial column has a counter
    that advances whenever the default is used, even if the insert then
    fails, as a Postgres sequence does. */
module Storage {

  import opened Wrappers
  import opened Schema

  datatype StorageError = DuplicateKey

  // =====================================================================
  // Characters

  predicate UniqueCharacterIds(cs: seq<Character>) {
    forall i, j :: 0 <= i < j < |cs| ==> cs[i].id != cs[j].id
  }

  predicate HasCharacterId(cs: seq<Character>, id: int) {
    exists i :: 0 <= i < |cs| && cs[i].id == id
  }

  /** `select … where id = id`. */
  function CharactersWithId(cs: seq<Character>, id: int): (r: seq<Character>)
    ensures forall c :: c in r <==> c in cs && c.id == id
    ensures r == [] <==> !HasCharacterId(cs, id)
    ensures UniqueCharacterIds(cs) ==> |r| <= 1
  {
    if cs == [] then []
    else
      var rest := CharactersWithId(cs[1..], id);
      assert forall c :: c in rest ==> c in cs[1..];
      assert HasCharacterId(cs[1..], id) ==> HasCharacterId(cs, id);
      assert HasCharacterId(cs, id) && cs[0].id != id ==> HasCharacterId(cs[1..], id) by {
        if HasCharacterId(cs, id) && cs[0].id != id {
          var i :| 0 <= i < |cs| && cs[i].id == id;
          assert cs[1..][i - 1].id == id;
        }
      }
      if cs[0].id == id then [cs[0]] + rest else rest
  }

  /** The row an insert creates: the given id or the next serial value,
      both timestamps set to the current time. */
  function CharacterRow(c: NewCharacter, serial: int, now: int): (r: Character)
    ensures r.id == (if c.id.Some? then c.id.value else serial)
    ensures r.name == c.name && r.anime == c.anime && r.description == c.description
    ensures r.imageUrl == c.imageUrl && r.personality == c.personality
    ensures r.createdAt == now && r.updatedAt == now
  {
    Character(if c.id.Some? then c.id.value else serial,
              c.name, c.anime, c.description, c.imageUrl, c.personality, now, now)
  }

  /** `set({...patch, updatedAt: now})` on one row: a supplied field replaces
      the stored one, an absent field keeps it, `createdAt` never changes. */
  function ApplyPatch(c: Character, p: CharacterPatch, now: int): (r: Character)
    ensures r.id == (if p.id.Some? then p.id.value else c.id)
    ensures r.name == (if p.name.Some? then p.name.value else c.name)
    ensures r.anime == (if p.anime.Some? then p.anime.value else c.anime)
    ensures r.description == (if p.description.Some? then p.description.value else c.description)
    ensures r.imageUrl == (if p.imageUrl.Some? then p.imageUrl.value else c.imageUrl)
    ensures r.personality == (if p.personality.Some? then p.personality.value else c.personality)
    ensures r.createdAt == c.createdAt && r.updatedAt == now
  {
    Character(
      if p.id.Some? then p.id.value else c.id,
      if p.name.Some? then p.name.value else c.name,
      if p.anime.Some? then p.anime.value else c.anime,
      if p.description.Some? then p.description.value else c.description,
      if p.imageUrl.Some? then p.imageUrl.value else c.imageUrl,
      if p.personality.Some? then p.personality.value else c.personality,
      c.createdAt,
      now)
  }

  /** `update … set … where id = id`: matching rows are patched in place,
      every other row is kept as it was. */
  function UpdateWhere(cs: seq<Character>, id: int, p: CharacterPatch, now: int): (r: seq<Character>)
    ensures |r| == |cs|
    ensures forall i :: 0 <= i < |cs| ==> r[i] == if cs[i].id == id then ApplyPatch(cs[i], p, now) else cs[i]
  {
    seq(|cs|, i requires 0 <= i < |cs| => if cs[i].id == id then ApplyPatch(cs[i], p, now) else cs[i])
  }

  /** The patch with no field only refreshes `updatedAt`. */
  lemma EmptyPatchOnlyTouches(c: Character, now: int)
    ensures ApplyPatch(c, CharacterPatch(None, None, None, None, None, None), now) == c.(updatedAt := now)
  {
  }

  /** Applying the same patch at the same time twice is applying it once. */
  lemma PatchIdempotent(c: Character, p: CharacterPatch, now: int)
    ensures ApplyPatch(ApplyPatch(c, p, now), p, now) == ApplyPatch(c, p, now)
  {
  }

  /** An update by `id` leaves the selection of every other id `k` as it
      was, as long as the patch does not move a row onto `k`. */
  lemma {:induction false} UpdateWhereFrame(cs: seq<Character>, id: int, p: CharacterPatch, now: int, k: int)
    requires k != id && (p.id.None? || p.id.value != k)
    ensures CharactersWithId(UpdateWhere(cs, id, p, now), k) == CharactersWithId(cs, k)
  {
    if cs != [] {
      var u := UpdateWhere(cs, id, p, now);
      assert u[1..] == UpdateWhere(cs[1..], id, p, now);
      assert u[0].id == k <==> cs[0].id == k;
      UpdateWhereFrame(cs[1..], id, p, now, k);
    }
  }

  /** An update keeps the primary key unique when the patch leaves the id
      alone, keeps it, or moves it to an id no row has. */
  lemma UpdateKeepsUnique(cs: seq<Character>, id: int, p: CharacterPatch, now: int)
    requires UniqueCharacterIds(cs)
    requires p.id.None? || p.id.value == id || !HasCharacterId(cs, p.id.value)
    ensures UniqueCharacterIds(UpdateWhere(cs, id, p, now))
  {
  }

  /** `delete … where id = id`. */
  function DeleteWhere(cs: seq<Character>, id: int): (r: seq<Character>)
    ensures forall c :: c in r <==> c in cs && c.id != id
    ensures !HasCharacterId(cs, id) ==> r == cs
  {
    if cs == [] then []
    else
      var rest := DeleteWhere(cs[1..], id);
      assert forall c :: c in cs <==> c == cs[0] || c in cs[1..];
      assert HasCharacterId(cs[1..], id) ==> HasCharacterId(cs, id) by {
        if HasCharacterId(cs[1..], id) {
          var i :| 0 <= i < |cs[1..]| && cs[1..][i].id == id;
          assert cs[i + 1].id == id;
        }
      }
      assert [cs[0]] + cs[1..] == cs;
      if cs[0].id == id then rest else [cs[0]] + rest
  }

  /** Deleting rows keeps the primary key unique. */
  lemma {:induction false} DeleteKeepsUnique(cs: seq<Character>, id: int)
    requires UniqueCharacterIds(cs)
    ensures UniqueCharacterIds(DeleteWhere(cs, id))
  {
    if cs != [] {
      assert UniqueCharacterIds(cs[1..]) by {
        forall i, j | 0 <= i < j < |cs[1..]| ensures cs[1..][i].id != cs[1..][j].id {
          assert cs[1..][i] == cs[i + 1] && cs[1..][j] == cs[j + 1];
        }
      }
      DeleteKeepsUnique(cs[1..], id);
      var rest := DeleteWhere(cs[1..], id);
      forall c | c in rest ensures c.id != cs[0].id {
        var j :| 0 <= j < |cs[1..]| && cs[1..][j] == c;
        assert cs[j + 1] == c;
      }
    }
  }

  /** Deleting by id removes that id and only that id. */
  lemma {:induction false} DeleteWhereFrame(cs: seq<Character>, id: int, other: int)
    requires other != id
    ensures CharactersWithId(DeleteWhere(cs, id), other) == CharactersWithId(cs, other)
    ensures CharactersWithId(DeleteWhere(cs, id), id) == []
  {
    if cs != [] {
      DeleteWhereFrame(cs[1..], id, other);
    }
  }

  // =====================================================================
  // Messages

  predicate UniqueMessageIds(ms: seq<Message>) {
    forall i, j :: 0 <= i < j < |ms| ==> ms[i].id != ms[j].id
  }

  predicate HasMessageId(ms: seq<Message>, id: int) {
    exists i :: 0 <= i < |ms| && ms[i].id == id
  }

  /** The row an insert creates, stamped with the current time. */
  function MessageRow(m: NewMessage, serial: int, now: int): (r: Message)
    ensures r.id == (if m.id.Some? then m.id.value else serial)
    ensures r.characterId == m.characterId && r.content == m.content && r.isUser == m.isUser
    ensures r.timestamp == now
  {
    Message(if m.id.Some? then m.id.value else serial, m.characterId, m.content, m.isUser, now)
  }

  /** `where characterId = c`, keeping table order. */
  function ForCharacter(ms: seq<Message>, c: int): (r: seq<Message>)
    ensures forall m :: m in r <==> m in ms && m.characterId == c
    ensures |r| <= |ms|
  {
    if ms == [] then []
    else
      var rest := ForCharacter(ms[1..], c);
      assert forall m :: m in ms <==> m == ms[0] || m in ms[1..];
      if ms[0].characterId == c then [ms[0]] + rest else rest
  }

  /** The selection keeps each message of `c` as many times as it is
      stored, and no other message. */
  lemma {:induction false} ForCharacterCounts(ms: seq<Message>, c: int, m: Message)
    ensures multiset(ForCharacter(ms, c))[m] == if m.characterId == c then multiset(ms)[m] else 0
  {
    if ms != [] {
      ForCharacterCounts(ms[1..], c, m);
      assert ms == [ms[0]] + ms[1..];
    }
  }

  /** `delete from messages where characterId = c`. */
  function WithoutCharacter(ms: seq<Message>, c: int): (r: seq<Message>)
    ensures forall m :: m in r <==> m in ms && m.characterId != c
    ensures UniqueMessageIds(ms) ==> UniqueMessageIds(r)
  {
    if ms == [] then []
    else
      var rest := WithoutCharacter(ms[1..], c);
      assert forall m :: m in ms <==> m == ms[0] || m in ms[1..];
      if ms[0].characterId == c then rest
      else
        assert UniqueMessageIds(ms) ==> forall m :: m in rest ==> m.id != ms[0].id by {
          if UniqueMessageIds(ms) {
            forall m | m in rest ensures m.id != ms[0].id {
              var j :| 0 <= j < |ms[1..]| && ms[1..][j] == m;
              assert ms[j + 1] == m;
            }
          }
        }
        [ms[0]] + rest
  }

  /** Appending a message extends the list of its own character only. */
  lemma {:induction false} ForCharacterAppend(ms: seq<Message>, m: Message, c: int)
    ensures ForCharacter(ms + [m], c) == ForCharacter(ms, c) + (if m.characterId == c then [m] else [])
  {
    if ms == [] {
      assert ms + [m] == [m];
    } else {
      assert (ms + [m])[1..] == ms[1..] + [m];
      ForCharacterAppend(ms[1..], m, c);
    }
  }

  /** Clearing one character's history leaves every other character's
      history exactly as it was, and empties its own. */
  lemma {:induction false} ClearKeepsOthers(ms: seq<Message>, c: int, d: int)
    ensures ForCharacter(WithoutCharacter(ms, c), d) == if d == c then [] else ForCharacter(ms, d)
  {
    if ms != [] {
      ClearKeepsOthers(ms[1..], c, d);
    }
  }

  // ---------------------------------------------------------------------
  // `orderBy(messages.timestamp)`: the database may return rows with equal
  // timestamps in either order, so the contract is only "sorted by timestamp
  // and a permutation of the matching rows". One such order is computed
  // here by insertion sort.

  predicate SortedByTime(ms: seq<Message>) {
    forall i, j :: 0 <= i < j < |ms| ==> ms[i].timestamp <= ms[j].timestamp
  }

  /** A message no later than the head of a sorted list keeps it sorted. */
  lemma SortedCons(m: Message, ms: seq<Message>)
    requires SortedByTime(ms)
    requires ms != [] ==> m.timestamp <= ms[0].timestamp
    ensures SortedByTime([m] + ms)
  {
  }

  function InsertByTime(m: Message, ms: seq<Message>): (r: seq<Message>)
    requires SortedByTime(ms)
    ensures SortedByTime(r)
    ensures multiset(r) == multiset(ms) + multiset{m}
    ensures |r| == |ms| + 1
    ensures r[0] == m || (ms != [] && r[0] == ms[0])
  {
    if ms == [] || m.timestamp <= ms[0].timestamp then
      SortedCons(m, ms);
      [m] + ms
    else
      assert ms == [ms[0]] + ms[1..];
      var rest := InsertByTime(m, ms[1..]);
      SortedCons(ms[0], rest);
      [ms[0]] + rest
  }

  function SortByTime(ms: seq<Message>): (r: seq<Message>)
    ensures SortedByTime(r)
    ensures multiset(r) == multiset(ms)
  {
    if ms == [] then []
    else
      assert ms == [ms[0]] + ms[1..];
      InsertByTime(ms[0], SortByTime(ms[1..]))
  }

  /** What `getMessages(c)` may return: exactly the rows of character `c`,
      each as often as it is stored, in non-decreasing timestamp order. */
  ghost predicate IsHistoryOf(r: seq<Message>, ms: seq<Message>, c: int) {
    SortedByTime(r) && multiset(r) == multiset(ForCharacter(ms, c))
  }

  lemma HistoryMembers(r: seq<Message>, ms: seq<Message>, c: int)
    requires IsHistoryOf(r, ms, c)
    ensures forall m :: m in r <==> m in ms && m.characterId == c
  {
    forall m ensures m in r <==> m in ForCharacter(ms, c) {
      assert m in r <==> m in multiset(r);
    }
  }

  /** A table holding one message has that message as its only history. */
  lemma SingleMessageHistory(r: seq<Message>, m: Message)
    requires IsHistoryOf(r, [m], m.characterId)
    ensures r == [m]
  {
    assert multiset(r) == multiset{m};
    assert |r| == 1;
    assert r[0] in multiset(r);
  }

  /** After a message is stored, every permitted answer of `getMessages` for
      its character contains it; other characters' answers are unaffected. */
  lemma {:induction false} StoredMessageListed(ms: seq<Message>, m: Message, r: seq<Message>)
    requires IsHistoryOf(r, ms + [m], m.characterId)
    ensures m in r
  {
    ForCharacterAppend(ms, m, m.characterId);
    assert m in multiset(ForCharacter(ms + [m], m.characterId));
  }

  // =====================================================================
  // Users

  predicate UniqueUserIds(us: seq<User>) {
    forall i, j :: 0 <= i < j < |us| ==> us[i].id != us[j].id
  }

  predicate UniqueUsernames(us: seq<User>) {
    forall i, j :: 0 <= i < j < |us| ==> us[i].username != us[j].username
  }

  /** `select … from users where id = id`. */
  function UsersWithId(us: seq<User>, id: int): (r: seq<User>)
    ensures forall u :: u in r <==> u in us && u.id == id
    ensures r == [] <==> forall u :: u in us ==> u.id != id
  {
    if us == [] then []
    else
      var rest := UsersWithId(us[1..], id);
      assert forall u :: u in us <==> u == us[0] || u in us[1..];
      if us[0].id == id then [us[0]] + rest else rest
  }

  /** `select … from users where username = name`. */
  function UsersNamed(us: seq<User>, name: string): (r: seq<User>)
    ensures forall u :: u in r <==> u in us && u.username == name
    ensures r == [] <==> forall u :: u in us ==> u.username != name
  {
    if us == [] then []
    else
      var rest := UsersNamed(us[1..], name);
      assert forall u :: u in us <==> u == us[0] || u in us[1..];
      if us[0].username == name then [us[0]] + rest else rest
  }

  /** The unique constraint on `username` means a lookup by name finds at
      most one row. */
  lemma {:induction false} UsernameLookupAtMostOne(us: seq<User>, name: string)
    requires UniqueUsernames(us)
    ensures |UsersNamed(us, name)| <= 1
  {
    if us != [] {
      assert UniqueUsernames(us[1..]) by {
        forall i, j | 0 <= i < j < |us[1..]| ensures us[1..][i].username != us[1..][j].username {
          assert us[1..][i] == us[i + 1] && us[1..][j] == us[j + 1];
        }
      }
      UsernameLookupAtMostOne(us[1..], name);
      if us[0].username == name {
        forall u | u in us[1..] ensures u.username != name {
          var j :| 0 <= j < |us[1..]| && us[1..][j] == u;
          assert us[j + 1] == u;
        }
        assert UsersNamed(us[1..], name) == [];
      }
    }
  }

  function First<T>(rows: seq<T>): (r: Option<T>)
    ensures r.Some? <==> rows != []
    ensures r.Some? ==> r.value == rows[0]
  {
    if rows == [] then None else Some(rows[0])
  }

  // =====================================================================
  // The store

  class Storage {
    var characters: seq<Character>
    var messages: seq<Message>
    var users: seq<User>
    /** The next value of each serial sequence. */
    var characterSerial: int
    var messageSerial: int
    var userSerial: int

    /** The constraints the database enforces. */
    ghost predicate Valid()
      reads this
    {
      UniqueCharacterIds(characters) && UniqueMessageIds(messages)
      && UniqueUserIds(users) && UniqueUsernames(users)
      && (forall u :: u in users ==> u.id < userSerial)
    }

    constructor ()
      ensures Valid()
      ensures characters == [] && messages == [] && users == []
      ensures characterSerial == 1 && messageSerial == 1 && userSerial == 1
    {
      characters, messages, users := [], [], [];
      characterSerial, messageSerial, userSerial := 1, 1, 1;
    }

    // ------------------------------------------------------------- characters

    /** `getCharacters`: the whole table (Postgres promises no order; the
        model answers in table order). */
    method GetCharacters() returns (r: seq<Character>)
      ensures r == characters
    {
      r := characters;
    }

    method GetCharacter(id: int) returns (r: Option<Character>)
      ensures r.Some? <==> HasCharacterId(characters, id)
      ensures r.Some? ==> r.value in characters && r.value.id == id
      ensures r == First(CharactersWithId(characters, id))
    {
      r := First(CharactersWithId(characters, id));
    }

    method CreateCharacter(c: NewCharacter, now: int) returns (r: Result<Character, StorageError>)
      requires Valid()
      modifies this`characters, this`characterSerial
      ensures Valid()
      ensures characterSerial == old(characterSerial) + (if c.id.None? then 1 else 0)
      ensures var row := CharacterRow(c, old(characterSerial), now);
        if HasCharacterId(old(characters), row.id)
        then r == Failure(DuplicateKey) && characters == old(characters)
        else r == Success(row) && characters == old(characters) + [row]
    {
      var row := CharacterRow(c, characterSerial, now);
      if c.id.None? {
        characterSerial := characterSerial + 1;
      }
      if HasCharacterId(characters, row.id) {
        r := Failure(DuplicateKey);
      } else {
        characters := characters + [row];
        r := Success(row);
      }
    }

    /** `updateCharacter`: `Success(None)` when no row has the id (table
        unchanged); otherwise the patched row, unless the patch gives it an
        id that another row already has. */
    method UpdateCharacter(id: int, p: CharacterPatch, now: int) returns (r: Result<Option<Character>, StorageError>)
      requires Valid()
      modifies this`characters
      ensures Valid()
      ensures !HasCharacterId(old(characters), id) ==> r == Success(None) && characters == old(characters)
      ensures HasCharacterId(old(characters), id) ==>
        var updated := UpdateWhere(old(characters), id, p, now);
        if UniqueCharacterIds(updated)
        then characters == updated
             && r == Success(Some(ApplyPatch(CharactersWithId(old(characters), id)[0], p, now)))
        else r == Failure(DuplicateKey) && characters == old(characters)
      ensures r.Success? && r.value.Some? ==> r.value.value in characters
      ensures HasCharacterId(old(characters), id)
              && (p.id.None? || p.id.value == id || !HasCharacterId(old(characters), p.id.value)) ==>
        r.Success? && r.value.Some?
    {
      var matched := CharactersWithId(characters, id);
      if matched == [] {
        r := Success(None);
      } else {
        var updated := UpdateWhere(characters, id, p, now);
        if p.id.None? || p.id.value == id || !HasCharacterId(characters, p.id.value) {
          UpdateKeepsUnique(characters, id, p, now);
        }
        if UniqueCharacterIds(updated) {
          var target := matched[0];
          assert target in characters;
          var i :| 0 <= i < |characters| && characters[i] == target;
          characters := updated;
          assert characters[i] == ApplyPatch(target, p, now);
          r := Success(Some(ApplyPatch(target, p, now)));
        } else {
          r := Failure(DuplicateKey);
        }
      }
    }

    /** `deleteCharacter`: true iff a row had the id; messages are untouched
        (there is no cascade), which the frame of this method states. */
    method DeleteCharacter(id: int) returns (deleted: bool)
      requires Valid()
      modifies this`characters
      ensures Valid()
      ensures deleted <==> HasCharacterId(old(characters), id)
      ensures characters == DeleteWhere(old(characters), id)
      ensures !HasCharacterId(characters, id)
    {
      deleted := CharactersWithId(characters, id) != [];
      DeleteKeepsUnique(characters, id);
      characters := DeleteWhere(characters, id);
      assert CharactersWithId(characters, id) == [] by {
        DeleteWhereFrame(old(characters), id, id + 1);
      }
    }

    // --------------------------------------------------------------- messages

    /** `getMessages(c)`: the messages of character `c` ordered by timestamp. */
    method GetMessages(characterId: int) returns (r: seq<Message>)
      ensures SortedByTime(r)
      ensures multiset(r) == multiset(ForCharacter(messages, characterId))
      ensures forall m :: m in r <==> m in messages && m.characterId == characterId
    {
      r := SortByTime(ForCharacter(messages, characterId));
      HistoryMembers(r, messages, characterId);
    }

    method CreateMessage(m: NewMessage, now: int) returns (r: Result<Message, StorageError>)
      requires Valid()
      modifies this`messages, this`messageSerial
      ensures Valid()
      ensures messageSerial == old(messageSerial) + (if m.id.None? then 1 else 0)
      ensures var row := MessageRow(m, old(messageSerial), now);
        if HasMessageId(old(messages), row.id)
        then r == Failure(DuplicateKey) && messages == old(messages)
        else r == Success(row) && messages == old(messages) + [row]
    {
      var row := MessageRow(m, messageSerial, now);
      if m.id.None? {
        messageSerial := messageSerial + 1;
      }
      if HasMessageId(messages, row.id) {
        r := Failure(DuplicateKey);
      } else {
        messages := messages + [row];
        r := Success(row);
      }
    }

    /** `clearMessages(c)`: every message of `c` goes, no other message does. */
    method ClearMessages(characterId: int)
      requires Valid()
      modifies this`messages
      ensures Valid()
      ensures messages == WithoutCharacter(old(messages), characterId)
      ensures ForCharacter(messages, characterId) == []
      ensures forall d :: d != characterId ==> ForCharacter(messages, d) == ForCharacter(old(messages), d)
    {
      messages := WithoutCharacter(messages, characterId);
      forall d ensures ForCharacter(messages, d) == if d == characterId then [] else ForCharacter(old(messages), d) {
        ClearKeepsOthers(old(messages), characterId, d);
      }
    }

    // ------------------------------------------------------------------ users

    method GetUser(id: int) returns (r: Option<User>)
      ensures r.Some? ==> r.value in users && r.value.id == id
      ensures r.None? <==> forall u :: u in users ==> u.id != id
      ensures r == First(UsersWithId(users, id))
    {
      r := First(UsersWithId(users, id));
    }

    method GetUserByUsername(name: string) returns (r: Option<User>)
      requires Valid()
      ensures r.Some? ==> r.value in users && r.value.username == name
      ensures r.None? <==> forall u :: u in users ==> u.username != name
      ensures r.Some? ==> UsersNamed(users, name) == [r.value]
    {
      var rows := UsersNamed(users, name);
      UsernameLookupAtMostOne(users, name);
      r := First(rows);
    }

    /** `createUser`: the only caller never supplies an id, so the id is the
        next serial value; a taken username violates the unique constraint. */
    method CreateUser(u: NewUser, now: int) returns (r: Result<User, StorageError>)
      requires Valid()
      modifies this`users, this`userSerial
      ensures Valid()
      ensures userSerial == old(userSerial) + 1
      ensures var row := User(old(userSerial), u.username, u.password, now);
        if UsersNamed(old(users), u.username) != [] || UsersWithId(old(users), row.id) != []
        then r == Failure(DuplicateKey) && users == old(users)
        else r == Success(row) && users == old(users) + [row]
    {
      var row := User(userSerial, u.username, u.password, now);
      userSerial := userSerial + 1;
      if UsersNamed(users, u.username) != [] || UsersWithId(users, row.id) != [] {
        r := Failure(DuplicateKey);
      } else {
        users := users + [row];
        r := Success(row);
      }
    }
  }
}
