/**
 * The guestbook server (server.js): a process-lifetime, in-memory list of
 * messages and the four HTTP handlers that read and change it.  Ids and
 * timestamps come from the clock in the server; here the caller passes them
 * in as whole numbers of milliseconds.  Request bodies are JSON; a field that
 * is absent or `null` is `None`.
 */
module Guestbook {
  import opened Wrappers
  import opened JsText

  /** The five reactions a message can receive, in the order the server lists them. */
  const Emojis: seq<string> := ["👍", "❤️", "😊", "🎉", "😮"]

  /** The password the delete handler accepts whatever the configured secret is. */
  const AdminFallback: string := "admin123"

  const MaxNameLength := 50
  const MaxMessageLength := 500

  const DeletedNotice: string := "메시지가 삭제되었습니다."
  const ReactedNotice: string := "반응이 추가되었습니다."

  /** Reaction counts by emoji, as the JSON object `reactions` holds them. */
  type Reactions = map<string, nat>

  /** The keys of `r` are exactly the five allowed emojis. */
  ghost predicate HasEmojiKeys(r: Reactions)
  {
    forall e :: e in r <==> e in Emojis
  }

  /** The `reactions` object every new record starts with. */
  function ZeroReactions(): (r: Reactions)
    ensures HasEmojiKeys(r)
    ensures forall e :: e in r ==> r[e] == 0
  {
    map["👍" := 0, "❤️" := 0, "😊" := 0, "🎉" := 0, "😮" := 0]
  }

  /** `reactions[emoji] || 0`: a missing count reads as zero. */
  function Count(r: Reactions, e: string): (n: nat)
    ensures e !in r ==> n == 0
    ensures HasEmojiKeys(r) && e in Emojis ==> n == r[e]
  {
    if e in r then r[e] else 0
  }

  /** `reactions[emoji] = (reactions[emoji] || 0) + 1`. */
  function AddReaction(r: Reactions, e: string): (r': Reactions)
    ensures r'.Keys == r.Keys + {e}
    ensures Count(r', e) == Count(r, e) + 1
    ensures forall f :: f != e ==> Count(r', f) == Count(r, f)
    ensures forall f :: f in r && f != e ==> r'[f] == r[f]
  {
    r[e := Count(r, e) + 1]
  }

  /** `AddReaction` applied `k` times with the same emoji. */
  function AddReactions(r: Reactions, e: string, k: nat): Reactions
  {
    if k == 0 then r else AddReaction(AddReactions(r, e, k - 1), e)
  }

  /** Reacting `k` times adds exactly `k` to that emoji's count and nothing to any other. */
  lemma {:induction false} AddReactionsCounts(r: Reactions, e: string, k: nat)
    ensures Count(AddReactions(r, e, k), e) == Count(r, e) + k
    ensures forall f :: f != e ==> Count(AddReactions(r, e, k), f) == Count(r, f)
  {
    if k > 0 {
      AddReactionsCounts(r, e, k - 1);
    }
  }

  /** One stored guestbook entry; the JSON fields are `id`, `name`, `message`, `timestamp`, `reactions`. */
  datatype Message = Message(id: int, name: string, message: string, timestamp: int, reactions: Reactions)

  /** The record the store is seeded with when the process starts at `startedAt`. */
  function Welcome(startedAt: int): (m: Message)
    ensures m.id == 1 && m.timestamp == startedAt
    ensures HasEmojiKeys(m.reactions) && forall e :: e in Emojis ==> Count(m.reactions, e) == 0
  {
    Message(1, "관리자", "방명록에 오신 것을 환영합니다!", startedAt, ZeroReactions())
  }

  /** What went wrong with a request; each maps to an HTTP status and an `{error}` text. */
  datatype Failure = MissingField | TooLong | UnknownId | NotAdmin | UnknownEmoji
  {
    /** Bad input is 400, an unknown id 404, a refused password 403. */
    function Status(): (code: nat)
      ensures code == 404 <==> this == UnknownId
      ensures code == 403 <==> this == NotAdmin
      ensures code == 400 <==> this in {MissingField, TooLong, UnknownEmoji}
    {
      match this
      case MissingField => 400
      case TooLong => 400
      case UnknownId => 404
      case NotAdmin => 403
      case UnknownEmoji => 400
    }

    /** The `{error}` text of the response. */
    function Error(): (text: string)
      ensures text != []
    {
      match this
      case MissingField => "이름과 메시지를 모두 입력해주세요."
      case TooLong => "이름은 50자, 메시지는 500자 이내로 입력해주세요."
      case UnknownId => "메시지를 찾을 수 없습니다."
      case NotAdmin => "관리자만 삭제할 수 있습니다. 관리자 비밀번호를 입력해주세요."
      case UnknownEmoji => "허용되지 않은 이모지입니다."
    }
  }

  /** The response of a handler: its JSON body, from which the status follows. */
  datatype Response =
    | Listing(records: seq<Message>)
    | Created(record: Message)
    | Deleted(notice: string, deletedMessage: Message)
    | Reacted(notice: string, reactions: Reactions)
    | Failed(failure: Failure)
  {
    /** 201 for a created record, a 4xx code for a failure, 200 otherwise. */
    function Status(): (code: nat)
      ensures code in {200, 201, 400, 403, 404}
      ensures code == 201 <==> this.Created?
      ensures code >= 400 <==> this.Failed?
    {
      match this
      case Created(_) => 201
      case Failed(f) => f.Status()
      case _ => 200
    }
  }

  /**
   * JavaScript truthiness of a string field (`!name` is false): present,
   * not `null`, and of non-zero `.length`.
   */
  predicate Present(field: Option<string>)
    ensures Present(field) <==> field.Some? && Utf16Length(field.value) > 0
  {
    field.Some? && field.value != []
  }

  /** The create handler's checks on the untrimmed fields: non-empty, at most 50 and 500 code units. */
  predicate Acceptable(name: string, message: string)
    ensures Acceptable(name, message) ==>
              1 <= |name| <= MaxNameLength && 1 <= |message| <= MaxMessageLength
  {
    name != [] && message != [] &&
    Utf16Length(name) <= MaxNameLength && Utf16Length(message) <= MaxMessageLength
  }

  /**
   * `messages.findIndex(msg => msg.id === id)`: the index of the first
   * record with that id, or `None` for `-1`.
   */
  function FirstIndex(ms: seq<Message>, id: int): (r: Option<nat>)
    ensures r.None? <==> forall i :: 0 <= i < |ms| ==> ms[i].id != id
    ensures r.Some? ==> r.value < |ms| && ms[r.value].id == id &&
                        forall i :: 0 <= i < r.value ==> ms[i].id != id
  {
    if ms == [] then None
    else if ms[0].id == id then Some(0)
    else match FirstIndex(ms[1..], id)
      case None => None
      case Some(k) => Some(k + 1)
  }

  /** `messages.splice(k, 1)`: the other records, in their relative order. */
  function Without(ms: seq<Message>, k: nat): (r: seq<Message>)
    requires k < |ms|
    ensures |r| == |ms| - 1
    ensures forall i :: 0 <= i < k ==> r[i] == ms[i]
    ensures forall i :: k <= i < |r| ==> r[i] == ms[i + 1]
    ensures multiset(r) + multiset{ms[k]} == multiset(ms)
  {
    assert ms == ms[..k] + [ms[k]] + ms[k + 1..];
    ms[..k] + ms[k + 1..]
  }

  /**
   * Ids are not unique (they are clock readings), so deleting the first match
   * makes the id unknown exactly when no other record carries it.
   */
  lemma DeleteForgetsIdIffUnique(ms: seq<Message>, id: int)
    requires FirstIndex(ms, id).Some?
    ensures var k := FirstIndex(ms, id).value;
            FirstIndex(Without(ms, k), id).None? <==>
            forall j :: 0 <= j < |ms| && j != k ==> ms[j].id != id
  {
    var k := FirstIndex(ms, id).value;
    var r := Without(ms, k);
    if FirstIndex(r, id).None? {
      forall j | 0 <= j < |ms| && j != k ensures ms[j].id != id {
        if j < k { assert r[j] == ms[j]; } else { assert r[j - 1] == ms[j]; }
      }
    }
  }

  /**
   * The `password` field of a delete request.  Unlike the other fields, an
   * absent password and a JSON `null` one compare differently below.
   */
  datatype Password = Absent | Null | Given(text: string)

  /**
   * `password === process.env.ADMIN_PASSWORD || password === 'admin123'`,
   * where `secret` is `None` when the variable is unset.  Strict equality
   * holds between two `undefined` values, but not between `null` and
   * `undefined`, and a string only equals the same string.
   */
  predicate IsAdmin(password: Password, secret: Option<string>)
    ensures IsAdmin(password, secret) ==> !password.Null?
    ensures password == Given(AdminFallback) ==> IsAdmin(password, secret)
  {
    match password
    case Absent => secret.None?
    case Null => false
    case Given(text) => secret == Some(text) || text == AdminFallback
  }

  /**
   * A request without a password field is admin exactly when no secret is
   * configured; with one configured, only its text or the fallback passes.
   */
  lemma AdminWithoutSecret(password: Password, secret: Option<string>)
    ensures IsAdmin(Absent, secret) <==> secret.None?
    ensures secret.None? ==> (IsAdmin(password, secret) <==> password.Absent? || password == Given(AdminFallback))
    ensures secret.Some? ==>
              (IsAdmin(password, secret) <==> password == Given(secret.value) || password == Given(AdminFallback))
  {
  }

  /** Timestamps never increase along the sequence. */
  predicate NewestFirst(ms: seq<Message>)
  {
    forall i, j :: 0 <= i < j < |ms| ==> ms[j].timestamp <= ms[i].timestamp
  }

  /** Puts `m` in front of the first record that is not newer than it. */
  function InsertByTime(m: Message, ms: seq<Message>): (r: seq<Message>)
    ensures multiset(r) == multiset(ms) + multiset{m}
  {
    if ms == [] || ms[0].timestamp <= m.timestamp then [m] + ms
    else
      assert ms == [ms[0]] + ms[1..];
      [ms[0]] + InsertByTime(m, ms[1..])
  }

  /** No record of `ms` is newer than `t`. */
  predicate NotNewerThan(ms: seq<Message>, t: int)
  {
    forall i :: 0 <= i < |ms| ==> ms[i].timestamp <= t
  }

  /** Inserting a record no newer than `t` keeps every record no newer than `t`. */
  lemma {:induction false} InsertByTimeBound(m: Message, ms: seq<Message>, t: int)
    requires NotNewerThan(ms, t) && m.timestamp <= t
    ensures NotNewerThan(InsertByTime(m, ms), t)
  {
    if ms != [] && m.timestamp < ms[0].timestamp {
      InsertByTimeBound(m, ms[1..], t);
    }
  }

  /** Inserting into a newest-first list keeps it newest-first. */
  lemma {:induction false} InsertByTimeKeepsOrder(m: Message, ms: seq<Message>)
    requires NewestFirst(ms)
    ensures NewestFirst(InsertByTime(m, ms))
  {
    if ms != [] && m.timestamp < ms[0].timestamp {
      var rest := InsertByTime(m, ms[1..]);
      InsertByTimeKeepsOrder(m, ms[1..]);
      InsertByTimeBound(m, ms[1..], ms[0].timestamp);
      var r := [ms[0]] + rest;
      forall i, j | 0 <= i < j < |r| ensures r[j].timestamp <= r[i].timestamp {
        assert r[j] == rest[j - 1];
        if i > 0 { assert r[i] == rest[i - 1]; }
      }
    }
  }

  /**
   * `messages.sort((a, b) => new Date(b.timestamp) - new Date(a.timestamp))`.
   * The engine's sort is stable, and a stable sort has exactly one result:
   * the one this insertion sort computes.
   */
  function SortNewestFirst(ms: seq<Message>): (r: seq<Message>)
    ensures NewestFirst(r)
    ensures multiset(r) == multiset(ms)
  {
    if ms == [] then []
    else
      assert ms == [ms[0]] + ms[1..];
      InsertByTimeKeepsOrder(ms[0], SortNewestFirst(ms[1..]));
      InsertByTime(ms[0], SortNewestFirst(ms[1..]))
  }

  /** Sorting a list that is already newest-first leaves it as it is, ties included. */
  lemma {:induction false} SortKeepsSortedList(ms: seq<Message>)
    requires NewestFirst(ms)
    ensures SortNewestFirst(ms) == ms
  {
    if ms != [] {
      SortKeepsSortedList(ms[1..]);
      assert [ms[0]] + ms[1..] == ms;
    }
  }

  /** Listing twice gives the same order as listing once. */
  lemma SortIdempotent(ms: seq<Message>)
    ensures SortNewestFirst(SortNewestFirst(ms)) == SortNewestFirst(ms)
  {
    SortKeepsSortedList(SortNewestFirst(ms));
  }

  /** The in-memory store: the module-level `messages` array of server.js. */
  class Store {
    var messages: seq<Message>

    /** Every record carries a reaction count for exactly the five emojis. */
    ghost predicate Valid()
      reads this
    {
      forall m :: m in messages ==> HasEmojiKeys(m.reactions)
    }

    /** A fresh process: the welcome record alone. */
    constructor (startedAt: int)
      ensures Valid()
      ensures messages == [Welcome(startedAt)]
    {
      messages := [Welcome(startedAt)];
    }

    /** GET /api/messages: sorts the store in place, newest first, and returns it. */
    method List() returns (r: Response)
      requires Valid()
      modifies this
      ensures Valid()
      ensures messages == SortNewestFirst(old(messages))
      ensures NewestFirst(messages) && multiset(messages) == multiset(old(messages))
      ensures r == Listing(messages) && r.Status() == 200
    {
      messages := SortNewestFirst(messages);
      forall m | m in messages ensures HasEmojiKeys(m.reactions) {
        assert m in multiset(messages);
      }
      r := Listing(messages);
    }

    /**
     * POST /api/messages: checks presence, then the untrimmed lengths, and
     * appends a record with trimmed fields and zeroed counts.
     */
    method Create(name: Option<string>, message: Option<string>, id: int, now: int) returns (r: Response)
      requires Valid()
      modifies this
      ensures Valid()
      ensures !Present(name) || !Present(message) ==>
                r == Failed(MissingField) && r.Status() == 400 && messages == old(messages)
      ensures Present(name) && Present(message) && !Acceptable(name.value, message.value) ==>
                r == Failed(TooLong) && r.Status() == 400 && messages == old(messages)
      ensures r.Created? <==> name.Some? && message.Some? && Acceptable(name.value, message.value)
      ensures r.Created? ==>
                r.Status() == 201 &&
                r.record == Message(id, Trim(name.value), Trim(message.value), now, ZeroReactions()) &&
                messages == old(messages) + [r.record]
    {
      if !Present(name) || !Present(message) {
        return Failed(MissingField);
      }
      if Utf16Length(name.value) > MaxNameLength || Utf16Length(message.value) > MaxMessageLength {
        return Failed(TooLong);
      }
      var record := Message(id, Trim(name.value), Trim(message.value), now, ZeroReactions());
      messages := messages + [record];
      r := Created(record);
    }

    /**
     * DELETE /api/messages/:id: an unknown id is reported before the
     * password is looked at; an admin removes the first record with the id.
     */
    method Delete(id: int, password: Password, secret: Option<string>) returns (r: Response)
      requires Valid()
      modifies this
      ensures Valid()
      ensures FirstIndex(old(messages), id).None? ==>
                r == Failed(UnknownId) && r.Status() == 404 && messages == old(messages)
      ensures FirstIndex(old(messages), id).Some? && !IsAdmin(password, secret) ==>
                r == Failed(NotAdmin) && r.Status() == 403 && messages == old(messages)
      ensures FirstIndex(old(messages), id).Some? && IsAdmin(password, secret) ==>
                var k := FirstIndex(old(messages), id).value;
                r == Deleted(DeletedNotice, old(messages)[k]) && r.Status() == 200 &&
                messages == Without(old(messages), k)
    {
      var index := FirstIndex(messages, id);
      if index.None? {
        return Failed(UnknownId);
      }
      if !IsAdmin(password, secret) {
        return Failed(NotAdmin);
      }
      var deleted := messages[index.value];
      messages := Without(messages, index.value);
      forall m | m in messages ensures HasEmojiKeys(m.reactions) {
        assert m in multiset(messages);
      }
      r := Deleted(DeletedNotice, deleted);
    }

    /**
     * POST /api/messages/:id/react: an unknown id is reported before the
     * emoji is checked; an allowed emoji adds one to that count of the first
     * record with the id, and the whole mapping is returned.
     */
    method React(id: int, emoji: Option<string>) returns (r: Response)
      requires Valid()
      modifies this
      ensures Valid()
      ensures FirstIndex(old(messages), id).None? ==>
                r == Failed(UnknownId) && r.Status() == 404 && messages == old(messages)
      ensures FirstIndex(old(messages), id).Some? && !(emoji.Some? && emoji.value in Emojis) ==>
                r == Failed(UnknownEmoji) && r.Status() == 400 && messages == old(messages)
      ensures FirstIndex(old(messages), id).Some? && emoji.Some? && emoji.value in Emojis ==>
                var k := FirstIndex(old(messages), id).value;
                var m := old(messages)[k];
                var updated := m.(reactions := AddReaction(m.reactions, emoji.value));
                messages == old(messages)[k := updated] &&
                r == Reacted(ReactedNotice, updated.reactions) && r.Status() == 200
    {
      var index := FirstIndex(messages, id);
      if index.None? {
        return Failed(UnknownId);
      }
      var m := messages[index.value];
      if !(emoji.Some? && emoji.value in Emojis) {
        return Failed(UnknownEmoji);
      }
      // Every stored record has its reactions object (Valid), so the
      // handler's branch that creates a missing one never runs.
      var counts := AddReaction(m.reactions, emoji.value);
      messages := messages[index.value := m.(reactions := counts)];
      r := Reacted(ReactedNotice, counts);
    }
  }

  /** Two thumbs-up on the welcome record make its count 2; an unknown emoji changes nothing. */
  method ReactScenario(startedAt: int)
  {
    var store := new Store(startedAt);
    assert FirstIndex(store.messages, 1) == Some(0);
    var r := store.React(1, Some("👍"));
    assert FirstIndex(store.messages, 1) == Some(0);
    r := store.React(1, Some("👍"));
    assert Count(store.messages[0].reactions, "👍") == 2;
    assert r.Status() == 200;
    r := store.React(1, Some("🔥"));
    assert r == Failed(UnknownEmoji);
  }

  /** A wrong password keeps the welcome record; the configured secret removes it. */
  method DeleteScenario(startedAt: int, secret: string)
    requires secret != "wrong"
  {
    var store := new Store(startedAt);
    assert FirstIndex(store.messages, 1) == Some(0);
    var r := store.Delete(1, Given("wrong"), Some(secret));
    assert r.Status() == 403 && |store.messages| == 1;
    r := store.Delete(1, Null, Some(secret));
    assert r.Status() == 403 && |store.messages| == 1;
    r := store.Delete(1, Given(secret), Some(secret));
    assert r.Status() == 200 && r.deletedMessage.id == 1 && store.messages == [];
  }

  /** With no secret configured, `null` is refused but a request without a password deletes. */
  method UnsetSecretScenario(startedAt: int)
  {
    var store := new Store(startedAt);
    assert FirstIndex(store.messages, 1) == Some(0);
    var r := store.Delete(1, Null, None);
    assert r == Failed(NotAdmin) && |store.messages| == 1;
    r := store.Delete(1, Absent, None);
    assert r.Status() == 200 && store.messages == [];
  }

  /** A name of spaces only passes the untrimmed checks and is stored empty. */
  method BlankNameScenario(startedAt: int)
  {
    var store := new Store(startedAt);
    assert Utf16Length("   ") == 3 && Utf16Length("hi") == 2;
    var r := store.Create(Some("   "), Some("hi"), 7, startedAt + 1);
    assert TextStart("   ", 0) == 3;
    assert r.Created? && r.record.name == [];
  }
}
