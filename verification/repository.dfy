/**
 * The persistence layer: one in-memory table per entity, keyed by primary key.
 * The declared finder methods of the two repository interfaces are functions over the
 * table; the inherited `save`, `delete` and `findAll` are a map insert, a map removal
 * and the rows in key order. Ids come from the store's generator, which is outside
 * this model: `Save` is handed an id that is not yet in the table.
 */
module Repository {
  import opened Wrappers
  import opened Entity
  import Tables

  /** The first row of `rows` whose username is `username`. */
  function FirstWithUsername(rows: seq<Account>, username: Option<string>): (r: Option<Account>)
    ensures r.Some? ==> r.value in rows && r.value.username == username
    ensures r.None? <==> forall a :: a in rows ==> a.username != username
  {
    if rows == [] then None
    else if rows[0].username == username then Some(rows[0])
    else FirstWithUsername(rows[1..], username)
  }

  /** The first row of `rows` whose username is `username` and whose password is `password`. */
  function FirstWithCredentials(rows: seq<Account>, username: Option<string>, password: Option<string>): (r: Option<Account>)
    ensures r.Some? ==> r.value in rows && r.value.username == username && r.value.password == password
    ensures r.None? <==> forall a :: a in rows ==> !(a.username == username && a.password == password)
  {
    if rows == [] then None
    else if rows[0].username == username && rows[0].password == password then Some(rows[0])
    else FirstWithCredentials(rows[1..], username, password)
  }

  /** The message ids of `rows` strictly increase: no message is listed twice. */
  predicate IdsAscending(rows: seq<Message>) {
    forall i, j :: 0 <= i < j < |rows| ==> rows[i].messageId < rows[j].messageId
  }

  /** The rows of `rows` posted by `postedBy`, in their order in `rows`. */
  function WithPostedBy(rows: seq<Message>, postedBy: int): (r: seq<Message>)
    ensures forall m :: m in r <==> m in rows && m.postedBy == postedBy
    ensures IdsAscending(rows) ==> IdsAscending(r)
  {
    if rows == [] then []
    else if rows[0].postedBy == postedBy then [rows[0]] + WithPostedBy(rows[1..], postedBy)
    else WithPostedBy(rows[1..], postedBy)
  }

  /** The account table behind `AccountRepository`. */
  class AccountRepository {
    var accounts: map<int, Account>

    /** Every row is stored under its own id. */
    ghost predicate Valid()
      reads this
    {
      forall id :: id in accounts ==> accounts[id].accountId == id
    }

    constructor ()
      ensures Valid() && accounts == map[]
    {
      accounts := map[];
    }

    /** `findAccountByUsername`: the stored account with that username, if there is one. */
    function FindAccountByUsername(username: Option<string>): (r: Option<Account>)
      reads this
      ensures r.Some? ==> r.value in accounts.Values && r.value.username == username
      ensures r.None? <==> forall id :: id in accounts ==> accounts[id].username != username
    {
      FirstWithUsername(Tables.Rows(accounts), username)
    }

    /** `findAccountByUsernameAndPassword`: a stored account matching both, if there is one. */
    function FindAccountByUsernameAndPassword(username: Option<string>, password: Option<string>): (r: Option<Account>)
      reads this
      ensures r.Some? ==> r.value in accounts.Values && r.value.username == username && r.value.password == password
      ensures r.None? <==> forall id :: id in accounts ==>
                             !(accounts[id].username == username && accounts[id].password == password)
    {
      FirstWithCredentials(Tables.Rows(accounts), username, password)
    }

    /** `existsByAccountId`: whether an account with that id is stored. */
    function ExistsByAccountId(accountId: int): (r: bool)
      reads this
      requires Valid()
      ensures r <==> exists a :: a in accounts.Values && a.accountId == accountId
    {
      if accountId in accounts then
        assert accounts[accountId] in accounts.Values;
        true
      else
        Tables.AbsentKey(accounts, (a: Account) => a.accountId, accountId);
        false
    }

    /** The inherited `save` of a new account: it is stored under the fresh id `id`. */
    method Save(acc: Account, id: int) returns (saved: Account)
      requires Valid() && id !in accounts
      modifies this
      ensures Valid()
      ensures saved == acc.(accountId := id)
      ensures accounts == old(accounts)[id := saved]
    {
      saved := acc.(accountId := id);
      accounts := accounts[id := saved];
    }
  }

  /** The message table behind `MessageRepository`. */
  class MessageRepository {
    var messages: map<int, Message>

    /** Every row is stored under its own id. */
    ghost predicate Valid()
      reads this
    {
      forall id :: id in messages ==> messages[id].messageId == id
    }

    constructor ()
      ensures Valid() && messages == map[]
    {
      messages := map[];
    }

    /** The inherited `findAll`: every stored message once, in ascending id order. */
    function FindAll(): (r: seq<Message>)
      reads this
      requires Valid()
      ensures |r| == |messages|
      ensures forall m :: m in r <==> m in messages.Values
      ensures IdsAscending(r)
    {
      Tables.Rows(messages)
    }

    /** `findMessageByMessageId`: the stored message with that id, or nothing. */
    function FindMessageByMessageId(messageId: int): (r: Option<Message>)
      reads this
      requires Valid()
      ensures r.Some? <==> exists m :: m in messages.Values && m.messageId == messageId
      ensures r.Some? ==> r.value in messages.Values && r.value.messageId == messageId
    {
      if messageId in messages then
        assert messages[messageId] in messages.Values;
        Some(messages[messageId])
      else
        Tables.AbsentKey(messages, (m: Message) => m.messageId, messageId);
        None
    }

    /** `findMessageByPostedBy`: exactly the stored messages of that author, each once. */
    function FindMessageByPostedBy(postedBy: int): (r: seq<Message>)
      reads this
      requires Valid()
      ensures forall m :: m in r <==> m in messages.Values && m.postedBy == postedBy
      ensures IdsAscending(r)
    {
      WithPostedBy(FindAll(), postedBy)
    }

    /** The inherited `save` of a new message: it is stored under the fresh id `id`. */
    method Save(msg: Message, id: int) returns (saved: Message)
      requires Valid() && id !in messages
      modifies this
      ensures Valid()
      ensures saved == msg.(messageId := id)
      ensures messages == old(messages)[id := saved]
    {
      saved := msg.(messageId := id);
      messages := messages[id := saved];
    }

    /** The inherited `delete`: the row with the id of `msg` is removed, if there is one. */
    method Delete(msg: Message)
      requires Valid()
      modifies this
      ensures Valid()
      ensures messages == old(messages) - {msg.messageId}
    {
      messages := messages - {msg.messageId};
    }

    /**
     * `updateMessageText`: `UPDATE Message m SET m.messageText = text WHERE m.messageId = id`.
     * Only the text of the row with that id changes; with no such row nothing changes.
     */
    method UpdateMessageText(messageText: Option<string>, messageId: int)
      requires Valid()
      modifies this
      ensures Valid()
      ensures messages.Keys == old(messages).Keys
      ensures forall id :: id in messages ==>
                messages[id] == if id == messageId then old(messages)[id].(messageText := messageText)
                                else old(messages)[id]
    {
      if messageId in messages {
        messages := messages[messageId := messages[messageId].(messageText := messageText)];
      }
    }
  }
}
