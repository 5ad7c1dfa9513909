/**
 * The service layer: the validation rules that sit in front of the two tables.
 * `AccountService` owns the account table and `MessageService` owns the message table
 * and asks `AccountService` whether an author exists.
 */
module Service {
  import opened Wrappers
  import opened Entity
  import opened Repository
  import Tables

  /** The outcome of `registerAccount`: `null`, an empty `Optional`, or the saved account. */
  datatype RegResult = Invalid | Duplicate | Registered(account: Account)

  /** The shortest username `registerAccount` accepts. */
  const MinUsernameLength := 4

  /** The longest message text `createMessage` and `updateMessage` accept. */
  const MaxMessageLength := 255

  /** A username `registerAccount` lets through its length check. */
  predicate ValidUsername(username: Option<string>) {
    username.Some? && |username.value| >= MinUsernameLength
  }

  /** A message text `createMessage` and `updateMessage` let through their length checks. */
  predicate ValidText(text: Option<string>) {
    text.Some? && 0 < |text.value| <= MaxMessageLength
  }

  /** Some stored account has the username `username`. */
  ghost predicate UsernameTaken(accounts: map<int, Account>, username: Option<string>) {
    exists id :: id in accounts && accounts[id].username == username
  }

  /** No two stored accounts share a username. */
  ghost predicate UniqueUsernames(accounts: map<int, Account>) {
    forall i, j :: i in accounts && j in accounts && accounts[i].username == accounts[j].username ==> i == j
  }

  /** Adding a row whose username no stored row has keeps the usernames distinct. */
  lemma InsertKeepsUnique(accounts: map<int, Account>, id: int, a: Account)
    requires UniqueUsernames(accounts) && id !in accounts
    requires forall k :: k in accounts ==> accounts[k].username != a.username
    ensures UniqueUsernames(accounts[id := a])
  {
  }

  /** With distinct usernames, the row stored under `id` is the only one with its username. */
  lemma OnlyOneNamed(accounts: map<int, Account>, id: int, a: Account)
    requires UniqueUsernames(accounts)
    requires id in accounts && a in accounts.Values && a.username == accounts[id].username
    ensures a == accounts[id]
  {
    Tables.KeyOf(accounts, a);
    var k :| k in accounts && accounts[k] == a;
  }

  class AccountService {
    const accountRepository: AccountRepository

    /** The account table is well formed and holds only valid, distinct usernames. */
    ghost predicate Valid()
      reads this, accountRepository
    {
      && accountRepository.Valid()
      && UniqueUsernames(accountRepository.accounts)
      && forall id :: id in accountRepository.accounts ==> ValidUsername(accountRepository.accounts[id].username)
    }

    /** The stored accounts. */
    ghost function Accounts(): map<int, Account>
      reads this, accountRepository
    {
      accountRepository.accounts
    }

    constructor ()
      ensures Valid() && fresh(accountRepository) && Accounts() == map[]
    {
      accountRepository := new AccountRepository();
    }

    /**
     * `registerAccount`: a missing or short username is `Invalid`; a username already
     * stored is `Duplicate`; otherwise the account is saved under the fresh id `newId`.
     * Only a registration changes the table.
     */
    method RegisterAccount(acc: Account, newId: int) returns (r: RegResult)
      requires Valid()
      requires newId !in Accounts()
      modifies accountRepository
      ensures Valid()
      ensures r.Invalid? <==> !ValidUsername(acc.username)
      ensures r.Duplicate? <==> ValidUsername(acc.username) && UsernameTaken(old(Accounts()), acc.username)
      ensures r.Registered? ==> r.account == acc.(accountId := newId)
      ensures r.Registered? ==> Accounts() == old(Accounts())[newId := r.account]
      ensures !r.Registered? ==> Accounts() == old(Accounts())
      ensures r.Registered? ==> accountRepository.FindAccountByUsername(acc.username) == Some(r.account)
    {
      if acc.username.None? || |acc.username.value| < MinUsernameLength {
        return Invalid;
      }
      var result := accountRepository.FindAccountByUsername(acc.username);
      if result.None? {
        InsertKeepsUnique(Accounts(), newId, acc.(accountId := newId));
        var saved := accountRepository.Save(acc, newId);
        r := Registered(saved);
        assert Accounts()[newId] == saved;
        var found := accountRepository.FindAccountByUsername(acc.username);
        OnlyOneNamed(Accounts(), newId, found.value);
      } else {
        r := Duplicate;
      }
    }

    /** `login`: the stored account whose username and password both equal the given ones. */
    function Login(acc: Account): (r: Option<Account>)
      reads this, accountRepository
      requires Valid()
      ensures r.Some? <==> exists id :: id in Accounts() &&
                             Accounts()[id].username == acc.username && Accounts()[id].password == acc.password
      ensures r.Some? ==> r.value in Accounts().Values &&
                          r.value.username == acc.username && r.value.password == acc.password
      ensures r.Some? ==> accountRepository.FindAccountByUsername(acc.username) == r
    {
      accountRepository.FindAccountByUsernameAndPassword(acc.username, acc.password)
    }

    /** `existsById`: whether an account with that id is stored. */
    function ExistsById(id: int): (r: bool)
      reads this, accountRepository
      requires Valid()
      ensures r <==> exists a :: a in Accounts().Values && a.accountId == id
    {
      accountRepository.ExistsByAccountId(id)
    }
  }

  class MessageService {
    const accountService: AccountService
    const messageRepository: MessageRepository

    /**
     * Both tables are well formed; every stored message has a valid text and an author
     * whose account is stored.
     */
    ghost predicate Valid()
      reads this, accountService, accountService.accountRepository, messageRepository
    {
      && accountService.Valid()
      && messageRepository.Valid()
      && forall id :: id in messageRepository.messages ==>
           && ValidText(messageRepository.messages[id].messageText)
           && messageRepository.messages[id].postedBy in accountService.accountRepository.accounts
    }

    /** The stored messages. */
    ghost function Messages(): map<int, Message>
      reads this, messageRepository
    {
      messageRepository.messages
    }

    constructor (accountService: AccountService)
      requires accountService.Valid()
      ensures Valid() && this.accountService == accountService
      ensures fresh(messageRepository) && Messages() == map[]
    {
      this.accountService := accountService;
      messageRepository := new MessageRepository();
    }

    /**
     * `createMessage`: the text must be non-empty, at most 255 characters, and the author
     * must exist; then the message is saved under the fresh id `newId` and returned.
     * A rejected message leaves the table as it was.
     */
    method CreateMessage(msg: Message, newId: int) returns (r: Option<Message>)
      requires Valid()
      requires newId !in Messages()
      modifies messageRepository
      ensures Valid()
      ensures r.Some? <==> ValidText(msg.messageText) && msg.postedBy in accountService.Accounts()
      ensures r.Some? ==> r.value == msg.(messageId := newId)
      ensures r.Some? ==> Messages() == old(Messages())[newId := r.value]
      ensures r.None? ==> Messages() == old(Messages())
      ensures r.Some? ==> RetrieveById(r.value.messageId) == r
    {
      if msg.messageText.None? || |msg.messageText.value| <= 0 {
        return None;
      } else if |msg.messageText.value| > MaxMessageLength {
        return None;
      } else if !accountService.ExistsById(msg.postedBy) {
        return None;
      } else {
        var saved := messageRepository.Save(msg, newId);
        return Some(saved);
      }
    }

    /** `retrieveMessages`: every stored message once, in ascending id order. */
    function RetrieveMessages(): (r: seq<Message>)
      reads this, accountService, accountService.accountRepository, messageRepository
      requires Valid()
      ensures |r| == |Messages()|
      ensures forall m :: m in r <==> m in Messages().Values
      ensures IdsAscending(r)
    {
      messageRepository.FindAll()
    }

    /** `retrieveById`: the stored message with that id, or nothing. */
    function RetrieveById(msgId: int): (r: Option<Message>)
      reads this, accountService, accountService.accountRepository, messageRepository
      requires Valid()
      ensures r.Some? <==> msgId in Messages()
      ensures r.Some? ==> r.value in Messages().Values && r.value.messageId == msgId
    {
      messageRepository.FindMessageByMessageId(msgId)
    }

    /**
     * `deleteById`: a stored message is removed and `true` returned; an absent id
     * returns `false` and changes nothing.
     */
    method DeleteById(msgId: int) returns (deleted: bool)
      requires Valid()
      modifies messageRepository
      ensures Valid()
      ensures deleted <==> msgId in old(Messages())
      ensures Messages() == old(Messages()) - {msgId}
      ensures RetrieveById(msgId).None?
    {
      var msgFound := RetrieveById(msgId);
      if msgFound.None? {
        return false;
      } else {
        messageRepository.Delete(msgFound.value);
        return true;
      }
    }

    /**
     * `updateMessage`: the text must be non-empty and at most 255 characters and the
     * message must exist; then only that message's text changes.
     */
    method UpdateMessage(msgId: int, msgText: Option<string>) returns (updated: bool)
      requires Valid()
      modifies messageRepository
      ensures Valid()
      ensures updated <==> ValidText(msgText) && msgId in old(Messages())
      ensures updated ==> Messages() == old(Messages())[msgId := old(Messages())[msgId].(messageText := msgText)]
      ensures !updated ==> Messages() == old(Messages())
      ensures updated ==> RetrieveById(msgId) == Some(old(Messages())[msgId].(messageText := msgText))
    {
      if msgText.None? || |msgText.value| <= 0 {
        return false;
      } else if |msgText.value| > MaxMessageLength {
        return false;
      }
      var msgFound := RetrieveById(msgId);
      if msgFound.None? {
        return false;
      } else {
        messageRepository.UpdateMessageText(msgText, msgId);
        return true;
      }
    }

    /** `retrieveMessagesByUser`: exactly the stored messages of that author, each once. */
    function RetrieveMessagesByUser(postedBy: int): (r: seq<Message>)
      reads this, accountService, accountService.accountRepository, messageRepository
      requires Valid()
      ensures forall m :: m in r <==> m in Messages().Values && m.postedBy == postedBy
      ensures IdsAscending(r)
    {
      messageRepository.FindMessageByPostedBy(postedBy)
    }
  }
}
