/**
 * Clients of the two services: what a caller can conclude from the contracts alone,
 * across several calls.
 */
module Scenarios {
  import opened Wrappers
  import opened Entity
  import opened Service

  /** Four characters is the shortest username accepted; a missing one is refused. */
  lemma UsernameBoundary()
    ensures ValidUsername(Some("abcd"))
    ensures !ValidUsername(Some("abc"))
    ensures !ValidUsername(None)
  {
  }

  /** 255 characters is the longest text accepted; the empty or a missing text is refused. */
  lemma TextBoundary()
    ensures ValidText(Some(seq(255, _ => 'x')))
    ensures !ValidText(Some(seq(256, _ => 'x')))
    ensures !ValidText(Some(""))
    ensures !ValidText(None)
  {
  }

  /**
   * Once a username is registered, registering it again is a duplicate, whatever the
   * password, and the second attempt leaves the table as the first one left it.
   */
  method RegisterTwice(s: AccountService, acc: Account, other: Account, id1: int, id2: int)
    returns (first: RegResult, second: RegResult)
    requires s.Valid()
    requires id1 !in s.Accounts() && id2 !in s.Accounts() && id1 != id2
    requires ValidUsername(acc.username) && !UsernameTaken(s.Accounts(), acc.username)
    requires other.username == acc.username
    modifies s.accountRepository
    ensures s.Valid()
    ensures first == Registered(acc.(accountId := id1))
    ensures second == Duplicate
    ensures s.Accounts() == old(s.Accounts())[id1 := acc.(accountId := id1)]
  {
    first := s.RegisterAccount(acc, id1);
    assert s.Accounts()[id1].username == acc.username;
    second := s.RegisterAccount(other, id2);
  }

  /**
   * A registration through the account service keeps the message service's invariant:
   * every stored message still has a valid text and a stored author. (That the message
   * table itself is untouched already follows from the frame.)
   */
  method RegisterUnderMessages(ms: MessageService, acc: Account, id: int) returns (r: RegResult)
    requires ms.Valid()
    requires id !in ms.accountService.Accounts()
    modifies ms.accountService.accountRepository
    ensures ms.Valid()
    ensures ms.Messages() == old(ms.Messages())
  {
    r := ms.accountService.RegisterAccount(acc, id);
  }

  /** Registration and login of one user. */
  method AccountSession() {
    var accounts := new AccountService();
    var alice := accounts.RegisterAccount(Account(0, Some("alice1"), Some("pw123")), 1);
    assert alice == Registered(Account(1, Some("alice1"), Some("pw123")));
    var short := accounts.RegisterAccount(Account(0, Some("bob"), Some("pw")), 2);
    assert short == Invalid;

    var ok := accounts.Login(Account(0, Some("alice1"), Some("pw123")));
    assert ok == Some(Account(1, Some("alice1"), Some("pw123")));
    var wrong := accounts.Login(Account(0, Some("alice1"), Some("nope")));
    assert wrong == None;
  }

  /** One message's life: posted, listed, edited, deleted. */
  method MessageSession() {
    var accounts := new AccountService();
    var alice := accounts.RegisterAccount(Account(0, Some("alice1"), Some("pw123")), 1);
    var messages := new MessageService(accounts);

    var created := messages.CreateMessage(Message(0, 1, Some("hello"), 1669947792), 10);
    assert created == Some(Message(10, 1, Some("hello"), 1669947792));
    var orphan := messages.CreateMessage(Message(0, 2, Some("hello"), 1669947792), 11);
    assert orphan == None;

    var edited := messages.UpdateMessage(10, Some("edited"));
    assert edited;
    assert messages.RetrieveById(10) == Some(Message(10, 1, Some("edited"), 1669947792));
    var missing := messages.UpdateMessage(11, Some("edited"));
    assert !missing && 11 !in messages.Messages();

    var deleted := messages.DeleteById(10);
    assert deleted && messages.RetrieveById(10) == None;
    var again := messages.DeleteById(10);
    assert !again;
  }

  /** A posted message is listed under its author and under no one else. */
  method PostAndList() {
    var accounts := new AccountService();
    var alice := accounts.RegisterAccount(Account(0, Some("alice1"), Some("pw123")), 1);
    var messages := new MessageService(accounts);
    var created := messages.CreateMessage(Message(0, 1, Some("hello"), 1669947792), 10);
    var byAlice := messages.RetrieveMessagesByUser(1);
    assert Message(10, 1, Some("hello"), 1669947792) in byAlice;
    var byOther := messages.RetrieveMessagesByUser(2);
    assert Message(10, 1, Some("hello"), 1669947792) !in byOther;
  }
}
