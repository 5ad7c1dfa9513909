# Social-media backend core: account and message services

This project models the validation-and-persistence core of a small Spring social-media
backend: the `AccountService` and `MessageService` classes and the two repository
interfaces they sit on. The database is an in-memory table per entity (a `map` from
primary key to row) held by a repository class; the services own their repositories
and are Dafny classes whose methods change those tables in place.

- `entity.dfy` (module `Entity`): `Account` and `Message`. A Java `null` username,
  password or message text is `None`.
- `repository.dfy` (module `Repository`): `AccountRepository` and `MessageRepository`.
  The declared finders are functions over the table. The inherited `save`, `delete`
  and `findAll` are a map insert under a fresh id, a map removal by id, and the rows
  in ascending id order. `updateMessageText` is the `UPDATE ... SET messageText ... WHERE
  messageId` statement: one field of one row.
- `service.dfy` (module `Service`): the services. `registerAccount`'s three outcomes
  (`null`, an empty `Optional`, a present `Optional`) are `RegResult = Invalid |
  Duplicate | Registered(account)`, and `createMessage`'s `null` or message is an
  `Option<Message>`. `AccountService.Valid()` says that stored usernames are valid and
  pairwise distinct; `MessageService.Valid()` says that stored texts are 1 to 255
  characters and every author is a stored account. Every state-changing method keeps
  its invariant and states the whole new table.
- `tables.dfy` (module `Tables`): the ascending key order that turns a table into a list,
  with the proofs that every row is listed exactly once.
- `scenarios.dfy` (module `Scenarios`): clients of the services. They show registering a
  username twice, a registration under a live message service, the length boundaries,
  and whole sessions.

Modelling choices:
- Ids come from the database's generator. Here `save` is given the id as a parameter,
  with the requirement that no stored row has it yet.
- `login` compares username and password with `==` on `Option<string>`. A null password
  therefore matches only a stored null password, as a derived query's `IS NULL` does.
  `registerAccount` does not check the password, so a null password can be stored.
- Lists returned by `findAll` and `findMessageByPostedBy` have no order in the source.
  The model returns them in ascending id order.
- `registerAccount` returns `null`, an empty `Optional` or the saved account, and the
  model has one constructor for each.

## Model

| member | source | states |
|---|---|---|
| Repository.AccountRepository.FindAccountByUsername | src/main/java/com/example/repository/AccountRepository.java:10-15 | a result is a stored account with exactly that username; the result is empty iff no stored account has that username |
| Repository.AccountRepository.FindAccountByUsernameAndPassword | src/main/java/com/example/repository/AccountRepository.java:17-23 | a result is a stored account matching both username and password; the result is empty iff no stored account matches both, so a known username with another password gives empty |
| Repository.AccountRepository.ExistsByAccountId | src/main/java/com/example/repository/AccountRepository.java:25-30 | true iff some stored account has that id |
| Repository.AccountRepository.Save | src/main/java/com/example/service/AccountService.java:33 | the saved account is the candidate with the fresh id; the table gains exactly that row under that id |
| Repository.FirstWithUsername | src/main/java/com/example/repository/AccountRepository.java:15 | a scan of rows returns a row with that username, and returns nothing iff no row has it |
| Repository.FirstWithCredentials | src/main/java/com/example/repository/AccountRepository.java:23 | a scan of rows returns a row matching username and password, and returns nothing iff no row matches both |
| Repository.MessageRepository.FindAll | src/main/java/com/example/service/MessageService.java:43-45 | lists every stored message and nothing else, each once (ids strictly ascending, length equals the table size) |
| Repository.MessageRepository.FindMessageByMessageId | src/main/java/com/example/repository/MessageRepository.java:14-19 | present iff a stored message has that id, and then it is that stored message |
| Repository.MessageRepository.FindMessageByPostedBy | src/main/java/com/example/repository/MessageRepository.java:30-35 | lists exactly the stored messages whose postedBy is the given account, each once |
| Repository.WithPostedBy | src/main/java/com/example/repository/MessageRepository.java:35 | filtering rows by author keeps exactly the rows of that author and keeps ids ascending |
| Repository.MessageRepository.Save | src/main/java/com/example/service/MessageService.java:35 | the saved message is the candidate with the fresh id; the table gains exactly that row |
| Repository.MessageRepository.Delete | src/main/java/com/example/service/MessageService.java:67 | the row with the message's id is removed and every other row stays |
| Repository.MessageRepository.UpdateMessageText | src/main/java/com/example/repository/MessageRepository.java:21-28 | the set of ids is unchanged; the row with that id gets the new text with id, postedBy and timestamp untouched; every other row is unchanged; no matching row means no change |
| Service.AccountService.RegisterAccount | src/main/java/com/example/service/AccountService.java:18-38 | Invalid iff the username is missing or shorter than 4; Duplicate iff it is valid and already stored (any password); otherwise Registered with the candidate under the fresh id, added as the only new row, and then found by username; the table is unchanged unless Registered; unique usernames are preserved |
| Service.AccountService.Login | src/main/java/com/example/service/AccountService.java:40-48 | present iff a stored account matches username and password exactly; the result is that stored account, the same one a username lookup finds; read-only |
| Service.AccountService.ExistsById | src/main/java/com/example/service/AccountService.java:50-57 | true iff a stored account has that id; read-only |
| Service.MessageService.CreateMessage | src/main/java/com/example/service/MessageService.java:22-37 | succeeds iff the text is present, 1 to 255 characters, and the author is a stored account; on success returns the candidate under the fresh id, adds exactly that row, and retrieveById on the returned id gives it back; on failure the table is unchanged |
| Service.MessageService.RetrieveMessages | src/main/java/com/example/service/MessageService.java:39-45 | every stored message once and nothing else; read-only |
| Service.MessageService.RetrieveById | src/main/java/com/example/service/MessageService.java:47-54 | present iff a message with that id is stored, and then it is that stored message |
| Service.MessageService.DeleteById | src/main/java/com/example/service/MessageService.java:56-70 | true iff the id was stored; the table loses that id and nothing else, so an absent id changes nothing; afterwards retrieveById on it is empty |
| Service.MessageService.UpdateMessage | src/main/java/com/example/service/MessageService.java:72-93 | true iff the text is present and 1 to 255 characters and the id is stored; then only that message's text changes and retrieveById shows the new text with the old id, postedBy and timestamp; otherwise the table is unchanged, even for a stored id, and no row is added |
| Service.MessageService.RetrieveMessagesByUser | src/main/java/com/example/service/MessageService.java:95-102 | exactly the stored messages posted by that account, each once, possibly none; read-only |
| Scenarios.UsernameBoundary | src/main/java/com/example/service/AccountService.java:25 | a 4-character username passes the length check; a 3-character or missing one does not |
| Scenarios.TextBoundary | src/main/java/com/example/service/MessageService.java:28-31 | a 255-character text passes; a 256-character, empty or missing text does not |
| Scenarios.RegisterTwice | src/main/java/com/example/service/AccountService.java:29-35 | after a successful registration, registering the same username again (any password) is Duplicate and adds nothing |
| Scenarios.RegisterUnderMessages | src/main/java/com/example/service/MessageService.java:32-33 | a registration keeps the message table and the invariant that every stored message's author is a stored account |

## Left out

- The HTTP controller: routes, status codes and the catch-all exception handler.
- Spring dependency injection and `@Transactional`. The services build their own
  repositories, and one call is one atomic step.
- JPA query derivation and the database itself. The repositories are in-memory tables,
  and store failures and exceptions are not modelled. One such exception is the
  `findAccountByUsername` failure when two rows share a username; the service invariant
  rules that case out.
- The concrete id generator. `Save` is handed an id not yet in the table.
- `save` of an account or a message that already carries a stored id. JPA would update
  that row instead of inserting one. `registerAccount` (AccountService.java:33) and
  `createMessage` (MessageService.java:35) pass the caller's entity to `save` unchanged,
  so this can happen in the source. In the model the incoming id is ignored and new
  rows are always inserted under a fresh id.
- Concurrency: the check-then-save race in `registerAccount` and database isolation.
  The model is sequential.
- Password security. Passwords are opaque strings compared for equality.
- A null `postedBy`, where Java's unboxing would throw. `postedBy` is an `int`.
- Text length is the number of characters, not Java's UTF-16 code units.
- The order of listed messages: the source does not fix the order of a list.
  The model fixes ascending id order, and what it proves about the contents holds for
  any order.
- The `Account` and `Message` entity classes are not part of this model. Their fields
  follow the repositories' queries.
