/**
 * The two persisted entities. A Java `null` in a nullable column is `None`; strings are
 * sequences of characters and their length is the number of characters.
 */
module Entity {
  import opened Wrappers

  /** A registered user. `accountId` is assigned by the store when the account is saved. */
  datatype Account = Account(accountId: int, username: Option<string>, password: Option<string>)

  /** A text post by the account `postedBy`. `messageId` is assigned by the store on save. */
  datatype Message = Message(messageId: int, postedBy: int, messageText: Option<string>, messageTimeEpoch: int)
}
