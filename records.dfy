/** The record shapes the chat endpoints exchange, and the rows of the two tables. */
module Records {

  /** A user identifier: the primary key of the `users` table. */
  type UserId = string

  /** A point in time. The store only needs a total order on instants. */
  type Timestamp = int

  /** The `User` record: the name shown to others and the identifier it belongs to. */
  datatype User = User(displayName: string, userId: UserId)

  /** The `Message` record: both ends resolved to users, the text and when it was sent. */
  datatype Message = Message(sender: User, receiver: User, content: string, timestamp: Timestamp)

  /** One row of the `messages` table. Its autoincrement id is its position in the log. */
  datatype Row = Row(senderId: UserId, receiverId: UserId, content: string, timestamp: Timestamp)

  /** An HTTP error an endpoint raises instead of answering. */
  datatype HttpError = HttpError(status: int, detail: string)

  /** What an endpoint that can fail answers. */
  datatype Result<T> = Ok(value: T) | Err(error: HttpError)
}
