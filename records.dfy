/** The two persisted records: an account and a note. */
module Records {

  /** A registered account; `passwordHash` holds the encoded password, never the password itself. */
  datatype User = User(id: string, email: string, displayName: string, passwordHash: string, createdAt: int)

  /** A note owned by the user whose id is `userId`; timestamps are milliseconds since the epoch. */
  datatype Note = Note(
    id: string,
    userId: string,
    title: string,
    content: string,
    category: string,
    createdAt: int,
    updatedAt: int)
}
