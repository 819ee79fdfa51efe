/** The values that travel between handlers, stores and cache. */
module Model {
  /** Timestamps are nanoseconds; only their order matters. */
  datatype Snippet = Snippet(
    id: string, title: string, code: string, description: string,
    userID: string, createdAt: int, updatedAt: int)

  /** Create and update requests carry the same three fields. */
  datatype SnippetRequest = SnippetRequest(title: string, code: string, description: string)

  datatype ShareRequest = ShareRequest(code: string, title: string)

  datatype SharedCode = SharedCode(
    token: string, code: string, title: string, createdAt: string, expiresAt: int)

  datatype User = User(id: string, username: string, passwordHash: string, createdAt: int)

  /** Go's zero values, returned beside a false flag. */
  const ZERO_SNIPPET := Snippet("", "", "", "", "", 0, 0)
  const ZERO_SHARE := SharedCode("", "", "", "", 0)
  const ZERO_USER := User("", "", "", 0)

  const COPY_SUFFIX := " (복사본)"
}
