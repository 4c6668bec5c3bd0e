/** Types shared by every part of the forum: optional values, identities,
    roles and the user record that the identity provider hands to the routes. */
module Common {

  datatype Option<T> = None | Some(value: T)

  /** Document identities. The store's object ids are opaque; they are
      modelled as naturals, compared by value (the source compares them
      through `toString()`, which is injective). */
  type UserId = nat
  type TopicId = nat
  type PostId = nat

  /** Milliseconds since the epoch; clocks are parameters of the model. */
  type Time = int

  /** The three role strings of the user record: 'user', 'moderator', 'admin'. */
  datatype Role = Member | Moderator | Admin

  /** `role === 'moderator' || role === 'admin'`, the test repeated by the
      permission checks, the moderator gate and the client. */
  predicate IsStaff(r: Role) {
    r == Moderator || r == Admin
  }

  /** The user record (its schema file is not part of this model). */
  datatype User = User(
    id: UserId,
    username: string,
    email: string,
    role: Role,
    postCount: int,
    reputation: int,
    bio: string,
    createdAt: Time)

  /** The outcome of a client-side form check: an error message shown to
      the user, or the body that is sent. */
  datatype Guard<T> = Refuse(message: string) | Submit(body: T)

  /** JavaScript truthiness of an optional string field of a request body:
      absent and the empty string are both falsy. */
  predicate Present(s: Option<string>) {
    s.Some? && s.value != ""
  }
}
