/**
 * The records of the API (the interfaces of lib/types.ts), the request bodies
 * as the handlers receive them, and the response envelope.
 * Timestamps are milliseconds on the caller's clock.
 */
module Types {
  import opened Options

  datatype User = User(
    id: int,
    name: string,
    email: string,
    password: Option<string>,
    createdAt: nat,
    updatedAt: nat)

  datatype Post = Post(
    id: int,
    title: string,
    content: string,
    published: bool,
    authorId: int,
    createdAt: nat,
    updatedAt: nat)

  /** A post as the store hands it out, with its `author` looked up at read time. */
  datatype PostView = PostView(post: Post, author: Option<User>)

  /** The data `create` receives: a user without id and timestamps. */
  datatype NewUser = NewUser(name: string, email: string, password: Option<string>)

  /** The data `create` receives: a post without id and timestamps. */
  datatype NewPost = NewPost(title: string, content: string, authorId: int, published: bool)

  /** A partial record for `update`: None leaves the field as it is. */
  datatype UserPatch = UserPatch(name: Option<string>, email: Option<string>, password: Option<string>)

  datatype PostPatch = PostPatch(
    title: Option<string>,
    content: Option<string>,
    authorId: Option<int>,
    published: Option<bool>)

  /** A field of a parsed JSON body, before validation has looked at its type. */
  datatype Json = Undefined | Null | Bool(b: bool) | Num(n: int) | Str(s: string)

  /** The body of POST /api/users: name and email unchecked, password as CreateUserRequest types it. */
  datatype UserBody = UserBody(name: Json, email: Json, password: Option<string>)

  /** The body of POST /api/posts: published as CreatePostRequest types it. */
  datatype PostBody = PostBody(title: Json, content: Json, authorId: Json, published: Option<bool>)

  /** The body of POST /api/auth/login. */
  datatype LoginBody = LoginBody(email: Option<string>, password: Option<string>)

  /**
   * The response envelope with its HTTP status: `success: true` with `data`
   * and `message`, or `success: false` with `error`.
   */
  datatype Reply<T> = Ok(status: int, data: T, message: string) | Err(status: int, error: string)
}
