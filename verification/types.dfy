/** The records exchanged between the Postbook client and its REST resource. */
module Types {

  /** A value that may be absent (a nullable reference, a missing JSON field). */
  datatype Option<+T> = None | Some(value: T)

  /** What a request to the remote resource came back with: a 2xx answer
      carrying the decoded body, or a failure (a non-2xx status or a thrown
      transport error; the client treats both alike). */
  datatype Response<+T> = Ok(value: T) | Fail

  /** The signed-in user. Only the two fields the components read are kept. */
  datatype User = User(id: int, email: string)

  /** A post as the resource stores it; `id` is assigned by the resource. */
  datatype Post = Post(userId: int, id: int, title: string, body: string)

  /** A comment as the resource stores it; `email` identifies its author. */
  datatype Comment = Comment(postId: int, id: int, name: string, email: string, body: string)

  /** The JSON body of a comment request. A field that is `None` is absent from
      the object; `name` and `body` are always written. */
  datatype CommentPayload = CommentPayload(
    postId: Option<int>,
    id: Option<int>,
    name: string,
    email: Option<string>,
    body: string)

  /** The JSON body of a create-post request. */
  datatype PostPayload = PostPayload(userId: int, title: string, body: string)

  /** The two strings a two-field form hands to its submit callback. */
  datatype Submission = Submission(first: string, second: string)
}
