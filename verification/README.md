# Postbook comment and post controllers in Dafny

Postbook is a social-feed demo: a list of posts, each with a comment section
where a signed-in user can add, edit and delete comments, plus a dialog to
create a post. This project models the client-side logic of two components.

- **CommentSection** keeps the comments of one post, in display order, and a
  visible-window counter (`nrCommentsShown`, default 3). The create, delete
  and update handlers change that state once the server answers. "Show more"
  grows the window by 2. Each card shows the author's handle, and it offers
  edit and delete only to the comment's author. The add-comment form submits
  only when both of its fields are filled.
- **CreatePostDialog** posts a new post for the signed-in user. It calls its
  `onPostCreated` callback only on success. Its form submits only when title
  and text are both filled.

Modules:

- `Types` (types.dfy): the records (`User`, `Post`, `Comment`), the request
  bodies, and `Response<T> = Ok(value) | Fail`. `Response` stands for the
  server's answer: an ok answer carrying the decoded JSON, or a failure. A
  failure is either a non-ok status or a thrown error; both are handled alike.
- `CommentList` (comment_list.dfy): the pure list transforms. These are
  insertion after the window (create), filtering by id (delete), filtering
  plus appending (update) and `find` by id. The visible prefix is here too.
  The lemmas state what each transform keeps and changes.
- `Comments` (comment_section.dfy): the `CommentSection` class with fields
  `comments` and `nrCommentsShown`, the card view with `Handle`, and the
  `AddCommentForm` class.
- `CreatePost` (create_post_dialog.dfy): `OnSubmitPost` and the `AddPostForm`
  class.

Each handler is one atomic step on the current state. The current user is an
`Option<User>` parameter. The server's answer is a `Response` parameter,
consulted only when a request is actually made. A handler's out-parameter
`request` is the JSON body it sends; `None` means no request is made.

In these places the model follows the code as written:

- "Show more" adds 2 without clamping the window to the list length. The
  rendered slice clamps instead.
- An update appends the returned record at the end, rather than replacing in
  place.
- An update of an id that is not in the list still sends a request. Its body
  then holds only `name` and `body`, and on success the list grows by one.
- Update and delete have no signed-in-user guard.

The "show more" handler requires that its link is rendered, because the link
is the only way to reach it.

## Model

| member | source | states |
|---|---|---|
| CommentList.InsertAfterWindow | src/components/CommentSection.tsx:54-58 | the list grows by exactly one; the new comment sits at index min(window, length); the entries before and after it are the old ones, unchanged and in order |
| CommentList.InsertAfterWindowPermutes | src/components/CommentSection.tsx:54-58 | a create adds the returned comment and loses or duplicates no other entry (multiset) |
| CommentList.InsertAfterWindowReveals | src/components/CommentSection.tsx:54-59 | after a create, the window grown by one shows the old visible prefix followed by the new comment; the part still hidden is exactly the part hidden before |
| CommentList.InsertAfterWindowExample | src/components/CommentSection.tsx:54-59 | five comments with window 3: the created comment becomes fourth and the four visible ones are c1, c2, c3, c6 |
| CommentList.InsertAfterWindowKeepsUnique | src/components/CommentSection.tsx:54-58 | when the returned id is new, ids stay unique and the new id occurs once |
| CommentList.WithoutId | src/components/CommentSection.tsx:81 | a comment survives the delete exactly when it was in the list and its id differs; the list never grows |
| CommentList.WithoutIdCounts | src/components/CommentSection.tsx:81 | every comment with another id keeps its multiplicity; none with the id remains |
| CommentList.WithoutIdConcat | src/components/CommentSection.tsx:81 | filtering distributes over concatenation, so survivors keep their relative order |
| CommentList.WithoutIdAbsent | src/components/CommentSection.tsx:81 | deleting an id that no entry carries leaves the list unchanged |
| CommentList.WithoutIdIdempotent | src/components/CommentSection.tsx:81 | deleting twice equals deleting once |
| CommentList.WithoutIdCommute | src/components/CommentSection.tsx:81 | two deletes commute |
| CommentList.WithoutIdLength | src/components/CommentSection.tsx:81 | the length drops by exactly the number of entries carrying the id |
| CommentList.WithoutIdKeepsUnique | src/components/CommentSection.tsx:81 | a delete keeps ids unique; with unique ids, deleting a present id removes exactly one entry |
| CommentList.DeleteUndoesInsert | src/components/CommentSection.tsx:81 | deleting the id of a comment that a create has just inserted gives back the list as before the create |
| CommentList.ReplaceById | src/components/CommentSection.tsx:112-114 | the returned record is last; every other entry came from the list and does not carry the id; every old entry with another id survives |
| CommentList.ReplaceByIdKeepsOthers | src/components/CommentSection.tsx:113 | the entries before the returned record are exactly what a delete of the id keeps, in order |
| CommentList.ReplaceByIdLength | src/components/CommentSection.tsx:112-114 | with unique ids and the id present, the length is preserved; with the id absent, the result is the old list plus the returned record |
| CommentList.ReplaceByIdKeepsUnique | src/components/CommentSection.tsx:112-114 | when the returned record keeps its id, ids stay unique and exactly one entry carries it |
| CommentList.ReplaceByIdTwice | src/components/CommentSection.tsx:112-114 | of two updates of the same id, only the later answer remains |
| CommentList.FindById | src/components/CommentSection.tsx:95 | the result is an entry of the list with the id; it is absent exactly when no entry carries the id |
| CommentList.FindByIdFirst | src/components/CommentSection.tsx:95 | the result is the entry at the first index carrying the id |
| CommentList.UpdatePayload | src/components/CommentSection.tsx:103-107 | the request body is the existing record with name and body overwritten and every other field unchanged; with no record found, only name and body are sent |
| Comments.CommentSection.constructor | src/components/CommentSection.tsx:30-31 | starts with the given comments and a window of 3 |
| Comments.CommentSection.OnSubmitComment | src/components/CommentSection.tsx:33-69 | with no user, no request and no change; otherwise the body is {postId, email of the user, name, body}; on success the returned comment is inserted after the window, the window grows by 1, and the visible list becomes the old one plus the new comment; on failure nothing changes |
| Comments.CommentSection.OnDeleteComment | src/components/CommentSection.tsx:71-90 | on success the list is the old one filtered by id; on failure it is unchanged; the window is never changed |
| Comments.CommentSection.OnUpdateComment | src/components/CommentSection.tsx:92-123 | the request body is the merge of the first record with the id; on success the list is the filtered old list plus the returned record; on failure it is unchanged; the window is never changed |
| Comments.CommentSection.OnShowMore | src/components/CommentSection.tsx:135-139 | offered only while the window is shorter than the list; it adds exactly 2 to the window, leaves the list as it was, and renders strictly more comments |
| Comments.CommentSection.SubmitAddCommentForm | src/components/CommentSection.tsx:144 | a disabled form makes no request and keeps its fields, the comments and the window; a filled form is cleared and its two fields go through the create handler: no request without a user, otherwise the create body; on success the comment is inserted after the window and the window grows by 1, otherwise comments and window are unchanged |
| Comments.VisibleCount | src/components/CommentSection.tsx:127 | the rendered list is the prefix of length min(window, length) |
| Comments.ShowMoreOfferedIffHidden | src/components/CommentSection.tsx:127-143 | "show more" is offered exactly when fewer comments are rendered than exist |
| Comments.Handle | src/components/CommentSection.tsx:173 | the handle is a prefix of the email without '@', followed in the email by '@' or by its end |
| Comments.HandleUnique | src/components/CommentSection.tsx:173 | that description determines the handle: it is the text before the first '@', or all of the text |
| Comments.HandleOfAddress | src/components/CommentSection.tsx:173 | for an address local@domain whose local part has no '@', the handle is that local part |
| Comments.RenderCard | src/components/CommentSection.tsx:149-180 | edit and delete controls are shown exactly when a user is signed in and their email equals the comment's; the card shows the comment's name, its body, and as handle the text of the email before the first '@' |
| Comments.OwnerControlsOnlyForAuthor | src/components/CommentSection.tsx:161 | with no user, no card shows controls; a signed-in user sees them exactly on comments carrying their email |
| Comments.AddCommentForm.constructor | src/components/CommentSection.tsx:183-184 | both fields start empty |
| Comments.AddCommentForm.OnNameChange | src/components/CommentSection.tsx:207-209 | sets the name and keeps the text |
| Comments.AddCommentForm.OnTextChange | src/components/CommentSection.tsx:224-226 | sets the text and keeps the name |
| Comments.AddCommentForm.Submit | src/components/CommentSection.tsx:190-216 | submits exactly when the send button is enabled, that is, both fields are non-empty; it then hands over the two values and resets both fields to ""; otherwise nothing changes |
| CreatePost.OnSubmitPost | src/components/CreatePostDialog.tsx:23-53 | with no user, no request and no callback; otherwise the body is exactly {userId, title, body}; the callback is called at most once, and once exactly when the response is ok, with the returned post |
| CreatePost.AddPostForm.constructor | src/components/CreatePostDialog.tsx:72-73 | both fields start empty |
| CreatePost.AddPostForm.OnTitleChange | src/components/CreatePostDialog.tsx:95-97 | sets the title and keeps the text |
| CreatePost.AddPostForm.OnTextChange | src/components/CreatePostDialog.tsx:105-107 | sets the text and keeps the title |
| CreatePost.AddPostForm.Submit | src/components/CreatePostDialog.tsx:78-110 | submits exactly when the Post button is enabled, that is, title and text are non-empty; it then hands over both values and resets both to ""; otherwise nothing changes |
| CreatePost.SubmitAddPostForm | src/components/CreatePostDialog.tsx:65 | a disabled form makes no request, never fires the callback and keeps both fields; a filled form is cleared; with no user no request is made, otherwise the body is the user's id with the form's title and text; the callback fires at most once, and once exactly when the form is filled, a user is signed in and the response is ok, and only with the returned post |

## Left out

- The HTTP calls themselves, URLs, headers and JSON encoding are not modelled. Each call is one `Response` parameter, and the request is returned as its body value.
- `alert` and `console.error` are not modelled. The model only records that no request is made, or that state is left unchanged.
- React hook mechanics are not modelled. Each handler reads the current state, although `onSubmitComment` really captures `nrCommentsShown` from the render that created it. Responses that arrive in a different order are not modelled either: each handler is one atomic step.
- Rendering, dialogs, icons and styling are left out. The update and delete confirmation dialogs are reduced to calls of the handlers.
- Fields of `User` other than `id` and `email` are left out, because no modelled code reads them. `src/types/User.ts` is not part of this model.
- Where the post created by `onPostCreated` goes, post pagination, the pages, the feed, the header and the navigation are not part of this model. No core file does anything with them.
