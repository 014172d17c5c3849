/** The create-post dialog: the submit handler that posts a new post for the
    signed-in user and reports it to the caller, and the form feeding it. */
module CreatePost {
  import opened Types

  /** `onSubmitPost`. Without a signed-in user nothing is sent and the
      callback is not called. Otherwise the payload is posted; the callback
      `onPostCreated` is called once, with the returned post, exactly when the
      response is ok. `postCreatedCalls` lists the callback's arguments in
      call order. */
  method OnSubmitPost(currentUser: Option<User>, postTitle: string, postText: string, response: Response<Post>)
    returns (request: Option<PostPayload>, postCreatedCalls: seq<Post>)
    ensures request.None? <==> currentUser.None?
    ensures currentUser.Some? ==>
      request == Some(PostPayload(currentUser.value.id, postTitle, postText))
    ensures |postCreatedCalls| <= 1
    ensures |postCreatedCalls| == 1 <==> currentUser.Some? && response.Ok?
    ensures forall p :: p in postCreatedCalls ==> response == Ok(p)
  {
    postCreatedCalls := [];
    if currentUser.None? {
      return None, [];
    }
    request := Some(PostPayload(currentUser.value.id, postTitle, postText));
    if response.Ok? {
      postCreatedCalls := postCreatedCalls + [response.value];
    }
  }

  /** The create-post form with its two controlled inputs. */
  class AddPostForm {
    var postTitle: string
    var postText: string

    constructor ()
      ensures postTitle == "" && postText == ""
    {
      postTitle := "";
      postText := "";
    }

    /** Typing into the title input. */
    method OnTitleChange(value: string)
      modifies this
      ensures postTitle == value && postText == old(postText)
    {
      postTitle := value;
    }

    /** Typing into the text area. */
    method OnTextChange(value: string)
      modifies this
      ensures postText == value && postTitle == old(postTitle)
    {
      postText := value;
    }

    /** Whether the "Post" button is disabled. */
    predicate SubmitDisabled()
      reads this
    {
      |postTitle| == 0 || |postText| == 0
    }

    /** A submit: when title and text are both filled, they are cleared and
        handed to the callback; otherwise nothing happens. */
    method Submit() returns (submitted: Option<Submission>)
      modifies this
      ensures submitted.None? <==> old(SubmitDisabled())
      ensures submitted.Some? ==>
        submitted.value == Submission(old(postTitle), old(postText))
        && postTitle == "" && postText == ""
      ensures submitted.None? ==> postTitle == old(postTitle) && postText == old(postText)
    {
      if |postTitle| > 0 && |postText| > 0 {
        submitted := Some(Submission(postTitle, postText));
        postText := "";
        postTitle := "";
      } else {
        submitted := None;
      }
    }
  }

  /** A submit of the form inside the dialog, wired to `onSubmitPost`: a
      request is made, and the callback called, only for a filled form. */
  method SubmitAddPostForm(form: AddPostForm, currentUser: Option<User>, response: Response<Post>)
    returns (request: Option<PostPayload>, postCreatedCalls: seq<Post>)
    modifies form
    ensures old(form.SubmitDisabled()) ==> request.None? && postCreatedCalls == []
    ensures old(form.SubmitDisabled()) ==> form.postTitle == old(form.postTitle) && form.postText == old(form.postText)
    ensures currentUser.None? ==> request.None?
    ensures !old(form.SubmitDisabled()) && currentUser.Some? ==>
      request == Some(PostPayload(currentUser.value.id, old(form.postTitle), old(form.postText)))
    ensures |postCreatedCalls| == 1 <==> !old(form.SubmitDisabled()) && currentUser.Some? && response.Ok?
    ensures !old(form.SubmitDisabled()) ==> form.postTitle == "" && form.postText == ""
    ensures |postCreatedCalls| <= 1
    ensures forall p :: p in postCreatedCalls ==> response == Ok(p)
  {
    var submitted := form.Submit();
    request, postCreatedCalls := None, [];
    if submitted.Some? {
      request, postCreatedCalls := OnSubmitPost(currentUser, submitted.value.first, submitted.value.second, response);
    }
  }
}
