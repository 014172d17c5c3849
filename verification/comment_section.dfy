/** The comment section under one post: the list controller with its visible
    window, the card that renders one comment, and the add-comment form. */
module Comments {
  import opened Types
  import opened CommentList

  /** How many comments are shown before "show more" is used. */
  const DEFAULT_COMMENTS_SHOWN: nat := 3
  /** How many more comments each "show more" reveals. */
  const COMMENTS_SHOWN_INCREMENT: nat := 2

  /** The state of one comment section: its comments, in display order, and
      the length of the visible prefix. */
  class CommentSection {
    const postId: int
    var comments: seq<Comment>
    var nrCommentsShown: nat

    /** The window never drops below its default: it starts there and every
        handler either keeps it or grows it. */
    ghost predicate Valid()
      reads this
    {
      nrCommentsShown >= DEFAULT_COMMENTS_SHOWN
    }

    constructor (postId: int, initial: seq<Comment>)
      ensures Valid()
      ensures this.postId == postId && comments == initial
      ensures nrCommentsShown == DEFAULT_COMMENTS_SHOWN
    {
      this.postId := postId;
      comments := initial;
      nrCommentsShown := DEFAULT_COMMENTS_SHOWN;
    }

    /** The comments rendered as cards. */
    function VisibleComments(): seq<Comment>
      reads this
    {
      Visible(comments, nrCommentsShown)
    }

    /** Whether the "show more" link is rendered. */
    predicate ShowMoreOffered()
      reads this
    {
      nrCommentsShown < |comments|
    }

    /** The create handler. Without a signed-in user nothing is sent and
        nothing changes. Otherwise the draft is posted; on success the returned
        comment goes right after the visible window and the window grows by one,
        on failure nothing changes. */
    method OnSubmitComment(currentUser: Option<User>, commentName: string, commentText: string,
                           response: Response<Comment>)
      returns (request: Option<CommentPayload>)
      requires Valid()
      modifies this
      ensures Valid()
      ensures request.None? <==> currentUser.None?
      ensures currentUser.Some? ==>
        request == Some(CommentPayload(Some(postId), None, commentName, Some(currentUser.value.email), commentText))
      ensures if currentUser.Some? && response.Ok? then
                comments == InsertAfterWindow(old(comments), old(nrCommentsShown), response.value)
                && nrCommentsShown == old(nrCommentsShown) + 1
              else
                comments == old(comments) && nrCommentsShown == old(nrCommentsShown)
      ensures currentUser.Some? && response.Ok? ==>
        VisibleComments() == old(VisibleComments()) + [response.value]
    {
      if currentUser.None? {
        return None;
      }
      request := Some(CommentPayload(Some(postId), None, commentName, Some(currentUser.value.email), commentText));
      if response.Ok? {
        InsertAfterWindowReveals(comments, nrCommentsShown, response.value);
        comments := InsertAfterWindow(comments, nrCommentsShown, response.value);
        nrCommentsShown := nrCommentsShown + 1;
      }
    }

    /** The delete handler: on success every entry with the id is dropped, on
        failure nothing changes. The window is never touched. */
    method OnDeleteComment(deletedCommentId: int, response: Response<()>)
      requires Valid()
      modifies this
      ensures Valid()
      ensures comments == if response.Ok? then WithoutId(old(comments), deletedCommentId) else old(comments)
      ensures nrCommentsShown == old(nrCommentsShown)
    {
      if response.Ok? {
        comments := WithoutId(comments, deletedCommentId);
      }
    }

    /** The update handler. The request body is the first record with the id,
        with its name and body overwritten. On success every entry with the id
        is dropped and the returned record appended; on failure nothing
        changes. The window is never touched. */
    method OnUpdateComment(updatedCommentId: int, commentName: string, commentText: string,
                           response: Response<Comment>)
      returns (request: CommentPayload)
      requires Valid()
      modifies this
      ensures Valid()
      ensures request == UpdatePayload(FindById(old(comments), updatedCommentId), commentName, commentText)
      ensures comments == if response.Ok? then ReplaceById(old(comments), updatedCommentId, response.value)
                          else old(comments)
      ensures nrCommentsShown == old(nrCommentsShown)
    {
      var commentBeingUpdated := FindById(comments, updatedCommentId);
      request := UpdatePayload(commentBeingUpdated, commentName, commentText);
      if response.Ok? {
        comments := ReplaceById(comments, updatedCommentId, response.value);
      }
    }

    /** A click on "show more", which is only rendered while some comment is
        hidden: the window grows by two, without clamping to the length. */
    method OnShowMore()
      requires Valid() && ShowMoreOffered()
      modifies this
      ensures Valid()
      ensures comments == old(comments)
      ensures nrCommentsShown == old(nrCommentsShown) + COMMENTS_SHOWN_INCREMENT
      ensures |VisibleComments()| > |old(VisibleComments())|
    {
      nrCommentsShown := nrCommentsShown + COMMENTS_SHOWN_INCREMENT;
    }

    /** A submit of the add-comment form wired to the create handler: the
        handler runs only when the form hands over a submission. */
    method SubmitAddCommentForm(form: AddCommentForm, currentUser: Option<User>, response: Response<Comment>)
      returns (request: Option<CommentPayload>)
      requires Valid()
      modifies this, form
      ensures Valid()
      ensures old(form.SubmitDisabled()) ==>
        request.None? && form.commentName == old(form.commentName) && form.commentText == old(form.commentText)
      ensures !old(form.SubmitDisabled()) ==> form.commentName == "" && form.commentText == ""
      ensures !old(form.SubmitDisabled()) && currentUser.None? ==> request.None?
      ensures !old(form.SubmitDisabled()) && currentUser.Some? ==>
        request == Some(CommentPayload(Some(postId), None, old(form.commentName),
                                       Some(currentUser.value.email), old(form.commentText)))
      ensures if !old(form.SubmitDisabled()) && currentUser.Some? && response.Ok? then
                comments == InsertAfterWindow(old(comments), old(nrCommentsShown), response.value)
                && nrCommentsShown == old(nrCommentsShown) + 1
              else
                comments == old(comments) && nrCommentsShown == old(nrCommentsShown)
    {
      var submitted := form.Submit();
      request := None;
      if submitted.Some? {
        request := OnSubmitComment(currentUser, submitted.value.first, submitted.value.second, response);
      }
    }
  }

  /** The number of rendered cards is the window clamped to the length. */
  lemma VisibleCount(cs: seq<Comment>, n: nat)
    ensures |Visible(cs, n)| == if n <= |cs| then n else |cs|
    ensures Visible(cs, n) <= cs
  {
  }

  /** "Show more" is offered exactly while the rendered list is shorter than
      the whole list; once the window reaches the length everything shows. */
  lemma ShowMoreOfferedIffHidden(cs: seq<Comment>, n: nat)
    ensures n < |cs| <==> |Visible(cs, n)| < |cs|
    ensures n >= |cs| ==> Visible(cs, n) == cs
  {
  }

  // -----------------------------------------------------------------------
  // CommentCard
  // -----------------------------------------------------------------------

  /** `email.split("@")[0]`: the text before the first `@`, or all of it. */
  function Handle(email: string): (h: string)
    ensures h <= email
    ensures '@' !in h
    ensures |h| < |email| ==> email[|h|] == '@'
  {
    if email == [] || email[0] == '@' then []
    else [email[0]] + Handle(email[1..])
  }

  /** The handle is the only prefix free of `@` that is followed by `@` or by
      the end of the address. */
  lemma HandleUnique(email: string, p: string)
    requires p <= email && '@' !in p
    requires |p| < |email| ==> email[|p|] == '@'
    ensures Handle(email) == p
  {
  }

  /** Splitting an address built from a local part free of `@` gives that
      local part back. */
  lemma HandleOfAddress(local: string, domain: string)
    requires '@' !in local
    ensures Handle(local + "@" + domain) == local
  {
    var e := local + "@" + domain;
    assert e[|local|] == '@';
    assert local <= e;
    HandleUnique(e, local);
  }

  /** What a card shows for one comment. */
  datatype CardView = CardView(title: string, handle: string, text: string, ownerControls: bool)

  /** `CommentCard`: the comment's name, author handle and text, with the edit
      and delete controls only for the signed-in author. */
  function RenderCard(currentUser: Option<User>, comment: Comment): (v: CardView)
    ensures v.ownerControls <==> currentUser.Some? && currentUser.value.email == comment.email
    ensures v.handle == Handle(comment.email)
    ensures v.title == comment.name && v.text == comment.body
  {
    CardView(comment.name, Handle(comment.email),
             comment.body, currentUser.Some? && currentUser.value.email == comment.email)
  }

  /** Nobody signed in sees no controls on any card; a signed-in user sees
      them on exactly the cards of the comments carrying their email. */
  lemma OwnerControlsOnlyForAuthor(currentUser: Option<User>, cs: seq<Comment>)
    ensures currentUser.None? ==> forall c :: c in cs ==> !RenderCard(currentUser, c).ownerControls
    ensures currentUser.Some? ==>
      forall c :: c in cs ==> (RenderCard(currentUser, c).ownerControls <==> c.email == currentUser.value.email)
  {
  }

  // -----------------------------------------------------------------------
  // AddCommentForm
  // -----------------------------------------------------------------------

  /** The add-comment form with its two controlled inputs. */
  class AddCommentForm {
    var commentName: string
    var commentText: string

    constructor ()
      ensures commentName == "" && commentText == ""
    {
      commentName := "";
      commentText := "";
    }

    /** Typing into the name input. */
    method OnNameChange(value: string)
      modifies this
      ensures commentName == value && commentText == old(commentText)
    {
      commentName := value;
    }

    /** Typing into the text area. */
    method OnTextChange(value: string)
      modifies this
      ensures commentText == value && commentName == old(commentName)
    {
      commentText := value;
    }

    /** Whether the send button is disabled. */
    predicate SubmitDisabled()
      reads this
    {
      |commentName| == 0 || |commentText| == 0
    }

    /** A submit: when both fields are filled, they are cleared and handed to
        the callback; otherwise nothing happens. */
    method Submit() returns (submitted: Option<Submission>)
      modifies this
      ensures submitted.None? <==> old(SubmitDisabled())
      ensures submitted.Some? ==>
        submitted.value == Submission(old(commentName), old(commentText))
        && commentName == "" && commentText == ""
      ensures submitted.None? ==> commentName == old(commentName) && commentText == old(commentText)
    {
      if |commentName| > 0 && |commentText| > 0 {
        submitted := Some(Submission(commentName, commentText));
        commentText := "";
        commentName := "";
      } else {
        submitted := None;
      }
    }
  }
}
