/** The state machine of the `Post` component (src/components/Post.tsx):
    the comment list, the draft comment, the textarea's custom-validity
    message, and the event handlers that change them one at a time. */
module PostComponent {
  import opened CommentThread

  /** The comment every freshly mounted post starts with. */
  const Placeholder: string := "Post massinha demais, hein?!"

  /** The message the invalid handler puts on the textarea. */
  const RequiredMessage: string := "Este campo é obrigatório!"

  /** The textarea's custom validity: no message, or the required-field one. */
  datatype Validity = Clear | FieldRequired {
    /** The string handed to `setCustomValidity`. A non-empty one marks the
        field as failing its constraints. */
    function Message(): (m: string)
      ensures m == "" <==> this == Clear
      ensures this == FieldRequired ==> m == RequiredMessage
    {
      match this
      case Clear => ""
      case FieldRequired => RequiredMessage
    }
  }

  class Post {
    var comments: seq<string>
    var draft: string
    var validity: Validity

    /** No comment in the thread is empty, and the required-field message
        is only ever shown over an empty draft: the invalid handler runs
        only when the empty textarea fails `required`, and the only handler
        that fills the draft clears the message first. */
    ghost predicate Valid()
      reads this
    {
      NoEmptyEntry(comments) &&
      (validity == FieldRequired ==> draft == "")
    }

    /** The two `useState` seeds; the textarea starts with no custom message. */
    constructor ()
      ensures comments == [Placeholder] && draft == "" && validity == Clear
      ensures Valid()
    {
      comments := [Placeholder];
      draft := "";
      validity := Clear;
    }

    /** Whether the submit button is disabled. */
    function SubmitDisabled(): (disabled: bool)
      reads this
      ensures disabled <==> |draft| == 0
    {
      IsNewCommentEmpty(draft)
    }

    /** `handleCreateNewComment`: prepends the draft, then clears it. The
        handler itself does not look at the draft. */
    method CreateNewComment()
      modifies this
      ensures comments == Prepend(old(draft), old(comments))
      ensures |comments| == |old(comments)| + 1
      ensures comments[0] == old(draft) && comments[1..] == old(comments)
      ensures draft == "" && validity == old(validity)
      ensures old(Valid()) && old(draft) != "" ==> Valid()
    {
      comments := Prepend(draft, comments);
      draft := "";
    }

    /** `handleNewCommentChange`: clears the custom message and takes the
        textarea's new value as the draft. */
    method NewCommentChange(value: string)
      modifies this
      ensures draft == value && validity == Clear && validity.Message() == ""
      ensures comments == old(comments)
      ensures old(Valid()) ==> Valid()
    {
      validity := Clear;
      draft := value;
    }

    /** `handleInvalidComment`: sets the required-field message. */
    method InvalidComment()
      modifies this
      ensures validity == FieldRequired && validity.Message() == RequiredMessage
      ensures draft == old(draft) && comments == old(comments)
      ensures old(Valid()) && old(draft) == "" ==> Valid()
    {
      validity := FieldRequired;
    }

    /** `deleteComment`: keeps every comment that differs from the argument. */
    method DeleteComment(commentToDelete: string)
      modifies this
      ensures comments == Remove(old(comments), commentToDelete)
      ensures commentToDelete !in comments
      ensures multiset(comments) == multiset(old(comments))[commentToDelete := 0]
      ensures |comments| == |old(comments)| - multiset(old(comments))[commentToDelete]
      ensures IsSubsequence(comments, old(comments))
      ensures commentToDelete !in old(comments) ==> comments == old(comments)
      ensures draft == old(draft) && validity == old(validity)
      ensures old(Valid()) ==> Valid()
    {
      if commentToDelete !in comments {
        RemoveAbsent(comments, commentToDelete);
      }
      comments := Remove(comments, commentToDelete);
    }

    /** A submission of the form. The browser first checks the textarea's
        constraints: it fails them when it is empty (`required`) or carries
        a custom message. On failure the invalid handler runs and nothing is
        submitted; otherwise the submit handler runs. */
    method Submit() returns (accepted: bool)
      requires Valid()
      modifies this
      ensures Valid()
      ensures accepted <==> old(draft) != "" && old(validity) == Clear
      ensures accepted <==> old(draft) != ""
      ensures accepted ==> comments == Prepend(old(draft), old(comments)) &&
                           draft == "" && validity == Clear
      ensures !accepted ==> comments == old(comments) && draft == old(draft) &&
                            validity == FieldRequired
    {
      if draft == "" || validity.Message() != "" {
        InvalidComment();
        accepted := false;
      } else {
        CreateNewComment();
        accepted := true;
      }
    }

    /** A press of the submit button: nothing happens while it is disabled,
        otherwise the form is submitted. */
    method PressSubmit() returns (accepted: bool)
      requires Valid()
      modifies this
      ensures Valid()
      ensures accepted <==> old(draft) != "" && old(validity) == Clear
      ensures accepted <==> old(draft) != ""
      ensures accepted ==> comments == Prepend(old(draft), old(comments)) &&
                           draft == "" && validity == Clear
      ensures !accepted ==> comments == old(comments) && draft == old(draft)
      ensures !accepted ==> validity == if old(draft) == "" then old(validity) else FieldRequired
    {
      if SubmitDisabled() {
        accepted := false;
      } else {
        accepted := Submit();
      }
    }
  }

  /** Typing a comment, publishing it and deleting it again. */
  method ScenarioCommentThenDelete() {
    var post := new Post();
    post.NewCommentChange("ótimo post!");
    var accepted := post.PressSubmit();
    assert accepted;
    assert post.comments == ["ótimo post!", Placeholder] && post.draft == "";
    post.DeleteComment("ótimo post!");
    assert post.comments == [Placeholder];
  }

  /** Submitting an empty draft shows the message and changes nothing else;
      the button refuses it outright. */
  method ScenarioEmptySubmit() {
    var post := new Post();
    var accepted := post.Submit();
    assert !accepted && post.validity.Message() == RequiredMessage;
    assert post.comments == [Placeholder] && post.draft == "";
    var pressed := post.PressSubmit();
    assert !pressed && post.comments == [Placeholder];
  }

  /** Nothing is trimmed: a draft of blanks enables the button and is
      published as a comment of its own. */
  method ScenarioBlankDraftPublished() {
    var post := new Post();
    post.NewCommentChange("   ");
    assert !post.SubmitDisabled();
    var accepted := post.PressSubmit();
    assert accepted && post.comments == ["   ", Placeholder];
  }
}
