# Post comment thread (ignite-feed)

A Dafny model of the comment-thread state machine of the `Post` React
component in `src/components/Post.tsx`. One rendered post holds three pieces
of state:

- the list of comments, newest first, seeded with one placeholder comment;
- the draft comment text in the textarea;
- the textarea's custom-validity message, which is either empty or the
  required-field message `"Este campo é obrigatório!"`.

Four event handlers change this state: create (prepend the draft and clear
it), change (clear the message and take the new text), invalid (set the
message) and delete (drop every comment equal to a given text). The derived
flag "draft is empty" disables the submit button.

Layout:

- `comment_thread.dfy`, module `CommentThread`, holds the pure transformations
  the handlers compute. These are the spread-prepend, the value filter and
  the emptiness flag. The module also holds lemmas about them.
  `Remove` is specified by its multiset and by `IsSubsequence`, and
  `RemoveUnique` proves that these two facts determine its result.
- `post.dfy`, module `PostComponent`, holds the class `Post`. Its three fields
  are the component's three `useState`-like pieces of state. It has one
  method per handler. `Submit` models the browser's form submission:
  constraint validation, then the invalid handler or the submit handler.
  `PressSubmit` models a press of the submit button, which is disabled
  while the draft is empty. The object invariant `Valid()` says that no
  comment is the empty string and that the required-field message is set
  only while the draft is empty. Every path that goes through the form
  preserves it.

Behaviour worth noting:

- Nothing is trimmed. Only `newCommentText.length === 0` (Post.tsx:64) and
  `required` (Post.tsx:132) guard the textarea, so a blank draft such as
  `"   "` is published. `ScenarioBlankDraftPublished` shows this.
- The submit button is disabled while the draft is empty (Post.tsx:137), so
  pressing it then does nothing. The required-field message appears only
  when the form is submitted some other way while the draft is empty.
- The required-field message is only ever shown over an empty draft. The
  invalid handler runs only when the empty textarea fails `required`, and
  the change handler clears the message before it fills the draft
  (Post.tsx:48-49). `Valid()` records this, so a submission is accepted
  exactly when the draft is non-empty.

## Model

| member | source | states |
|---|---|---|
| `CommentThread.Prepend` | src/components/Post.tsx:43 | the new list is one longer. Its head is the draft and its tail is the old list. Its multiset is the old one plus the draft. It has no empty entry if the old list had none and the draft is non-empty |
| `CommentThread.Remove` | src/components/Post.tsx:56-61 | no remaining entry equals the deleted text. An entry survives iff it was present and differs from the text. Every other value keeps its count. The length drops by the number of occurrences. The result is a subsequence of the old list, so relative order is kept |
| `CommentThread.RemoveUnique` | src/components/Post.tsx:57-59 | any subsequence of the list whose multiset is the old one minus all copies of the text equals `Remove`, so `Remove`'s contract fully determines the filter |
| `CommentThread.RemoveAbsent` | src/components/Post.tsx:57-59 | deleting a text that is not in the list leaves the list unchanged |
| `CommentThread.RemoveIdempotent` | src/components/Post.tsx:57-59 | deleting the same text twice gives the same list as deleting it once |
| `CommentThread.PrependThenRemove` | src/components/Post.tsx:43-61 | creating a comment with a new text and then deleting that text restores the list |
| `CommentThread.IsNewCommentEmpty` | src/components/Post.tsx:64 | the draft counts as empty exactly when it is the empty string |
| `PostComponent.Validity.Message` | src/components/Post.tsx:47-54 | the custom-validity string is empty exactly in the cleared state, and is the required-field message otherwise |
| `PostComponent.Post.constructor` | src/components/Post.tsx:26-27 | a fresh post has exactly the placeholder comment, an empty draft and no validity message, and satisfies the no-empty-comment invariant |
| `PostComponent.Post.SubmitDisabled` | src/components/Post.tsx:137 | the submit button is disabled exactly when the draft has length 0 |
| `PostComponent.Post.CreateNewComment` | src/components/Post.tsx:40-45 | the comments become the old draft prepended to the old comments. The draft becomes empty and the validity is unchanged. The invariant is kept when the old draft was non-empty |
| `PostComponent.Post.NewCommentChange` | src/components/Post.tsx:47-50 | the draft becomes the new value and the validity message is cleared to `""`. The comments are unchanged and the invariant is kept |
| `PostComponent.Post.InvalidComment` | src/components/Post.tsx:52-54 | the validity message becomes the required-field message. The draft and the comments are unchanged. The invariant is kept when the draft is empty, the only case in which the browser fires the handler |
| `PostComponent.Post.DeleteComment` | src/components/Post.tsx:56-62 | the comments become the filtered old comments, with no copy of the text left and every other entry kept in order. The length drops by the number of occurrences. An absent text is a no-op. The draft and validity are unchanged and the invariant is kept |
| `PostComponent.Post.Submit` | src/components/Post.tsx:118-133 | a submission is accepted iff the draft is non-empty, which under the invariant is the same as the draft being non-empty and no validity message being set. When accepted, the draft is prepended and then cleared. When refused, the comments and draft are unchanged and the required-field message is set. No comment ever becomes empty |
| `PostComponent.Post.PressSubmit` | src/components/Post.tsx:135-141 | pressing the button publishes iff the draft is non-empty. With an empty draft nothing changes at all. No comment ever becomes empty |

## Left out

- Timestamp formatting (src/components/Post.tsx:29-38). It uses `new Date`, the date-fns `format` and `formatDistanceToNow` functions and the pt-BR locale. These are foreign library calls, and the relative label depends on the wall clock.
- Rendering and styling (src/components/Post.tsx:66-155). This covers the `Avatar` and `Comment` child components, the tag links, `author.title.toUpperCase()` and the CSS classes. It is presentational, and `Avatar.tsx` and `Comment.tsx` are not part of this model.
- The post's props (`author`, `text`, `tags`, `publishDate`). This state machine only passes them through to rendering.
- React and DOM mechanics. The model leaves out `useState` batching and re-rendering and `event.preventDefault()`. It models `setCustomValidity` as a plain field. Each handler is one atomic step.
- Duplicate React `key` values for identical comments or tags (src/components/Post.tsx:96, src/components/Post.tsx:148). This is a rendering concern with no effect on the state.
- Other constraints of the browser's validation, such as `maxlength`, are not modelled. The textarea declares only `required` and the custom message, so `Submit` checks only those two.
