# Post comment thread — a Dafny model

This project models the view state of the `Post` card of a small React
application: the comment thread of one post (the list of comments, the draft
being typed, and the validity message on the comment field), the four event
handlers that change it, the guard that keeps empty comments out, and the rule
that turns the post's body — a sequence of paragraph and link blocks — into
display units.

The model is functional. The thread is one immutable record
`State(comments, draft, message)` and each handler is a pure transition. A
`Command` datatype names the user's events, and `Run` replays a sequence of
them.

- `content.dfy` — module `ContentBlocks`: blocks, display units, rendering and its inverse.
- `comment_list.dfy` — module `CommentList`: deletion by value (`Array.filter` with `!==`) and its characterisation as the unique order-preserving removal of exactly the occurrences of a text.
- `thread.dfy` — module `CommentThread`: the state record, the seed, and the handlers `Submit`, `Change`, `Invalid`, `Delete`.
- `form.dfy` — module `PostForm`: the browser's check of the `required` comment field, the publish button, the event reducer and the invariant of every reachable state.

In these points the model follows the code exactly:

- The submit handler appends the draft without checking it. The "refuse an empty draft" rule lives in the browser: the `required` attribute on the textarea and the disabled button. `PostForm.TrySubmit` and `PostForm.Click` model that guard on top of the unguarded `CommentThread.Submit`.
- The submit handler does not clear the validity message; it only empties the draft. Emptying a controlled field's value does not fire its change handler.
- Deleting removes every comment with the deleted text, not just one.
- The declared type admits only paragraph and link, so `Block` is a closed datatype. The render callback has an implicit fall-through that renders nothing. That branch is unreachable for well-typed posts and is not modelled.

The field-validity rule follows HTML constraint validation. A required field is invalid when its value is empty or when a custom validity message is set. `PostForm.Reachable` shows that, in every reachable state, this check agrees with the button's disabled flag.

## Model

| member | source | states |
|---|---|---|
| ContentBlocks.RenderBlock | src/components/Post.tsx:93-97 | a paragraph block becomes a plain unit and a link block an anchor unit, with the same text |
| ContentBlocks.Render | src/components/Post.tsx:92-98 | one display unit per block, in block order, of the same kind and with the same text |
| ContentBlocks.UnrenderRender | src/components/Post.tsx:92-98 | rendering loses nothing: the blocks are recovered from the units |
| ContentBlocks.RenderUnrender | src/components/Post.tsx:92-98 | every sequence of units is the rendering of some body (rendering is a bijection) |
| ContentBlocks.RenderAppend | src/components/Post.tsx:92-98 | rendering a body split in two gives the two renderings concatenated |
| ContentBlocks.ParagraphThenLink | src/components/Post.tsx:92-98 | [paragraph "Hello", link "See more"] renders as a plain unit then an anchor unit |
| CommentList.Remove | src/components/Post.tsx:65-71 | after deleting v: no entry equals v, the other texts are exactly those of the input with their counts, and the length drops by the number of occurrences of v |
| CommentList.FreeSubseqBound | src/components/Post.tsx:67-69 | no order-preserving sub-list without v is longer than the list minus the occurrences of v |
| CommentList.RemoveIsSubseq | src/components/Post.tsx:67-69 | the surviving comments keep their original relative order |
| CommentList.RemoveUnique | src/components/Post.tsx:67-69 | any order-preserving sub-list without v of length "list minus occurrences of v" is the deletion result |
| CommentList.RemoveCharacterized | src/components/Post.tsx:65-71 | r is the deletion of v exactly when r keeps the order, holds no v and is shorter by the number of occurrences of v (both directions) |
| CommentList.RemoveAbsent | src/components/Post.tsx:67-69 | deleting a text no comment has leaves the list unchanged |
| CommentList.RemoveIdempotent | src/components/Post.tsx:67-69 | deleting the same text twice equals deleting it once |
| CommentList.RemoveAppend | src/components/Post.tsx:67-69 | deletion distributes over concatenation of comment lists |
| CommentList.RemoveCommutes | src/components/Post.tsx:67-69 | deleting two texts gives the same list in either order |
| CommentList.RemoveAfterAppend | src/components/Post.tsx:51 | deleting a comment appended last, by its text, gives the earlier list without that text |
| CommentList.RemoveOnlyEntry | src/components/Post.tsx:33-35 | deleting the seed comment from the seed list leaves the empty list |
| CommentThread.Init | src/components/Post.tsx:33-39 | the thread starts with the one comment "Post muito boom!", an empty draft (so the button is disabled) and no message |
| CommentThread.SubmitDisabled | src/components/Post.tsx:75 | the publish button's disabled flag is exactly "the draft is empty", computed from the draft and never stored |
| CommentThread.Submit | src/components/Post.tsx:47-53 | the comments grow by one, earlier comments keep their positions, the draft is last, the draft becomes empty and the button disabled, the message is kept |
| CommentThread.Change | src/components/Post.tsx:56-59 | the draft becomes exactly the typed text, the message is cleared, the comments are untouched, and the button is disabled iff the text is empty |
| CommentThread.Invalid | src/components/Post.tsx:61-63 | the message becomes "Esse campo é obrigatório!"; comments and draft are untouched |
| CommentThread.Delete | src/components/Post.tsx:65-71 | no comment equals the deleted text, the others survive in order with their counts, length drops by its occurrences; draft and message untouched |
| CommentThread.ChangeLastWins | src/components/Post.tsx:56-59 | typing a then b equals typing b |
| CommentThread.ChangeClearsInvalid | src/components/Post.tsx:56-63 | typing after the field was flagged invalid equals typing without the flag |
| CommentThread.InvalidIdempotent | src/components/Post.tsx:61-63 | flagging the field twice equals flagging it once |
| CommentThread.DeleteUndoesSubmit | src/components/Post.tsx:47-71 | deleting a just-published comment by its text restores the earlier list when that text was new |
| CommentThread.DeleteIdempotent | src/components/Post.tsx:65-71 | deleting twice with the same text equals deleting once |
| CommentThread.DeleteAbsent | src/components/Post.tsx:65-71 | deleting a text no comment has leaves the whole state unchanged |
| CommentThread.DeleteFromItem | src/components/Post.tsx:119-127 | a delete request from a listed comment always shrinks the list and leaves no comment with that text |
| PostForm.FieldValid | src/components/Post.tsx:104-111 | the browser accepts the required comment field only when it holds text and no custom validity message is set; an accepted field always has the button enabled |
| PostForm.TrySubmit | src/components/Post.tsx:101-111 | a valid field publishes the draft; an invalid one keeps comments and draft and shows the required message; nothing but an existing comment or a non-empty draft ends up in the list |
| PostForm.Click | src/components/Post.tsx:113-115 | a click on the disabled button changes nothing; a click on a valid field publishes the draft; on an invalid field the comments and the draft stay as they are; no click ever adds anything to the comments except a non-empty draft |
| PostForm.Dispatch | src/components/Post.tsx:101-114 | one event: no event adds anything to the comments except the current draft, and only a non-empty one; the list grows by at most one; typing sets the draft, clears the message and keeps the comments; a delete leaves no comment with its text |
| PostForm.Run | src/components/Post.tsx:101-127 | a sequence of events applied in order: every comment not present at the start is non-empty, and the list grows by at most one per event |
| PostForm.DispatchKeepsInv | src/components/Post.tsx:47-71 | every event keeps: no empty comment, only the required message is ever shown, and only while the draft is empty |
| PostForm.RunKeepsInv | src/components/Post.tsx:47-71 | every sequence of events keeps that invariant |
| PostForm.Reachable | src/components/Post.tsx:75-114 | in every reachable state no comment is empty, and the button is disabled exactly when the browser would refuse the field |
| PostForm.EmptyDraftRefused | src/components/Post.tsx:104-114 | submitting an empty draft keeps the comments and shows "Esse campo é obrigatório!"; clicking the button changes nothing |
| PostForm.TypeThenPublishAppends | src/components/Post.tsx:47-59 | typing and publishing non-empty t1..tn appends exactly t1..tn in order and leaves an empty draft and no message |
| PostForm.GreatPostScenario | src/components/Post.tsx:33-59 | typing "Great post" and publishing on a new thread gives ["Post muito boom!", "Great post"] and an empty draft |

## Left out

- Date formatting (`format`, `formatDistanceToNow`, pt-BR locale, Post.tsx:40-44 and :88): these are calls into a date library with locale tables, and they depend on the wall-clock time.
- JSX, DOM and CSS output: the rendered tree, class names and the empty `href` placeholder of links are presentation only. Display units are abstract tagged values.
- React keys: blocks and comments are keyed by their text (Post.tsx:94, :96, :122), so equal texts share a key. This concerns the reconciler's identity of elements, not the state. With duplicate comment texts, React may keep or duplicate a stale comment element after a delete; its duplicate-key warning says such children "may be duplicated and/or omitted". The displayed list can then differ from `comments`, although the state itself is right.
- React `useState` batching and stale closures: each handler is one atomic transition of the state record.
- `event.preventDefault()` (Post.tsx:48): it only stops page navigation, which is not part of the state.
- The `Comment` component is not part of this model. It is assumed only to call the delete callback with its own text. `Delete` accepts any text, which covers that call.
- The `Avatar` component and the author header (Post.tsx:79-86): these only pass props through to the markup.
- `RequestSubmit` stands for the form's `requestSubmit()`, which runs the browser's validity check. Other routes to a submission are not modelled.
- The form's `submit()` and a hand-dispatched `submit` event are not modelled. Both skip the `required` check. `submit()` does not run the submit handler at all. A hand-dispatched event does run it, and that handler would append even an empty draft. `PostForm.Reachable` and the invariant hold only for the modelled events: typing, the publish button, `requestSubmit()` and deleting.
