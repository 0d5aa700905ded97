/** The comment-thread view state of one post and the four event handlers
    that change it.

    The state is one record: the comment collection, the text of the comment
    being written (the draft), and the custom validity message the browser
    keeps on the comment field. Each handler is one atomic transition of that
    record; React's batching of state updates is not modelled. */
module CommentThread {
  import opened CommentList

  /** The comment every post's thread starts with. */
  const Seed: string := "Post muito boom!"

  /** The message shown when the comment field is submitted empty. */
  const RequiredMessage: string := "Esse campo é obrigatório!"

  datatype State = State(comments: seq<string>, draft: string, message: string)

  /** The state a post's thread starts in: exactly the seed comment, an empty
      draft (so the publish button starts disabled) and no message. */
  function Init(): (s: State)
    ensures |s.comments| == 1 && s.comments[0] == Seed
    ensures SubmitDisabled(s) && s.message == ""
  {
    State([Seed], "", "")
  }

  /** The publish button is disabled while the draft is empty. */
  predicate SubmitDisabled(s: State)
  {
    |s.draft| == 0
  }

  /** The form's submit handler: the draft becomes the last comment and the
      draft is emptied. It does not itself check the draft (that is the
      comment field's `required` attribute, see PostForm), and it leaves the
      validity message as it was. */
  function Submit(s: State): (r: State)
    ensures |r.comments| == |s.comments| + 1
    ensures r.comments[..|s.comments|] == s.comments
    ensures r.comments[|s.comments|] == s.draft
    ensures multiset(r.comments) == multiset(s.comments) + multiset{s.draft}
    ensures r.draft == "" && SubmitDisabled(r)
    ensures r.message == s.message
  {
    State(s.comments + [s.draft], "", s.message)
  }

  /** The comment field's change handler: the draft becomes the typed text and
      the validity message is cleared; the comments are not touched. */
  function Change(s: State, text: string): (r: State)
    ensures r.draft == text && r.message == ""
    ensures r.comments == s.comments
    ensures SubmitDisabled(r) <==> text == ""
  {
    State(s.comments, text, "")
  }

  /** The comment field's invalid handler: the required-field message is set. */
  function Invalid(s: State): (r: State)
    ensures r.message == RequiredMessage && r.message != ""
    ensures r.comments == s.comments && r.draft == s.draft
  {
    s.(message := RequiredMessage)
  }

  /** The delete callback a comment calls with its own text: every comment
      with that text is dropped, the rest keep their order. */
  function Delete(s: State, text: string): (r: State)
    ensures text !in r.comments
    ensures IsSubseq(r.comments, s.comments)
    ensures multiset(r.comments) == multiset(s.comments)[text := 0]
    ensures |r.comments| == |s.comments| - multiset(s.comments)[text]
    ensures r.draft == s.draft && r.message == s.message
  {
    RemoveIsSubseq(s.comments, text);
    s.(comments := Remove(s.comments, text))
  }

  /** Typing overwrites the draft: only the last text typed matters. */
  lemma ChangeLastWins(s: State, a: string, b: string)
    ensures Change(Change(s, a), b) == Change(s, b)
  {
  }

  /** Typing after the field was flagged invalid removes every trace of the flag. */
  lemma ChangeClearsInvalid(s: State, t: string)
    ensures Change(Invalid(s), t) == Change(s, t)
  {
  }

  /** Flagging the field twice is the same as flagging it once. */
  lemma InvalidIdempotent(s: State)
    ensures Invalid(Invalid(s)) == Invalid(s)
  {
  }

  /** Deleting a comment just published, by its text, undoes the publication
      on the comment list when no earlier comment had the same text. */
  lemma DeleteUndoesSubmit(s: State)
    requires s.draft !in s.comments
    ensures Delete(Submit(s), s.draft).comments == s.comments
  {
    RemoveAfterAppend(s.comments, s.draft);
    RemoveAbsent(s.comments, s.draft);
  }

  /** Deleting twice with the same text changes nothing more. */
  lemma DeleteIdempotent(s: State, text: string)
    ensures Delete(Delete(s, text), text) == Delete(s, text)
  {
    RemoveIdempotent(s.comments, text);
  }

  /** Deleting a text no comment has leaves the state unchanged. */
  lemma DeleteAbsent(s: State, text: string)
    requires text !in s.comments
    ensures Delete(s, text) == s
  {
    RemoveAbsent(s.comments, text);
  }

  /** A delete request from the comment at position `i` always shrinks the
      list, and no comment with that text is left. */
  lemma DeleteFromItem(s: State, i: int)
    requires 0 <= i < |s.comments|
    ensures |Delete(s, s.comments[i]).comments| < |s.comments|
    ensures s.comments[i] !in Delete(s, s.comments[i]).comments
  {
  }
}
