/** The comment form as the browser drives it.

    The submit handler appends without looking at the draft; what keeps an
    empty comment out is the comment field's `required` attribute and the
    publish button, which is disabled while the draft is empty. The browser
    checks the field when the form is asked to submit: the field is invalid
    when it is required and empty, or when a custom validity message is set.
    An invalid field gets the `invalid` event instead of the form getting the
    `submit` event. */
module PostForm {
  import opened CommentThread

  /** The browser's constraint check of the comment field: a value is
      present and no custom validity message is set. */
  predicate FieldValid(s: State)
    ensures FieldValid(s) ==> !SubmitDisabled(s)
  {
    |s.draft| > 0 && s.message == ""
  }

  /** The form is asked to submit: a valid field lets the submit handler run,
      an invalid one gets the invalid handler and nothing is published. */
  function TrySubmit(s: State): (r: State)
    ensures FieldValid(s) ==> r == Submit(s)
    ensures !FieldValid(s) ==>
              r.comments == s.comments && r.draft == s.draft && r.message == RequiredMessage
    ensures forall x :: x in r.comments ==> x in s.comments || (x == s.draft && x != "")
  {
    if FieldValid(s) then Submit(s) else Invalid(s)
  }

  /** A click on the publish button: nothing happens while it is disabled,
      otherwise the form is asked to submit. A click on a valid field
      publishes the draft; on an invalid one the comments and the draft stay;
      no click ever adds anything but a non-empty draft. */
  function Click(s: State): (r: State)
    ensures SubmitDisabled(s) ==> r == s
    ensures FieldValid(s) ==> r == Submit(s)
    ensures !FieldValid(s) ==> r.comments == s.comments && r.draft == s.draft
    ensures forall x :: x in r.comments ==> x in s.comments || (x == s.draft && x != "")
  {
    if SubmitDisabled(s) then s else TrySubmit(s)
  }

  /** The events a user can cause on one post's thread. `RequestSubmit` is a
      call of the form's `requestSubmit()`, which runs the browser's check
      like a click on an enabled button does. A call of the form's `submit()`
      and a hand-dispatched `submit` event skip that check and are not
      commands of this model. */
  datatype Command =
    | Type(text: string)
    | Publish
    | RequestSubmit
    | DeleteComment(text: string)

  /** One event, applied atomically. No event adds anything to the comments
      but the current draft, and only when it is not empty; typing sets the
      draft and clears the message; a delete leaves no comment with its text. */
  function Dispatch(s: State, c: Command): (r: State)
    ensures |r.comments| <= |s.comments| + 1
    ensures forall x :: x in r.comments ==> x in s.comments || (x == s.draft && x != "")
    ensures c.Type? ==> r.draft == c.text && r.message == "" && r.comments == s.comments
    ensures c.DeleteComment? ==> c.text !in r.comments
  {
    match c
    case Type(t) => Change(s, t)
    case Publish => Click(s)
    case RequestSubmit => TrySubmit(s)
    case DeleteComment(t) => Delete(s, t)
  }

  /** A sequence of events, applied in order. Every comment that was not
      there at the start is non-empty, and the list grows by at most one
      comment per event. */
  function Run(s: State, cmds: seq<Command>): (r: State)
    ensures forall x :: x in r.comments && x !in s.comments ==> x != ""
    ensures |r.comments| <= |s.comments| + |cmds|
    decreases |cmds|
  {
    if |cmds| == 0 then s else Run(Dispatch(s, cmds[0]), cmds[1..])
  }

  /** What holds in every state a thread can reach from its initial state:
      no comment is empty, the only message ever shown is the required-field
      message, and it is shown only while the draft is empty. */
  ghost predicate Inv(s: State)
  {
    && (forall i :: 0 <= i < |s.comments| ==> s.comments[i] != "")
    && (s.message == "" || s.message == RequiredMessage)
    && (s.message != "" ==> s.draft == "")
  }

  /** Every event keeps the invariant. */
  lemma DispatchKeepsInv(s: State, c: Command)
    requires Inv(s)
    ensures Inv(Dispatch(s, c))
  {
    match c
    case Type(t) =>
    case Publish =>
    case RequestSubmit =>
    case DeleteComment(t) =>
      var r := Delete(s, t);
      forall i | 0 <= i < |r.comments|
        ensures r.comments[i] != ""
      {
        assert r.comments[i] in s.comments;
      }
  }

  /** Every sequence of events keeps the invariant. */
  lemma {:induction false} RunKeepsInv(s: State, cmds: seq<Command>)
    requires Inv(s)
    ensures Inv(Run(s, cmds))
    decreases |cmds|
  {
    if |cmds| > 0 {
      DispatchKeepsInv(s, cmds[0]);
      RunKeepsInv(Dispatch(s, cmds[0]), cmds[1..]);
    }
  }

  /** In every reachable state: no empty comment was ever published, only the
      required-field message is ever shown, and the publish button is
      disabled exactly when the browser would refuse the field. */
  lemma Reachable(cmds: seq<Command>)
    ensures var s := Run(Init(), cmds);
            && "" !in s.comments
            && (s.message == "" || s.message == RequiredMessage)
            && (SubmitDisabled(s) <==> !FieldValid(s))
  {
    RunKeepsInv(Init(), cmds);
  }

  /** Through the guarded path an empty draft is never published: the
      comments stay as they are and the required-field message is shown. */
  lemma EmptyDraftRefused(s: State)
    requires s.draft == ""
    ensures TrySubmit(s).comments == s.comments
    ensures TrySubmit(s).message == RequiredMessage
    ensures Click(s) == s
  {
  }

  /** The events "type t, then publish", once for each text. */
  function TypeThenPublish(ts: seq<string>): (cmds: seq<Command>)
    ensures |cmds| == 2 * |ts|
  {
    if |ts| == 0 then [] else [Type(ts[0]), Publish] + TypeThenPublish(ts[1..])
  }

  /** Typing and publishing non-empty texts one after another appends them to
      the comments in the order they were written and leaves the field empty
      with no message. */
  lemma {:induction false} TypeThenPublishAppends(s: State, ts: seq<string>)
    requires forall i :: 0 <= i < |ts| ==> ts[i] != ""
    ensures Run(s, TypeThenPublish(ts)).comments == s.comments + ts
    ensures |ts| > 0 ==> Run(s, TypeThenPublish(ts)).draft == ""
    ensures |ts| > 0 ==> Run(s, TypeThenPublish(ts)).message == ""
    decreases |ts|
  {
    if |ts| == 0 {
      assert s.comments + ts == s.comments;
    } else {
      var rest := TypeThenPublish(ts[1..]);
      var cmds := [Type(ts[0]), Publish] + rest;
      assert cmds[0] == Type(ts[0]) && cmds[1..] == [Publish] + rest;
      assert ([Publish] + rest)[0] == Publish && ([Publish] + rest)[1..] == rest;
      var s1 := Change(s, ts[0]);
      var s2 := Submit(s1);
      assert Run(s, cmds) == Run(s2, rest);
      TypeThenPublishAppends(s2, ts[1..]);
      assert s2.comments == s.comments + [ts[0]];
      assert s.comments + ts == s.comments + [ts[0]] + ts[1..];
    }
  }

  /** Writing "Great post" and publishing it on a new thread gives the seed
      comment followed by the new one, with an empty field. */
  lemma GreatPostScenario()
    ensures Run(Init(), [Type("Great post"), Publish]).comments == [Seed, "Great post"]
    ensures Run(Init(), [Type("Great post"), Publish]).draft == ""
  {
    TypeThenPublishAppends(Init(), ["Great post"]);
    assert TypeThenPublish(["Great post"]) == [Type("Great post"), Publish];
  }
}
