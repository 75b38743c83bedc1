/**
 * The new-memo form (`MemoForm`): one text input whose value is the draft,
 * and a submit button that hands the trimmed draft to the list's add.
 */
module MemoForm {
  import opened Wrappers
  import opened Text

  /** The form's only state: the text currently in the input. */
  datatype Form = Form(draft: string)

  /** What a submit leaves behind: the new form state and the content handed to add, if any. */
  datatype Submission = Submission(form: Form, added: Option<string>)

  /** The form as first rendered: an empty input. */
  function Initial(): (f: Form)
    ensures f.draft == ""
  {
    Form("")
  }

  /** `handleChange`: the input now holds what the user typed; nothing is added. */
  function Change(f: Form, value: string): (r: Form)
    ensures r.draft == value
  {
    f.(draft := value)
  }

  /** The submit button is disabled while the trimmed draft is empty, i.e. while the draft is all whitespace. */
  function SubmitDisabled(f: Form): (disabled: bool)
    ensures disabled <==> Blank(f.draft)
  {
    TrimEmptyIffBlank(f.draft);
    Trim(f.draft) == ""
  }

  /**
   * `handleSubmit`: an all-whitespace draft is ignored and kept; otherwise
   * the trimmed draft is added once and the input is cleared.
   */
  function Submit(f: Form): (r: Submission)
    ensures Blank(f.draft) ==> r == Submission(f, None)
    ensures !Blank(f.draft) ==> r.added == Some(Trim(f.draft)) && r.form.draft == ""
    ensures r.added.Some? ==> r.added.value != "" && Trimmed(r.added.value)
  {
    TrimEmptyIffBlank(f.draft);
    var trimmed := Trim(f.draft);
    if trimmed == "" then Submission(f, None)
    else Submission(Form(""), Some(trimmed))
  }

  /** The button is disabled exactly when submitting would change nothing and add nothing. */
  lemma DisabledIffSubmitIsNoOp(f: Form)
    ensures SubmitDisabled(f) <==> Submit(f) == Submission(f, None)
  {
  }
}
