/**
 * One rendered memo (`MemoItem`): a view mode showing the content with
 * Edit and Delete buttons, and an edit mode with a text area and Save and
 * Cancel buttons. The item's own state is whether it is editing and the
 * text-area draft; it changes the list only by emitting a command.
 */
module MemoItem {
  import opened Wrappers
  import opened Text
  import opened MemoStore

  /** The item's local state. */
  datatype Editor = Editor(editing: bool, draft: string)

  /** A key press in the text area: the key's name and the Ctrl and Meta (Cmd) modifiers. */
  datatype Key = Key(name: string, ctrl: bool, meta: bool)

  /**
   * The handlers an item reacts to. `Delete(confirmed)` carries the user's
   * answer to the confirmation dialog.
   */
  datatype Event = Edit | Change(value: string) | Save | Cancel | KeyDown(key: Key) | Delete(confirmed: bool)

  /** What an item asks the list to do. */
  datatype Command = UpdateCmd(id: int, content: string) | DeleteCmd(id: int)

  /** The item's next state and the command it emitted, if any. */
  datatype Reaction = Reaction(editor: Editor, command: Option<Command>)

  /** A freshly mounted item: viewing, with the draft holding the memo's content. */
  function Mount(m: Memo): (e: Editor)
    ensures !e.editing && e.draft == m.content
  {
    Editor(false, m.content)
  }

  /** `handleEdit`: enter edit mode with the draft reset to the memo's content. */
  function HandleEdit(m: Memo, e: Editor): (r: Reaction)
    ensures r.editor.editing && r.editor.draft == m.content && r.command.None?
  {
    Reaction(Editor(true, m.content), None)
  }

  /** `handleContentChange`: the draft becomes what was typed. */
  function HandleChange(e: Editor, value: string): (r: Reaction)
    ensures r.editor.editing == e.editing && r.editor.draft == value && r.command.None?
  {
    Reaction(e.(draft := value), None)
  }

  /**
   * `handleSave`: a draft that trims to nothing is refused (an alert, no
   * state change); otherwise the trimmed draft is sent as the memo's new
   * content and the item leaves edit mode. The draft itself is not trimmed.
   */
  function HandleSave(m: Memo, e: Editor): (r: Reaction)
    ensures Blank(e.draft) ==> r == Reaction(e, None)
    ensures !Blank(e.draft) ==>
              r.command == Some(UpdateCmd(m.id, Trim(e.draft))) && r.editor == Editor(false, e.draft)
  {
    TrimEmptyIffBlank(e.draft);
    var trimmed := Trim(e.draft);
    if trimmed == "" then Reaction(e, None)
    else Reaction(e.(editing := false), Some(UpdateCmd(m.id, trimmed)))
  }

  /** `handleCancel`: leave edit mode, discard the draft, emit nothing. */
  function HandleCancel(m: Memo, e: Editor): (r: Reaction)
    ensures r.editor == Mount(m) && r.command.None?
  {
    Reaction(Editor(false, m.content), None)
  }

  /** `handleDelete`: ask the list to delete the memo only if the user confirmed. */
  function HandleDelete(m: Memo, e: Editor, confirmed: bool): (r: Reaction)
    ensures r.editor == e
    ensures r.command.Some? <==> confirmed
    ensures confirmed ==> r.command == Some(DeleteCmd(m.id))
  {
    Reaction(e, if confirmed then Some(DeleteCmd(m.id)) else None)
  }

  /**
   * `handleKeyDown`: save on Ctrl+Enter or Cmd+Enter, otherwise cancel on
   * Escape (with or without modifiers), otherwise nothing.
   */
  function HandleKeyDown(m: Memo, e: Editor, k: Key): (r: Reaction)
    ensures k.name == "Enter" && (k.ctrl || k.meta) ==> r == HandleSave(m, e)
    ensures k.name == "Escape" ==> r == HandleCancel(m, e)
    ensures k.name != "Escape" && !(k.name == "Enter" && (k.ctrl || k.meta)) ==> r == Reaction(e, None)
  {
    if (k.ctrl || k.meta) && k.name == "Enter" then HandleSave(m, e)
    else if k.name == "Escape" then HandleCancel(m, e)
    else Reaction(e, None)
  }

  /** Dispatch an event to its handler. */
  function Handle(m: Memo, e: Editor, ev: Event): (r: Reaction)
    ensures r.command.Some? && r.command.value.UpdateCmd? ==>
              r.command.value.id == m.id && r.command.value.content != "" && Trimmed(r.command.value.content)
    ensures r.command.Some? && r.command.value.DeleteCmd? ==>
              r.command.value.id == m.id && ev == Delete(true)
  {
    match ev
    case Edit => HandleEdit(m, e)
    case Change(value) => HandleChange(e, value)
    case Save => HandleSave(m, e)
    case Cancel => HandleCancel(m, e)
    case KeyDown(k) => HandleKeyDown(m, e, k)
    case Delete(confirmed) => HandleDelete(m, e, confirmed)
  }

  /**
   * The "(edited)" marker: rendered next to the date in view mode when the
   * two timestamps differ. The edit-mode rendering has no marker.
   */
  function ShowsEdited(m: Memo, e: Editor): (shown: bool)
    ensures e.editing ==> !shown
    ensures !e.editing ==> (shown <==> m.updatedAt != m.createdAt)
  {
    !e.editing && m.updatedAt != m.createdAt
  }

  /** With one clock read per add, a memo that was just added and mounted is not marked as edited. */
  lemma FreshMemoNotEdited(memos: seq<Memo>, content: string, now: int, nowIso: string)
    ensures var m := Add(memos, content, now, nowIso)[0]; !ShowsEdited(m, Mount(m))
  {
  }

  /**
   * With the two clock reads of `handleAddMemo`, a memo added as the clock
   * ticks from one millisecond to the next is marked as edited as soon as
   * it is mounted.
   */
  lemma FreshMemoEditedAsWritten()
    ensures var m := AddAsWritten([], "buy milk", 1700000000999,
                                  "2023-11-14T22:13:20.999Z", "2023-11-14T22:13:21.000Z")[0];
            ShowsEdited(m, Mount(m))
  {
  }

  /** In view mode, an update at a time other than creation marks each memo it touched as edited. */
  lemma UpdateMarksEdited(memos: seq<Memo>, id: int, content: string, nowIso: string, i: int, e: Editor)
    requires 0 <= i < |memos| && memos[i].id == id && nowIso != memos[i].createdAt
    requires !e.editing
    ensures ShowsEdited(Update(memos, id, content, nowIso)[i], e)
  {
  }

  /** A save of a non-blank draft leaves edit mode, so the update it causes is marked at once. */
  lemma SaveShowsEdited(memos: seq<Memo>, i: int, e: Editor, nowIso: string)
    requires 0 <= i < |memos| && nowIso != memos[i].createdAt
    requires !Blank(e.draft)
    ensures var r := HandleSave(memos[i], e);
            ShowsEdited(Update(memos, memos[i].id, r.command.value.content, nowIso)[i], r.editor)
  {
  }
}
