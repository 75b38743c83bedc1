/**
 * The whole app: the list store, the new-memo form and one editor per
 * rendered memo, driven by the user's inputs. Each handler runs to
 * completion before the next input. Items are keyed by memo id, so an
 * item's editor state is kept per id; an id without a state is an item
 * that has just been mounted. Items that share an id (after a clock
 * collision on add, or as loaded from storage) share one editor state, and
 * adding a memo whose id is already in use resets that shared state.
 */
module MemoApp {
  import opened Wrappers
  import opened Text
  import opened MemoStore
  import MemoForm
  import MemoItem

  datatype App = App(store: Store, form: MemoForm.Form, editors: map<int, MemoItem.Editor>)

  /**
   * A user input. `now` and `nowIso` are the clock readings the handler
   * makes; `index` is the position of the item in the rendered list.
   */
  datatype Input =
    | FormChange(value: string)
    | FormSubmit(now: int, nowIso: string)
    | ItemInput(index: nat, event: MemoItem.Event, nowIso: string)

  /** Every memo's content is non-empty and has no surrounding whitespace. */
  predicate Clean(memos: seq<Memo>) {
    forall i :: 0 <= i < |memos| ==> memos[i].content != "" && Trimmed(memos[i].content)
  }

  /** The app after mounting on the given storage slot. */
  function Start(slot: Option<string>, parse: string -> Result<seq<Memo>, string>,
                 serialize: seq<Memo> -> string): (a: App)
    ensures Persisted(a.store, serialize)
    ensures a.store.memos == Load(slot, parse)
    ensures slot.None? ==> a.store.memos == []
    ensures a.form.draft == "" && a.editors == map[]
  {
    App(Open(slot, parse, serialize), MemoForm.Initial(), map[])
  }

  /** Carry out an item's command on the store: `handleUpdateMemo` or `handleDeleteMemo`. */
  function Perform(s: Store, cmd: MemoItem.Command, nowIso: string,
                   serialize: seq<Memo> -> string): (r: Store)
    ensures Persisted(r, serialize)
    ensures cmd.UpdateCmd? ==> r.memos == Update(s.memos, cmd.id, cmd.content, nowIso)
    ensures cmd.DeleteCmd? ==> r.memos == Delete(s.memos, cmd.id)
    ensures cmd.DeleteCmd? ==> !HasId(r.memos, cmd.id)
    ensures cmd.UpdateCmd? ==> |r.memos| == |s.memos|
  {
    match cmd
    case UpdateCmd(id, content) => UpdateMemo(s, id, content, nowIso, serialize)
    case DeleteCmd(id) => DeleteMemo(s, id, serialize)
  }

  /**
   * `handleSubmit` of the form: a blank draft changes nothing else;
   * otherwise the trimmed draft is added and written through, and the new
   * memo's item is mounted afresh under the new id.
   */
  function Submit(a: App, now: int, nowIso: string, serialize: seq<Memo> -> string): (r: App)
    ensures Persisted(a.store, serialize) ==> Persisted(r.store, serialize)
    ensures r.form == MemoForm.Submit(a.form).form
    ensures MemoForm.Submit(a.form).added.None? ==> r.store == a.store
    ensures MemoForm.Submit(a.form).added.Some? ==>
              r.store.memos == Add(a.store.memos, MemoForm.Submit(a.form).added.value, now, nowIso)
  {
    var sub := MemoForm.Submit(a.form);
    if sub.added.None? then a.(form := sub.form)
    else App(AddMemo(a.store, sub.added.value, now, nowIso, serialize), sub.form, a.editors - {now})
  }

  /**
   * The reaction of the item at `index` to `event`, run on its kept editor
   * state or, for an item without one, on a freshly mounted state.
   */
  function React(a: App, index: nat, event: MemoItem.Event): (r: MemoItem.Reaction)
    requires index < |a.store.memos|
    ensures r.command.Some? ==> r.command.value.id == a.store.memos[index].id
    ensures r.command.Some? && r.command.value.UpdateCmd? ==>
              r.command.value.content != "" && Trimmed(r.command.value.content)
  {
    var m := a.store.memos[index];
    var e := if m.id in a.editors then a.editors[m.id] else MemoItem.Mount(m);
    MemoItem.Handle(m, e, event)
  }

  /**
   * An input to the item at `index` in the rendered list: the item's
   * handler runs on its editor state, and a command it emits is carried out
   * on the store. A deleted item is unmounted.
   */
  function ItemStep(a: App, index: nat, event: MemoItem.Event, nowIso: string,
                    serialize: seq<Memo> -> string): (r: App)
    ensures Persisted(a.store, serialize) ==> Persisted(r.store, serialize)
    ensures r.form == a.form
    ensures index >= |a.store.memos| ==> r == a
    ensures index < |a.store.memos| && React(a, index, event).command.None? ==> r.store == a.store
    ensures index < |a.store.memos| && React(a, index, event).command.Some? ==>
              r.store == Perform(a.store, React(a, index, event).command.value, nowIso, serialize)
  {
    if index >= |a.store.memos| then a
    else
      var m := a.store.memos[index];
      var reaction := React(a, index, event);
      if reaction.command.None? then a.(editors := a.editors[m.id := reaction.editor])
      else
        var cmd := reaction.command.value;
        var store := Perform(a.store, cmd, nowIso, serialize);
        var editors := if cmd.DeleteCmd? then a.editors - {m.id} else a.editors[m.id := reaction.editor];
        App(store, a.form, editors)
  }

  /**
   * One input. The store (and so the slot) is written only when a handler
   * changes the list; inputs that emit nothing leave the store alone.
   */
  function Step(a: App, input: Input, serialize: seq<Memo> -> string): (r: App)
    ensures Persisted(a.store, serialize) ==> Persisted(r.store, serialize)
  {
    match input
    case FormChange(value) => a.(form := MemoForm.Change(a.form, value))
    case FormSubmit(now, nowIso) => Submit(a, now, nowIso, serialize)
    case ItemInput(index, event, nowIso) => ItemStep(a, index, event, nowIso, serialize)
  }

  /**
   * A sequence of inputs, applied in order. Content reaches the list only
   * through the form and the items, both of which trim and refuse blank
   * text, so a list that starts clean stays clean although the store never
   * checks it; and the slot keeps up with the list after every input.
   */
  function Run(a: App, inputs: seq<Input>, serialize: seq<Memo> -> string): (r: App)
    ensures Clean(a.store.memos) ==> Clean(r.store.memos)
    ensures Persisted(a.store, serialize) ==> Persisted(r.store, serialize)
    decreases |inputs|
  {
    if inputs == [] then a
    else
      var next := Step(a, inputs[0], serialize);
      if Clean(a.store.memos) then
        StepKeepsClean(a, inputs[0], serialize);
        Run(next, inputs[1..], serialize)
      else
        Run(next, inputs[1..], serialize)
  }

  /** Adding clean content to a clean list gives a clean list. */
  lemma AddKeepsClean(memos: seq<Memo>, content: string, now: int, nowIso: string)
    requires Clean(memos) && content != "" && Trimmed(content)
    ensures Clean(Add(memos, content, now, nowIso))
  {
    var r := Add(memos, content, now, nowIso);
    assert forall i :: 0 < i < |r| ==> r[i] == memos[i - 1];
  }

  /** Updating a clean list with clean content gives a clean list. */
  lemma UpdateKeepsClean(memos: seq<Memo>, id: int, content: string, nowIso: string)
    requires Clean(memos) && content != "" && Trimmed(content)
    ensures Clean(Update(memos, id, content, nowIso))
  {
  }

  /** Deleting from a clean list gives a clean list. */
  lemma DeleteKeepsClean(memos: seq<Memo>, id: int)
    requires Clean(memos)
    ensures Clean(Delete(memos, id))
  {
    var r := Delete(memos, id);
    forall i | 0 <= i < |r|
      ensures r[i].content != "" && Trimmed(r[i].content)
    {
      assert r[i] in r;
      var j :| 0 <= j < |memos| && memos[j] == r[i];
    }
  }

  /** A form submission keeps every stored memo's content non-empty and trimmed. */
  lemma SubmitKeepsClean(a: App, now: int, nowIso: string, serialize: seq<Memo> -> string)
    requires Clean(a.store.memos)
    ensures Clean(Submit(a, now, nowIso, serialize).store.memos)
  {
    var sub := MemoForm.Submit(a.form);
    if sub.added.Some? {
      AddKeepsClean(a.store.memos, sub.added.value, now, nowIso);
    }
  }

  /** Carrying out an item's command keeps a clean list clean, when an update's content is clean. */
  lemma PerformKeepsClean(s: Store, cmd: MemoItem.Command, nowIso: string, serialize: seq<Memo> -> string)
    requires Clean(s.memos)
    requires cmd.UpdateCmd? ==> cmd.content != "" && Trimmed(cmd.content)
    ensures Clean(Perform(s, cmd, nowIso, serialize).memos)
  {
    match cmd
    case UpdateCmd(id, content) => UpdateKeepsClean(s.memos, id, content, nowIso);
    case DeleteCmd(id) => DeleteKeepsClean(s.memos, id);
  }

  /** An item's input keeps every stored memo's content non-empty and trimmed. */
  lemma ItemInputKeepsClean(a: App, index: nat, event: MemoItem.Event, nowIso: string,
                            serialize: seq<Memo> -> string)
    requires Clean(a.store.memos)
    ensures Clean(ItemStep(a, index, event, nowIso, serialize).store.memos)
  {
    if index < |a.store.memos| {
      var reaction := React(a, index, event);
      if reaction.command.Some? {
        var store := Perform(a.store, reaction.command.value, nowIso, serialize);
        PerformKeepsClean(a.store, reaction.command.value, nowIso, serialize);
        assert ItemStep(a, index, event, nowIso, serialize).store == store;
      }
    }
  }

  /**
   * One input keeps every stored memo's content non-empty and trimmed: the
   * form and the items trim and refuse blank text before they reach the store.
   */
  lemma StepKeepsClean(a: App, input: Input, serialize: seq<Memo> -> string)
    requires Clean(a.store.memos)
    ensures Clean(Step(a, input, serialize).store.memos)
  {
    match input
    case FormChange(_) =>
    case FormSubmit(now, nowIso) => SubmitKeepsClean(a, now, nowIso, serialize);
    case ItemInput(index, event, nowIso) => ItemInputKeepsClean(a, index, event, nowIso, serialize);
  }

  /** Two sessions run one after the other are one session over both input sequences. */
  lemma {:induction false} RunConcat(a: App, xs: seq<Input>, ys: seq<Input>, serialize: seq<Memo> -> string)
    ensures Run(a, xs + ys, serialize) == Run(Run(a, xs, serialize), ys, serialize)
    decreases |xs|
  {
    if xs == [] {
      assert xs + ys == ys;
    } else {
      assert (xs + ys)[0] == xs[0] && (xs + ys)[1..] == xs[1..] + ys;
      RunConcat(Step(a, xs[0], serialize), xs[1..], ys, serialize);
    }
  }

  /**
   * Closing the app after any session and opening it again restores the
   * list it ended with, provided that list's serialisation is non-empty
   * and parses back to it.
   */
  lemma ReloadAfterRun(slot: Option<string>, inputs: seq<Input>,
                       parse: string -> Result<seq<Memo>, string>, serialize: seq<Memo> -> string)
    requires var last := Run(Start(slot, parse, serialize), inputs, serialize).store.memos;
             serialize(last) != "" && parse(serialize(last)) == Success(last)
    ensures var last := Run(Start(slot, parse, serialize), inputs, serialize).store;
            Start(last.slot, parse, serialize).store == last
  {
    var last := Run(Start(slot, parse, serialize), inputs, serialize).store;
    ReopenPersisted(last, parse, serialize);
  }

  /** A session started on an empty slot only ever holds non-empty, trimmed memos. */
  lemma FreshSessionClean(inputs: seq<Input>, parse: string -> Result<seq<Memo>, string>,
                          serialize: seq<Memo> -> string)
    ensures Clean(Run(Start(None, parse, serialize), inputs, serialize).store.memos)
  {
  }
}
