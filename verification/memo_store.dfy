/**
 * The memo list held by the `App` component: the ordered list of memos,
 * the three list transitions passed down to the form and the items, the
 * fail-soft load from browser storage at start-up and the write-through
 * effect that stores the list after every change.
 *
 * The clock, the id source and browser storage are parameters: `now` is
 * the value of `Date.now()`, `nowIso` the value of `new Date().toISOString()`,
 * the storage slot is an `Option<string>`, and `JSON.stringify`/`JSON.parse`
 * are the functions `serialize` and `parse`.
 */
module MemoStore {
  import opened Wrappers

  /** A memo: `id` is the creation time in milliseconds, the timestamps are ISO-8601 strings. */
  datatype Memo = Memo(id: int, content: string, createdAt: string, updatedAt: string)

  /** Some memo in the list carries `id` (ids are not assumed to be unique). */
  predicate HasId(memos: seq<Memo>, id: int) {
    exists i :: 0 <= i < |memos| && memos[i].id == id
  }

  /** How many memos in the list carry `id`. */
  function CountId(memos: seq<Memo>, id: int): (n: nat)
    ensures n <= |memos|
    ensures n == 0 <==> !HasId(memos, id)
  {
    if memos == [] then 0
    else
      var n := CountId(memos[1..], id);
      assert forall i :: 0 < i < |memos| ==> memos[i] == memos[1..][i - 1];
      (if memos[0].id == id then 1 else 0) + n
  }

  // ---------------------------------------------------------------------
  // The list transitions
  // ---------------------------------------------------------------------

  /**
   * Adds a memo in front of the list. `handleAddMemo` neither trims nor
   * checks `content`: the form and the items do that. `handleAddMemo` reads
   * the clock once for `createdAt` and once more for `updatedAt`; this
   * definition reads it once (see `AddAsWritten` for the two-read version).
   */
  function Add(memos: seq<Memo>, content: string, now: int, nowIso: string): (r: seq<Memo>)
    ensures |r| == |memos| + 1
    ensures r[0].id == now && r[0].content == content
    ensures r[0].createdAt == nowIso && r[0].updatedAt == r[0].createdAt
    ensures r[1..] == memos
  {
    [Memo(now, content, nowIso, nowIso)] + memos
  }

  /** `handleAddMemo` as written: two separate clock reads for the two timestamps. */
  function AddAsWritten(memos: seq<Memo>, content: string, now: int, createdIso: string, updatedIso: string): (r: seq<Memo>)
    ensures |r| == |memos| + 1 && r[1..] == memos
    ensures r[0].id == now && r[0].content == content
    ensures r[0].createdAt == createdIso && r[0].updatedAt == updatedIso
  {
    [Memo(now, content, createdIso, updatedIso)] + memos
  }

  /**
   * Replaces the content and refreshes `updatedAt` of every memo whose id is
   * `id`; every other memo, and the order, stay as they were. All matches
   * get the same `nowIso`, although `handleUpdateMemo` reads the clock once
   * per match.
   */
  function Update(memos: seq<Memo>, id: int, content: string, nowIso: string): (r: seq<Memo>)
    ensures |r| == |memos|
    ensures forall i :: 0 <= i < |memos| && memos[i].id != id ==> r[i] == memos[i]
    ensures forall i :: 0 <= i < |memos| && memos[i].id == id ==>
              && r[i].id == id && r[i].createdAt == memos[i].createdAt
              && r[i].content == content && r[i].updatedAt == nowIso
  {
    if memos == [] then []
    else
      var m := memos[0];
      var head := if m.id == id then m.(content := content, updatedAt := nowIso) else m;
      var r := [head] + Update(memos[1..], id, content, nowIso);
      assert forall i :: 0 < i < |memos| ==> memos[i] == memos[1..][i - 1] && r[i] == r[1..][i - 1];
      r
  }

  /** Removes every memo whose id is `id`, keeping the others in order. */
  function Delete(memos: seq<Memo>, id: int): (r: seq<Memo>)
    ensures |r| == |memos| - CountId(memos, id)
    ensures forall m :: m in r <==> m in memos && m.id != id
  {
    if memos == [] then []
    else
      var rest := Delete(memos[1..], id);
      assert forall m :: m in memos <==> m == memos[0] || m in memos[1..];
      (if memos[0].id == id then [] else [memos[0]]) + rest
  }

  // ---------------------------------------------------------------------
  // Properties of the transitions
  // ---------------------------------------------------------------------

  /** Updating an id that no memo carries gives back the same list. */
  lemma UpdateAbsent(memos: seq<Memo>, id: int, content: string, nowIso: string)
    requires !HasId(memos, id)
    ensures Update(memos, id, content, nowIso) == memos
  {
  }

  /** Applying the same update twice is the same as applying it once. */
  lemma UpdateIdempotent(memos: seq<Memo>, id: int, content: string, nowIso: string)
    ensures Update(Update(memos, id, content, nowIso), id, content, nowIso) == Update(memos, id, content, nowIso)
  {
  }

  /** Deleting an id that no memo carries gives back the same list. */
  lemma {:induction false} DeleteAbsent(memos: seq<Memo>, id: int)
    requires !HasId(memos, id)
    ensures Delete(memos, id) == memos
  {
    if memos != [] {
      assert forall i :: 0 <= i < |memos| - 1 ==> memos[1..][i] == memos[i + 1];
      DeleteAbsent(memos[1..], id);
    }
  }

  /** Delete works element by element: it keeps the relative order of what it keeps. */
  lemma {:induction false} DeleteConcat(a: seq<Memo>, b: seq<Memo>, id: int)
    ensures Delete(a + b, id) == Delete(a, id) + Delete(b, id)
  {
    if a != [] {
      assert (a + b)[1..] == a[1..] + b;
      DeleteConcat(a[1..], b, id);
    } else {
      assert a + b == b;
    }
  }

  /** Deleting the same id twice is the same as deleting it once. */
  lemma DeleteIdempotent(memos: seq<Memo>, id: int)
    ensures Delete(Delete(memos, id), id) == Delete(memos, id)
  {
    DeleteAbsent(Delete(memos, id), id);
  }

  /** Deleting a freshly added memo's id undoes the add, when no older memo had that id. */
  lemma DeleteUndoesAdd(memos: seq<Memo>, content: string, now: int, nowIso: string)
    requires !HasId(memos, now)
    ensures Delete(Add(memos, content, now, nowIso), now) == memos
  {
    var added := Add(memos, content, now, nowIso);
    assert added == [added[0]] + memos;
    DeleteConcat([added[0]], memos, now);
    DeleteAbsent(memos, now);
  }

  /** Deleting a freshly added memo's id is deleting that id from the old list, whether or not it collided. */
  lemma DeleteAfterAdd(memos: seq<Memo>, content: string, now: int, nowIso: string)
    ensures Delete(Add(memos, content, now, nowIso), now) == Delete(memos, now)
  {
    var added := Add(memos, content, now, nowIso);
    assert added == [added[0]] + memos;
    DeleteConcat([added[0]], memos, now);
  }

  /** Once a memo is deleted, an update of it before the delete is invisible. */
  lemma {:induction false} DeleteAfterUpdate(memos: seq<Memo>, id: int, content: string, nowIso: string)
    ensures Delete(Update(memos, id, content, nowIso), id) == Delete(memos, id)
  {
    if memos != [] {
      var u := Update(memos, id, content, nowIso);
      assert u[1..] == Update(memos[1..], id, content, nowIso);
      DeleteAfterUpdate(memos[1..], id, content, nowIso);
    }
  }

  // ---------------------------------------------------------------------
  // Persistence
  // ---------------------------------------------------------------------

  /**
   * The initial list: the stored text parsed as JSON. An absent key, an
   * empty string (falsy in JavaScript) and a parse failure all give the
   * empty list; a parse failure is only logged.
   */
  function Load(slot: Option<string>, parse: string -> Result<seq<Memo>, string>): (r: seq<Memo>)
    ensures slot.None? ==> r == []
    ensures slot == Some("") ==> r == []
    ensures slot.Some? && slot.value != "" ==>
              match parse(slot.value)
              case Success(memos) => r == memos
              case Failure(_) => r == []
  {
    match slot
    case None => []
    case Some(text) =>
      if text == "" then []
      else
        match parse(text)
        case Success(memos) => memos
        case Failure(_) => []
  }

  /** The list and the storage slot it is mirrored to. */
  datatype Store = Store(memos: seq<Memo>, slot: Option<string>)

  /** The slot holds the serialisation of the current list. */
  predicate Persisted(s: Store, serialize: seq<Memo> -> string) {
    s.slot == Some(serialize(s.memos))
  }

  /** The effect that runs whenever the list changes: write the whole list to the slot. */
  function Commit(memos: seq<Memo>, serialize: seq<Memo> -> string): (s: Store)
    ensures s.memos == memos && Persisted(s, serialize)
  {
    Store(memos, Some(serialize(memos)))
  }

  /** Mounting the app: load the list, then the effect's first run writes it back. */
  function Open(slot: Option<string>, parse: string -> Result<seq<Memo>, string>,
                serialize: seq<Memo> -> string): (s: Store)
    ensures Persisted(s, serialize)
    ensures s.memos == Load(slot, parse)
  {
    Commit(Load(slot, parse), serialize)
  }

  /** `handleAddMemo` followed by the write-through effect. */
  function AddMemo(s: Store, content: string, now: int, nowIso: string,
                   serialize: seq<Memo> -> string): (r: Store)
    ensures r.memos == Add(s.memos, content, now, nowIso) && Persisted(r, serialize)
  {
    Commit(Add(s.memos, content, now, nowIso), serialize)
  }

  /** `handleUpdateMemo` followed by the write-through effect. */
  function UpdateMemo(s: Store, id: int, content: string, nowIso: string,
                      serialize: seq<Memo> -> string): (r: Store)
    ensures r.memos == Update(s.memos, id, content, nowIso) && Persisted(r, serialize)
  {
    Commit(Update(s.memos, id, content, nowIso), serialize)
  }

  /** `handleDeleteMemo` followed by the write-through effect. */
  function DeleteMemo(s: Store, id: int, serialize: seq<Memo> -> string): (r: Store)
    ensures r.memos == Delete(s.memos, id) && Persisted(r, serialize)
  {
    Commit(Delete(s.memos, id), serialize)
  }

  /**
   * Reopening the app on a persisted store gives the same store back,
   * provided the serialisation of its list is non-empty and parses back to it.
   */
  lemma ReopenPersisted(s: Store, parse: string -> Result<seq<Memo>, string>,
                        serialize: seq<Memo> -> string)
    requires Persisted(s, serialize)
    requires serialize(s.memos) != "" && parse(serialize(s.memos)) == Success(s.memos)
    ensures Open(s.slot, parse, serialize) == s
  {
  }
}
