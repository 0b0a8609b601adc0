/** The memo record and the list operations of the local fallback store (the `"memos"` slot). */
module Store {
  import opened Wrappers

  /** A memo as app.js builds it: `{ id, title, content, date }`. */
  datatype Memo = Memo(id: string, title: string, content: string, date: string)

  /** `JSON.parse(localStorage.getItem("memos") || "[]")`: the stored list, and the empty list
      when the slot was never written. */
  function Stored(slot: Option<seq<Memo>>): (memos: seq<Memo>)
    ensures slot == None ==> memos == []
    ensures slot.Some? ==> memos == slot.value
  {
    slot.GetOr([])
  }

  /** The `map` of the fallback update: every memo whose id is `id` becomes `updated`. */
  function ReplaceById(memos: seq<Memo>, id: string, updated: Memo): (r: seq<Memo>)
    ensures |r| == |memos|
    ensures forall i :: 0 <= i < |memos| ==> r[i] == if memos[i].id == id then updated else memos[i]
  {
    if memos == [] then []
    else [if memos[0].id == id then updated else memos[0]] + ReplaceById(memos[1..], id, updated)
  }

  /** The `filter` of the fallback delete: the memos whose id is not `id`, in their order. */
  function RemoveById(memos: seq<Memo>, id: string): (r: seq<Memo>)
    ensures |r| <= |memos|
    ensures forall i :: 0 <= i < |r| ==> r[i].id != id
  {
    if memos == [] then []
    else (if memos[0].id == id then [] else [memos[0]]) + RemoveById(memos[1..], id)
  }

  /** A memo survives the delete exactly when it was in the list and carries another id. */
  lemma {:induction false} RemoveByIdMembers(memos: seq<Memo>, id: string)
    ensures forall m :: m in RemoveById(memos, id) <==> m in memos && m.id != id
  {
    if memos != [] {
      RemoveByIdMembers(memos[1..], id);
      assert memos == [memos[0]] + memos[1..];
    }
  }

  /** Filtering keeps order: filtering a concatenation filters each part in place. */
  lemma {:induction false} RemoveByIdConcat(a: seq<Memo>, b: seq<Memo>, id: string)
    ensures RemoveById(a + b, id) == RemoveById(a, id) + RemoveById(b, id)
  {
    if a != [] {
      var head := if a[0].id == id then [] else [a[0]];
      assert (a + b)[0] == a[0];
      assert (a + b)[1..] == a[1..] + b;
      assert RemoveById(a + b, id) == head + RemoveById(a[1..] + b, id);
      assert RemoveById(a, id) == head + RemoveById(a[1..], id);
      RemoveByIdConcat(a[1..], b, id);
    } else {
      assert a + b == b;
    }
  }

  /** A list with no memo carrying `id` is left exactly as it was. */
  lemma {:induction false} RemoveByIdAbsent(memos: seq<Memo>, id: string)
    requires forall i :: 0 <= i < |memos| ==> memos[i].id != id
    ensures RemoveById(memos, id) == memos
  {
    if memos != [] {
      RemoveByIdAbsent(memos[1..], id);
    }
  }

  /** Deleting twice is deleting once. */
  lemma RemoveByIdIdempotent(memos: seq<Memo>, id: string)
    ensures RemoveById(RemoveById(memos, id), id) == RemoveById(memos, id)
  {
    RemoveByIdAbsent(RemoveById(memos, id), id);
  }

  /** The number of memos in `memos` that carry `id`. */
  function CountId(memos: seq<Memo>, id: string): nat {
    if memos == [] then 0 else (if memos[0].id == id then 1 else 0) + CountId(memos[1..], id)
  }

  /** Deleting removes exactly the memos that carry `id`, no more and no fewer. */
  lemma {:induction false} RemoveByIdLength(memos: seq<Memo>, id: string)
    ensures |RemoveById(memos, id)| == |memos| - CountId(memos, id)
  {
    if memos != [] {
      RemoveByIdLength(memos[1..], id);
    }
  }

  /** Updating twice with the same memo is updating once, when the memo keeps the id. */
  lemma ReplaceByIdIdempotent(memos: seq<Memo>, id: string, updated: Memo)
    requires updated.id == id
    ensures ReplaceById(ReplaceById(memos, id, updated), id, updated) == ReplaceById(memos, id, updated)
  {
  }
}
