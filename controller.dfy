/** The application controller of app.js: the selected memo, which of the two forms is
    visible, the fallback slot in local storage, the log of every list rendered, and the
    requests sent to the remote memo API. */
module Controller {
  import opened Wrappers
  import opened JsString
  import opened Store
  import opened Formatter

  /** How a create, update or delete request to the remote API ended: `response.ok`, or a
      failed status or network error (both lead to the `catch` branch). */
  datatype Outcome = Succeeded | Failed

  /** How `GET /api/memos` ended: the memos it returned, or a failure of any kind. */
  datatype Listing = Listed(memos: seq<Memo>) | ListFailed

  /** A request issued to the remote memo API. */
  datatype Request = GetAll | Post(memo: Memo) | Put(id: string, memo: Memo) | Delete(id: string)

  /** What `loadMemos` renders for a given outcome of the list request. */
  function Loaded(listing: Listing, slot: Option<seq<Memo>>): seq<Memo> {
    if listing.Listed? then listing.memos else Stored(slot)
  }

  /** The time stamp `getFormattedDate` produces for the clock reading `now`. */
  function Formatted(now: Stamp): string {
    FormattedDate(now.year, now.month, now.day, now.hour, now.minute)
  }

  /** A form field fails validation when it is empty after `trim()`. */
  predicate Blank(input: string) {
    Trim(input) == []
  }

  class MemoApp {
    /** `currentMemoId`: the memo open in the edit form, `null` when none. */
    var currentMemoId: Option<string>
    /** Whether the create form (`memo-form`) has the class `hidden`. */
    var createHidden: bool
    /** Whether the edit form (`memo-edit`) has the class `hidden`. */
    var editHidden: bool
    /** The local storage slot `"memos"`; `None` while it was never written. */
    var slot: Option<seq<Memo>>
    /** Every list handed to `renderMemoList`, in order. */
    var renders: seq<seq<Memo>>
    /** Every request issued to the remote API, in order. */
    var sent: seq<Request>

    /** Exactly one of the two forms is visible, and a memo is selected exactly while the edit
        form is the visible one. */
    ghost predicate Valid()
      reads this
    {
      createHidden == !editHidden && (currentMemoId.Some? <==> createHidden)
    }

    /** `if (!currentMemoId)` fails for `null` and, JavaScript's falsy string, for `""`. */
    predicate Selected()
      reads this
    {
      currentMemoId.Some? && currentMemoId.value != ""
    }

    /** The page as loaded: no memo selected, the create form showing, nothing rendered or
        sent yet; `stored` is whatever the slot held from earlier visits. */
    constructor (stored: Option<seq<Memo>>)
      ensures Valid()
      ensures currentMemoId == None && !createHidden && editHidden
      ensures slot == stored && renders == [] && sent == []
    {
      currentMemoId := None;
      createHidden, editHidden := false, true;
      slot := stored;
      renders, sent := [], [];
    }

    /** `loadMemos`: ask the remote API for the list; render it, or the fallback slot (the
        empty list when the slot is absent) if the request fails. */
    method LoadMemos(listing: Listing)
      modifies this`renders, this`sent
      ensures sent == old(sent) + [GetAll]
      ensures renders == old(renders) + [Loaded(listing, slot)]
    {
      sent := sent + [GetAll];
      if listing.Listed? {
        renders := renders + [listing.memos];
      } else {
        renders := renders + [Stored(slot)];
      }
    }

    /** `showEditForm`: select the memo and switch to the edit form. */
    method ShowEditForm(memo: Memo)
      modifies this`currentMemoId, this`createHidden, this`editHidden
      ensures Valid()
      ensures currentMemoId == Some(memo.id) && createHidden && !editHidden
    {
      currentMemoId := Some(memo.id);
      createHidden := true;
      editHidden := false;
    }

    /** `cancelEdit`: drop the selection and switch back to the create form. */
    method CancelEdit()
      modifies this`currentMemoId, this`createHidden, this`editHidden
      ensures Valid()
      ensures currentMemoId == None && !createHidden && editHidden
    {
      currentMemoId := None;
      createHidden := false;
      editHidden := true;
    }

    /** `createMemo`: reject blank input with an alert and no other effect; otherwise post the
        new memo (trimmed fields, the given id, stamped by `getFormattedDate` with the clock
        reading `now`) and either reload the list or, when the post fails, append the memo to
        the fallback slot and render the slot. */
    method CreateMemo(titleInput: string, contentInput: string, id: string, now: Stamp,
                      remote: Outcome, listing: Listing) returns (alerted: bool)
      requires Valid()
      modifies this`slot, this`renders, this`sent
      ensures Valid()
      ensures alerted <==> Blank(titleInput) || Blank(contentInput)
      ensures alerted ==> slot == old(slot) && renders == old(renders) && sent == old(sent)
      ensures !alerted ==>
        var memo := Memo(id, Trim(titleInput), Trim(contentInput), Formatted(now));
        && sent == old(sent) + [Post(memo)] + (if remote == Succeeded then [GetAll] else [])
        && (remote == Succeeded ==> slot == old(slot) && renders == old(renders) + [Loaded(listing, slot)])
        && (remote == Failed ==> slot == Some(Stored(old(slot)) + [memo]) && renders == old(renders) + [Stored(slot)])
    {
      var title := Trim(titleInput);
      var content := Trim(contentInput);
      alerted := title == [] || content == [];
      if !alerted {
        var memo := Memo(id, title, content, Formatted(now));
        SendPost(memo, remote, listing);
      }
    }

    /** The `try`/`catch` part of `createMemo`, once the memo is built. */
    method SendPost(memo: Memo, remote: Outcome, listing: Listing)
      requires Valid()
      modifies this`slot, this`renders, this`sent
      ensures Valid()
      ensures sent == old(sent) + [Post(memo)] + (if remote == Succeeded then [GetAll] else [])
      ensures remote == Succeeded ==> slot == old(slot) && renders == old(renders) + [Loaded(listing, slot)]
      ensures remote == Failed ==> slot == Some(Stored(old(slot)) + [memo]) && renders == old(renders) + [Stored(slot)]
    {
      sent := sent + [Post(memo)];
      if remote == Succeeded {
        LoadMemos(listing);
      } else {
        var storedMemos := Stored(slot);
        storedMemos := storedMemos + [memo];
        slot := Some(storedMemos);
        renders := renders + [storedMemos];
      }
    }

    /** `updateMemo`: nothing without a selection; blank input is rejected with an alert and
        no other effect; otherwise put the memo (selected id, trimmed fields, stamped by
        `getFormattedDate` with the clock reading `now`), on failure rewrite every entry with
        that id in the fallback slot and render the slot, and in both cases close the edit form; on success reload the list. */
    method UpdateMemo(titleInput: string, contentInput: string, now: Stamp,
                      remote: Outcome, listing: Listing) returns (alerted: bool)
      requires Valid()
      modifies this
      ensures Valid()
      ensures !old(Selected()) ==> !alerted
      ensures alerted <==> old(Selected()) && (Blank(titleInput) || Blank(contentInput))
      ensures !old(Selected()) || alerted ==>
        && currentMemoId == old(currentMemoId) && createHidden == old(createHidden)
        && editHidden == old(editHidden) && slot == old(slot) && renders == old(renders)
        && sent == old(sent)
      ensures old(Selected()) && !alerted ==>
        var id := old(currentMemoId).value;
        var memo := Memo(id, Trim(titleInput), Trim(contentInput), Formatted(now));
        && currentMemoId == None && !createHidden && editHidden
        && sent == old(sent) + [Put(id, memo)] + (if remote == Succeeded then [GetAll] else [])
        && (remote == Succeeded ==> slot == old(slot) && renders == old(renders) + [Loaded(listing, slot)])
        && (remote == Failed ==> slot == Some(ReplaceById(Stored(old(slot)), id, memo)) && renders == old(renders) + [Stored(slot)])
    {
      if !Selected() {
        return false;
      }
      var title := Trim(titleInput);
      var content := Trim(contentInput);
      if title == [] || content == [] {
        return true;
      }
      var id := currentMemoId.value;
      var memo := Memo(id, title, content, Formatted(now));
      SendPut(id, memo, remote, listing);
      return false;
    }

    /** The `try`/`catch` part of `updateMemo`, once the memo is built; both branches close
        the edit form. */
    method SendPut(id: string, memo: Memo, remote: Outcome, listing: Listing)
      modifies this
      ensures Valid()
      ensures currentMemoId == None && !createHidden && editHidden
      ensures sent == old(sent) + [Put(id, memo)] + (if remote == Succeeded then [GetAll] else [])
      ensures remote == Succeeded ==> slot == old(slot) && renders == old(renders) + [Loaded(listing, slot)]
      ensures remote == Failed ==> slot == Some(ReplaceById(Stored(old(slot)), id, memo)) && renders == old(renders) + [Stored(slot)]
    {
      sent := sent + [Put(id, memo)];
      if remote == Succeeded {
        CancelEdit();
        LoadMemos(listing);
      } else {
        var updatedMemos := ReplaceById(Stored(slot), id, memo);
        slot := Some(updatedMemos);
        CancelEdit();
        renders := renders + [updatedMemos];
      }
    }

    /** `deleteMemo`: nothing unless the user confirms; otherwise send the delete and either
        reload the list or, when it fails, drop every memo with that id from the fallback slot
        and render the slot. The selection and the forms are not touched. */
    method DeleteMemo(id: string, confirmed: bool, remote: Outcome, listing: Listing)
      requires Valid()
      modifies this`slot, this`renders, this`sent
      ensures Valid()
      ensures !confirmed ==> slot == old(slot) && renders == old(renders) && sent == old(sent)
      ensures confirmed ==>
        && sent == old(sent) + [Delete(id)] + (if remote == Succeeded then [GetAll] else [])
        && (remote == Succeeded ==> slot == old(slot) && renders == old(renders) + [Loaded(listing, slot)])
        && (remote == Failed ==> slot == Some(RemoveById(Stored(old(slot)), id)) && renders == old(renders) + [Stored(slot)])
    {
      if !confirmed {
        return;
      }
      sent := sent + [Delete(id)];
      if remote == Succeeded {
        LoadMemos(listing);
      } else {
        var updatedMemos := RemoveById(Stored(slot), id);
        slot := Some(updatedMemos);
        renders := renders + [updatedMemos];
      }
    }
  }
}
