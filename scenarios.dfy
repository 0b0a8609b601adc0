/** Clients of the controller: the offline create and update, declined-delete and
    blank-input scenarios, proved from the controller's contracts alone. */
module Scenarios {
  import opened Wrappers
  import opened JsString
  import opened Store
  import opened Formatter
  import opened Controller

  /** With the remote API down and nothing stored, creating a memo from a non-blank title and
      content leaves exactly that one memo in the slot, with the trimmed fields and the
      `YYYY-MM-DD HH:MM` stamp of the clock reading, and renders it once. */
  method OfflineCreate(title: string, content: string, id: string, now: Stamp)
      returns (stored: seq<Memo>, renders: seq<seq<Memo>>, alerted: bool)
    requires !Blank(title) && !Blank(content)
    requires 1000 <= now.year < 10000 && 1 <= now.month <= 12 && 1 <= now.day <= 31
    requires now.hour < 24 && now.minute < 60
    ensures !alerted
    ensures stored == [Memo(id, Trim(title), Trim(content), Formatted(now))]
    ensures renders == [stored]
    ensures |stored[0].date| == 16
    ensures ParseStamp(stored[0].date) == Some(now)
  {
    var app := new MemoApp(None);
    alerted := app.CreateMemo(title, content, id, now, Failed, ListFailed);
    var memo := Memo(id, Trim(title), Trim(content), Formatted(now));
    assert [] + [memo] == [memo];
    stored := Stored(app.slot);
    renders := app.renders;
    FormattedDateLength(now.year, now.month, now.day, now.hour, now.minute);
    FormattedDateRoundTrip(now.year, now.month, now.day, now.hour, now.minute);
  }

  /** With the remote API down and two memos stored, opening the first one, editing it and
      saving a non-blank title and content rewrites that memo in place under its id, leaves
      the other memo alone, and closes the edit form. */
  method OfflineUpdate(draft: Memo, other: Memo, title: string, content: string, now: Stamp)
      returns (stored: seq<Memo>, editHidden: bool)
    requires draft.id != "" && other.id != draft.id
    requires !Blank(title) && !Blank(content)
    ensures stored == [Memo(draft.id, Trim(title), Trim(content), Formatted(now)), other]
    ensures editHidden
  {
    var updated := Memo(draft.id, Trim(title), Trim(content), Formatted(now));
    ReplaceFirstOfTwo(draft, other, updated);
    var app := new MemoApp(Some([draft, other]));
    app.ShowEditForm(draft);
    assert app.Selected() && app.slot == Some([draft, other]);
    var alerted := app.UpdateMemo(title, content, now, Failed, ListFailed);
    assert app.slot == Some([updated, other]);
    stored := Stored(app.slot);
    editHidden := app.editHidden;
  }

  /** Rewriting the first entry's id in a two-entry list whose second entry has another id. */
  lemma ReplaceFirstOfTwo(first: Memo, second: Memo, updated: Memo)
    requires second.id != first.id
    ensures ReplaceById([first, second], first.id, updated) == [updated, second]
  {
    var r := ReplaceById([first, second], first.id, updated);
    assert r[0] == updated && r[1] == second;
  }

  /** Declining the confirmation of a delete changes nothing, sends nothing and renders
      nothing. */
  method DeclinedDelete(memos: seq<Memo>)
      returns (stored: Option<seq<Memo>>, requests: seq<Request>, renders: seq<seq<Memo>>)
    ensures stored == Some(memos) && requests == [] && renders == []
  {
    var app := new MemoApp(Some(memos));
    app.DeleteMemo("42", false, Failed, ListFailed);
    stored := app.slot;
    requests := app.sent;
    renders := app.renders;
  }

  /** Blank input never reaches the remote API, the slot or the rendered list. */
  method BlankCreate(memos: seq<Memo>, remote: Outcome, now: Stamp)
      returns (stored: Option<seq<Memo>>, requests: seq<Request>, renders: seq<seq<Memo>>, alerted: bool)
    ensures alerted && stored == Some(memos) && requests == [] && renders == []
  {
    TrimEmptyIff(" \t");
    var app := new MemoApp(Some(memos));
    alerted := app.CreateMemo(" \t", "X", "1", now, remote, ListFailed);
    stored := app.slot;
    requests := app.sent;
    renders := app.renders;
  }
}
