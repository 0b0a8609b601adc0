/** `renderMemoList`: the rows the list view shows for a list of memos. */
module Renderer {
  import opened Store
  import opened Formatter

  /** How much of a memo's content the list shows before cutting it off. */
  const PREVIEW_LENGTH := 100

  /** The content preview: content up to 100 characters is shown whole; longer content is
      cut to its first 100 characters and marked with an ellipsis. */
  function Preview(content: string): (r: string)
    ensures |r| <= PREVIEW_LENGTH + 3
    ensures |content| <= PREVIEW_LENGTH ==> r == content
    ensures |content| > PREVIEW_LENGTH ==> |r| == PREVIEW_LENGTH + 3 && r[..PREVIEW_LENGTH] == content[..PREVIEW_LENGTH] && r[PREVIEW_LENGTH..] == "..."
  {
    if |content| > PREVIEW_LENGTH then content[..PREVIEW_LENGTH] + "..." else content
  }

  /** One list entry: the placeholder shown for an empty list, or a memo's row with its
      escaped title, escaped preview, date and the id carried by its edit and delete buttons. */
  datatype Row = NoMemos | Item(title: string, text: string, date: string, id: string)

  /** The row of one memo; a memo without a date shows the current time stamp `now`. */
  function RowOf(memo: Memo, now: string): Row {
    Item(EscapeHtml(memo.title), EscapeHtml(Preview(memo.content)),
         if memo.date == "" then now else memo.date, memo.id)
  }

  /** The title and text shown in a memo's row carry no markup characters, and decode back to
      the memo's title and to its preview. */
  lemma RowOfIsEscaped(memo: Memo, now: string)
    ensures var row := RowOf(memo, now);
      && (forall k :: 0 <= k < |row.title| ==> !IsMarkup(row.title[k]))
      && (forall k :: 0 <= k < |row.text| ==> !IsMarkup(row.text[k]))
      && UnescapeHtml(row.title) == memo.title
      && UnescapeHtml(row.text) == Preview(memo.content)
  {
    EscapeHtmlHasNoMarkup(memo.title);
    EscapeHtmlHasNoMarkup(Preview(memo.content));
    UnescapeEscapeHtml(memo.title);
    UnescapeEscapeHtml(Preview(memo.content));
  }

  /** `renderMemoList`: an empty list shows the single placeholder; otherwise one row per memo,
      in the order given. */
  method RenderMemoList(memos: seq<Memo>, now: string) returns (rows: seq<Row>)
    ensures memos == [] ==> rows == [NoMemos]
    ensures memos != [] ==> |rows| == |memos|
    ensures memos != [] ==> forall i :: 0 <= i < |memos| ==> rows[i] == RowOf(memos[i], now)
  {
    if |memos| == 0 {
      return [NoMemos];
    }
    rows := [];
    var i := 0;
    while i < |memos|
      invariant 0 <= i <= |memos|
      invariant |rows| == i
      invariant forall j :: 0 <= j < i ==> rows[j] == RowOf(memos[j], now)
    {
      rows := rows + [RowOf(memos[i], now)];
      i := i + 1;
    }
  }
}
