/**
 * The two edits a viewer can make on a task row: clicking the status badge
 * advances the status, and the `추가` button replaces the memo with what the
 * viewer typed. In detailed_process_script.js each edit is also sent to the
 * sheet's web app as a small JSON request; only the request's content is
 * modelled, not its delivery.
 */
module Updates {
  import opened Prelude
  import opened Text
  import opened Csv
  import opened Status

  const UpdateStatusAction := "updateStatus"
  const AddMemoAction := "addMemo"

  /** The body of the request `updateGoogleSheet` posts. */
  datatype Payload = Payload(action: string, rowIndex: int, column: string, value: string)

  /**
   * The request for writing `value` into `column` of sheet line `rowIndex`:
   * the status column is written with `updateStatus`, any other column with
   * `addMemo`; the address and value travel unchanged.
   */
  function UpdatePayload(rowIndex: int, column: string, value: string): (p: Payload)
    ensures p.action == UpdateStatusAction <==> column == StatusColumn
    ensures p.action == AddMemoAction <==> column != StatusColumn
    ensures p.rowIndex == rowIndex && p.column == column && p.value == value
  {
    Payload(if column == StatusColumn then UpdateStatusAction else AddMemoAction, rowIndex, column, value)
  }

  /**
   * What `addMemo` sends for the answer of `prompt` (`None` when the dialog is
   * cancelled): nothing for a cancelled or empty answer, otherwise an `addMemo`
   * request writing the answer into the memo column.
   */
  function MemoRequest(rowIndex: int, input: Option<string>): (request: Option<Payload>)
    ensures request.Some? <==> input.Some? && input.value != ""
    ensures request.Some? ==> request.value.action == AddMemoAction && request.value.column == MemoColumn
    ensures request.Some? ==> request.value.rowIndex == rowIndex && request.value.value == input.value != ""
  {
    if input.Some? && input.value != "" then Some(UpdatePayload(rowIndex, MemoColumn, input.value)) else None
  }

  /**
   * The five labels have no surrounding whitespace, so the `trim` of a badge
   * that has been clicked is its label again, and the next click continues
   * the cycle from there.
   */
  lemma LabelsTrimmed(i: nat)
    requires i < |Order|
    ensures Trim(Order[i]) == Order[i]
  {
    assert !IsWhitespace(Order[i][0]) && !IsWhitespace(Order[i][|Order[i]| - 1]);
  }

  /**
   * The label a click leaves on a badge is trimmed, so `trim` on the next
   * click returns it unchanged and the cycle continues from it.
   */
  lemma NextIsTrimmed(current: string)
    ensures Trim(Next(current)) == Next(current)
  {
    var i := if current == Waiting then 1 else if current == InProgress then 2
      else if current == Done then 3 else if current == OnHold then 4 else 0;
    assert Next(current) == Order[i];
    LabelsTrimmed(i);
  }

  /** The badge text after `n` clicks, each click trimming the text and advancing it. */
  function Clicks(text: string, n: nat): string
    decreases n
  {
    if n == 0 then text else Clicks(Next(Trim(text)), n - 1)
  }

  /**
   * Repeated clicks walk the status cycle: after the first click the text is a
   * trimmed label, so every later click advances it by one more step.
   */
  lemma {:induction false} ClicksFollowCycle(text: string, n: nat)
    requires n >= 1
    ensures Clicks(text, n) == NextN(Trim(text), n)
    decreases n
  {
    if n > 1 {
      var next := Next(Trim(text));
      NextIsTrimmed(Trim(text));
      ClicksFollowCycle(next, n - 1);
      assert NextN(Trim(next), n - 1) == NextN(next, n - 1);
    }
  }

  /**
   * A status badge: its text and its Bootstrap colour. The colour always
   * belongs to the label the badge shows.
   */
  class Badge {
    var text: string
    var color: string

    /**
     * The badge as `render` draws it for a task whose status cell is `status`:
     * a missing cell prints as "undefined", and the colour falls back to
     * `secondary` for anything outside the order.
     */
    constructor(status: Option<string>)
      ensures text == (if status.Some? then status.value else "undefined")
      ensures color == ColorOf(status) == ColorOf(Some(text))
    {
      text := if status.Some? then status.value else "undefined";
      color := ColorOf(status);
    }

    /** The next label and its colour, computed as the scripts do through the label's index. */
    static method Advance(current: string) returns (next: string, nextColor: string)
      ensures next == Next(current) && next in Order
      ensures nextColor == Colors[next] == ColorOf(Some(next))
    {
      var index := IndexOf(Order, current);
      var nextIndex := (index + 1) % |Order|;
      next := Order[nextIndex];
      NextIsIndexSuccessor(current);
      ColorsCoverOrder();
      nextColor := Colors[next];
    }

    /** `changeStatus` in script.js: the badge moves to the next status and takes its colour. */
    method CycleStatus()
      modifies this
      ensures text == Next(Trim(old(text))) && text in Order
      ensures color == Colors[text]
    {
      var next, nextColor := Advance(Trim(text));
      text, color := next, nextColor;
    }

    /**
     * `changeStatus` in detailed_process_script.js: as in script.js, and the
     * new status is sent to the sheet as an `updateStatus` request for the row.
     */
    method ChangeStatus(rowIndex: int) returns (request: Payload)
      modifies this
      ensures text == Next(Trim(old(text))) && text in Order
      ensures color == Colors[text]
      ensures request == UpdatePayload(rowIndex, StatusColumn, text)
      ensures request.action == UpdateStatusAction
    {
      CycleStatus();
      request := UpdatePayload(rowIndex, StatusColumn, text);
    }
  }

  /** The memo cell of a task row. */
  class MemoCell {
    var text: string

    constructor(memo: string)
      ensures text == memo
    {
      text := memo;
    }

    /** `addMemo` in script.js: a non-empty answer replaces the cell's text; otherwise nothing changes. */
    method EditMemo(input: Option<string>)
      modifies this
      ensures input.Some? && input.value != "" ==> text == input.value
      ensures !(input.Some? && input.value != "") ==> text == old(text)
    {
      if input.Some? && input.value != "" {
        text := input.value;
      }
    }

    /**
     * `addMemo` in detailed_process_script.js: as in script.js, and a
     * non-empty answer is also sent to the sheet; an empty one sends nothing.
     */
    method AddMemo(input: Option<string>, rowIndex: int) returns (request: Option<Payload>)
      modifies this
      ensures request == MemoRequest(rowIndex, input)
      ensures request.Some? ==> text == input.value
      ensures request.None? ==> text == old(text)
    {
      request := None;
      if input.Some? && input.value != "" {
        text := input.value;
        request := Some(UpdatePayload(rowIndex, MemoColumn, input.value));
      }
    }
  }
}
