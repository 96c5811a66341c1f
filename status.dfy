/**
 * The task status: a fixed cycle of five labels that a click on a status
 * badge advances, and the badge colour of each label.
 */
module Status {
  import opened Prelude

  const Waiting := "대기"
  const InProgress := "진행중"
  const Done := "완료"
  const OnHold := "보류"
  const Problem := "문제"

  /** `statusOrder`. */
  const Order: seq<string> := [Waiting, InProgress, Done, OnHold, Problem]

  /** `statusColors`: the Bootstrap colour name of each status badge. */
  const Colors: map<string, string> :=
    map[Waiting := "secondary", InProgress := "primary", Done := "success",
        OnHold := "warning", Problem := "danger"]

  /** The colour of a badge whose status is not in `statusColors`. */
  const Fallback := "secondary"

  /**
   * The next-state rule of `changeStatus`, written out status by status:
   * each label moves to the one after it, `문제` wraps around to `대기`, and
   * any other label moves to `대기`, so a click always changes the label.
   * `NextIsIndexSuccessor` shows this is the scripts' index arithmetic on
   * `statusOrder`.
   */
  function Next(current: string): (next: string)
    ensures next != current
  {
    if current == Waiting then InProgress
    else if current == InProgress then Done
    else if current == Done then OnHold
    else if current == OnHold then Problem
    else Waiting
  }

  /** `n` clicks on a badge. */
  function NextN(current: string, n: nat): string
    decreases n
  {
    if n == 0 then current else NextN(Next(current), n - 1)
  }

  /** The five labels are distinct, so `indexOf` finds each at its own position. */
  lemma IndexOfOrder(i: nat)
    requires i < |Order|
    ensures IndexOf(Order, Order[i]) == i
  {
    IndexOfUnique(Order, Order[i], i);
  }

  /**
   * `statusOrder[(statusOrder.indexOf(current) + 1) % statusOrder.length]`:
   * an unknown label has index -1 and so also lands on the first status.
   */
  lemma NextIsIndexSuccessor(current: string)
    ensures Next(current) == Order[(IndexOf(Order, current) + 1) % |Order|]
  {
    if current in Order {
      var i :| 0 <= i < |Order| && Order[i] == current;
      IndexOfOrder(i);
      NextOfKnown(i);
    }
  }

  /** A known status moves to the next one in the order, the last wrapping to the first. */
  lemma NextOfKnown(i: nat)
    requires i < |Order|
    ensures Next(Order[i]) == Order[(i + 1) % |Order|]
  {
  }

  /** Any label outside the order (including a blank cell) moves to the first status. */
  lemma NextOfUnknown(current: string)
    requires current !in Order
    ensures Next(current) == Waiting
  {
  }

  /** The last status, `문제`, wraps around to `대기`. */
  lemma NextWraps()
    ensures Next(Problem) == Waiting
  {
    NextOfKnown(4);
  }

  /** Clicking `a` times and then `b` times is clicking `a + b` times. */
  lemma {:induction false} NextNAdd(current: string, a: nat, b: nat)
    ensures NextN(current, a + b) == NextN(NextN(current, a), b)
    decreases a
  {
    if a > 0 {
      NextNAdd(Next(current), a - 1, b);
    }
  }

  /** The cycle has period five: five clicks return any known status to itself. */
  lemma NextCycle(current: string)
    requires current in Order
    ensures NextN(current, |Order|) == current
  {
    assert NextN(Waiting, 5) == Waiting;
    assert NextN(InProgress, 5) == InProgress;
    assert NextN(Done, 5) == Done;
    assert NextN(OnHold, 5) == OnHold;
    assert NextN(Problem, 5) == Problem;
  }

  /** Only the number of clicks modulo five matters for a known status. */
  lemma {:induction false} NextNPeriodic(current: string, k: nat)
    requires current in Order
    ensures NextN(current, k) == NextN(current, k % |Order|)
    decreases k
  {
    if k >= |Order| {
      NextNAdd(current, |Order|, k - |Order|);
      NextCycle(current);
      NextNPeriodic(current, k - |Order|);
      assert (k - |Order|) % |Order| == k % |Order|;
    }
  }

  /** Every status in the order has a colour, and nothing else has one. */
  lemma ColorsCoverOrder()
    ensures Colors.Keys == set s | s in Order
  {
  }

  /**
   * `statusColors[status] || 'secondary'`: the badge colour of a row.
   * A missing status cell (`undefined`) or an unknown label gets the fallback,
   * as does `대기`, whose own colour is the same.
   */
  function ColorOf(status: Option<string>): (color: string)
    ensures status.Some? && status.value in Order ==> color == Colors[status.value]
    ensures color == Fallback <==> status.None? || status.value !in Order || status.value == Waiting
  {
    match status
    case Some(s) => if s in Colors then Colors[s] else Fallback
    case None => Fallback
  }
}
