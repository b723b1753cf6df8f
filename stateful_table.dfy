/**
 * The selection cursor of a table view (`StatefulTable` in src/util/stateful_table.rs).
 *
 * The table holds a fixed list of rows and an optional selected index.
 * `Next` and `Previous` move the selection with wrap-around.  The index
 * arithmetic of the source computes `len - 1` on an unsigned length, so it
 * underflows on an empty list; the model states that as a precondition
 * instead of pretending the empty case is handled.
 */
module Table {
  import opened Wrappers

  /** The index `next` selects, given the current selection and the row count. */
  function NextIndex(selected: Option<nat>, len: nat): (i: nat)
    requires selected.Some? ==> len > 0  // `len - 1` must not underflow
    ensures selected.None? ==> i == 0
    ensures len > 0 && (selected.None? || selected.value < len) ==> i < len
    ensures i == 0 || (selected.Some? && i == selected.value + 1 && i < len)
    ensures selected.Some? && selected.value + 1 < len ==> i == selected.value + 1
  {
    match selected
    case None => 0
    case Some(i) => if i >= len - 1 then 0 else i + 1
  }

  /** The index `previous` selects, given the current selection and the row count. */
  function PreviousIndex(selected: Option<nat>, len: nat): (i: nat)
    requires selected == Some(0) ==> len > 0  // `len - 1` must not underflow
    ensures selected.None? ==> i == 0
    ensures len > 0 && (selected.None? || selected.value < len) ==> i < len
    ensures selected == Some(0) ==> i == len - 1
    ensures selected.Some? && selected.value > 0 ==> i + 1 == selected.value
  {
    match selected
    case None => 0
    case Some(i) => if i == 0 then len - 1 else i - 1
  }

  class StatefulTable {
    /** The rows, fixed when the table is built. */
    const items: seq<seq<string>>
    var selected: Option<nat>

    /** The selection is absent or points at a row. */
    predicate InBounds()
      reads this
    {
      selected.Some? ==> selected.value < |items|
    }

    constructor (items: seq<seq<string>>)
      ensures this.items == items && selected == None
      ensures InBounds()
    {
      this.items := items;
      selected := None;
    }

    method Next()
      requires selected.Some? ==> |items| > 0
      modifies this
      ensures selected == Some(NextIndex(old(selected), |items|))
      ensures old(|items| > 0 && InBounds()) ==> InBounds()
    {
      var i := match selected
        case Some(i) => if i >= |items| - 1 then 0 else i + 1
        case None => 0;
      selected := Some(i);
    }

    method Previous()
      requires selected == Some(0) ==> |items| > 0
      modifies this
      ensures selected == Some(PreviousIndex(old(selected), |items|))
      ensures old(|items| > 0 && InBounds()) ==> InBounds()
    {
      var i := match selected
        case Some(i) => if i == 0 then |items| - 1 else i - 1
        case None => 0;
      selected := Some(i);
    }

    method Items() returns (rows: seq<seq<string>>)
      ensures rows == items
    {
      rows := items;
    }
  }

  /** The selection after `k` calls of `next` starting from index `i`. */
  function NextTimes(i: nat, k: nat, len: nat): (r: nat)
    requires i < len
    ensures r < len
  {
    if k == 0 then i else NextIndex(Some(NextTimes(i, k - 1, len)), len)
  }

  /** The selection after `k` calls of `previous` starting from index `i`. */
  function PreviousTimes(i: nat, k: nat, len: nat): (r: nat)
    requires i < len
    ensures r < len
  {
    if k == 0 then i else PreviousIndex(Some(PreviousTimes(i, k - 1, len)), len)
  }

  /** Running `next` `a` times and then `b` times is running it `a + b` times. */
  lemma {:induction false} NextTimesCompose(i: nat, a: nat, b: nat, len: nat)
    requires i < len
    ensures NextTimes(i, a + b, len) == NextTimes(NextTimes(i, a, len), b, len)
  {
    if b > 0 {
      NextTimesCompose(i, a, b - 1, len);
    }
  }

  /** Running `previous` `a` times and then `b` times is running it `a + b` times. */
  lemma {:induction false} PreviousTimesCompose(i: nat, a: nat, b: nat, len: nat)
    requires i < len
    ensures PreviousTimes(i, a + b, len) == PreviousTimes(PreviousTimes(i, a, len), b, len)
  {
    if b > 0 {
      PreviousTimesCompose(i, a, b - 1, len);
    }
  }

  /**
   * From an in-range index, `k` calls of `next` move forward `k` rows while
   * they stay on the list, and the call that passes the last row lands on 0.
   */
  lemma {:induction false} NextTimesAdvances(i: nat, k: nat, len: nat)
    requires i < len
    ensures i + k < len ==> NextTimes(i, k, len) == i + k
    ensures i + k == len ==> NextTimes(i, k, len) == 0
  {
    if k > 0 {
      NextTimesAdvances(i, k - 1, len);
    }
  }

  /**
   * From an in-range index, `k <= i` calls of `previous` move back `k` rows,
   * and one more call past row 0 lands on the last row.
   */
  lemma {:induction false} PreviousTimesRetreats(i: nat, k: nat, len: nat)
    requires i < len
    ensures k <= i ==> PreviousTimes(i, k, len) == i - k
    ensures k == i + 1 ==> PreviousTimes(i, k, len) == len - 1
  {
    if k > 0 {
      PreviousTimesRetreats(i, k - 1, len);
    }
  }

  /** Calling `next` (or `previous`) once per row returns to the starting row. */
  lemma FullCycleReturns(i: nat, len: nat)
    requires i < len
    ensures NextTimes(i, len, len) == i
    ensures PreviousTimes(i, len, len) == i
  {
    NextTimesAdvances(i, len - i, len);
    NextTimesCompose(i, len - i, i, len);
    NextTimesAdvances(0, i, len);
    PreviousTimesRetreats(i, i + 1, len);
    PreviousTimesCompose(i, i + 1, len - 1 - i, len);
    PreviousTimesRetreats(len - 1, len - 1 - i, len);
  }

  /** On an in-range selection, `previous` undoes `next` and `next` undoes `previous`. */
  lemma NextPreviousInverse(i: nat, len: nat)
    requires i < len
    ensures PreviousIndex(Some(NextIndex(Some(i), len)), len) == i
    ensures NextIndex(Some(PreviousIndex(Some(i), len)), len) == i
  {
  }

  /**
   * A client of a table built over no rows: one `next`, or one `previous`,
   * selects index 0 of the empty list.  In that state the precondition of
   * both operations fails, so a second call would compute `0 - 1` on an
   * unsigned length.
   */
  method EmptyTableReachesUnderflow() returns (afterNext: StatefulTable, afterPrevious: StatefulTable)
    ensures fresh(afterNext) && afterNext.items == [] && afterNext.selected == Some(0)
    ensures fresh(afterPrevious) && afterPrevious.items == [] && afterPrevious.selected == Some(0)
  {
    afterNext := new StatefulTable([]);
    afterNext.Next();
    afterPrevious := new StatefulTable([]);
    afterPrevious.Previous();
  }
}
