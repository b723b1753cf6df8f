/**
 * The key loop of the `reports` command (`show_reports_action` in
 * src/main.rs): the cursor starts at column 1, row 1; `j` moves it down a
 * row, `k` moves it up a row while the row is greater than 1, `q` and Ctrl-c end
 * the loop, and any other key is ignored.  After every key that does not
 * end the loop the cursor is positioned once at its current place.
 */
module Cursor {
  import opened Wrappers

  /** The row type of a terminal position (`u16`). */
  newtype u16 = x: int | 0 <= x < 0x1_0000

  const U16Max: u16 := 0xFFFF

  /** A key as read from the terminal; `Other` stands for every key that is neither a character nor a control chord. */
  datatype Key = Char(c: char) | Ctrl(c: char) | Other

  datatype Pos = Pos(x: u16, y: u16)

  /** The column of the cursor, fixed for the whole loop. */
  const CursorX: u16 := 1

  /**
   * The loop's state after reading some keys: the cursor row, every cursor
   * placement written so far, the number of keys read, and whether a quit
   * key has ended the loop.
   */
  datatype Screen = Screen(cursorY: u16, moves: seq<Pos>, read: nat, stopped: bool)

  predicate IsQuit(k: Key)
  {
    k == Char('q') || k == Ctrl('c')
  }

  /** The loop body for one key: `None` when the key ends the loop, otherwise the new row. */
  function KeyStep(y: u16, k: Key): (r: Option<u16>)
    requires k == Char('j') ==> y < U16Max  // `cursor_y += 1` must not overflow
    ensures r.None? <==> IsQuit(k)
    ensures k == Char('j') ==> r == Some(y + 1)
    ensures k == Char('k') ==> r == Some(if y > 1 then y - 1 else y)
    ensures r.Some? && k != Char('j') && k != Char('k') ==> r == Some(y)
  {
    match k
    case Char('q') => None
    case Ctrl('c') => None
    case Char('j') => Some(y + 1)
    case Char('k') => if y > 1 then Some(y - 1) else Some(y)
    case _ => Some(y)
  }

  /** Where the loop is after the given keys have been offered to it. */
  function Run(keys: seq<Key>): (s: Screen)
    requires |keys| < U16Max as int
    ensures 1 <= s.cursorY as int <= 1 + |keys|
    ensures s.read <= |keys|
    ensures s.moves != [] && s.moves[|s.moves| - 1] == Pos(CursorX, s.cursorY)
    ensures |s.moves| == 1 + s.read - (if s.stopped then 1 else 0)
    ensures !s.stopped ==> s.read == |keys|
  {
    if keys == [] then Screen(1, [Pos(CursorX, 1)], 0, false)
    else
      var s := Run(keys[..|keys| - 1]);
      if s.stopped then s
      else
        var next := KeyStep(s.cursorY, keys[|keys| - 1]);
        if next.None? then s.(read := s.read + 1, stopped := true)
        else Screen(next.value, s.moves + [Pos(CursorX, next.value)], s.read + 1, false)
  }

  /** Every placement the loop writes is in the cursor's column, on row 1 or below. */
  lemma {:induction false} RunMovesInColumn(keys: seq<Key>)
    requires |keys| < U16Max as int
    ensures forall i :: 0 <= i < |Run(keys).moves| ==>
      Run(keys).moves[i].x == CursorX && Run(keys).moves[i].y >= 1
  {
    if keys != [] {
      RunMovesInColumn(keys[..|keys| - 1]);
    }
  }

  /** Offering one more key to a running loop applies the loop body to it. */
  lemma RunExtend(keys: seq<Key>, i: nat)
    requires i < |keys| < U16Max as int
    requires !Run(keys[..i]).stopped
    ensures var s := Run(keys[..i]);
      var next := KeyStep(s.cursorY, keys[i]);
      Run(keys[..i + 1]) ==
        if next.None? then s.(read := s.read + 1, stopped := true)
        else Screen(next.value, s.moves + [Pos(CursorX, next.value)], s.read + 1, false)
  {
    assert keys[..i + 1][..i] == keys[..i];
  }

  /** Once a quit key has been read, further keys change nothing. */
  lemma {:induction false} RunStaysStopped(keys: seq<Key>, i: nat)
    requires i <= |keys| < U16Max as int
    requires Run(keys[..i]).stopped
    ensures Run(keys) == Run(keys[..i])
  {
    if i < |keys| {
      assert keys[..|keys| - 1][..i] == keys[..i];
      RunStaysStopped(keys[..|keys| - 1], i);
    } else {
      assert keys[..i] == keys;
    }
  }

  /**
   * The loop stops exactly when one of the keys is a quit key; it stops at
   * the first one, having read the keys up to and including it.
   */
  lemma {:induction false} RunStopsAtFirstQuit(keys: seq<Key>)
    requires |keys| < U16Max as int
    ensures Run(keys).stopped <==> exists i :: 0 <= i < |keys| && IsQuit(keys[i])
    ensures Run(keys).stopped ==> IsQuit(keys[Run(keys).read - 1])
    ensures Run(keys).stopped ==> forall i :: 0 <= i < Run(keys).read - 1 ==> !IsQuit(keys[i])
  {
    if keys != [] {
      var init := keys[..|keys| - 1];
      RunStopsAtFirstQuit(init);
      forall i | 0 <= i < |init| ensures init[i] == keys[i] { }
    }
  }

  /** Keys after the first quit key are never processed. */
  lemma KeysAfterQuitIgnored(keys: seq<Key>, rest: seq<Key>)
    requires |keys| + |rest| < U16Max as int
    requires Run(keys).stopped
    ensures Run(keys + rest) == Run(keys)
  {
    RunStaysStopped(keys + rest, |keys|);
    assert (keys + rest)[..|keys|] == keys;
  }

  /** `j` has no upper bound: `m` presses of `j` put the cursor on row `1 + m`. */
  lemma {:induction false} OnlyDownKeys(keys: seq<Key>)
    requires |keys| < U16Max as int
    requires forall i :: 0 <= i < |keys| ==> keys[i] == Char('j')
    ensures Run(keys).cursorY as int == 1 + |keys| && !Run(keys).stopped
  {
    if keys != [] {
      OnlyDownKeys(keys[..|keys| - 1]);
    }
  }

  /** `k` undoes `j` on every row, and `j` undoes `k` on every row below the first. */
  lemma UpUndoesDown(y: u16)
    requires 1 <= y < U16Max
    ensures KeyStep(KeyStep(y, Char('j')).value, Char('k')) == Some(y)
    ensures y > 1 ==> KeyStep(KeyStep(y, Char('k')).value, Char('j')) == Some(y)
  {
  }

  /**
   * The loop of `show_reports_action`: places the cursor at (1, 1), then
   * reads keys until a quit key or the end of input, placing the cursor
   * after every other key.
   */
  method KeyLoop(keys: seq<Key>) returns (cursorY: u16, moves: seq<Pos>, read: nat)
    requires |keys| < U16Max as int
    ensures cursorY == Run(keys).cursorY
    ensures moves == Run(keys).moves
    ensures read == Run(keys).read
  {
    var cursorX := CursorX;
    cursorY := 1;
    moves := [Pos(cursorX, cursorY)];
    read := 0;
    for i := 0 to |keys|
      invariant Run(keys[..i]) == Screen(cursorY, moves, read, false)
    {
      RunExtend(keys, i);
      var k := keys[i];
      read := read + 1;
      if k == Char('q') {
        RunStaysStopped(keys, i + 1);
        return;
      }
      if k == Ctrl('c') {
        RunStaysStopped(keys, i + 1);
        return;
      }
      if k == Char('j') {
        cursorY := cursorY + 1;
      } else if k == Char('k') {
        if cursorY > 1 {
          cursorY := cursorY - 1;
        }
      }
      moves := moves + [Pos(cursorX, cursorY)];
    }
    assert keys[..|keys|] == keys;
  }
}
