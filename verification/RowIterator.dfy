/** foreach over a buffered result: the iterator of mysqlx_row_result_iterator.cc over the row cursor
    of xmysqlnd_rowset_buffered.cc. */
module RowIterator {
  import opened Options

  /** Iterator and cursor together, as a value. */
  datatype State<Row> = State(cursor: nat, current: Option<Row>, rowNum: nat, started: bool, usable: bool)

  /** fetch_current_data after the cursor moved to `cursor`. */
  function Fetched<Row>(s: State<Row>, rows: seq<Row>, cursor: nat): State<Row> {
    s.(cursor := cursor, current := if cursor < |rows| then Some(rows[cursor]) else None)
  }

  function Rewound<Row>(s: State<Row>, rows: seq<Row>): State<Row> {
    if !s.usable then s
    else Fetched(s, rows, 0).(rowNum := 0, started := rows != [], usable := rows != [])
  }

  function Advanced<Row>(s: State<Row>, rows: seq<Row>): State<Row> {
    if !s.usable then s
    else if s.cursor >= |rows| then s.(usable := false)
    else if s.cursor + 1 < |rows| then Fetched(s, rows, s.cursor + 1).(rowNum := s.rowNum + 1)
    else Fetched(s, rows, s.cursor + 1).(usable := false)
  }

  class Rowset<Row> {
    const rows: seq<Row>
    var cursor: nat

    constructor (rows: seq<Row>)
      ensures this.rows == rows && cursor == 0
    {
      this.rows, cursor := rows, 0;
    }

    method Rewind()
      modifies this
      ensures cursor == 0
    {
      cursor := 0;
    }

    method Next() returns (pass: bool)
      modifies this
      ensures pass <==> old(cursor) < |rows|
      ensures cursor == old(cursor) + if pass then 1 else 0
    {
      pass := cursor < |rows|;
      if pass { cursor := cursor + 1; }
    }

    method FetchCurrent() returns (row: Option<Row>)
      ensures row == if cursor < |rows| then Some(rows[cursor]) else None
    {
      row := if cursor < |rows| then Some(rows[cursor]) else None;
    }
  }

  class Iterator<Row> {
    const result: Rowset<Row>
    var current: Option<Row>
    var rowNum: nat
    var started: bool
    var usable: bool

    ghost function Value(): State<Row>
      reads this, result
    {
      State(result.cursor, current, rowNum, started, usable)
    }

    constructor (result: Rowset<Row>)
      ensures this.result == result
      ensures Value() == State(result.cursor, None, 0, false, true)
    {
      this.result := result;
      current, rowNum, started, usable := None, 0, false, true;
    }

    method FetchCurrentData() returns (pass: bool)
      requires usable
      modifies this`current
      ensures current == if result.cursor < |result.rows| then Some(result.rows[result.cursor]) else None
      ensures pass <==> current.Some?
    {
      current := result.FetchCurrent();
      pass := current.Some?;
    }

    method Next()
      modifies this, result
      ensures Value() == Advanced(old(Value()), result.rows)
    {
      if usable {
        var moved := result.Next();
        if moved {
          var fetched := FetchCurrentData();
          if fetched { rowNum := rowNum + 1; } else { usable := false; }
        } else {
          usable := false;
        }
      }
    }

    method Rewind()
      modifies this, result
      ensures Value() == Rewound(old(Value()), result.rows)
    {
      if usable {
        started, rowNum := false, 0;
        result.Rewind();
        var fetched := FetchCurrentData();
        if fetched { usable, started := true, true; } else { usable := false; }
      }
    }
  }

  /** What the engine does for foreach: rewind, then while valid take the current row and go on. It
      sees every row once, in order, with its index as the row number, and the iterator is spent. */
  method Foreach<Row>(it: Iterator<Row>) returns (seen: seq<Row>, numbers: seq<nat>)
    requires it.usable
    modifies it, it.result
    ensures seen == it.result.rows
    ensures |numbers| == |seen| && forall i :: 0 <= i < |numbers| ==> numbers[i] == i
    ensures !it.usable && it.result.cursor == |it.result.rows|
  {
    seen, numbers := [], [];
    it.Rewind();
    while it.usable
      invariant it.usable ==> |seen| < |it.result.rows| && it.result.cursor == it.rowNum == |seen|
                              && it.current == Some(it.result.rows[|seen|])
      invariant !it.usable ==> |seen| == |it.result.rows| == it.result.cursor
      invariant seen <= it.result.rows
      invariant |numbers| == |seen| && forall i :: 0 <= i < |numbers| ==> numbers[i] == i
      decreases it.usable, |it.result.rows| - |seen|
    {
      seen, numbers := seen + [it.current.value], numbers + [it.rowNum];
      it.Next();
    }
  }

  // ---- two loops over one result ----

  /** A usable iterator that has started stands on the row its number names. */
  ghost predicate Standing<Row>(s: State<Row>, rows: seq<Row>) {
    s.usable && s.started && s.cursor == s.rowNum < |rows| && s.current == Some(rows[s.rowNum])
  }

  /** The cursor belongs to the result, not to the iterator. If others leave it at `c`, the next step
      goes as it would have gone exactly when they put it back, and it ends on the row the iterator
      names exactly when there also is a next row. */
  lemma SharedCursorIff<Row>(s: State<Row>, rows: seq<Row>, c: nat)
    requires Standing(s, rows)
    ensures Advanced(s.(cursor := c), rows) == Advanced(s, rows) <==> c == s.cursor
    ensures Standing(Advanced(s.(cursor := c), rows), rows) <==> c == s.cursor && c + 1 < |rows|
    ensures Advanced(s.(cursor := c), rows).usable <==> c + 1 < |rows|
  {
    var t, u := Advanced(s.(cursor := c), rows), Advanced(s, rows);
    if c != s.cursor {
      assert c < |rows| ==> t.cursor == c + 1 != u.cursor;
      assert c >= |rows| ==> t.current != None && t.cursor == c;
    }
  }

  /** A foreach that is left on row `stop`, or runs to the end if there is no such row. */
  method ForeachUntil<Row>(it: Iterator<Row>, stop: nat) returns (seen: seq<Row>)
    requires it.usable
    modifies it, it.result
    ensures stop < |it.result.rows| ==> seen == it.result.rows[..stop + 1] && it.result.cursor == stop
    ensures stop >= |it.result.rows| ==> seen == it.result.rows && it.result.cursor == |it.result.rows|
  {
    seen := [];
    it.Rewind();
    while it.usable
      invariant it.usable ==> Standing(it.Value(), it.result.rows) && it.rowNum == |seen| <= stop
      invariant !it.usable ==> |seen| == |it.result.rows| == it.result.cursor <= stop
      invariant seen <= it.result.rows
      decreases it.usable, |it.result.rows| - |seen|
    {
      seen := seen + [it.current.value];
      if it.rowNum == stop { return; }
      it.Next();
    }
  }

  /** Inside the body of an outer loop on any of its rows, an inner loop over the same result runs
      until `stop`. The outer loop goes on with its next row exactly when the inner one was left on
      the very row the outer one stands on; a complete inner loop ends the outer one. */
  method NestedForeach<Row>(outer: Iterator<Row>, stop: nat)
    requires Standing(outer.Value(), outer.result.rows)
    modifies outer, outer.result
    ensures Standing(outer.Value(), outer.result.rows) <==>
              stop == old(outer.rowNum) && stop + 1 < |outer.result.rows|
    ensures stop >= |outer.result.rows| ==> !outer.usable && outer.rowNum == old(outer.rowNum)
    ensures outer.usable <==> stop + 1 < |outer.result.rows|
  {
    var inner := new Iterator(outer.result);
    var _ := ForeachUntil(inner, stop);
    SharedCursorIff(old(outer.Value()), outer.result.rows, outer.result.cursor);
    outer.Next();
  }

  // ---- all sequences of calls ----

  datatype Call = CallRewind | CallNext

  function After<Row>(s: State<Row>, rows: seq<Row>, calls: seq<Call>): State<Row> {
    if calls == [] then s
    else
      var before := After(s, rows, calls[..|calls| - 1]);
      match calls[|calls| - 1]
      case CallRewind => Rewound(before, rows)
      case CallNext => Advanced(before, rows)
  }

  /** Once unusable, nothing changes any more. */
  lemma {:induction false} UnusableForGood<Row>(s: State<Row>, rows: seq<Row>, calls: seq<Call>, i: nat)
    requires i <= |calls| && !After(s, rows, calls[..i]).usable
    ensures After(s, rows, calls) == After(s, rows, calls[..i])
    decreases |calls|
  {
    if i == |calls| {
      assert calls[..i] == calls;
    } else {
      var front := calls[..|calls| - 1];
      assert front[..i] == calls[..i];
      UnusableForGood(s, rows, front, i);
    }
  }

  /** After any calls, a started iterator that is still usable stands on the row its number names. */
  lemma {:induction false} StandsOnItsRow<Row>(rows: seq<Row>, cursor: nat, calls: seq<Call>)
    ensures var s := After(State(cursor, None, 0, false, true), rows, calls);
            s.usable && s.started ==> Standing(s, rows)
  {
    if calls != [] {
      StandsOnItsRow(rows, cursor, calls[..|calls| - 1]);
    }
  }
}
