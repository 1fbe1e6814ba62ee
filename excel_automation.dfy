/**
 * The decision logic of the COM-driven Excel wrapper: the bounded retry of
 * `Quit`, the rectangular write of a data frame into worksheet cells, and the
 * error filtering of `close_workbook`. COM calls are oracles.
 */
module ExcelAutomation {
  import opened Wrappers
  import opened Text

  /** A value pandas hands over for a cell. NaN, None and NaT are all NA. */
  datatype CellValue = Number(n: int) | Label(s: string) | Logical(b: bool)
  datatype Datum = Na | Present(value: CellValue)

  /** The values of a data frame, row by row, and its number of columns. */
  datatype Table = Table(values: seq<seq<Datum>>, cols: nat) {
    /** `len(df)`. */
    function Rows(): nat { |values| }
  }

  /** A data frame is rectangular: every row has `len(df.columns)` values; `df.iloc[i, j]` is `values[i][j]`. */
  type DataFrame = t: Table | forall i :: 0 <= i < |t.values| ==> |t.values[i]| == t.cols witness Table([], 0)

  /** What a cell holds after the write: NA becomes an empty cell (None). */
  function Stored(d: Datum): (v: Option<CellValue>)
    ensures v.None? <==> d.Na?
    ensures d.Present? ==> v == Some(d.value)
  {
    if d.Na? then None else Some(d.value)
  }

  /** The cell (row, column) lies in the block the frame covers from (startRow, startCol). */
  predicate InBlock(df: DataFrame, startRow: int, startCol: int, cell: (int, int)) {
    startRow <= cell.0 < startRow + df.Rows() && startCol <= cell.1 < startCol + df.cols
  }

  /** The frame value that belongs in a cell of the block. */
  function BlockValue(df: DataFrame, startRow: int, startCol: int, cell: (int, int)): Option<CellValue>
    requires InBlock(df, startRow, startCol, cell)
  {
    Stored(df.values[cell.0 - startRow][cell.1 - startCol])
  }

  /** The cell lies in the block and the nested loop has reached it before position (i, j). */
  predicate WrittenBefore(df: DataFrame, startRow: int, startCol: int, i: int, j: int, cell: (int, int)) {
    InBlock(df, startRow, startCol, cell) && (cell.0 < startRow + i || (cell.0 == startRow + i && cell.1 < startCol + j))
  }

  /**
   * `after` is `before` with the frame written at (startRow, startCol): each
   * cell of the block holds its frame value (None for NA), and every other
   * cell keeps what it had.
   */
  ghost predicate WrittenBlock(before: map<(int, int), Option<CellValue>>, after: map<(int, int), Option<CellValue>>,
                               df: DataFrame, startRow: int, startCol: int)
  {
    && (forall c :: InBlock(df, startRow, startCol, c) ==> c in after && after[c] == BlockValue(df, startRow, startCol, c))
    && (forall c :: c in before && !InBlock(df, startRow, startCol, c) ==> c in after && after[c] == before[c])
    && (forall c :: c in after ==> c in before || InBlock(df, startRow, startCol, c))
  }

  /** After the write, cell (startRow + i, startCol + j) holds df[i][j], or None where df[i][j] is NA. */
  lemma WrittenCell(before: map<(int, int), Option<CellValue>>, after: map<(int, int), Option<CellValue>>,
                    df: DataFrame, startRow: int, startCol: int, i: nat, j: nat)
    requires WrittenBlock(before, after, df, startRow, startCol)
    requires i < df.Rows() && j < df.cols
    ensures (startRow + i, startCol + j) in after
    ensures after[(startRow + i, startCol + j)] == if df.values[i][j].Na? then None else Some(df.values[i][j].value)
  {
    assert InBlock(df, startRow, startCol, (startRow + i, startCol + j));
  }

  /** The block determines the new sheet: two writes of the same frame give the same cells. */
  lemma WrittenBlockUnique(before: map<(int, int), Option<CellValue>>, a: map<(int, int), Option<CellValue>>,
                           b: map<(int, int), Option<CellValue>>, df: DataFrame, startRow: int, startCol: int)
    requires WrittenBlock(before, a, df, startRow, startCol) && WrittenBlock(before, b, df, startRow, startCol)
    ensures a == b
  {
    assert forall c :: c in a <==> c in b;
  }

  /** Writing the same frame again at the same place changes nothing. */
  lemma WriteIsIdempotent(before: map<(int, int), Option<CellValue>>, once: map<(int, int), Option<CellValue>>,
                          twice: map<(int, int), Option<CellValue>>, df: DataFrame, startRow: int, startCol: int)
    requires WrittenBlock(before, once, df, startRow, startCol) && WrittenBlock(once, twice, df, startRow, startCol)
    ensures twice == once
  {
    assert forall c :: c in once <==> c in twice;
  }

  /** A worksheet: the cells that hold something, by (row, column). */
  class Worksheet {
    var cells: map<(int, int), Option<CellValue>>

    constructor (cells: map<(int, int), Option<CellValue>>)
      ensures this.cells == cells
    {
      this.cells := cells;
    }

    /** The nested loop of the data-frame write: row by row, column by column. */
    method WriteBlock(df: DataFrame, startRow: int, startCol: int)
      modifies this
      ensures WrittenBlock(old(cells), cells, df, startRow, startCol)
    {
      for i := 0 to df.Rows()
        invariant forall c :: WrittenBefore(df, startRow, startCol, i, 0, c) ==> c in cells && cells[c] == BlockValue(df, startRow, startCol, c)
        invariant forall c :: c in old(cells) && !WrittenBefore(df, startRow, startCol, i, 0, c) ==> c in cells && cells[c] == old(cells)[c]
        invariant forall c :: c in cells ==> c in old(cells) || WrittenBefore(df, startRow, startCol, i, 0, c)
      {
        for j := 0 to df.cols
          invariant forall c :: WrittenBefore(df, startRow, startCol, i, j, c) ==> c in cells && cells[c] == BlockValue(df, startRow, startCol, c)
          invariant forall c :: c in old(cells) && !WrittenBefore(df, startRow, startCol, i, j, c) ==> c in cells && cells[c] == old(cells)[c]
          invariant forall c :: c in cells ==> c in old(cells) || WrittenBefore(df, startRow, startCol, i, j, c)
        {
          var value := df.values[i][j];
          if value.Na? {
            cells := cells[(startRow + i, startCol + j) := None];
          } else {
            cells := cells[(startRow + i, startCol + j) := Some(value.value)];
          }
        }
      }
    }
  }

  /** An open workbook, by identity. */
  datatype Workbook = Workbook(id: nat)

  /** The exceptions the Excel core can let out. */
  datatype ExcelError =
    | ComFailure(message: string)   // a pywintypes.com_error, propagated
    | OtherFailure                  // any other exception from a COM call
    | NoneHasNoAttribute            // AttributeError: `None.Cells`

  /** How the COM `Quit` call answers. */
  datatype QuitResponse = QuitOk | Busy | OtherComError

  /** What `quit` did: calls to `Quit`, pauses of `delay`, forced kills, and whether Excel quit. */
  datatype QuitLog = QuitLog(calls: nat, sleeps: nat, kills: nat, quit: bool)

  /** How a `Workbook.Close` call ends. */
  datatype CloseResponse = CloseOk | CloseComError(message: string) | CloseOtherError

  /** Which workbook `close_workbook` closed (None: no call was made) and whether it logged a warning. */
  datatype CloseReport = CloseReport(closed: Option<Workbook>, saveChanges: bool, warned: bool)

  /** The one COM error message `close_workbook` ignores. */
  const Disconnected: string := "The object invoked has disconnected from its clients."

  /** The number of the first `n` answers that equal `x`. */
  function Count(answers: nat -> QuitResponse, n: nat, x: QuitResponse): (c: nat)
    ensures c <= n
    ensures c == |set k: nat | k < n && answers(k) == x|
  {
    if n == 0 then
      assert (set k: nat | k < n && answers(k) == x) == {};
      0
    else
      var before := set k: nat | k < n - 1 && answers(k) == x;
      assert (set k: nat | k < n && answers(k) == x) == if answers(n - 1) == x then before + {n - 1} else before;
      Count(answers, n - 1, x) + (if answers(n - 1) == x then 1 else 0)
  }

  /** Every call either quits, sleeps or kills. */
  lemma {:induction false} CountsPartition(answers: nat -> QuitResponse, n: nat)
    ensures Count(answers, n, QuitOk) + Count(answers, n, Busy) + Count(answers, n, OtherComError) == n
  {
    if n > 0 {
      CountsPartition(answers, n - 1);
    }
  }

  class ExcelAutomation {
    /** `self._workbook`. */
    var workbook: Option<Workbook>
    /** `self._worksheet`. */
    var worksheet: Worksheet?

    constructor ()
      ensures workbook.None? && worksheet == null
    {
      workbook := None;
      worksheet := null;
    }

    /**
     * `quit`: call `Quit` up to `retries` times (answer k is `answers(k)`),
     * stopping at the first success; a busy answer pauses, any other error
     * kills Excel forcefully and the loop goes on.
     */
    method Quit(retries: int, answers: nat -> QuitResponse) returns (log: QuitLog)
      ensures log.calls <= if retries > 0 then retries else 0
      ensures log.quit <==> exists k: nat :: k < retries && answers(k) == QuitOk
      ensures log.quit ==> log.calls > 0 && answers(log.calls - 1) == QuitOk
      ensures !log.quit ==> log.calls == if retries > 0 then retries else 0
      ensures forall k: nat :: k + 1 < log.calls ==> answers(k) != QuitOk
      ensures log.sleeps == Count(answers, log.calls, Busy)
      ensures log.kills == Count(answers, log.calls, OtherComError)
    {
      var calls, sleeps, kills := 0, 0, 0;
      var quit := false;
      for i := 0 to if retries > 0 then retries else 0
        invariant calls == i && !quit
        invariant forall k: nat :: k < i ==> answers(k) != QuitOk
        invariant sleeps == Count(answers, calls, Busy) && kills == Count(answers, calls, OtherComError)
      {
        var answer := answers(i);
        calls := calls + 1;
        if answer == QuitOk {
          quit := true;
          break;
        } else if answer == Busy {
          sleeps := sleeps + 1;
        } else {
          kills := kills + 1;
        }
      }
      log := QuitLog(calls, sleeps, kills, quit);
    }

    /**
     * `write_dataframe_to_excel_with_a_start_row_and_start_column`: write into
     * the given worksheet, or else into `self.worksheet`; both branches do the
     * same. With neither, the first cell access fails, unless the loops are empty.
     */
    method WriteDataFrame(df: DataFrame, startRow: int, startCol: int, sheet: Worksheet?) returns (r: Result<(), ExcelError>)
      modifies sheet, worksheet
      ensures var target := if sheet != null then sheet else old(worksheet);
        && (target != null ==> r.Ok? && WrittenBlock(old(target.cells), target.cells, df, startRow, startCol))
        && (target == null ==> (r.Err? <==> df.Rows() > 0 && df.cols > 0) && (r.Err? ==> r.error == NoneHasNoAttribute))
      ensures worksheet == old(worksheet) && workbook == old(workbook)
      ensures sheet != null && worksheet != null && worksheet != sheet ==> worksheet.cells == old(worksheet.cells)
    {
      if sheet != null {
        sheet.WriteBlock(df, startRow, startCol);
        return Ok(());
      }
      if worksheet == null {
        if df.Rows() > 0 && df.cols > 0 {
          return Err(NoneHasNoAttribute);
        }
        return Ok(());
      }
      worksheet.WriteBlock(df, startRow, startCol);
      r := Ok(());
    }

    /**
     * `close_workbook`: a workbook passed in is closed and its errors
     * propagate; otherwise `self.workbook`, if any, is closed, the
     * "disconnected" COM error is ignored, any other COM error is only logged,
     * and other exceptions propagate. `self.workbook` is left as it was.
     */
    method CloseWorkbook(saveChanges: bool, book: Option<Workbook>, response: CloseResponse) returns (r: Result<CloseReport, ExcelError>)
      ensures book.Some? ==>
        r == match response
             case CloseOk => Ok(CloseReport(book, saveChanges, false))
             case CloseComError(m) => Err(ComFailure(m))
             case CloseOtherError => Err(OtherFailure)
      ensures book.None? && workbook.None? ==> r == Ok(CloseReport(None, saveChanges, false))
      ensures book.None? && workbook.Some? ==>
        (r.Err? <==> response == CloseOtherError)
        && (r.Err? ==> r.error == OtherFailure)
        && (r.Ok? ==> r.value.closed == workbook && r.value.saveChanges == saveChanges)
        && (r.Ok? ==> (r.value.warned <==> response.CloseComError? && !IsSubstring(Disconnected, response.message)))
    {
      if book.Some? {
        match response
        case CloseOk => r := Ok(CloseReport(book, saveChanges, false));
        case CloseComError(m) => r := Err(ComFailure(m));
        case CloseOtherError => r := Err(OtherFailure);
      } else if workbook.Some? {
        if response.CloseOtherError? {
          return Err(OtherFailure);
        }
        var warned := false;
        if response.CloseComError? && !IsSubstring(Disconnected, response.message) {
          warned := true;
        }
        r := Ok(CloseReport(workbook, saveChanges, warned));
      } else {
        r := Ok(CloseReport(None, saveChanges, false));
      }
    }
  }
}
