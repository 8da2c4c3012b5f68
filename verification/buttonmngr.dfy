/**
 The button manager: the column/row scan of the button matrix, the shifter
 and rocker reads, the GPIO initialisation chain and the copy-out of the
 button-state table.

 The GPIO layer is an oracle. Each operation receives the result every GPIO
 call would return, indexed by the call's position in a fully successful
 run (per column for set and clear, `8 * col + row` for matrix reads, in
 order for the shifter, rocker and init calls); a negative result is an
 error code. Each operation returns its result code, the new state table
 and the trace of GPIO calls it made.
 */
module ButtonMngr {
  import opened CTypes

  const BUTTON_ROW_COUNT: nat := 8
  const BUTTON_COL_COUNT: nat := 4
  const BUTTON_SHIFTER_COUNT: nat := 2
  const BUTTON_ROCKER_COUNT: nat := 2

  /** Number of matrix positions, the first entries of the state table. */
  const MATRIX_SIZE: nat := BUTTON_ROW_COUNT * BUTTON_COL_COUNT

  /** GPIO calls made for one column of a fully successful scan: set, 8 reads, clear. */
  const SCAN_STEP: nat := BUTTON_ROW_COUNT + 2

  /** GPIO init calls made by a fully successful initialisation. */
  const INIT_CALL_COUNT: nat :=
    BUTTON_ROW_COUNT + BUTTON_COL_COUNT + BUTTON_SHIFTER_COUNT + BUTTON_ROCKER_COUNT

  /**
   The table layout, whose constants live in a header outside this model:
   the number of states and where the two shifter and the two rocker
   states start.
   */
  datatype Layout = Layout(buttonCount: SizeT, leftShifterIdx: nat, leftRockerIdx: nat) {
    predicate Valid() {
      && MATRIX_SIZE <= buttonCount
      && leftShifterIdx + BUTTON_SHIFTER_COUNT <= buttonCount
      && leftRockerIdx + BUTTON_ROCKER_COUNT <= buttonCount
    }
  }

  datatype Pin = Row(row: nat) | Column(col: nat) | Shifter(shifter: nat) | Rocker(rocker: nat)

  datatype GpioDir = GpioIn | GpioOutClr

  /** The calls the button manager makes into the GPIO and thread layers. */
  datatype Call =
    | Set(pin: Pin)
    | Clear(pin: Pin)
    | Read(pin: Pin)
    | Init(pin: Pin, dir: GpioDir)
    | CreateThread

  /*************************************************************************
   * First-failure searches
   *************************************************************************/

  /** The first index at or after `from` whose result is negative, or `|s|` if none is. */
  function FirstNegative(s: seq<Int32>, from: nat): (r: nat)
    requires from <= |s|
    ensures from <= r <= |s|
    ensures forall i :: from <= i < r ==> s[i] >= 0
    ensures r < |s| ==> s[r] < 0
    decreases |s| - from
  {
    if from == |s| then from
    else if s[from] < 0 then from
    else FirstNegative(s, from + 1)
  }

  /** The first index at or after `from` whose result is not zero, or `|s|` if none is. */
  function FirstNonZero(s: seq<Int32>, from: nat): (r: nat)
    requires from <= |s|
    ensures from <= r <= |s|
    ensures forall i :: from <= i < r ==> s[i] == 0
    ensures r < |s| ==> s[r] != 0
    decreases |s| - from
  {
    if from == |s| then from
    else if s[from] != 0 then from
    else FirstNonZero(s, from + 1)
  }

  /** The first negative result is the one after a run of non-negative ones. */
  lemma FirstNegativeAt(s: seq<Int32>, k: nat)
    requires k < |s| && s[k] < 0
    requires forall i :: 0 <= i < k ==> s[i] >= 0
    ensures FirstNegative(s, 0) == k
  {
  }

  /*************************************************************************
   * The matrix scan
   *************************************************************************/

  /** Results of the matrix scan's GPIO calls. */
  datatype MatrixGpio = MatrixGpio(setRc: seq<Int32>, readRc: seq<Int32>, clearRc: seq<Int32>) {
    predicate Wellformed() {
      |setRc| == BUTTON_COL_COUNT && |readRc| == MATRIX_SIZE && |clearRc| == BUTTON_COL_COUNT
    }
  }

  /** The row reads of column `c`, in row order. */
  function ColumnReads(g: MatrixGpio, c: nat): (s: seq<Int32>)
    requires g.Wellformed() && c < BUTTON_COL_COUNT
    ensures |s| == BUTTON_ROW_COUNT
    ensures forall r :: 0 <= r < BUTTON_ROW_COUNT ==> s[r] == g.readRc[BUTTON_ROW_COUNT * c + r]
  {
    g.readRc[BUTTON_ROW_COUNT * c .. BUTTON_ROW_COUNT * c + BUTTON_ROW_COUNT]
  }

  /** The first row whose read fails under column `c`, or 8 if none does. */
  function FirstFailingRow(g: MatrixGpio, c: nat): nat
    requires g.Wellformed() && c < BUTTON_COL_COUNT
  {
    FirstNegative(ColumnReads(g, c), 0)
  }

  /** Column `c` is set, read and cleared without any error. */
  predicate ColumnScanOk(g: MatrixGpio, c: nat)
    requires g.Wellformed() && c < BUTTON_COL_COUNT
  {
    g.setRc[c] >= 0 && FirstFailingRow(g, c) == BUTTON_ROW_COUNT && g.clearRc[c] >= 0
  }

  /** The first column at or after `from` that meets an error, or 4 if none does. */
  function FirstFailingColumn(g: MatrixGpio, from: nat): (k: nat)
    requires g.Wellformed() && from <= BUTTON_COL_COUNT
    ensures from <= k <= BUTTON_COL_COUNT
    ensures forall c :: from <= c < k ==> ColumnScanOk(g, c)
    ensures k < BUTTON_COL_COUNT ==> !ColumnScanOk(g, k)
    decreases BUTTON_COL_COUNT - from
  {
    if from == BUTTON_COL_COUNT then from
    else if !ColumnScanOk(g, from) then from
    else FirstFailingColumn(g, from + 1)
  }

  /** Where a scan stops, and why. */
  datatype ScanStop =
    | Completed
    | SetFailed(col: nat)
    | ReadFailed(col: nat, row: nat)
    | ClearFailed(col: nat)

  /**
   The stop point of a scan: the first column meeting an error, and which of
   its set, row reads or clear failed first (`ScanStopMeaning` spells it out).
   */
  function ScanStopOf(g: MatrixGpio): (stop: ScanStop)
    requires g.Wellformed()
    ensures !stop.Completed? ==> stop.col < BUTTON_COL_COUNT
    ensures stop.ReadFailed? ==> stop.row < BUTTON_ROW_COUNT
  {
    var k := FirstFailingColumn(g, 0);
    if k == BUTTON_COL_COUNT then Completed
    else if g.setRc[k] < 0 then SetFailed(k)
    else if FirstFailingRow(g, k) < BUTTON_ROW_COUNT then ReadFailed(k, FirstFailingRow(g, k))
    else ClearFailed(k)
  }

  /**
   The scan completes exactly when every column is error-free; otherwise it
   stops in the first column with an error, at that column's set if the set
   fails, else at its first failing row read, else at its clear.
   */
  lemma ScanStopMeaning(g: MatrixGpio)
    requires g.Wellformed()
    ensures ScanStopOf(g).Completed? <==> forall c :: 0 <= c < BUTTON_COL_COUNT ==> ColumnScanOk(g, c)
    ensures !ScanStopOf(g).Completed? ==>
      forall c :: 0 <= c < ScanStopOf(g).col ==> ColumnScanOk(g, c)
    ensures ScanStopOf(g).SetFailed? ==> g.setRc[ScanStopOf(g).col] < 0
    ensures ScanStopOf(g).ReadFailed? ==>
      var k, j := ScanStopOf(g).col, ScanStopOf(g).row;
      && g.setRc[k] >= 0
      && g.readRc[BUTTON_ROW_COUNT * k + j] < 0
      && forall r :: 0 <= r < j ==> ColumnReads(g, k)[r] >= 0
    ensures ScanStopOf(g).ClearFailed? ==>
      var k := ScanStopOf(g).col;
      && g.setRc[k] >= 0
      && (forall r :: 0 <= r < BUTTON_ROW_COUNT ==> ColumnReads(g, k)[r] >= 0)
      && g.clearRc[k] < 0
  {
  }

  /** How many leading entries of the state table a scan stopping at `stop` overwrites. */
  function StoredReads(stop: ScanStop): nat
  {
    match stop
    case Completed => MATRIX_SIZE
    case SetFailed(k) => BUTTON_ROW_COUNT * k
    case ReadFailed(k, j) => BUTTON_ROW_COUNT * k + j
    case ClearFailed(k) => BUTTON_ROW_COUNT * (k + 1)
  }

  /**
   `after` is `before` with its first `n` entries replaced by the first `n`
   read results, and every other entry unchanged.
   */
  predicate StoredUpTo(before: seq<int>, after: seq<int>, results: seq<Int32>, n: nat)
    requires n <= |results|
  {
    && |after| == |before|
    && forall i :: 0 <= i < |before| ==> after[i] == (if i < n then results[i] else before[i])
  }

  /** The `i`-th GPIO call of a fully successful scan. */
  function ScanCall(i: nat): Call
  {
    var c := i / SCAN_STEP;
    var p := i % SCAN_STEP;
    if p == 0 then Set(Column(c))
    else if p == SCAN_STEP - 1 then Clear(Column(c))
    else Read(Row(p - 1))
  }

  /**
   The calls of a fully successful scan: for each column in order 0..3, set
   it, read rows 0..7, clear it.
   */
  function FullScanTrace(): (t: seq<Call>)
    ensures |t| == BUTTON_COL_COUNT * SCAN_STEP
  {
    seq(BUTTON_COL_COUNT * SCAN_STEP, (i: int) requires 0 <= i => ScanCall(i))
  }

  lemma ScanCallAt(c: nat, p: nat)
    requires p < SCAN_STEP
    ensures ScanCall(SCAN_STEP * c + p) ==
      if p == 0 then Set(Column(c))
      else if p == SCAN_STEP - 1 then Clear(Column(c))
      else Read(Row(p - 1))
  {
    assert (SCAN_STEP * c + p) / SCAN_STEP == c;
    assert (SCAN_STEP * c + p) % SCAN_STEP == p;
  }

  lemma FullScanPrefixStep(m: nat)
    requires m < BUTTON_COL_COUNT * SCAN_STEP
    ensures FullScanTrace()[..m + 1] == FullScanTrace()[..m] + [ScanCall(m)]
  {
  }

  lemma FullScanAppend(m: nat, s: seq<Call>)
    requires m + |s| <= BUTTON_COL_COUNT * SCAN_STEP
    requires forall i :: 0 <= i < |s| ==> s[i] == ScanCall(m + i)
    ensures FullScanTrace()[..m] + s == FullScanTrace()[..m + |s|]
  {
    var t := FullScanTrace();
    assert forall i :: 0 <= i < m + |s| ==> (t[..m] + s)[i] == t[..m + |s|][i];
  }

  /** Appending a column's row reads, and then its clear, extends the fully successful trace. */
  lemma ColumnReadsTrace(col: nat, calls: seq<Call>)
    requires col < BUTTON_COL_COUNT && |calls| <= BUTTON_ROW_COUNT
    requires forall r :: 0 <= r < |calls| ==> calls[r] == Read(Row(r))
    ensures FullScanTrace()[..SCAN_STEP * col + 1] + calls == FullScanTrace()[..SCAN_STEP * col + 1 + |calls|]
    ensures |calls| == BUTTON_ROW_COUNT ==>
      FullScanTrace()[..SCAN_STEP * col + 1] + calls + [Clear(Column(col))] == FullScanTrace()[..SCAN_STEP * (col + 1)]
  {
    var first := SCAN_STEP * col + 1;
    forall r | 0 <= r < |calls|
      ensures calls[r] == ScanCall(first + r)
    {
      ScanCallAt(col, 1 + r);
    }
    FullScanAppend(first, calls);
    if |calls| == BUTTON_ROW_COUNT {
      ScanCallAt(col, SCAN_STEP - 1);
      FullScanPrefixStep(SCAN_STEP * col + SCAN_STEP - 1);
    }
  }

  /** Storing the reads of `[n, n + m)` after those of `[0, n)` stores those of `[0, n + m)`. */
  lemma StoredUpToExtend(before: seq<int>, mid: seq<int>, after: seq<int>, results: seq<Int32>, n: nat, m: nat)
    requires n + m <= |results| && n + m <= |before|
    requires StoredUpTo(before, mid, results, n)
    requires |after| == |mid|
    requires forall i :: 0 <= i < |mid| ==> after[i] == (if n <= i < n + m then results[i] else mid[i])
    ensures StoredUpTo(before, after, results, n + m)
  {
  }

  /**
   The row reads under one set column: rows 0..7 in order, stopping after
   the first failing read, whose result is returned; each successful read
   is stored at `8 * col + row` and no other entry changes.
   */
  method ReadColumnRows(g: MatrixGpio, col: nat, buttonStates: seq<int>)
    returns (buttonState: Int32, states: seq<int>, calls: seq<Call>)
    requires g.Wellformed() && col < BUTTON_COL_COUNT && MATRIX_SIZE <= |buttonStates|
    ensures FirstFailingRow(g, col) < BUTTON_ROW_COUNT ==>
      && buttonState == g.readRc[BUTTON_ROW_COUNT * col + FirstFailingRow(g, col)]
      && |calls| == FirstFailingRow(g, col) + 1
    ensures FirstFailingRow(g, col) == BUTTON_ROW_COUNT ==>
      buttonState >= 0 && |calls| == BUTTON_ROW_COUNT
    ensures forall r :: 0 <= r < |calls| ==> calls[r] == Read(Row(r))
    ensures |states| == |buttonStates|
    ensures forall i :: 0 <= i < |buttonStates| ==>
      states[i] == (if BUTTON_ROW_COUNT * col <= i < BUTTON_ROW_COUNT * col + FirstFailingRow(g, col)
                    then g.readRc[i] else buttonStates[i])
  {
    ghost var column := ColumnReads(g, col);
    ghost var bad := FirstFailingRow(g, col);
    buttonState := 0;
    states := buttonStates;
    calls := [];
    var row: nat := 0;
    while row < BUTTON_ROW_COUNT && buttonState >= 0
      invariant row <= BUTTON_ROW_COUNT
      invariant |calls| == row
      invariant forall r :: 0 <= r < row ==> calls[r] == Read(Row(r))
      invariant buttonState >= 0 ==> row <= bad
      invariant buttonState < 0 ==> row >= 1 && bad == row - 1 && buttonState == column[row - 1]
      invariant |states| == |buttonStates|
      invariant forall i :: 0 <= i < |buttonStates| ==>
        states[i] == (if BUTTON_ROW_COUNT * col <= i < BUTTON_ROW_COUNT * col + (if buttonState >= 0 then row else row - 1)
                      then g.readRc[i] else buttonStates[i])
      decreases BUTTON_ROW_COUNT - row
    {
      buttonState := g.readRc[BUTTON_ROW_COUNT * col + row];
      calls := calls + [Read(Row(row))];
      if buttonState >= 0 {
        states := states[BUTTON_ROW_COUNT * col + row := buttonState];
      } else {
        FirstNegativeAt(column, row);
      }
      row := row + 1;
    }
  }

  /**
   What one scan of the matrix leaves behind, by where it stopped: the
   entries it overwrote, its result code and its GPIO calls.
   */
  predicate MatrixScanOutcome(g: MatrixGpio, buttonStates: seq<int>, rc: Int32, states: seq<int>, trace: seq<Call>)
    requires g.Wellformed()
  {
    && StoredUpTo(buttonStates, states, g.readRc, StoredReads(ScanStopOf(g)))
    && match ScanStopOf(g)
       case Completed =>
         rc == g.clearRc[BUTTON_COL_COUNT - 1] && trace == FullScanTrace()
       case SetFailed(k) =>
         rc == g.setRc[k] && trace == FullScanTrace()[..SCAN_STEP * k + 1]
       case ReadFailed(k, j) =>
         rc == g.readRc[BUTTON_ROW_COUNT * k + j]
         && trace == FullScanTrace()[..SCAN_STEP * k + j + 2] + [Clear(Column(k))]
       case ClearFailed(k) =>
         rc == g.clearRc[k] && trace == FullScanTrace()[..SCAN_STEP * (k + 1)]
  }

  /**
   The state of the scan before column `col` (while it keeps reading), or
   after the column `col - 1` that ended it.
   */
  predicate ScanProgress(
    g: MatrixGpio, buttonStates: seq<int>, col: nat, keepReading: bool,
    buttonState: Int32, rc: Int32, states: seq<int>, trace: seq<Call>)
    requires g.Wellformed() && MATRIX_SIZE <= |buttonStates|
  {
    && col <= BUTTON_COL_COUNT
    && (keepReading ==>
          && (forall c :: 0 <= c < col ==> ColumnScanOk(g, c))
          && buttonState >= 0
          && (col > 0 ==> rc == g.clearRc[col - 1])
          && trace == FullScanTrace()[..SCAN_STEP * col]
          && StoredUpTo(buttonStates, states, g.readRc, BUTTON_ROW_COUNT * col))
    && (!keepReading ==>
          && col >= 1
          && (forall c :: 0 <= c < col - 1 ==> ColumnScanOk(g, c))
          && g.setRc[col - 1] >= 0
          && (buttonState < 0 ==>
                && FirstFailingRow(g, col - 1) < BUTTON_ROW_COUNT
                && buttonState == ColumnReads(g, col - 1)[FirstFailingRow(g, col - 1)]
                && trace == FullScanTrace()[..SCAN_STEP * (col - 1) + FirstFailingRow(g, col - 1) + 2]
                            + [Clear(Column(col - 1))]
                && StoredUpTo(buttonStates, states, g.readRc,
                              BUTTON_ROW_COUNT * (col - 1) + FirstFailingRow(g, col - 1)))
          && (buttonState >= 0 ==>
                && FirstFailingRow(g, col - 1) == BUTTON_ROW_COUNT
                && rc == g.clearRc[col - 1] && rc < 0
                && trace == FullScanTrace()[..SCAN_STEP * col]
                && StoredUpTo(buttonStates, states, g.readRc, BUTTON_ROW_COUNT * col)))
  }

  /** A failing set of column `col` after error-free columns is the scan's outcome. */
  lemma SetFailureOutcome(
    g: MatrixGpio, buttonStates: seq<int>, col: nat,
    buttonState: Int32, rc: Int32, states: seq<int>, trace: seq<Call>)
    requires g.Wellformed() && MATRIX_SIZE <= |buttonStates|
    requires col < BUTTON_COL_COUNT && g.setRc[col] < 0
    requires ScanProgress(g, buttonStates, col, true, buttonState, rc, states, trace)
    ensures MatrixScanOutcome(g, buttonStates, g.setRc[col], states, trace + [Set(Column(col))])
  {
    FirstFailingColumnAt(g, col);
    ScanCallAt(col, 0);
    FullScanPrefixStep(SCAN_STEP * col);
  }

  /** A loop that ran through every column completes the scan. */
  lemma CompletedOutcome(
    g: MatrixGpio, buttonStates: seq<int>, buttonState: Int32, rc: Int32, states: seq<int>, trace: seq<Call>)
    requires g.Wellformed() && MATRIX_SIZE <= |buttonStates|
    requires ScanProgress(g, buttonStates, BUTTON_COL_COUNT, true, buttonState, rc, states, trace)
    ensures MatrixScanOutcome(g, buttonStates, rc, states, trace)
  {
    FirstFailingColumnAt(g, BUTTON_COL_COUNT);
  }

  /** A loop ended by a failing read in column `col - 1` returns that read's error. */
  lemma ReadFailureOutcome(
    g: MatrixGpio, buttonStates: seq<int>, col: nat, buttonState: Int32, rc: Int32, states: seq<int>, trace: seq<Call>)
    requires g.Wellformed() && MATRIX_SIZE <= |buttonStates|
    requires ScanProgress(g, buttonStates, col, false, buttonState, rc, states, trace)
    requires buttonState < 0
    ensures MatrixScanOutcome(g, buttonStates, buttonState, states, trace)
  {
    var k := col - 1;
    var j := FirstFailingRow(g, k);
    assert j < BUTTON_ROW_COUNT && buttonState == ColumnReads(g, k)[j];
    assert trace == FullScanTrace()[..SCAN_STEP * k + j + 2] + [Clear(Column(k))];
    assert StoredUpTo(buttonStates, states, g.readRc, BUTTON_ROW_COUNT * k + j);
    FirstFailingColumnAt(g, k);
    assert ScanStopOf(g) == ReadFailed(k, j);
    ReadFailedOutcome(g, buttonStates, k, j, buttonState, states, trace);
  }

  /** The outcome of a scan whose stop is the failing read of row `j` in column `k`. */
  lemma ReadFailedOutcome(
    g: MatrixGpio, buttonStates: seq<int>, k: nat, j: nat, rc: Int32, states: seq<int>, trace: seq<Call>)
    requires g.Wellformed() && ScanStopOf(g) == ReadFailed(k, j)
    requires StoredUpTo(buttonStates, states, g.readRc, BUTTON_ROW_COUNT * k + j)
    requires rc == ColumnReads(g, k)[j]
    requires trace == FullScanTrace()[..SCAN_STEP * k + j + 2] + [Clear(Column(k))]
    ensures MatrixScanOutcome(g, buttonStates, rc, states, trace)
  {
  }

  /** A loop ended by a failing clear of column `col - 1` returns that clear's error. */
  lemma ClearFailureOutcome(
    g: MatrixGpio, buttonStates: seq<int>, col: nat, buttonState: Int32, rc: Int32, states: seq<int>, trace: seq<Call>)
    requires g.Wellformed() && MATRIX_SIZE <= |buttonStates|
    requires ScanProgress(g, buttonStates, col, false, buttonState, rc, states, trace)
    requires buttonState >= 0
    ensures MatrixScanOutcome(g, buttonStates, rc, states, trace)
  {
    FirstFailingColumnAt(g, col - 1);
    assert ScanStopOf(g) == ClearFailed(col - 1);
  }

  /** Setting, reading and clearing column `col` carries the scan's progress to the next column. */
  lemma ColumnStepProgress(
    g: MatrixGpio, buttonStates: seq<int>, col: nat, buttonState0: Int32, rc0: Int32,
    states0: seq<int>, trace0: seq<Call>, buttonState: Int32, states: seq<int>, calls: seq<Call>)
    requires g.Wellformed() && MATRIX_SIZE <= |buttonStates|
    requires col < BUTTON_COL_COUNT && g.setRc[col] >= 0
    requires ScanProgress(g, buttonStates, col, true, buttonState0, rc0, states0, trace0)
    requires FirstFailingRow(g, col) < BUTTON_ROW_COUNT ==>
      && buttonState == g.readRc[BUTTON_ROW_COUNT * col + FirstFailingRow(g, col)]
      && |calls| == FirstFailingRow(g, col) + 1
    requires FirstFailingRow(g, col) == BUTTON_ROW_COUNT ==>
      buttonState >= 0 && |calls| == BUTTON_ROW_COUNT
    requires forall r :: 0 <= r < |calls| ==> calls[r] == Read(Row(r))
    requires |states| == |states0|
    requires forall i :: 0 <= i < |states0| ==>
      states[i] == (if BUTTON_ROW_COUNT * col <= i < BUTTON_ROW_COUNT * col + FirstFailingRow(g, col)
                    then g.readRc[i] else states0[i])
    ensures ScanProgress(g, buttonStates, col + 1, buttonState >= 0 && g.clearRc[col] >= 0,
                         buttonState, g.clearRc[col], states,
                         trace0 + [Set(Column(col))] + calls + [Clear(Column(col))])
  {
    ScanCallAt(col, 0);
    FullScanPrefixStep(SCAN_STEP * col);
    assert trace0 + [Set(Column(col))] == FullScanTrace()[..SCAN_STEP * col + 1];
    ColumnReadsTrace(col, calls);
    StoredUpToExtend(buttonStates, states0, states, g.readRc, BUTTON_ROW_COUNT * col, FirstFailingRow(g, col));
    if FirstFailingRow(g, col) < BUTTON_ROW_COUNT {
      assert buttonState == ColumnReads(g, col)[FirstFailingRow(g, col)];
      assert buttonState < 0;
    }
  }

  /**
   One scan of the matrix. Columns are set, read row by row and cleared in
   order; the value read for row `r` under column `c` goes to entry
   `8 * c + r`. A failing set returns its error at once, without clearing
   that column. A failing read ends the scan but the column is still
   cleared, and the read's error is returned whatever the clear answers. A
   failing clear ends the scan after its column and its error is returned.
   On full success the last clear's result is returned. Only entries whose
   read succeeded are written; they form a prefix of the matrix part.
   */
  method ReadButtonMatrix(layout: Layout, buttonStates: seq<int>, g: MatrixGpio)
    returns (rc: Int32, states: seq<int>, trace: seq<Call>)
    requires layout.Valid() && |buttonStates| == layout.buttonCount
    requires g.Wellformed()
    ensures MatrixScanOutcome(g, buttonStates, rc, states, trace)
  {
    var buttonState: Int32 := 0;
    var keepReading := true;
    // The source leaves rc unset here; the column count is not zero, so the
    // loop always assigns it before it is read.
    rc := 0;
    states := buttonStates;
    trace := [];
    var col: nat := 0;
    while col < BUTTON_COL_COUNT && keepReading
      invariant ScanProgress(g, buttonStates, col, keepReading, buttonState, rc, states, trace)
      decreases BUTTON_COL_COUNT - col
    {
      ghost var buttonState0, rc0, states0, trace0 := buttonState, rc, states, trace;
      rc := g.setRc[col];
      if rc < 0 {
        SetFailureOutcome(g, buttonStates, col, buttonState0, rc0, states0, trace0);
        trace := trace + [Set(Column(col))];
        return;
      }
      trace := trace + [Set(Column(col))];

      var calls;
      buttonState, states, calls := ReadColumnRows(g, col, states);
      trace := trace + calls;
      if buttonState < 0 {
        keepReading := false;
      }

      rc := g.clearRc[col];
      trace := trace + [Clear(Column(col))];
      if rc < 0 {
        keepReading := false;
      }
      ColumnStepProgress(g, buttonStates, col, buttonState0, rc0, states0, trace0, buttonState, states, calls);
      col := col + 1;
    }

    if keepReading {
      CompletedOutcome(g, buttonStates, buttonState, rc, states, trace);
    } else if buttonState < 0 {
      ReadFailureOutcome(g, buttonStates, col, buttonState, rc, states, trace);
    } else {
      ClearFailureOutcome(g, buttonStates, col, buttonState, rc, states, trace);
    }
    if buttonState < 0 {
      rc := buttonState;
    }
  }

  /** The first failing column is the one after a run of error-free ones. */
  lemma FirstFailingColumnAt(g: MatrixGpio, k: nat)
    requires g.Wellformed() && k <= BUTTON_COL_COUNT
    requires forall c :: 0 <= c < k ==> ColumnScanOk(g, c)
    requires k < BUTTON_COL_COUNT ==> !ColumnScanOk(g, k)
    ensures FirstFailingColumn(g, 0) == k
  {
  }

  /**
   A scan stopped by a failing set never clears the failing column and never
   touches a later one.
   */
  lemma SetFailureTouchesNoLaterColumn(k: nat)
    requires k < BUTTON_COL_COUNT
    ensures Clear(Column(k)) !in FullScanTrace()[..SCAN_STEP * k + 1]
    ensures forall i :: 0 <= i < SCAN_STEP * k + 1 ==> ColumnOf(FullScanTrace()[i]) <= k
  {
    var t := FullScanTrace()[..SCAN_STEP * k + 1];
    forall i | 0 <= i < SCAN_STEP * k + 1
      ensures ColumnOf(FullScanTrace()[i]) <= k
      ensures FullScanTrace()[i] != Clear(Column(k))
    {
      var c := i / SCAN_STEP;
      var p := i % SCAN_STEP;
      assert i == SCAN_STEP * c + p;
      ScanCallAt(c, p);
      assert c <= k;
      assert c == k ==> p == 0;
    }
  }

  /** The column a set or clear drives, or -1 for any other call. */
  function ColumnOf(call: Call): int
  {
    match call
    case Set(Column(c)) => c
    case Clear(Column(c)) => c
    case _ => -1
  }

  /*************************************************************************
   * Shifters and rockers
   *************************************************************************/

  datatype InputGroup = Shifters | Rockers

  function GroupPin(group: InputGroup, i: nat): Pin
  {
    match group
    case Shifters => Shifter(i)
    case Rockers => Rocker(i)
  }

  /**
   The outcome of reading a group of inputs in order and stopping at the
   first negative result: the reads made stop at the first failing one (or
   after all of them), the result code is the last read's result, and only
   the successful reads are stored at `base + i`.
   */
  predicate GroupReadOutcome(
    buttonStates: seq<int>, group: InputGroup, base: nat, results: seq<Int32>,
    rc: Int32, states: seq<int>, trace: seq<Call>)
  {
    var ok := FirstNegative(results, 0);
    var made := if ok < |results| then ok + 1 else |results|;
    && |trace| == made
    && (forall i :: 0 <= i < made ==> trace[i] == Read(GroupPin(group, i)))
    && rc == (if made == 0 then 0 else results[made - 1])
    && |states| == |buttonStates|
    && (forall i :: 0 <= i < |buttonStates| ==>
          states[i] == (if base <= i < base + ok then results[i - base] else buttonStates[i]))
  }

  /** Reads `bound` inputs of a group in order, stopping at the first error. */
  method ReadInputGroup(buttonStates: seq<int>, group: InputGroup, base: nat, bound: nat, results: seq<Int32>)
    returns (rc: Int32, states: seq<int>, trace: seq<Call>)
    requires |results| == bound
    requires base + bound <= |buttonStates|
    ensures GroupReadOutcome(buttonStates, group, base, results, rc, states, trace)
  {
    ghost var ok := FirstNegative(results, 0);
    rc := 0;
    states := buttonStates;
    trace := [];
    var i: nat := 0;
    while i < bound && rc >= 0
      invariant i <= bound
      invariant |trace| == i
      invariant forall j :: 0 <= j < i ==> trace[j] == Read(GroupPin(group, j))
      invariant rc >= 0 ==> i <= ok && rc == (if i == 0 then 0 else results[i - 1])
      invariant rc < 0 ==> i >= 1 && ok == i - 1 && rc == results[i - 1]
      invariant |states| == |buttonStates|
      invariant forall j :: 0 <= j < |buttonStates| ==>
        states[j] == (if base <= j < base + (if rc >= 0 then i else i - 1) then results[j - base] else buttonStates[j])
      decreases bound - i
    {
      rc := results[i];
      trace := trace + [Read(GroupPin(group, i))];
      if rc >= 0 {
        states := states[base + i := rc];
      }
      i := i + 1;
    }
  }

  /**
   Reads the left and then the right shifter, stopping at the first error,
   and stores each successful read at `leftShifterIdx + i`.
   */
  method ReadButtonShifters(layout: Layout, buttonStates: seq<int>, results: seq<Int32>)
    returns (rc: Int32, states: seq<int>, trace: seq<Call>)
    requires layout.Valid() && |buttonStates| == layout.buttonCount
    requires |results| == BUTTON_SHIFTER_COUNT
    ensures GroupReadOutcome(buttonStates, Shifters, layout.leftShifterIdx, results, rc, states, trace)
  {
    rc, states, trace := ReadInputGroup(buttonStates, Shifters, layout.leftShifterIdx, BUTTON_SHIFTER_COUNT, results);
  }

  /**
   Reads the left and then the right rocker, stopping at the first error,
   and stores each successful read at `leftRockerIdx + i`. The source bounds
   this loop by the shifter count, which equals the rocker count.
   */
  method ReadButtonRockers(layout: Layout, buttonStates: seq<int>, results: seq<Int32>)
    returns (rc: Int32, states: seq<int>, trace: seq<Call>)
    requires layout.Valid() && |buttonStates| == layout.buttonCount
    requires |results| == BUTTON_ROCKER_COUNT
    ensures GroupReadOutcome(buttonStates, Rockers, layout.leftRockerIdx, results, rc, states, trace)
  {
    rc, states, trace := ReadInputGroup(buttonStates, Rockers, layout.leftRockerIdx, BUTTON_SHIFTER_COUNT, results);
  }

  /*************************************************************************
   * Initialisation and copy-out
   *************************************************************************/

  /** The `i`-th GPIO init of a fully successful initialisation. */
  function InitCall(i: nat): Call
  {
    if i < BUTTON_ROW_COUNT then Init(Row(i), GpioIn)
    else if i < BUTTON_ROW_COUNT + BUTTON_COL_COUNT then Init(Column(i - BUTTON_ROW_COUNT), GpioOutClr)
    else if i < BUTTON_ROW_COUNT + BUTTON_COL_COUNT + BUTTON_SHIFTER_COUNT then
      Init(Shifter(i - BUTTON_ROW_COUNT - BUTTON_COL_COUNT), GpioIn)
    else Init(Rocker(i - BUTTON_ROW_COUNT - BUTTON_COL_COUNT - BUTTON_SHIFTER_COUNT), GpioIn)
  }

  /** Rows as inputs, columns as cleared outputs, shifters and rockers as inputs. */
  function InitOrder(): (t: seq<Call>)
    ensures |t| == INIT_CALL_COUNT
  {
    seq(INIT_CALL_COUNT, (i: int) requires 0 <= i => InitCall(i))
  }

  lemma InitOrderPrefixStep(m: nat)
    requires m < INIT_CALL_COUNT
    ensures InitOrder()[..m + 1] == InitOrder()[..m] + [InitCall(m)]
  {
  }

  /**
   Initialises rows, columns, shifters and rockers in that order, stopping
   at the first init that returns anything but 0 and returning it. The
   thread is created, once, exactly when every init returned 0.
   */
  method ButtonMngrInit(initRc: seq<Int32>) returns (rc: Int32, trace: seq<Call>)
    requires |initRc| == INIT_CALL_COUNT
    ensures FirstNonZero(initRc, 0) < INIT_CALL_COUNT ==>
      rc == initRc[FirstNonZero(initRc, 0)] && trace == InitOrder()[..FirstNonZero(initRc, 0) + 1]
    ensures FirstNonZero(initRc, 0) == INIT_CALL_COUNT ==>
      rc == 0 && trace == InitOrder() + [CreateThread]
    ensures (CreateThread in trace) <==> rc == 0
  {
    ghost var bad := FirstNonZero(initRc, 0);
    rc := 0;
    trace := [];
    var calls: nat := 0;

    var i: nat := 0;
    while i < BUTTON_ROW_COUNT && rc == 0
      invariant i <= BUTTON_ROW_COUNT && calls == i
      invariant trace == InitOrder()[..calls]
      invariant rc == 0 ==> calls <= bad
      invariant rc != 0 ==> calls >= 1 && bad == calls - 1 && rc == initRc[calls - 1]
    {
      rc := initRc[calls];
      InitOrderPrefixStep(calls);
      trace := trace + [Init(Row(i), GpioIn)];
      calls := calls + 1;
      i := i + 1;
    }

    i := 0;
    while i < BUTTON_COL_COUNT && rc == 0
      invariant i <= BUTTON_COL_COUNT
      invariant rc == 0 ==> calls == BUTTON_ROW_COUNT + i
      invariant calls <= INIT_CALL_COUNT
      invariant trace == InitOrder()[..calls]
      invariant rc == 0 ==> calls <= bad
      invariant rc != 0 ==> calls >= 1 && bad == calls - 1 && rc == initRc[calls - 1]
    {
      rc := initRc[calls];
      InitOrderPrefixStep(calls);
      trace := trace + [Init(Column(i), GpioOutClr)];
      calls := calls + 1;
      i := i + 1;
    }

    i := 0;
    while i < BUTTON_SHIFTER_COUNT && rc == 0
      invariant i <= BUTTON_SHIFTER_COUNT
      invariant rc == 0 ==> calls == BUTTON_ROW_COUNT + BUTTON_COL_COUNT + i
      invariant calls <= INIT_CALL_COUNT
      invariant trace == InitOrder()[..calls]
      invariant rc == 0 ==> calls <= bad
      invariant rc != 0 ==> calls >= 1 && bad == calls - 1 && rc == initRc[calls - 1]
    {
      rc := initRc[calls];
      InitOrderPrefixStep(calls);
      trace := trace + [Init(Shifter(i), GpioIn)];
      calls := calls + 1;
      i := i + 1;
    }

    i := 0;
    while i < BUTTON_ROCKER_COUNT && rc == 0
      invariant i <= BUTTON_ROCKER_COUNT
      invariant rc == 0 ==> calls == BUTTON_ROW_COUNT + BUTTON_COL_COUNT + BUTTON_SHIFTER_COUNT + i
      invariant calls <= INIT_CALL_COUNT
      invariant trace == InitOrder()[..calls]
      invariant rc == 0 ==> calls <= bad
      invariant rc != 0 ==> calls >= 1 && bad == calls - 1 && rc == initRc[calls - 1]
    {
      rc := initRc[calls];
      InitOrderPrefixStep(calls);
      trace := trace + [Init(Rocker(i), GpioIn)];
      calls := calls + 1;
      i := i + 1;
    }

    if rc == 0 {
      assert calls == INIT_CALL_COUNT;
      trace := trace + [CreateThread];
    }
  }

  /**
   Copies the whole state table into the caller's buffer `dest` when the
   requested count is the table size and returns 0; any other count returns
   -EINVAL and leaves `dest` untouched. Entries of `dest` past the copied
   ones are never written.
   */
  function GetAllStates(layout: Layout, buttonStates: seq<int>, dest: seq<int>, count: SizeT)
    : (r: (Int32, seq<int>))
    requires layout.Valid() && |buttonStates| == layout.buttonCount
    requires count == layout.buttonCount ==> count <= |dest|
    ensures r.0 == 0 <==> count == layout.buttonCount
    ensures r.0 != 0 ==> r.0 == -EINVAL && r.1 == dest
    ensures |r.1| == |dest|
    ensures r.0 == 0 ==> forall i :: 0 <= i < |dest| ==>
      r.1[i] == (if i < count then buttonStates[i] else dest[i])
  {
    if count != layout.buttonCount then (-EINVAL, dest)
    else (0, buttonStates + dest[count..])
  }

  /**
   Asking for exactly the table size hands the whole table back: the first
   `buttonCount` entries of the caller's buffer read as the table.
   */
  lemma GetAllStatesHandsBackTable(layout: Layout, buttonStates: seq<int>, dest: seq<int>)
    requires layout.Valid() && |buttonStates| == layout.buttonCount
    requires layout.buttonCount <= |dest|
    ensures GetAllStates(layout, buttonStates, dest, layout.buttonCount).0 == 0
    ensures GetAllStates(layout, buttonStates, dest, layout.buttonCount).1[..layout.buttonCount] == buttonStates
  {
    var r := GetAllStates(layout, buttonStates, dest, layout.buttonCount);
    assert forall i :: 0 <= i < layout.buttonCount ==> r.1[..layout.buttonCount][i] == buttonStates[i];
  }
}
