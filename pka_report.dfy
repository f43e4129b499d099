/** The reader of PROPKA's `.pka` report: it finds the lines of the
    "SUMMARY OF THIS PREDICTION" block, splits each into tokens, and names
    the columns of the resulting table.

    The scanner keeps the same state as the Python loop, the variable `p`:
    `None` outside a block, `Some(1)` right after the marker line (the column
    header is still to come), and `Some(k)` with `k <= 0` while collecting
    rows. `ExpectedRows` says declaratively which lines become rows. */
module PkaReport {
  import opened Wrappers
  import opened Strings

  const SummaryMarker: string := "SUMMARY OF THIS PREDICTION"
  const DashRule: string := "------"

  const BaseColumns: seq<string> := ["resname", "resnum", "chain", "pKa", "model-pKa"]
  const LigandColumn: string := "lig-attype"
  const PkaIndex: nat := 3
  const ModelPkaIndex: nat := 4

  /** A table: the column names and the token rows. A row shorter than the
      column list has its missing trailing cells empty (pandas pads with None). */
  datatype Frame = Frame(columns: seq<string>, rows: seq<seq<string>>)

  /** Why the report cannot be turned into a table (pandas raises ValueError). */
  datatype ReportError =
    | ColumnCountMismatch(width: nat)
    | NotAFloat(column: string)

  predicate IsMarker(line: string) {
    StartsWith(line, SummaryMarker)
  }

  predicate IsDash(line: string) {
    StartsWith(line, DashRule)
  }

  /** A line that changes the scanner's state and is never a row. */
  predicate IsControl(line: string) {
    IsMarker(line) || IsDash(line)
  }

  /** The two kinds of control line never overlap, so testing for the marker
      before the dash rule does not change which state a line leads to. */
  lemma MarkerIsNotDash(line: string)
    ensures !(IsMarker(line) && IsDash(line))
  {
    if IsMarker(line) {
      assert line[0] == SummaryMarker[0];
    }
  }

  /** Line `i` is a data row of a summary block: some earlier line `j` is the
      marker, line `j + 1` is the header, and no marker or dash rule occurs
      between the marker and line `i` (line `i` included). */
  ghost predicate IsDataLine(lines: seq<string>, i: nat)
    requires i < |lines|
  {
    exists j :: 0 <= j && j + 1 < i && IsMarker(lines[j])
      && forall k :: j < k <= i ==> !IsControl(lines[k])
  }

  /** The indices of the data rows among the first `n` lines, in file order. */
  ghost function DataIndices(lines: seq<string>, n: nat): (idx: seq<nat>)
    requires n <= |lines|
    ensures forall a :: 0 <= a < |idx| ==> idx[a] < n
  {
    if n == 0 then []
    else DataIndices(lines, n - 1) + (if IsDataLine(lines, n - 1) then [n - 1] else [])
  }

  /** The data-line indices are strictly increasing, each is a data line
      below `n`, and no data line below `n` is missing. */
  lemma {:induction false} DataIndicesSpec(lines: seq<string>, n: nat)
    requires n <= |lines|
    ensures forall a, b :: 0 <= a < b < |DataIndices(lines, n)| ==> DataIndices(lines, n)[a] < DataIndices(lines, n)[b]
    ensures forall a :: 0 <= a < |DataIndices(lines, n)| ==> IsDataLine(lines, DataIndices(lines, n)[a])
    ensures forall i :: 0 <= i < n && IsDataLine(lines, i) ==> i in DataIndices(lines, n)
  {
    if n > 0 {
      DataIndicesSpec(lines, n - 1);
      var idx := DataIndices(lines, n - 1);
      var idx' := DataIndices(lines, n);
      if IsDataLine(lines, n - 1) {
        assert idx' == idx + [n - 1];
        forall a | 0 <= a < |idx'| ensures IsDataLine(lines, idx'[a]) {
          if a < |idx| {
            assert idx'[a] == idx[a];
          }
        }
      } else {
        assert idx' == idx;
      }
    }
  }

  /** The rows the first `n` lines yield: the tokens of each data line, in order. */
  ghost function RowsUpTo(lines: seq<string>, n: nat): seq<seq<string>>
    requires n <= |lines|
  {
    if n == 0 then []
    else RowsUpTo(lines, n - 1) + (if IsDataLine(lines, n - 1) then [Words(lines[n - 1])] else [])
  }

  /** The rows of the whole report. */
  ghost function ExpectedRows(lines: seq<string>): seq<seq<string>> {
    RowsUpTo(lines, |lines|)
  }

  /** The last marker or dash rule among the first `n` lines, if any. */
  ghost function LastControl(lines: seq<string>, n: nat): (r: Option<nat>)
    requires n <= |lines|
    ensures r.Some? ==> r.value < n && IsControl(lines[r.value])
    ensures r.Some? ==> forall k :: r.value < k < n ==> !IsControl(lines[k])
    ensures r.None? ==> forall k :: 0 <= k < n ==> !IsControl(lines[k])
  {
    if n == 0 then None
    else if IsControl(lines[n - 1]) then Some(n - 1)
    else LastControl(lines, n - 1)
  }

  /** The value of the scanner's `p` once the first `n` lines are read: inside
      a block it started at 1 on the marker and dropped by one per line since. */
  ghost function ScanState(lines: seq<string>, n: nat): Option<int>
    requires n <= |lines|
  {
    match LastControl(lines, n)
    case None => None
    case Some(j) => if IsMarker(lines[j]) then Some(j + 2 - n) else None
  }

  /** The scanner emits line `i` exactly when the state before it says
      "collecting" and the line is not itself a control line. */
  lemma DataLineByState(lines: seq<string>, i: nat)
    requires i < |lines|
    ensures IsDataLine(lines, i) <==>
      (!IsControl(lines[i]) && ScanState(lines, i).Some? && ScanState(lines, i).value <= 0)
  {
    var last := LastControl(lines, i);
    if IsDataLine(lines, i) {
      var j :| 0 <= j && j + 1 < i && IsMarker(lines[j])
        && forall k :: j < k <= i ==> !IsControl(lines[k]);
      assert last.Some? && last.value == j;
    }
    if !IsControl(lines[i]) && ScanState(lines, i).Some? && ScanState(lines, i).value <= 0 {
      var j := last.value;
      assert j + 1 < i && IsMarker(lines[j]);
      assert forall k :: j < k <= i ==> !IsControl(lines[k]);
    }
  }

  /** The scanning loop of `parse_propka_pkaoutput` over the report's lines. */
  method ScanSummary(lines: seq<string>) returns (output: seq<seq<string>>)
    ensures output == ExpectedRows(lines)
  {
    output := [];
    var p: Option<int> := None;
    for i := 0 to |lines|
      invariant output == RowsUpTo(lines, i)
      invariant p == ScanState(lines, i)
    {
      var line := lines[i];
      DataLineByState(lines, i);
      if StartsWith(line, SummaryMarker) {
        p := Some(1);
        continue;
      }
      if StartsWith(line, DashRule) {
        p := None;
        continue;
      }
      if p.Some? {
        if p.value <= 0 {
          output := output + [Words(line)];
        }
        p := Some(p.value - 1);
      }
    }
  }

  /** Number of columns pandas gives a list of rows: the longest row's length. */
  function Width(rows: seq<seq<string>>): (w: nat)
    ensures forall row :: row in rows ==> |row| <= w
    ensures rows != [] ==> exists row :: row in rows && |row| == w
    ensures rows == [] ==> w == 0
  {
    if rows == [] then 0
    else
      var rest := Width(rows[1..]);
      assert forall row :: row in rows[1..] ==> row in rows;
      if |rows[0]| >= rest then |rows[0]| else rest
  }

  /** Every present cell of column `c` converts to a float; a padded (missing)
      cell becomes NaN, which is a float too. */
  predicate FloatColumn(rows: seq<seq<string>>, c: nat, isFloat: string -> bool) {
    forall i :: 0 <= i < |rows| && c < |rows[i]| ==> isFloat(rows[i][c])
  }

  /** Naming the columns and casting the two pKa columns to float. An empty
      table stays empty; a table five wide gets the five standard names; any
      other width is given the six names ending in "lig-attype", which fails
      unless the width is six. `isFloat` tells whether Python's `float()`
      accepts a token. */
  function NameColumns(rows: seq<seq<string>>, isFloat: string -> bool): (r: Result<Frame, ReportError>)
    ensures r.Ok? ==> r.value.rows == rows
    ensures r.Ok? <==> (Width(rows) == 0
      || ((Width(rows) == 5 || Width(rows) == 6)
          && FloatColumn(rows, PkaIndex, isFloat) && FloatColumn(rows, ModelPkaIndex, isFloat)))
    ensures r.Ok? && Width(rows) == 0 ==> r.value.columns == []
    ensures r.Ok? && Width(rows) > 0 ==>
      |r.value.columns| == Width(rows) && r.value.columns[..5] == BaseColumns
      && (Width(rows) == 6 ==> r.value.columns[5] == LigandColumn)
    ensures r.Ok? ==> forall row :: row in rows ==> |row| <= |r.value.columns| || r.value.columns == []
    ensures Width(rows) != 0 && Width(rows) != 5 && Width(rows) != 6 ==>
      r == Err(ColumnCountMismatch(Width(rows)))
    ensures (Width(rows) == 5 || Width(rows) == 6) && !FloatColumn(rows, PkaIndex, isFloat) ==>
      r == Err(NotAFloat(BaseColumns[PkaIndex]))
  {
    var w := Width(rows);
    if w == 0 then Ok(Frame([], rows))
    else
      var columns := if w == 5 then BaseColumns else BaseColumns + [LigandColumn];
      if |columns| != w then Err(ColumnCountMismatch(w))
      else if !FloatColumn(rows, PkaIndex, isFloat) then Err(NotAFloat(BaseColumns[PkaIndex]))
      else if !FloatColumn(rows, ModelPkaIndex, isFloat) then Err(NotAFloat(BaseColumns[ModelPkaIndex]))
      else Ok(Frame(columns, rows))
  }

  /** `parse_propka_pkaoutput`: scan the report, then build the table. */
  method ParsePkaOutput(lines: seq<string>, isFloat: string -> bool) returns (r: Result<Frame, ReportError>)
    ensures r == NameColumns(ExpectedRows(lines), isFloat)
    ensures r.Ok? ==> r.value.rows == ExpectedRows(lines)
  {
    var output := ScanSummary(lines);
    r := NameColumns(output, isFloat);
  }

  /** Each row is the token list of one data line, and the rows come in the
      order of their lines in the file. */
  lemma {:induction false} RowsAreDataLines(lines: seq<string>, n: nat)
    requires n <= |lines|
    ensures |RowsUpTo(lines, n)| == |DataIndices(lines, n)|
    ensures forall k :: 0 <= k < |RowsUpTo(lines, n)| ==>
      RowsUpTo(lines, n)[k] == Words(lines[DataIndices(lines, n)[k]])
  {
    if n > 0 {
      RowsAreDataLines(lines, n - 1);
      var rows, idx := RowsUpTo(lines, n - 1), DataIndices(lines, n - 1);
      if IsDataLine(lines, n - 1) {
        var rows', idx' := RowsUpTo(lines, n), DataIndices(lines, n);
        assert rows' == rows + [Words(lines[n - 1])];
        assert idx' == idx + [n - 1];
        forall k | 0 <= k < |rows'| ensures rows'[k] == Words(lines[idx'[k]]) {
          if k < |rows| {
            assert rows'[k] == rows[k] && idx'[k] == idx[k];
          }
        }
      } else {
        assert RowsUpTo(lines, n) == rows;
        assert DataIndices(lines, n) == idx;
      }
    }
  }

  /** Marker lines, dash rules and the header line right after a marker are
      never rows. */
  lemma NeverRows(lines: seq<string>, i: nat)
    requires i < |lines|
    requires IsControl(lines[i]) || (i > 0 && IsMarker(lines[i - 1]))
    ensures i !in DataIndices(lines, |lines|)
  {
    DataIndicesSpec(lines, |lines|);
  }

  /** A line that no marker precedes since the last dash rule (or since the
      start of the report) is never a row. */
  lemma OutsideBlocksNeverRows(lines: seq<string>, i: nat)
    requires i < |lines|
    requires forall k :: 0 <= k <= i && IsMarker(lines[k]) ==> exists d :: k < d <= i && IsDash(lines[d])
    ensures i !in DataIndices(lines, |lines|)
  {
    DataIndicesSpec(lines, |lines|);
  }

  /** A report without a marker line yields no rows. */
  lemma {:induction false} NoMarkerNoRows(lines: seq<string>, n: nat)
    requires n <= |lines|
    requires forall k :: 0 <= k < |lines| ==> !IsMarker(lines[k])
    ensures RowsUpTo(lines, n) == []
  {
    if n > 0 {
      NoMarkerNoRows(lines, n - 1);
      assert !IsDataLine(lines, n - 1);
    }
  }

  lemma DataLineOfPrefix(a: seq<string>, b: seq<string>, i: nat)
    requires i < |a|
    ensures IsDataLine(a + b, i) <==> IsDataLine(a, i)
  {
    var ab := a + b;
    if IsDataLine(ab, i) {
      var j :| 0 <= j && j + 1 < i && IsMarker(ab[j])
        && forall k :: j < k <= i ==> !IsControl(ab[k]);
      assert IsMarker(a[j]);
      assert forall k :: j < k <= i ==> !IsControl(a[k]) by {
        forall k | j < k <= i ensures !IsControl(a[k]) { assert ab[k] == a[k]; }
      }
    }
    if IsDataLine(a, i) {
      var j :| 0 <= j && j + 1 < i && IsMarker(a[j])
        && forall k :: j < k <= i ==> !IsControl(a[k]);
      assert IsMarker(ab[j]);
      assert forall k :: j < k <= i ==> !IsControl(ab[k]) by {
        forall k | j < k <= i ensures !IsControl(ab[k]) { assert ab[k] == a[k]; }
      }
    }
  }

  lemma DataLineOfSuffix(a: seq<string>, b: seq<string>, i: nat)
    requires i < |b| && IsMarker(b[0])
    ensures IsDataLine(a + b, |a| + i) <==> IsDataLine(b, i)
  {
    var ab := a + b;
    assert IsControl(ab[|a|]) by { assert ab[|a|] == b[0]; }
    if IsDataLine(ab, |a| + i) {
      var j :| 0 <= j && j + 1 < |a| + i && IsMarker(ab[j])
        && forall k :: j < k <= |a| + i ==> !IsControl(ab[k]);
      assert j >= |a|;
      assert IsMarker(b[j - |a|]);
      assert forall k :: j - |a| < k <= i ==> !IsControl(b[k]) by {
        forall k | j - |a| < k <= i ensures !IsControl(b[k]) { assert ab[|a| + k] == b[k]; }
      }
    }
    if IsDataLine(b, i) {
      var j :| 0 <= j && j + 1 < i && IsMarker(b[j])
        && forall k :: j < k <= i ==> !IsControl(b[k]);
      assert IsMarker(ab[|a| + j]);
      assert forall k :: |a| + j < k <= |a| + i ==> !IsControl(ab[k]) by {
        forall k | |a| + j < k <= |a| + i ensures !IsControl(ab[k]) { assert ab[k] == b[k - |a|]; }
      }
    }
  }

  lemma {:induction false} RowsOfPrefix(a: seq<string>, b: seq<string>, n: nat)
    requires n <= |a|
    ensures RowsUpTo(a + b, n) == RowsUpTo(a, n)
  {
    if n > 0 {
      RowsOfPrefix(a, b, n - 1);
      DataLineOfPrefix(a, b, n - 1);
      assert (a + b)[n - 1] == a[n - 1];
    }
  }

  lemma {:induction false} RowsOfSuffix(a: seq<string>, b: seq<string>, n: nat)
    requires n <= |b| && b != [] && IsMarker(b[0])
    ensures RowsUpTo(a + b, |a| + n) == RowsUpTo(a, |a|) + RowsUpTo(b, n)
  {
    if n == 0 {
      RowsOfPrefix(a, b, |a|);
    } else {
      var ab, m := a + b, |a| + n;
      RowsOfSuffix(a, b, n - 1);
      DataLineOfSuffix(a, b, n - 1);
      assert ab[m - 1] == b[n - 1];
      var extra := if IsDataLine(b, n - 1) then [Words(b[n - 1])] else [];
      assert RowsUpTo(ab, m) == RowsUpTo(ab, m - 1) + extra;
      assert RowsUpTo(b, n) == RowsUpTo(b, n - 1) + extra;
      assert RowsUpTo(ab, m) == RowsUpTo(a, |a|) + RowsUpTo(b, n - 1) + extra;
    }
  }

  /** A second marker restarts the header skip but keeps what was collected
      before it: the rows of the blocks are concatenated in file order. */
  lemma BlocksConcatenate(a: seq<string>, b: seq<string>)
    requires b != [] && IsMarker(b[0])
    ensures ExpectedRows(a + b) == ExpectedRows(a) + ExpectedRows(b)
  {
    RowsOfSuffix(a, b, |b|);
  }

  lemma {:induction false} RowsSkipRange(lines: seq<string>, m: nat, n: nat)
    requires m <= n <= |lines|
    requires forall i :: m <= i < n ==> !IsDataLine(lines, i)
    ensures RowsUpTo(lines, n) == RowsUpTo(lines, m)
  {
    if m < n {
      RowsSkipRange(lines, m, n - 1);
    }
  }

  lemma {:induction false} RowsTakeRange(lines: seq<string>, m: nat, n: nat)
    requires m <= n <= |lines|
    requires forall i :: m <= i < n ==> IsDataLine(lines, i)
    ensures RowsUpTo(lines, n) == RowsUpTo(lines, m) + seq(n - m, k requires 0 <= k < n - m => Words(lines[m + k]))
  {
    if m < n {
      RowsTakeRange(lines, m, n - 1);
    }
  }

  /** The lines of a block: a marker line, its header, the data lines, the
      closing dash rule and what follows up to the next marker. */
  ghost predicate IsBlock(block: seq<string>, marker: string, header: string, body: seq<string>, rule: string, post: seq<string>) {
    && block == [marker, header] + body + [rule] + post
    && IsMarker(marker)
    && !IsControl(header)
    && (forall k :: 0 <= k < |body| ==> !IsControl(body[k]))
    && IsDash(rule)
    && (forall k :: 0 <= k < |post| ==> !IsMarker(post[k]))
  }

  lemma BlockBodyRows(block: seq<string>, marker: string, header: string, body: seq<string>, rule: string, post: seq<string>)
    requires IsBlock(block, marker, header, body, rule, post)
    ensures forall i :: 2 <= i < 2 + |body| ==> IsDataLine(block, i)
  {
    forall i | 2 <= i < 2 + |body| ensures IsDataLine(block, i) {
      assert block[0] == marker;
      forall k | 0 < k <= i ensures !IsControl(block[k]) {
        if k == 1 { assert block[k] == header; } else { assert block[k] == body[k - 2]; }
      }
    }
  }

  lemma BlockTailRows(block: seq<string>, marker: string, header: string, body: seq<string>, rule: string, post: seq<string>)
    requires IsBlock(block, marker, header, body, rule, post)
    ensures forall i :: 2 + |body| <= i < |block| ==> !IsDataLine(block, i)
  {
    var e := 2 + |body|;
    assert block[e] == rule;
    forall j | e <= j < |block| ensures !IsMarker(block[j]) {
      if j == e {
        MarkerIsNotDash(rule);
      } else {
        assert block[j] == post[j - e - 1];
      }
    }
  }

  /** The rows of one block are exactly the token lists of its data lines. */
  lemma BlockRows(block: seq<string>, marker: string, header: string, body: seq<string>, rule: string, post: seq<string>)
    requires IsBlock(block, marker, header, body, rule, post)
    ensures ExpectedRows(block) == seq(|body|, k requires 0 <= k < |body| => Words(body[k]))
  {
    var e := 2 + |body|;
    BlockBodyRows(block, marker, header, body, rule, post);
    BlockTailRows(block, marker, header, body, rule, post);
    RowsSkipRange(block, 0, 2);
    RowsTakeRange(block, 2, e);
    RowsSkipRange(block, e, |block|);
    TakenIsBody(block, marker, header, body, rule, post);
    assert RowsUpTo(block, 0) == [];
  }

  lemma TakenIsBody(block: seq<string>, marker: string, header: string, body: seq<string>, rule: string, post: seq<string>)
    requires block == [marker, header] + body + [rule] + post
    ensures seq(|body|, k requires 0 <= k < |body| => Words(block[2 + k]))
         == seq(|body|, k requires 0 <= k < |body| => Words(body[k]))
  {
    forall k | 0 <= k < |body| ensures block[2 + k] == body[k] { }
  }

  /** The shape of a report with one summary block: nothing before the marker
      line, the header, the data lines, the closing dash rule and whatever
      follows without another marker. The marker line is any line starting
      with the marker, newline included. The rows are exactly the token lists
      of the data lines, in order. */
  lemma OneBlock(pre: seq<string>, marker: string, header: string, body: seq<string>, rule: string, post: seq<string>)
    requires forall k :: 0 <= k < |pre| ==> !IsMarker(pre[k])
    requires IsMarker(marker)
    requires !IsControl(header)
    requires forall k :: 0 <= k < |body| ==> !IsControl(body[k])
    requires IsDash(rule)
    requires forall k :: 0 <= k < |post| ==> !IsMarker(post[k])
    ensures ExpectedRows(pre + ([marker, header] + body + [rule] + post))
         == seq(|body|, k requires 0 <= k < |body| => Words(body[k]))
  {
    var block := [marker, header] + body + [rule] + post;
    assert IsMarker(block[0]);
    NoMarkerNoRows(pre, |pre|);
    BlocksConcatenate(pre, block);
    BlockRows(block, marker, header, body, rule, post);
  }

  /** A report with one summary block whose data lines all split into `w`
      tokens, `w` being 5 or 6, with numeric pKa and model pKa, parses to a
      table of exactly those token rows under the standard column names. The
      lines may carry any spacing and their newlines. */
  lemma WellFormedReport(pre: seq<string>, marker: string, header: string, body: seq<string>, rule: string,
                         post: seq<string>, table: seq<seq<string>>, w: nat, isFloat: string -> bool)
    requires forall k :: 0 <= k < |pre| ==> !IsMarker(pre[k])
    requires IsMarker(marker)
    requires !IsControl(header)
    requires |body| == |table| && table != [] && (w == 5 || w == 6)
    requires forall k :: 0 <= k < |body| ==> !IsControl(body[k]) && Words(body[k]) == table[k]
    requires forall k :: 0 <= k < |table| ==> |table[k]| == w
    requires forall k :: 0 <= k < |table| ==> isFloat(table[k][PkaIndex]) && isFloat(table[k][ModelPkaIndex])
    requires IsDash(rule)
    requires forall k :: 0 <= k < |post| ==> !IsMarker(post[k])
    ensures NameColumns(ExpectedRows(pre + ([marker, header] + body + [rule] + post)), isFloat)
         == Ok(Frame(if w == 5 then BaseColumns else BaseColumns + [LigandColumn], table))
  {
    OneBlock(pre, marker, header, body, rule, post);
    var rows := seq(|body|, k requires 0 <= k < |body| => Words(body[k]));
    assert rows == table;
    UniformWidth(table, w);
  }

  lemma UniformWidth(table: seq<seq<string>>, w: nat)
    requires table != []
    requires forall k :: 0 <= k < |table| ==> |table[k]| == w
    ensures Width(table) == w
  {
    assert table[0] in table;
  }
}
