/** The EXPLAIN ANALYZE text analyser: it classifies every plan line by node
    type, reads the numbers on it, runs five threshold detectors over the
    lines and summarises the problems found by severity and type.

    Numbers are exact reals read from the plan's digit-and-dot text; every
    threshold test is a strict comparison with an integer constant. */
module ExplainAnalyzer {
  import opened Common
  import opened Text
  import opened PlanText

  // ---------------------------------------------------------------------------
  // Node types

  datatype NodeInfo = NodeInfo(color: string, description: string)

  /** `NODE_TYPES`, in declaration order. */
  const NodeTypes: seq<(string, NodeInfo)> := [
    ("Seq Scan", NodeInfo("warning", "Full table scan - potentially slow for large tables")),
    ("Index Scan", NodeInfo("good", "Using an index efficiently")),
    ("Index Only Scan", NodeInfo("good", "Most efficient - reading only from index")),
    ("Bitmap Index Scan", NodeInfo("ok", "First step of bitmap scan")),
    ("Bitmap Heap Scan", NodeInfo("ok", "Using multiple indexes combined")),
    ("Nested Loop", NodeInfo("neutral", "Joining tables in a loop")),
    ("Hash Join", NodeInfo("good", "Efficient join using hash table")),
    ("Merge Join", NodeInfo("good", "Efficient join on sorted data")),
    ("Sort", NodeInfo("warning", "Sorting data in memory or disk")),
    ("HashAggregate", NodeInfo("ok", "Grouping using hash table")),
    ("GroupAggregate", NodeInfo("ok", "Grouping on sorted data")),
    ("Aggregate", NodeInfo("ok", "Computing aggregate functions")),
    ("Limit", NodeInfo("good", "Limiting result set")),
    ("Subquery Scan", NodeInfo("neutral", "Scanning a subquery result")),
    ("CTE Scan", NodeInfo("neutral", "Scanning a Common Table Expression")),
    ("Materialize", NodeInfo("warning", "Caching intermediate results")),
    ("Gather", NodeInfo("ok", "Parallel query coordination")),
    ("Gather Merge", NodeInfo("ok", "Parallel query with merge"))
  ]

  function FirstNodeType(line: string, k: nat): (r: Option<nat>)
    requires k <= |NodeTypes|
    ensures r.Some? ==> k <= r.value < |NodeTypes| && Contains(line, NodeTypes[r.value].0)
    ensures r.Some? ==> forall j :: k <= j < r.value ==> !Contains(line, NodeTypes[j].0)
    ensures r.None? ==> forall j :: k <= j < |NodeTypes| ==> !Contains(line, NodeTypes[j].0)
    decreases |NodeTypes| - k
  {
    if k == |NodeTypes| then None
    else if Contains(line, NodeTypes[k].0) then Some(k)
    else FirstNodeType(line, k + 1)
  }

  /** `extract_node_type`: the first key of `NODE_TYPES`, in declaration
      order, that occurs in the line. */
  function ExtractNodeType(line: string): (r: Option<string>)
    ensures r.Some? ==> exists i :: (0 <= i < |NodeTypes| && NodeTypes[i].0 == r.value
      && Contains(line, r.value) && forall j :: 0 <= j < i ==> !Contains(line, NodeTypes[j].0))
    ensures r.None? ==> forall i :: 0 <= i < |NodeTypes| ==> !Contains(line, NodeTypes[i].0)
  {
    match FirstNodeType(line, 0)
    case None => None
    case Some(i) => Some(NodeTypes[i].0)
  }

  /** `NODE_TYPES[node_type]`. */
  function NodeInfoOf(t: Option<string>): (r: Option<NodeInfo>)
    ensures r.Some? ==> t.Some? && exists i :: 0 <= i < |NodeTypes| && NodeTypes[i] == (t.value, r.value)
  {
    match t
    case None => None
    case Some(name) => LookupNodeInfo(name, 0)
  }

  function LookupNodeInfo(name: string, k: nat): (r: Option<NodeInfo>)
    requires k <= |NodeTypes|
    ensures r.Some? ==> exists i :: k <= i < |NodeTypes| && NodeTypes[i] == (name, r.value)
    decreases |NodeTypes| - k
  {
    if k == |NodeTypes| then None
    else if NodeTypes[k].0 == name then Some(NodeTypes[k].1)
    else LookupNodeInfo(name, k + 1)
  }

  /** "Index Scan" comes before "Bitmap Index Scan" in the table and is part of
      it, so a bitmap index scan line (without "Seq Scan") is classified as an
      index scan. */
  lemma BitmapIndexScanIsIndexScan(line: string)
    requires Contains(line, "Bitmap Index Scan") && !Contains(line, "Seq Scan")
    ensures ExtractNodeType(line) == Some("Index Scan")
  {
    var i := FindFrom(line, "Bitmap Index Scan", 0).value;
    assert line[i + 7..i + 17] == "Bitmap Index Scan"[7..17] == "Index Scan";
    ContainsAt(line, "Index Scan", i + 7);
    assert FirstNodeType(line, 1) == Some(1);
  }

  /** "Gather" comes before "Gather Merge", so a gather-merge line that names
      no earlier node type is classified as "Gather". */
  lemma GatherMergeIsGather(line: string)
    requires Contains(line, "Gather Merge")
    requires forall j :: 0 <= j < 16 ==> !Contains(line, NodeTypes[j].0)
    ensures ExtractNodeType(line) == Some("Gather")
  {
    var i := FindFrom(line, "Gather Merge", 0).value;
    assert line[i..i + 6] == "Gather Merge"[..6] == "Gather";
    ContainsAt(line, "Gather", i);
    assert FirstNodeType(line, 16) == Some(16);
  }

  // ---------------------------------------------------------------------------
  // Metrics of one line

  datatype Metrics = Metrics(
    startupCost: Option<real>,
    totalCost: Option<real>,
    rowsEstimated: Option<nat>,
    rowsActual: Option<nat>,
    actualTimeStart: Option<real>,
    actualTimeEnd: Option<real>,
    loops: Option<nat>,
    buffersHit: Option<nat>,
    buffersRead: Option<nat>)

  function First(p: Option<(real, real)>): Option<real> {
    if p.Some? then Some(p.value.0) else None
  }

  function Second(p: Option<(real, real)>): Option<real> {
    if p.Some? then Some(p.value.1) else None
  }

  /** `extract_metrics`: each field is present only when its pattern matches.
      The combined `rows=… actual … rows=…` pattern is tried before the
      actual-only one, yet both end up agreeing with the separate readings. */
  function ExtractMetrics(line: string): (m: Metrics)
    ensures m.totalCost.Some? <==> m.startupCost.Some?
    ensures m.totalCost.Some? <==> exists k :: 0 <= k <= |line| && MatchesAt(line, RangePattern("cost="), k)
    ensures m.rowsEstimated == IntAfter(line, "rows=")
    ensures m.rowsActual == ActualRowsOnly(line)
    ensures m.actualTimeEnd.Some? <==> m.actualTimeStart.Some?
  {
    var cost := RangeAfter(line, "cost=");
    var rows0 := IntAfter(line, "rows=");
    var both := EstimatedAndActualRows(line);
    var rowsEstimated := if both.Some? then Some(both.value.0) else rows0;
    var rowsActual := if both.Some? then Some(both.value.1) else ActualRowsOnly(line);
    assert rowsEstimated == rows0 && rowsActual == ActualRowsOnly(line) by {
      if both.Some? {
        EstimatedRowsAgree(line);
        ActualRowsAgree(line);
      }
    }
    var time := RangeAfter(line, "actual time=");
    Metrics(
      First(cost), Second(cost),
      rowsEstimated, rowsActual,
      First(time), Second(time),
      IntAfter(line, "loops="),
      IntAfter(line, "Buffers: shared hit="),
      IntAfter(line, "read="))
  }

  // ---------------------------------------------------------------------------
  // Annotated lines

  datatype AnnotatedLine = AnnotatedLine(
    lineNumber: nat,
    text: string,
    nodeType: Option<string>,
    nodeInfo: Option<NodeInfo>,
    metrics: Metrics,
    indentLevel: nat,
    isPlanning: bool,
    isExecution: bool,
    isTiming: bool)

  function AnnotateLine(line: string, n: nat): AnnotatedLine {
    var t := ExtractNodeType(line);
    AnnotatedLine(n, line, t, NodeInfoOf(t), ExtractMetrics(line), IndentLevel(line),
      Contains(line, "Planning"), Contains(line, "Execution"),
      Contains(line, "Planning Time") || Contains(line, "Execution Time"))
  }

  /** `annotate_lines`: one entry per line, numbered from 1. */
  function AnnotateLines(lines: seq<string>): (r: seq<AnnotatedLine>)
    ensures |r| == |lines|
    ensures Numbered(r)
    ensures forall i :: 0 <= i < |r| ==>
      r[i].text == lines[i] && r[i].nodeType == ExtractNodeType(lines[i])
      && r[i].metrics == ExtractMetrics(lines[i]) && r[i].indentLevel == IndentLevel(lines[i])
  {
    seq(|lines|, i requires 0 <= i < |lines| => AnnotateLine(lines[i], i + 1))
  }

  // ---------------------------------------------------------------------------
  // Problems

  datatype Severity = Critical | Warning | Info

  /** Why a sequential scan is reported, with the figure that triggered it. */
  datatype ScanReason = HighCostReason(cost: real) | ManyRowsReason(rows: nat) | SlowExecutionReason(ms: real)

  datatype Problem =
    | SequentialScan(line: nat, table: Option<string>, reasons: seq<ScanReason>)
    | HighCost(line: nat, nodeType: Option<string>, cost: real)
    | SortSpill(line: nat)
    | SlowSort(line: nat, actualTimeEnd: real)
    | EstimationError(line: nat, estimated: nat, actual: nat)
    | SlowQuery(executionTime: real)
    | SlowPlanning(planningTime: real)

  function SeverityOf(p: Problem): Severity {
    match p
    case SortSpill(_) => Critical
    case SlowQuery(_) => Critical
    case SlowPlanning(_) => Info
    case _ => Warning
  }

  /** The problem's `type`. */
  function TypeName(p: Problem): string {
    match p
    case SequentialScan(_, _, _) => "sequential_scan"
    case HighCost(_, _, _) => "high_cost"
    case SortSpill(_) => "sort_spill"
    case SlowSort(_, _) => "slow_sort"
    case EstimationError(_, _, _) => "estimation_error"
    case SlowQuery(_) => "slow_query"
    case SlowPlanning(_) => "slow_planning"
  }

  /** The `line_number` of a problem; the two timing problems have none. */
  function LineOf(p: Problem): Option<nat> {
    if p.SlowQuery? || p.SlowPlanning? then None else Some(p.line)
  }

  predicate Exceeds(x: Option<real>, limit: int) { x.Some? && x.value > limit as real }

  /** The position of a reason in the message: cost, then rows, then time. */
  function Rank(x: ScanReason): nat {
    match x
    case HighCostReason(_) => 0
    case ManyRowsReason(_) => 1
    case SlowExecutionReason(_) => 2
  }

  /** The reasons of `detect_sequential_scans`: each one present exactly
      when its figure passes its threshold, carrying that figure, in the
      fixed order cost, rows, time. */
  function ScanReasons(m: Metrics): (r: seq<ScanReason>)
    ensures |r| <= 3
    ensures (|r| > 0) <==> Exceeds(m.totalCost, 1000) || (m.rowsEstimated.Some? && m.rowsEstimated.value > 1000) || Exceeds(m.actualTimeEnd, 100)
    ensures HighCostReason?(r) <==> Exceeds(m.totalCost, 1000)
    ensures forall x :: HighCostReason(x) in r <==> Exceeds(m.totalCost, 1000) && x == m.totalCost.value
    ensures forall n: nat :: ManyRowsReason(n) in r <==> m.rowsEstimated == Some(n) && n > 1000
    ensures forall x :: SlowExecutionReason(x) in r <==> Exceeds(m.actualTimeEnd, 100) && x == m.actualTimeEnd.value
    ensures forall i, j :: 0 <= i < j < |r| ==> Rank(r[i]) < Rank(r[j])
  {
    (if Exceeds(m.totalCost, 1000) then [HighCostReason(m.totalCost.value)] else [])
    + (if m.rowsEstimated.Some? && m.rowsEstimated.value > 1000 then [ManyRowsReason(m.rowsEstimated.value)] else [])
    + (if Exceeds(m.actualTimeEnd, 100) then [SlowExecutionReason(m.actualTimeEnd.value)] else [])
  }

  predicate HighCostReason?(r: seq<ScanReason>) { |r| > 0 && r[0].HighCostReason? }

  /** `detect_sequential_scans` on one annotated line. */
  function SeqScanAt(a: AnnotatedLine): (r: Option<Problem>)
    ensures r.Some? <==> Contains(a.text, "Seq Scan") && |ScanReasons(a.metrics)| > 0
    ensures r.Some? ==> r.value == SequentialScan(a.lineNumber, TableName(a.text), ScanReasons(a.metrics))
  {
    if !Contains(a.text, "Seq Scan") then None
    else
      var reasons := ScanReasons(a.metrics);
      if |reasons| > 0 then Some(SequentialScan(a.lineNumber, TableName(a.text), reasons)) else None
  }

  /** `detect_high_cost_operations` on one annotated line. */
  function HighCostAt(a: AnnotatedLine): (r: Option<Problem>)
    ensures r.Some? <==> Exceeds(a.metrics.totalCost, 10000)
    ensures r.Some? ==> r.value.HighCost? && r.value.cost > 10000.0 && r.value.nodeType == a.nodeType
    ensures r.Some? ==> r.value.cost == a.metrics.totalCost.value && r.value.line == a.lineNumber
  {
    if Exceeds(a.metrics.totalCost, 10000) then Some(HighCost(a.lineNumber, a.nodeType, a.metrics.totalCost.value)) else None
  }

  /** `/external.*sort/i`. */
  predicate ExternalSort(line: string) {
    var l := Lower(line);
    exists i, j | 0 <= i && i + 8 <= j <= |l| :: OccursAt(l, "external", i) && OccursAt(l, "sort", j)
  }

  /** `detect_sort_operations` on one annotated line: a spill to disk takes
      precedence over slowness. */
  function SortAt(a: AnnotatedLine): (r: Option<Problem>)
    ensures r.Some? ==> Contains(a.text, "Sort")
    ensures r == Some(SortSpill(a.lineNumber)) <==> Contains(a.text, "Sort") && (ExternalSort(a.text) || Contains(a.text, "Disk:"))
    ensures r.Some? && r.value.SlowSort? <==>
      Contains(a.text, "Sort") && !ExternalSort(a.text) && !Contains(a.text, "Disk:") && Exceeds(a.metrics.actualTimeEnd, 1000)
  {
    if !Contains(a.text, "Sort") then None
    else if ExternalSort(a.text) || Contains(a.text, "Disk:") then Some(SortSpill(a.lineNumber))
    else if Exceeds(a.metrics.actualTimeEnd, 1000) then Some(SlowSort(a.lineNumber, a.metrics.actualTimeEnd.value))
    else None
  }

  /** `detect_low_row_accuracy` as written: skip small counts, skip a zero
      maximum, and flag a ratio above 10 (dividing by a zero minimum gives
      Infinity, which is above 10). */
  function EstimationAt(a: AnnotatedLine): (r: Option<Problem>)
    ensures r.Some? ==> (a.metrics.rowsEstimated.Some? && a.metrics.rowsActual.Some?
      && r == Some(EstimationError(a.lineNumber, a.metrics.rowsEstimated.value, a.metrics.rowsActual.value)))
  {
    var m := a.metrics;
    if m.rowsEstimated.None? || m.rowsActual.None? then None
    else
      var estimated := m.rowsEstimated.value as real;
      var actual := m.rowsActual.value as real;
      if estimated < 10.0 && actual < 10.0 then None
      else
        var maxVal := if estimated >= actual then estimated else actual;
        var minVal := if estimated >= actual then actual else estimated;
        if maxVal == 0.0 then None
        else
          var flagged := minVal == 0.0 || maxVal / minVal > 10.0;
          if flagged then Some(EstimationError(a.lineNumber, m.rowsEstimated.value, m.rowsActual.value)) else None
  }

  /** An estimation error is reported exactly when both row counts are read,
      they are not both below 10, and the larger exceeds ten times the
      smaller; so 0 against 10 or more is flagged. */
  lemma EstimationAtIff(a: AnnotatedLine)
    ensures EstimationAt(a).Some? <==>
      && a.metrics.rowsEstimated.Some? && a.metrics.rowsActual.Some?
      && !(a.metrics.rowsEstimated.value < 10 && a.metrics.rowsActual.value < 10)
      && (if a.metrics.rowsEstimated.value >= a.metrics.rowsActual.value
          then a.metrics.rowsEstimated.value > 10 * a.metrics.rowsActual.value
          else a.metrics.rowsActual.value > 10 * a.metrics.rowsEstimated.value)
  {
    var m := a.metrics;
    if m.rowsEstimated.Some? && m.rowsActual.Some? {
      var e := m.rowsEstimated.value as real;
      var t := m.rowsActual.value as real;
      if e >= t && t > 0.0 {
        DivGreater(e, t);
      } else if t > e && e > 0.0 {
        DivGreater(t, e);
      }
    }
  }

  lemma DivGreater(x: real, y: real)
    requires y > 0.0
    ensures x / y > 10.0 <==> x > 10.0 * y
  {
    if x / y > 10.0 {
      assert x == (x / y) * y;
    }
  }

  // ---------------------------------------------------------------------------
  // Stats

  datatype Stats = Stats(
    planningTime: Option<real>,
    executionTime: Option<real>,
    totalCost: Option<real>,
    rowsEstimated: Option<nat>)

  function PlanningOf(line: string): Option<real> {
    TimeAfter(line, "Planning Time: ")
  }

  /** The execution time a line sets: the `elsif` only runs when the planning
      pattern did not match. */
  function ExecutionOf(line: string): Option<real> {
    if PlanningOf(line).Some? then None else TimeAfter(line, "Execution Time: ")
  }

  /** The planning and execution readings of each line. */
  function Readings(lines: seq<string>): (r: seq<(Option<real>, Option<real>)>)
    ensures |r| == |lines|
  {
    seq(|lines|, i requires 0 <= i < |lines| => (PlanningOf(lines[i]), ExecutionOf(lines[i])))
  }

  /** The loop of `extract_stats` from line `k` on: a later reading
      overwrites an earlier one. */
  function TimesFrom(rs: seq<(Option<real>, Option<real>)>, k: nat, planning: Option<real>, execution: Option<real>): (r: (Option<real>, Option<real>))
    requires k <= |rs|
    ensures (forall j :: k <= j < |rs| ==> rs[j].0.None?) ==> r.0 == planning
    ensures (forall j :: k <= j < |rs| ==> rs[j].1.None?) ==> r.1 == execution
    ensures r.0 == planning || exists j :: k <= j < |rs| && rs[j].0 == r.0
    ensures r.1 == execution || exists j :: k <= j < |rs| && rs[j].1 == r.1
    decreases |rs| - k
  {
    if k == |rs| then (planning, execution)
    else
      var (p, e) := rs[k];
      TimesFrom(rs, k + 1, if p.Some? then p else planning, if e.Some? then e else execution)
  }

  /** The last reading below `hi` (of planning time, or of execution time). */
  function LastReading(rs: seq<(Option<real>, Option<real>)>, hi: nat, planning: bool): (r: Option<real>)
    requires hi <= |rs|
    ensures r.Some? ==> exists i :: (0 <= i < hi && r == (if planning then rs[i].0 else rs[i].1)
      && forall j :: i < j < hi ==> (if planning then rs[j].0 else rs[j].1).None?)
    ensures r.None? ==> forall j :: 0 <= j < hi ==> (if planning then rs[j].0 else rs[j].1).None?
  {
    if hi == 0 then None
    else
      var v := if planning then rs[hi - 1].0 else rs[hi - 1].1;
      if v.Some? then v else LastReading(rs, hi - 1, planning)
  }

  /** The forward loop's overwriting leaves the reading of the last line
      that has one, and the start values only when no line has one. */
  lemma {:induction false} TimesFromIsLast(rs: seq<(Option<real>, Option<real>)>, k: nat, planning: Option<real>, execution: Option<real>)
    requires k <= |rs|
    requires planning == LastReading(rs, k, true) && execution == LastReading(rs, k, false)
    ensures TimesFrom(rs, k, planning, execution) == (LastReading(rs, |rs|, true), LastReading(rs, |rs|, false))
    decreases |rs| - k
  {
    if k < |rs| {
      var (p, e) := rs[k];
      TimesFromIsLast(rs, k + 1, if p.Some? then p else planning, if e.Some? then e else execution);
    }
  }

  /** The first line containing "cost=". */
  function FirstCostLine(lines: seq<string>): (r: Option<nat>)
    ensures r.Some? ==> r.value < |lines| && Contains(lines[r.value], "cost=")
    ensures r.Some? ==> forall j :: 0 <= j < r.value ==> !Contains(lines[j], "cost=")
    ensures r.None? ==> forall j :: 0 <= j < |lines| ==> !Contains(lines[j], "cost=")
  {
    if |lines| == 0 then None
    else if Contains(lines[0], "cost=") then Some(0)
    else match FirstCostLine(lines[1..])
      case None => None
      case Some(j) => Some(j + 1)
  }

  /** `extract_stats`: both times come from the last line that shows them,
      the cost and row estimate from the first line containing "cost=". */
  function ExtractStats(lines: seq<string>): (s: Stats)
    ensures s.planningTime == LastReading(Readings(lines), |lines|, true)
    ensures s.executionTime == LastReading(Readings(lines), |lines|, false)
    ensures FirstCostLine(lines).None? ==> s.totalCost.None? && s.rowsEstimated.None?
    ensures FirstCostLine(lines).Some? ==>
      var l := lines[FirstCostLine(lines).value];
      s.totalCost == Second(RangeAfter(l, "cost=")) && s.rowsEstimated == IntAfter(l, "rows=")
  {
    var times := TimesFrom(Readings(lines), 0, None, None);
    TimesFromIsLast(Readings(lines), 0, None, None);
    match FirstCostLine(lines)
    case None => Stats(times.0, times.1, None, None)
    case Some(i) => Stats(times.0, times.1, Second(RangeAfter(lines[i], "cost=")), IntAfter(lines[i], "rows="))
  }

  /** `detect_timing_issues`: a slow query when execution took over a
      second, slow planning when planning took over 100 ms, in that order,
      each with its time and without a line number. */
  function TimingProblems(s: Stats): (r: seq<Problem>)
    ensures SlowQuery?(r) <==> Exceeds(s.executionTime, 1000)
    ensures |r| <= 2 && forall i :: 0 <= i < |r| ==> LineOf(r[i]).None?
    ensures forall x :: SlowQuery(x) in r <==> Exceeds(s.executionTime, 1000) && x == s.executionTime.value
    ensures forall x :: SlowPlanning(x) in r <==> Exceeds(s.planningTime, 100) && x == s.planningTime.value
    ensures forall i :: 0 <= i < |r| ==> r[i].SlowQuery? || r[i].SlowPlanning?
    ensures |r| == 2 ==> r[0].SlowQuery? && r[1].SlowPlanning?
  {
    (if Exceeds(s.executionTime, 1000) then [SlowQuery(s.executionTime.value)] else [])
    + (if Exceeds(s.planningTime, 100) then [SlowPlanning(s.planningTime.value)] else [])
  }

  predicate SlowQuery?(r: seq<Problem>) { |r| > 0 && r[0].SlowQuery? }

  // ---------------------------------------------------------------------------
  // Running the per-line detectors

  datatype Detector = SeqScans | HighCosts | Sorts | Estimations

  /** Every per-line detector reports on the line it was given. */
  function Detect(d: Detector, a: AnnotatedLine): (r: Option<Problem>)
    ensures r.Some? ==> LineOf(r.value) == Some(a.lineNumber)
  {
    match d
    case SeqScans => SeqScanAt(a)
    case HighCosts => HighCostAt(a)
    case Sorts => SortAt(a)
    case Estimations => EstimationAt(a)
  }

  /** Line numbers 1, 2, … in order, as `annotate_lines` assigns them. */
  predicate Numbered(ls: seq<AnnotatedLine>) {
    forall i :: 0 <= i < |ls| ==> ls[i].lineNumber == i + 1
  }

  /** What detector `d` says about each line. */
  function Hits(d: Detector, ls: seq<AnnotatedLine>): (r: seq<Option<Problem>>)
    ensures |r| == |ls|
    ensures forall i :: 0 <= i < |ls| ==> r[i] == Detect(d, ls[i])
  {
    seq(|ls|, i requires 0 <= i < |ls| => Detect(d, ls[i]))
  }

  /** The `each_with_index` loop: the reports of lines `k..`, in line order. */
  function Collect(hits: seq<Option<Problem>>, k: nat): (r: seq<Problem>)
    requires k <= |hits|
    ensures |r| <= |hits| - k
    ensures forall p :: p in r <==> exists i :: k <= i < |hits| && hits[i] == Some(p)
    decreases |hits| - k
  {
    if k == |hits| then []
    else
      var head := if hits[k].Some? then [hits[k].value] else [];
      var tail := Collect(hits, k + 1);
      assert forall p :: p in head <==> hits[k] == Some(p);
      head + tail
  }

  /** A problem is collected exactly when some line's hit is that problem,
      and when every hit names its own line, numbered from 1, the problems
      come in strictly increasing line order. */
  lemma {:induction false} CollectSpec(hits: seq<Option<Problem>>, k: nat)
    requires k <= |hits|
    requires forall i :: 0 <= i < |hits| && hits[i].Some? ==> LineOf(hits[i].value) == Some(i + 1)
    ensures forall p :: p in Collect(hits, k) <==> exists i :: k <= i < |hits| && hits[i] == Some(p)
    ensures forall i :: 0 <= i < |Collect(hits, k)| ==>
      LineOf(Collect(hits, k)[i]).Some? && k < LineOf(Collect(hits, k)[i]).value <= |hits|
    ensures forall i, j :: 0 <= i < j < |Collect(hits, k)| ==>
      LineOf(Collect(hits, k)[i]).value < LineOf(Collect(hits, k)[j]).value
    decreases |hits| - k
  {
    if k < |hits| {
      CollectSpec(hits, k + 1);
      var head := if hits[k].Some? then [hits[k].value] else [];
      var tail := Collect(hits, k + 1);
      var r := Collect(hits, k);
      assert r == head + tail;
      forall i | 0 <= i < |r|
        ensures LineOf(r[i]).Some? && k < LineOf(r[i]).value <= |hits|
      {
        if i >= |head| {
          assert r[i] == tail[i - |head|];
        } else {
          assert r[i] == hits[k].value;
        }
      }
      forall i, j | 0 <= i < j < |r|
        ensures LineOf(r[i]).value < LineOf(r[j]).value
      {
        if i >= |head| {
          assert r[i] == tail[i - |head|] && r[j] == tail[j - |head|];
        } else {
          assert r[i] == hits[k].value && r[j] == tail[j - |head|];
        }
      }
    }
  }

  /** On numbered lines every hit names its own line. */
  lemma HitsNumbered(d: Detector, ls: seq<AnnotatedLine>)
    requires Numbered(ls)
    ensures forall i :: 0 <= i < |ls| && Hits(d, ls)[i].Some? ==> LineOf(Hits(d, ls)[i].value) == Some(i + 1)
  {
  }

  function Scan(d: Detector, ls: seq<AnnotatedLine>): seq<Problem> {
    Collect(Hits(d, ls), 0)
  }

  // ---------------------------------------------------------------------------
  // Summary

  function CountSeverity(ps: seq<Problem>, s: Severity): (n: nat)
    ensures n <= |ps|
  {
    if |ps| == 0 then 0 else (if SeverityOf(ps[0]) == s then 1 else 0) + CountSeverity(ps[1..], s)
  }

  /** Every problem has exactly one of the three severities. */
  lemma {:induction false} SeveritiesPartition(ps: seq<Problem>)
    ensures CountSeverity(ps, Critical) + CountSeverity(ps, Warning) + CountSeverity(ps, Info) == |ps|
  {
    if |ps| > 0 {
      SeveritiesPartition(ps[1..]);
    }
  }

  /** `group_by(type).transform_values(&:count)`: one entry per type, in
      order of first appearance. */
  function Tally(names: seq<string>): (r: seq<(string, nat)>)
    decreases |names|
  {
    if |names| == 0 then []
    else Bump(Tally(names[..|names| - 1]), names[|names| - 1])
  }

  function Bump(t: seq<(string, nat)>, name: string): (r: seq<(string, nat)>)
    ensures |r| == |t| || |r| == |t| + 1
    ensures Total(r) == Total(t) + 1
  {
    if |t| == 0 then [(name, 1)]
    else if t[0].0 == name then [(name, t[0].1 + 1)] + t[1..]
    else
      var rest := Bump(t[1..], name);
      assert Total([t[0]] + rest) == t[0].1 + Total(rest);
      [t[0]] + rest
  }

  function Total(t: seq<(string, nat)>): nat {
    if |t| == 0 then 0 else t[0].1 + Total(t[1..])
  }

  /** The counts of the breakdown add up to the number of problems. */
  lemma {:induction false} TallyTotal(names: seq<string>)
    ensures Total(Tally(names)) == |names|
  {
    if |names| > 0 {
      TallyTotal(names[..|names| - 1]);
    }
  }

  function TypeNames(ps: seq<Problem>): (r: seq<string>)
    ensures |r| == |ps|
    ensures forall i :: 0 <= i < |ps| ==> r[i] == TypeName(ps[i])
  {
    seq(|ps|, i requires 0 <= i < |ps| => TypeName(ps[i]))
  }

  datatype Summary = Summary(
    totalProblems: nat,
    criticalProblems: nat,
    warnings: nat,
    info: nat,
    status: string,
    statusText: string,
    statusIcon: string,
    problemBreakdown: seq<(string, nat)>)

  /** `build_summary`. */
  function BuildSummary(ps: seq<Problem>): (s: Summary)
    ensures s.totalProblems == |ps| == s.criticalProblems + s.warnings + s.info
    ensures s.status == "critical" <==> exists i :: 0 <= i < |ps| && SeverityOf(ps[i]) == Critical
    ensures s.status == "warning" <==>
      (forall i :: 0 <= i < |ps| ==> SeverityOf(ps[i]) != Critical) && exists i :: 0 <= i < |ps| && SeverityOf(ps[i]) == Warning
    ensures s.status == "good" <==> forall i :: 0 <= i < |ps| ==> SeverityOf(ps[i]) == Info
    ensures Total(s.problemBreakdown) == |ps|
  {
    var critical := CountSeverity(ps, Critical);
    var warnings := CountSeverity(ps, Warning);
    SeveritiesPartition(ps);
    TallyTotal(TypeNames(ps));
    CountPositive(ps, Critical);
    CountPositive(ps, Warning);
    var (status, text, icon) :=
      if critical > 0 then ("critical", "Critical issues detected", "\U{1F534}")
      else if warnings > 0 then ("warning", "Potential issues detected", "\U{1F7E1}")
      else ("good", "No issues detected", "\U{1F7E2}");
    Summary(|ps|, critical, warnings, CountSeverity(ps, Info), status, text, icon, Tally(TypeNames(ps)))
  }

  lemma {:induction false} CountPositive(ps: seq<Problem>, s: Severity)
    ensures CountSeverity(ps, s) > 0 <==> exists i :: 0 <= i < |ps| && SeverityOf(ps[i]) == s
  {
    if |ps| > 0 {
      CountPositive(ps[1..], s);
      if CountSeverity(ps[1..], s) > 0 {
        var i :| 0 <= i < |ps[1..]| && SeverityOf(ps[1..][i]) == s;
        assert SeverityOf(ps[i + 1]) == s;
      }
      if exists i :: 0 <= i < |ps| && SeverityOf(ps[i]) == s {
        var i :| 0 <= i < |ps| && SeverityOf(ps[i]) == s;
        if i > 0 {
          assert SeverityOf(ps[1..][i - 1]) == s;
        }
      }
    }
  }

  // ---------------------------------------------------------------------------
  // The whole analysis

  datatype Analysis = Analysis(
    rawOutput: string,
    annotatedLines: seq<AnnotatedLine>,
    problems: seq<Problem>,
    summary: Summary,
    stats: Stats)

  /** The problems of all detectors, in the order `analyze` runs them: a
      problem is reported exactly when some detector finds it on some line,
      or it is a timing problem of the statistics. */
  function Problems(ls: seq<AnnotatedLine>, stats: Stats): (r: seq<Problem>)
    ensures forall p :: p in r <==> Found(ls, p) || p in TimingProblems(stats)
  {
    var r := Scan(SeqScans, ls) + Scan(HighCosts, ls) + Scan(Sorts, ls) + Scan(Estimations, ls)
      + TimingProblems(stats);
    forall p
      ensures p in r <==> Found(ls, p) || p in TimingProblems(stats)
    {
      ProblemMember(ls, stats, p);
    }
    r
  }

  /** Some detector finds `p` on some line. */
  predicate Found(ls: seq<AnnotatedLine>, p: Problem) {
    exists d: Detector, i :: 0 <= i < |ls| && Detect(d, ls[i]) == Some(p)
  }

  lemma ProblemMember(ls: seq<AnnotatedLine>, stats: Stats, p: Problem)
    ensures var r := Scan(SeqScans, ls) + Scan(HighCosts, ls) + Scan(Sorts, ls) + Scan(Estimations, ls)
      + TimingProblems(stats);
      p in r <==> Found(ls, p) || p in TimingProblems(stats)
  {
    ScanMembers(SeqScans, ls, p);
    ScanMembers(HighCosts, ls, p);
    ScanMembers(Sorts, ls, p);
    ScanMembers(Estimations, ls, p);
    if Found(ls, p) {
      var d: Detector, i :| 0 <= i < |ls| && Detect(d, ls[i]) == Some(p);
      ScanMembers(d, ls, p);
    }
  }

  /** A detector's scan holds what it finds on some line. */
  lemma ScanMembers(d: Detector, ls: seq<AnnotatedLine>, p: Problem)
    ensures p in Scan(d, ls) <==> exists i :: 0 <= i < |ls| && Detect(d, ls[i]) == Some(p)
  {
    var hits := Hits(d, ls);
    if p in Scan(d, ls) {
      var i :| 0 <= i < |hits| && hits[i] == Some(p);
      assert Detect(d, ls[i]) == Some(p);
    }
    if exists i :: 0 <= i < |ls| && Detect(d, ls[i]) == Some(p) {
      var i :| 0 <= i < |ls| && Detect(d, ls[i]) == Some(p);
      assert hits[i] == Some(p);
    }
  }

  /** `ExplainAnalyzer.new(text).to_h`. */
  function Analyze(text: string): (a: Analysis)
    ensures |a.annotatedLines| == |Split(text, '\n')| && Numbered(a.annotatedLines)
    ensures a.problems == Problems(a.annotatedLines, a.stats)
    ensures a.summary == BuildSummary(a.problems)
  {
    var lines := Split(text, '\n');
    var annotated := AnnotateLines(lines);
    var stats := ExtractStats(lines);
    var problems := Problems(annotated, stats);
    Analysis(text, annotated, problems, BuildSummary(problems), stats)
  }

  /** One detector reports exactly what it finds on the individual lines,
      in strictly increasing line order. */
  lemma ScanSpec(d: Detector, ls: seq<AnnotatedLine>)
    requires Numbered(ls)
    ensures forall p :: p in Scan(d, ls) <==> exists i :: 0 <= i < |ls| && Detect(d, ls[i]) == Some(p)
    ensures forall i :: 0 <= i < |Scan(d, ls)| ==> LineOf(Scan(d, ls)[i]).Some? && 1 <= LineOf(Scan(d, ls)[i]).value <= |ls|
    ensures forall i, j :: 0 <= i < j < |Scan(d, ls)| ==> LineOf(Scan(d, ls)[i]).value < LineOf(Scan(d, ls)[j]).value
  {
    HitsNumbered(d, ls);
    CollectSpec(Hits(d, ls), 0);
  }
}
