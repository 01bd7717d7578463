/** `PgReports::Dashboard::ReportsRegistry`: the dashboard's catalogue of
    report categories and the threshold and problem-field configuration of
    each report, both ordered tables keyed by the report's symbol. */
module ReportsRegistry {
  import opened Common
  import opened Lists
  import Dashboard

  // ---------------------------------------------------------------------------
  // Data

  /** A report as the dashboard lists it. */
  datatype ReportInfo = ReportInfo(name: string, description: string)

  /** A category: display name, icon, accent colour and its reports. */
  datatype Category = Category(name: string, icon: string, color: string, reports: seq<(string, ReportInfo)>)

  /** A threshold on one field; `inverted` levels fire below the value. */
  datatype Level = Level(warning: real, critical: real, inverted: bool)

  /** A report's entry in `REPORT_CONFIG`. */
  datatype Config = Config(thresholds: seq<(string, Level)>, problemFields: seq<string>)

  /** What `documentation` returns for one report. */
  datatype Doc = Doc(title: string, what: string, how: string, nuances: seq<string>,
                     thresholds: seq<(string, Level)>, problemFields: seq<string>)

  function Up(warning: real, critical: real): Level { Level(warning, critical, false) }
  function Down(warning: real, critical: real): Level { Level(warning, critical, true) }

  /** The configuration of a report that has neither thresholds nor
      problem fields. */
  const Unconfigured: Config := Config([], [])

  /** `REPORT_CONFIG`, in declaration order. */
  const ReportConfig: seq<(string, Config)> := [
    ("slow_queries", Config([("mean_time_ms", Up(100.0, 500.0))], ["mean_time_ms"])),
    ("heavy_queries", Config([("calls", Up(10000.0, 100000.0))], ["calls"])),
    ("expensive_queries", Config([("total_time_ms", Up(60000.0, 300000.0))], ["total_time_ms"])),
    ("missing_index_queries", Config([("seq_tup_read", Up(100000.0, 1000000.0))], ["seq_tup_read", "seq_scan"])),
    ("low_cache_hit_queries", Config([("cache_hit_ratio", Down(0.95, 0.80))], ["cache_hit_ratio"])),
    ("all_queries", Unconfigured),

    ("unused_indexes", Config([("idx_scan", Down(10.0, 0.0))], ["idx_scan"])),
    ("duplicate_indexes", Unconfigured),
    ("invalid_indexes", Unconfigured),
    ("missing_indexes", Config([("seq_scan_ratio", Up(0.5, 0.9))], ["seq_scan", "seq_tup_read"])),
    ("index_usage", Unconfigured),
    ("bloated_indexes", Config([("bloat_ratio", Up(0.3, 0.5))], ["bloat_ratio", "bloat_size"])),
    ("index_sizes", Config([("size_bytes", Up(1073741824.0, 10737418240.0))], ["size_bytes"])),

    ("table_sizes", Config([("total_size_bytes", Up(10737418240.0, 107374182400.0))], ["total_size_bytes"])),
    ("bloated_tables", Config([("dead_tuple_ratio", Up(0.1, 0.2))], ["dead_tuple_ratio", "n_dead_tup"])),
    ("vacuum_needed", Config([("n_dead_tup", Up(10000.0, 100000.0))], ["n_dead_tup"])),
    ("row_counts", Unconfigured),
    ("cache_hit_ratios", Config([("cache_hit_ratio", Down(0.95, 0.80))], ["cache_hit_ratio"])),
    ("seq_scans", Config([("seq_scan", Up(1000.0, 10000.0))], ["seq_scan", "seq_tup_read"])),
    ("recently_modified", Unconfigured),

    ("active_connections", Config([("connection_count", Up(50.0, 100.0))], ["connection_count"])),
    ("connection_stats", Config([("idle_in_transaction", Up(5.0, 20.0))], ["idle_in_transaction"])),
    ("long_running_queries", Config([("duration_seconds", Up(60.0, 300.0))], ["duration_seconds", "duration"])),
    ("blocking_queries", Config([("blocked_count", Up(1.0, 5.0))], ["blocked_count"])),
    ("locks", Config([("waiting_locks", Up(5.0, 20.0))], ["waiting_locks"])),
    ("idle_connections", Config([("idle_count", Up(30.0, 80.0))], ["idle_count"])),
    ("pool_usage", Config([("utilization_pct", Up(70.0, 85.0))], ["utilization_pct"])),
    ("pool_wait_times", Config([("wait_duration_seconds", Up(10.0, 60.0))], ["wait_duration_seconds"])),
    ("pool_saturation", Config([("utilization_pct", Up(70.0, 85.0))], ["utilization_pct"])),
    ("connection_churn", Config([("churn_rate_pct", Up(50.0, 75.0)), ("short_lived_connections", Up(10.0, 25.0))],
                                ["churn_rate_pct", "short_lived_connections"])),

    ("database_sizes", Config([("size_bytes", Up(10737418240.0, 107374182400.0))], ["size_bytes"])),
    ("settings", Unconfigured),
    ("extensions", Unconfigured),
    ("activity_overview", Unconfigured),
    ("cache_stats", Config([("cache_hit_ratio", Down(0.95, 0.90))], ["cache_hit_ratio"])),

    ("missing_validations", Unconfigured)
  ]

  /** `REPORTS`, in declaration order. Icons are written as code points. */
  const Reports: seq<(string, Category)> := [
    ("queries", Category("Queries", "\U{26A1}", "#6366f1", [
      ("slow_queries", ReportInfo("Slow Queries", "Queries with high mean execution time")),
      ("heavy_queries", ReportInfo("Heavy Queries", "Most frequently called queries")),
      ("expensive_queries", ReportInfo("Expensive Queries", "Queries consuming most total time")),
      ("missing_index_queries", ReportInfo("Missing Index Queries", "Queries potentially missing indexes")),
      ("low_cache_hit_queries", ReportInfo("Low Cache Hit", "Queries with poor cache utilization")),
      ("all_queries", ReportInfo("All Queries", "All query statistics"))])),
    ("indexes", Category("Indexes", "\U{1F4C7}", "#10b981", [
      ("unused_indexes", ReportInfo("Unused Indexes", "Indexes rarely or never scanned")),
      ("duplicate_indexes", ReportInfo("Duplicate Indexes", "Redundant indexes")),
      ("invalid_indexes", ReportInfo("Invalid Indexes", "Indexes that failed to build")),
      ("missing_indexes", ReportInfo("Missing Indexes", "Tables potentially missing indexes")),
      ("index_usage", ReportInfo("Index Usage", "Index scan statistics")),
      ("bloated_indexes", ReportInfo("Bloated Indexes", "Indexes with high bloat")),
      ("index_sizes", ReportInfo("Index Sizes", "Index disk usage"))])),
    ("tables", Category("Tables", "\U{1F4CA}", "#f59e0b", [
      ("table_sizes", ReportInfo("Table Sizes", "Table disk usage")),
      ("bloated_tables", ReportInfo("Bloated Tables", "Tables with high dead tuple ratio")),
      ("vacuum_needed", ReportInfo("Vacuum Needed", "Tables needing vacuum")),
      ("row_counts", ReportInfo("Row Counts", "Table row counts")),
      ("cache_hit_ratios", ReportInfo("Cache Hit Ratios", "Table cache statistics")),
      ("seq_scans", ReportInfo("Sequential Scans", "Tables with high sequential scans")),
      ("recently_modified", ReportInfo("Recently Modified", "Tables with recent activity"))])),
    ("connections", Category("Connections", "\U{1F50C}", "#ec4899", [
      ("active_connections", ReportInfo("Active Connections", "Current database connections")),
      ("connection_stats", ReportInfo("Connection Stats", "Connection statistics by state")),
      ("long_running_queries", ReportInfo("Long Running", "Queries running for extended period")),
      ("blocking_queries", ReportInfo("Blocking Queries", "Queries blocking others")),
      ("locks", ReportInfo("Locks", "Current database locks")),
      ("idle_connections", ReportInfo("Idle Connections", "Idle connections")),
      ("pool_usage", ReportInfo("Pool Usage", "Connection pool utilization")),
      ("pool_wait_times", ReportInfo("Wait Times", "Resource wait analysis")),
      ("pool_saturation", ReportInfo("Pool Saturation", "Pool health warnings")),
      ("connection_churn", ReportInfo("Connection Churn", "Connection lifecycle analysis"))])),
    ("system", Category("System", "\U{1F5A5}\U{FE0F}", "#8b5cf6", [
      ("database_sizes", ReportInfo("Database Sizes", "Size of all databases")),
      ("settings", ReportInfo("Settings", "PostgreSQL configuration")),
      ("extensions", ReportInfo("Extensions", "Installed extensions")),
      ("activity_overview", ReportInfo("Activity Overview", "Current activity summary")),
      ("cache_stats", ReportInfo("Cache Stats", "Database cache statistics"))])),
    ("schema_analysis", Category("Schema Analysis", "\U{1F50D}", "#06b6d4", [
      ("missing_validations", ReportInfo("Missing Validations", "Unique indexes without model validations"))]))
  ]

  // ---------------------------------------------------------------------------
  // Ordered tables with distinct keys

  predicate DistinctKeys<V>(es: seq<(string, V)>) {
    forall i, j :: 0 <= i < j < |es| ==> es[i].0 != es[j].0
  }

  /** In a table with distinct keys, looking a key up finds exactly the
      entry that carries it. */
  lemma {:induction false} LookupEntry<V>(es: seq<(string, V)>, k: string, v: V)
    requires DistinctKeys(es)
    ensures Lookup(es, k) == Some(v) <==> exists i :: 0 <= i < |es| && es[i] == (k, v)
    decreases |es|
  {
    if |es| > 0 {
      assert DistinctKeys(es[1..]) by {
        forall i, j | 0 <= i < j < |es[1..]|
          ensures es[1..][i].0 != es[1..][j].0
        {
          assert es[1..][i] == es[i + 1] && es[1..][j] == es[j + 1];
        }
      }
      LookupEntry(es[1..], k, v);
      if exists i :: 0 <= i < |es| && es[i] == (k, v) {
        var i :| 0 <= i < |es| && es[i] == (k, v);
        if i > 0 {
          assert es[1..][i - 1] == es[i];
        }
      }
      if es[0].0 != k && Lookup(es[1..], k) == Some(v) {
        var i :| 0 <= i < |es[1..]| && es[1..][i] == (k, v);
        assert es[i + 1] == (k, v);
      }
    }
  }

  // ---------------------------------------------------------------------------
  // Lookups

  /** `category`: the category declared under the key, nil for an unknown
      one. */
  function CategoryOf(category: string): (r: Option<Category>)
    ensures r.None? <==> forall i :: 0 <= i < |Reports| ==> Reports[i].0 != category
    ensures forall c :: r == Some(c) <==> exists i :: 0 <= i < |Reports| && Reports[i] == (category, c)
  {
    CategoryKeysDistinct();
    forall c ensures Lookup(Reports, category) == Some(c) <==> exists i :: 0 <= i < |Reports| && Reports[i] == (category, c) {
      LookupEntry(Reports, category, c);
    }
    Lookup(Reports, category)
  }

  /** `find`: the report declared under the category and report keys, nil
      when either is unknown. */
  function Find(category: string, report: string): (r: Option<ReportInfo>)
    ensures forall info :: r == Some(info) <==>
      exists i, j :: 0 <= i < |Reports| && Reports[i].0 == category &&
        0 <= j < |Reports[i].1.reports| && Reports[i].1.reports[j] == (report, info)
  {
    var r := match CategoryOf(category)
      case None => None
      case Some(c) => Lookup(c.reports, report);
    FindEntry(category, report, r);
    r
  }

  lemma FindEntry(category: string, report: string, r: Option<ReportInfo>)
    requires r == match CategoryOf(category)
      case None => None
      case Some(c) => Lookup(c.reports, report)
    ensures forall info :: r == Some(info) <==>
      exists i, j :: 0 <= i < |Reports| && Reports[i].0 == category &&
        0 <= j < |Reports[i].1.reports| && Reports[i].1.reports[j] == (report, info)
  {
    forall info
      ensures r == Some(info) <==>
        exists i, j :: 0 <= i < |Reports| && Reports[i].0 == category &&
          0 <= j < |Reports[i].1.reports| && Reports[i].1.reports[j] == (report, info)
    {
      if exists i, j :: 0 <= i < |Reports| && Reports[i].0 == category &&
          0 <= j < |Reports[i].1.reports| && Reports[i].1.reports[j] == (report, info) {
        var i, j :| 0 <= i < |Reports| && Reports[i].0 == category &&
          0 <= j < |Reports[i].1.reports| && Reports[i].1.reports[j] == (report, info);
        assert CategoryOf(category) == Some(Reports[i].1);
        CategoryReportsDistinct(i);
        LookupEntry(Reports[i].1.reports, report, info);
      }
      if r == Some(info) {
        var c := CategoryOf(category).value;
        var i :| 0 <= i < |Reports| && Reports[i] == (category, c);
        CategoryReportsDistinct(i);
        LookupEntry(c.reports, report, info);
      }
    }
  }

  /** `REPORT_CONFIG[report]`, nil for an unconfigured report. */
  function ConfigOf(report: string): (r: Option<Config>)
    ensures r.None? <==> forall i :: 0 <= i < |ReportConfig| ==> ReportConfig[i].0 != report
    ensures forall c :: r == Some(c) <==> exists i :: 0 <= i < |ReportConfig| && ReportConfig[i] == (report, c)
  {
    ConfigKeysDistinct();
    forall c ensures Lookup(ReportConfig, report) == Some(c) <==> exists i :: 0 <= i < |ReportConfig| && ReportConfig[i] == (report, c) {
      LookupEntry(ReportConfig, report, c);
    }
    Lookup(ReportConfig, report)
  }

  /** `thresholds`: the configured thresholds, `{}` for an unconfigured
      report. */
  function Thresholds(report: string): (r: seq<(string, Level)>)
    ensures ConfigOf(report).None? ==> r == []
    ensures forall i :: 0 <= i < |ReportConfig| && ReportConfig[i].0 == report ==> r == ReportConfig[i].1.thresholds
  {
    match ConfigOf(report)
    case None => []
    case Some(c) => c.thresholds
  }

  /** `problem_fields`: the configured fields, `[]` for an unconfigured
      report. */
  function ProblemFields(report: string): (r: seq<string>)
    ensures ConfigOf(report).None? ==> r == []
    ensures forall i :: 0 <= i < |ReportConfig| && ReportConfig[i].0 == report ==> r == ReportConfig[i].1.problemFields
  {
    match ConfigOf(report)
    case None => []
    case Some(c) => c.problemFields
  }

  /** The translation key prefix of a report's documentation. */
  function DocKey(report: string): string {
    "pg_reports.documentation." + report
  }

  /** `documentation`: the translated texts, each with its default (the
      titleized key for the title, empty otherwise), and the report's
      configuration with `{thresholds: {}, problem_fields: []}` as fallback.
      `translate` and `translateList` stand for I18n lookups that may miss. */
  function Documentation(report: string, translate: string -> Option<string>,
                         translateList: string -> Option<seq<string>>, titleize: string -> string): (d: Doc)
    ensures d.title == (if translate(DocKey(report) + ".title").Some? then translate(DocKey(report) + ".title").value else titleize(report))
    ensures translate(DocKey(report) + ".what") == Some(d.what) || (translate(DocKey(report) + ".what").None? && d.what == "")
    ensures translate(DocKey(report) + ".how") == Some(d.how) || (translate(DocKey(report) + ".how").None? && d.how == "")
    ensures translateList(DocKey(report) + ".nuances") == Some(d.nuances) || (translateList(DocKey(report) + ".nuances").None? && d.nuances == [])
    ensures ConfigOf(report).None? ==> d.thresholds == [] && d.problemFields == []
    ensures forall c :: ConfigOf(report) == Some(c) ==> d.thresholds == c.thresholds && d.problemFields == c.problemFields
  {
    var config := ConfigOf(report).GetOr(Unconfigured);
    DocTexts(report, translate, translateList, titleize).(thresholds := config.thresholds, problemFields := config.problemFields)
  }

  /** The translated part of `documentation`, with an empty configuration. */
  function DocTexts(report: string, translate: string -> Option<string>,
                    translateList: string -> Option<seq<string>>, titleize: string -> string): (d: Doc)
    ensures d.title == (if translate(DocKey(report) + ".title").Some? then translate(DocKey(report) + ".title").value else titleize(report))
    ensures translate(DocKey(report) + ".what") == Some(d.what) || (translate(DocKey(report) + ".what").None? && d.what == "")
    ensures translate(DocKey(report) + ".how") == Some(d.how) || (translate(DocKey(report) + ".how").None? && d.how == "")
    ensures translateList(DocKey(report) + ".nuances") == Some(d.nuances) || (translateList(DocKey(report) + ".nuances").None? && d.nuances == [])
  {
    var key := DocKey(report);
    Doc(translate(key + ".title").GetOr(titleize(report)),
        translate(key + ".what").GetOr(""),
        translate(key + ".how").GetOr(""),
        translateList(key + ".nuances").GetOr([]),
        [],
        [])
  }

  // ---------------------------------------------------------------------------
  // Properties of the tables

  lemma CategoryKeysDistinct()
    ensures DistinctKeys(Reports)
  {
  }

  predicate Distinct(ks: seq<string>) {
    forall i, j :: 0 <= i < j < |ks| ==> ks[i] != ks[j]
  }

  /** The keys of `REPORT_CONFIG` are these 36 names. */
  lemma ConfigKeysListed()
    ensures |ReportConfig| == 36
    ensures forall i :: 0 <= i < 36 ==> ReportConfig[i].0 == [
      "slow_queries", "heavy_queries", "expensive_queries", "missing_index_queries", "low_cache_hit_queries", "all_queries",
      "unused_indexes", "duplicate_indexes", "invalid_indexes", "missing_indexes", "index_usage", "bloated_indexes", "index_sizes",
      "table_sizes", "bloated_tables", "vacuum_needed", "row_counts", "cache_hit_ratios", "seq_scans", "recently_modified",
      "active_connections", "connection_stats", "long_running_queries", "blocking_queries", "locks", "idle_connections",
      "pool_usage", "pool_wait_times", "pool_saturation", "connection_churn",
      "database_sizes", "settings", "extensions", "activity_overview", "cache_stats", "missing_validations"][i]
  {
  }

  /** No two of them are the same. */
  lemma ConfigNamesDistinct()
    ensures Distinct([
      "slow_queries", "heavy_queries", "expensive_queries", "missing_index_queries", "low_cache_hit_queries", "all_queries",
      "unused_indexes", "duplicate_indexes", "invalid_indexes", "missing_indexes", "index_usage", "bloated_indexes", "index_sizes",
      "table_sizes", "bloated_tables", "vacuum_needed", "row_counts", "cache_hit_ratios", "seq_scans", "recently_modified",
      "active_connections", "connection_stats", "long_running_queries", "blocking_queries", "locks", "idle_connections",
      "pool_usage", "pool_wait_times", "pool_saturation", "connection_churn",
      "database_sizes", "settings", "extensions", "activity_overview", "cache_stats", "missing_validations"])
  {
  }

  lemma ConfigKeysDistinct()
    ensures DistinctKeys(ReportConfig)
  {
    ConfigKeysListed();
    ConfigNamesDistinct();
  }

  lemma CategoryReportsDistinct(i: nat)
    requires i < |Reports|
    ensures DistinctKeys(Reports[i].1.reports)
  {
    ConfigFollowsReports(i);
    ConfigKeysDistinct();
    var rs := Reports[i].1.reports;
    forall a, b | 0 <= a < b < |rs|
      ensures rs[a].0 != rs[b].0
    {
      assert ReportConfig[Offset(i) + a].0 != ReportConfig[Offset(i) + b].0;
    }
  }

  /** The documentation's configuration part is what `thresholds` and
      `problem_fields` answer for the same report. */
  lemma DocumentationAgrees(report: string, translate: string -> Option<string>,
                            translateList: string -> Option<seq<string>>, titleize: string -> string)
    ensures Documentation(report, translate, translateList, titleize).thresholds == Thresholds(report)
    ensures Documentation(report, translate, translateList, titleize).problemFields == ProblemFields(report)
  {
    if ConfigOf(report).Some? {
      var i :| 0 <= i < |ReportConfig| && ReportConfig[i] == (report, ConfigOf(report).value);
    }
  }

  /** Every category declares a name, an icon, a `#rrggbb` colour and at
      least one report. */
  lemma CategoriesDeclared()
    ensures forall i :: 0 <= i < |Reports| ==>
      |Reports[i].1.name| > 0 && |Reports[i].1.icon| > 0 &&
      |Reports[i].1.color| == 7 && Reports[i].1.color[0] == '#' &&
      |Reports[i].1.reports| > 0
  {
  }

  /** Where each category's reports start in `REPORT_CONFIG`. */
  function Offset(i: nat): nat
    requires i < |Reports|
  {
    [0, 6, 13, 20, 30, 35][i]
  }

  /** `REPORT_CONFIG` lists the reports category by category, in the order
      `REPORTS` declares them. */
  lemma ConfigFollowsReports(i: nat)
    requires i < |Reports|
    ensures Offset(i) + |Reports[i].1.reports| <= |ReportConfig|
    ensures forall j :: 0 <= j < |Reports[i].1.reports| ==> ReportConfig[Offset(i) + j].0 == Reports[i].1.reports[j].0
  {
  }

  /** As declared, every report the dashboard lists has a `REPORT_CONFIG`
      entry. */
  lemma EveryReportConfigured(category: string, report: string)
    ensures Find(category, report).Some? ==> ConfigOf(report).Some?
  {
    if Find(category, report).Some? {
      var i, j :| 0 <= i < |Reports| && Reports[i].0 == category &&
        0 <= j < |Reports[i].1.reports| && Reports[i].1.reports[j] == (report, Find(category, report).value);
      ListedReportConfigured(i, j);
    }
  }

  lemma ListedReportConfigured(i: nat, j: nat)
    requires i < |Reports| && j < |Reports[i].1.reports|
    ensures ConfigOf(Reports[i].1.reports[j].0).Some?
  {
    ConfigFollowsReports(i);
    ConfiguredAt(Reports[i].1.reports[j].0, Offset(i) + j);
  }

  lemma ConfiguredAt(report: string, t: nat)
    requires t < |ReportConfig| && ReportConfig[t].0 == report
    ensures ConfigOf(report).Some?
  {
  }

  /** Every configured level is ordered in its direction: the critical value
      lies beyond the warning one. */
  predicate Ordered(l: Level) {
    if l.inverted then l.critical < l.warning else l.warning < l.critical
  }

  lemma ConfigLevelsOrdered(t: nat)
    requires t < |ReportConfig|
    ensures forall k :: 0 <= k < |ReportConfig[t].1.thresholds| ==> Ordered(ReportConfig[t].1.thresholds[k].1)
  {
  }

  lemma LevelsOrdered(report: string)
    ensures forall k :: 0 <= k < |Thresholds(report)| ==> Ordered(Thresholds(report)[k].1)
  {
    if ConfigOf(report).Some? {
      var t :| 0 <= t < |ReportConfig| && ReportConfig[t] == (report, ConfigOf(report).value);
      ConfigLevelsOrdered(t);
    }
  }

  /** The controller's category-to-module table accepts exactly the
      categories the registry declares. */
  lemma ModulesMatchCategories(category: string)
    ensures Dashboard.ModuleFor(category).Some? <==> CategoryOf(category).Some?
  {
    var names := ["queries", "indexes", "tables", "connections", "system", "schema_analysis"];
    CategoryNamesListed();
    if category in names {
      var i :| 0 <= i < 6 && names[i] == category;
      assert Reports[i].0 == category;
    }
  }

  lemma CategoryNamesListed()
    ensures |Reports| == 6
    ensures forall i :: 0 <= i < 6 ==>
      Reports[i].0 == ["queries", "indexes", "tables", "connections", "system", "schema_analysis"][i]
  {
  }
}
