/** `PgReports::ReportDefinition`: what a YAML report definition does with
    the rows its SQL returned — filters, the enrichment hook, the row limit,
    the interpolated title — and the parameter list it offers the dashboard. */
module ReportDefinition {
  import opened Common
  import opened Text
  import opened Values
  import opened Lists
  import opened Filter
  import opened Enrichment
  import opened Reports

  /** One entry of a definition's `parameters` section (absent fields are
      nil). */
  datatype ParamConfig = ParamConfig(ptype: Value, default: Value, description: Value)

  /** The parts of a definition's `report` section the model reads.
      `enriched` stands for an `enrichment` section, whose only hook is the
      queries module's `enrich_with_annotations`. */
  datatype Definition = Definition(
    title: string,
    titleVars: Option<seq<(string, ValueConfig)>>,
    filters: Option<seq<FilterConfig>>,
    parameters: Option<seq<(string, ParamConfig)>>,
    columns: Option<seq<string>>,
    enriched: bool,
    problemExplanations: Option<Dict>)

  // ---------------------------------------------------------------------------
  // Parameter defaults and value resolution

  /** `get_default_param_value`: the declared default, or nil when the
      definition declares no such parameter. */
  function DefaultParam(def: Definition, key: string): (r: Value)
    ensures def.parameters.None? ==> r == Nil
    ensures def.parameters.Some? && Lookup(def.parameters.value, key).None? ==> r == Nil
    ensures def.parameters.Some? && Lookup(def.parameters.value, key).Some? ==>
      r == Lookup(def.parameters.value, key).value.default
  {
    match def.parameters
    case None => Nil
    case Some(ps) =>
      match Lookup(ps, key)
      case None => Nil
      case Some(pc) => pc.default
  }

  /** `default_limit`. */
  function DefaultLimit(def: Definition): Value { DefaultParam(def, "limit") }

  /** `resolve_value`: a "config" source reads the setting; a "param" source
      reads the request parameter, falling back to the declared default when
      the parameter is nil or false; any other source raises. */
  function ResolveValue(def: Definition, vc: ValueConfig, params: Dict, settings: Settings): (r: Result<Value>)
    ensures vc.source == Str("config") ==> r == Setting(settings, vc.key)
    ensures vc.source == Str("param") && Truthy(Get(params, vc.key)) ==> r == Ok(Get(params, vc.key))
    ensures vc.source == Str("param") && !Truthy(Get(params, vc.key)) ==> r == Ok(DefaultParam(def, vc.key))
    ensures !(vc.source in [Str("param"), Str("config")]) ==>
      r == Err(ArgumentError("Unknown value source: " + ToS(vc.source)))
  {
    if vc.source == Str("config") then Setting(settings, vc.key)
    else if vc.source == Str("param") then
      var v := Get(params, vc.key);
      Ok(if Truthy(v) then v else DefaultParam(def, vc.key))
    else Err(ArgumentError("Unknown value source: " + ToS(vc.source)))
  }

  // ---------------------------------------------------------------------------
  // Filters

  /** `config["filters"].reduce(data) { |d, f| Filter.new(f).apply(d, params) }`. */
  function FoldFilters(fs: seq<FilterConfig>, data: seq<Dict>, params: Dict, settings: Settings): (r: Result<seq<Dict>>)
    ensures |fs| == 0 ==> r == Ok(data)
    ensures r.Ok? ==> IsSubsequence(r.value, data)
    decreases |fs|
  {
    if |fs| == 0 then
      SubsequenceRefl(data);
      Ok(data)
    else
      var d :- Apply(fs[0], data, params, settings);
      var r := FoldFilters(fs[1..], d, params, settings);
      if r.Ok? then SubsequenceTrans(r.value, d, data); r else r
  }

  /** The filters act one after the other in declared order: folding a list
      of filters is folding its first part and then the rest. */
  lemma {:induction false} FoldFiltersAppend(f1: seq<FilterConfig>, f2: seq<FilterConfig>, data: seq<Dict>, params: Dict, settings: Settings)
    ensures FoldFilters(f1 + f2, data, params, settings) ==
      match FoldFilters(f1, data, params, settings)
      case Ok(d) => FoldFilters(f2, d, params, settings)
      case Err(e) => Err(e)
    decreases |f1|
  {
    if |f1| == 0 {
      assert f1 + f2 == f2;
    } else {
      assert (f1 + f2)[0] == f1[0];
      assert (f1 + f2)[1..] == f1[1..] + f2;
      var a := Apply(f1[0], data, params, settings);
      if a.Ok? {
        FoldFiltersAppend(f1[1..], f2, a.value, params, settings);
      }
    }
  }

  /** A row survives the filters only if it was there to begin with, and a
      single filter keeps exactly the rows it accepts. */
  lemma FoldSingle(f: FilterConfig, data: seq<Dict>, params: Dict, settings: Settings)
    ensures FoldFilters([f], data, params, settings) == Apply(f, data, params, settings)
  {
    var a := Apply(f, data, params, settings);
    if a.Ok? {
      assert [f][1..] == [];
    }
  }

  /** `apply_filters`: the data untouched without a `filters` section. */
  function ApplyFilters(def: Definition, data: seq<Dict>, params: Dict, settings: Settings): (r: Result<seq<Dict>>)
    ensures def.filters.None? ==> r == Ok(data)
    ensures r.Ok? ==> IsSubsequence(r.value, data)
  {
    match def.filters
    case None => SubsequenceRefl(data); Ok(data)
    case Some(fs) => FoldFilters(fs, data, params, settings)
  }

  // ---------------------------------------------------------------------------
  // Limit

  /** `params[:limit] || default_limit`. */
  function EffectiveLimit(def: Definition, params: Dict): (r: Value)
    ensures Truthy(Get(params, "limit")) ==> r == Get(params, "limit")
    ensures !Truthy(Get(params, "limit")) ==> r == DefaultParam(def, "limit")
  {
    var v := Get(params, "limit");
    if Truthy(v) then v else DefaultLimit(def)
  }

  /** The name Ruby uses for a value it cannot convert to an Integer. */
  function ConversionName(v: Value): string {
    if v == Bool(true) then "true" else ClassName(v)
  }

  /** `data = data.first(limit) if limit`: nil or false keep every row; a
      number keeps that many leading rows (a Float is truncated first); a
      negative count or a value that is not a number raises. */
  function TakeLimit(data: seq<Dict>, limit: Value): (r: Result<seq<Dict>>)
    ensures !Truthy(limit) ==> r == Ok(data)
    ensures limit.Int? && limit.i >= 0 ==> r.Ok? && |r.value| == Min(limit.i, |data|)
    ensures (limit.Int? && limit.i < 0) || (limit.Float? && Truncate(limit.f) < 0) ==>
      r == Err(ArgumentError("negative array size"))
    ensures limit.Str? || limit.Arr? || limit == Bool(true) ==>
      r == Err(TypeError("no implicit conversion of " + ConversionName(limit) + " into Integer"))
    ensures r.Ok? ==> IsPrefix(r.value, data)
  {
    if !Truthy(limit) then Ok(data)
    else if limit.Int? || limit.Float? then
      var n := if limit.Int? then limit.i else Truncate(limit.f);
      if n < 0 then Err(ArgumentError("negative array size")) else Ok(First(data, n))
    else Err(TypeError("no implicit conversion of " + ConversionName(limit) + " into Integer"))
  }

  // ---------------------------------------------------------------------------
  // Title

  /** The placeholder a title variable replaces. */
  function Placeholder(name: string): (p: string)
    ensures |p| == |name| + 3 && p[..2] == "${"
  {
    "${" + name + "}"
  }

  /** The `title_vars` loop: each variable resolved, then every `${name}`
      replaced by its `to_s` through `gsub`, so back-references in the text
      are expanded; the first resolution that raises ends it. */
  function Interpolate(title: string, vars: seq<(string, ValueConfig)>, def: Definition, params: Dict, settings: Settings): (r: Result<string>)
    ensures |vars| == 0 ==> r == Ok(title)
    ensures r.Err? ==> exists i :: 0 <= i < |vars| && ResolveValue(def, vars[i].1, params, settings) == Err(r.error)
    decreases |vars|
  {
    if |vars| == 0 then Ok(title)
    else
      var v :- ResolveValue(def, vars[0].1, params, settings);
      var r := Interpolate(Gsub(title, Placeholder(vars[0].0), ToS(v)), vars[1..], def, params, settings);
      assert r.Err? ==> exists i :: 0 <= i < |vars| && ResolveValue(def, vars[i].1, params, settings) == Err(r.error) by {
        if r.Err? {
          var i :| 0 <= i < |vars[1..]| && ResolveValue(def, vars[1..][i].1, params, settings) == Err(r.error);
          assert vars[1..][i] == vars[i + 1];
        }
      }
      r
  }

  /** `interpolate_title`: the title as written without `title_vars`. */
  function InterpolateTitle(def: Definition, params: Dict, settings: Settings): (r: Result<string>)
    ensures def.titleVars.None? ==> r == Ok(def.title)
  {
    match def.titleVars
    case None => Ok(def.title)
    case Some(vars) => Interpolate(def.title, vars, def, params, settings)
  }

  /** A text without "${" contains no placeholder. */
  lemma NoPlaceholder(s: string, name: string)
    requires !Contains(s, "${")
    ensures !Contains(s, Placeholder(name))
  {
    if Contains(s, Placeholder(name)) {
      ContainsIff(s, Placeholder(name));
      var i :| OccursAt(s, Placeholder(name), i);
      assert s[i..i + 2] == s[i..i + |Placeholder(name)|][..2];
      ContainsAt(s, "${", i);
    }
  }

  /** A title without placeholders comes out as written whenever every
      variable resolves. */
  lemma {:induction false} InterpolatePlainTitle(title: string, vars: seq<(string, ValueConfig)>, def: Definition, params: Dict, settings: Settings)
    requires !Contains(title, "${")
    ensures Interpolate(title, vars, def, params, settings).Ok? ==> Interpolate(title, vars, def, params, settings).value == title
    decreases |vars|
  {
    if |vars| > 0 {
      var v := ResolveValue(def, vars[0].1, params, settings);
      if v.Ok? {
        NoPlaceholder(title, vars[0].0);
        GsubAbsent(title, Placeholder(vars[0].0), ToS(v.value));
        InterpolatePlainTitle(title, vars[1..], def, params, settings);
      }
    }
  }

  /** `gsub` of a placeholder that occurs once, between texts without "$":
      the expansion of the value's text takes its place and nothing else
      changes; a text without a backslash is written as it is. */
  lemma ReplaceSinglePlaceholder(pre: string, name: string, post: string, rep: string)
    requires '$' !in pre && '$' !in post
    ensures Gsub(pre + Placeholder(name) + post, Placeholder(name), rep) ==
      pre + Expand(rep, pre, Placeholder(name), post) + post
    ensures '\\' !in rep ==> Gsub(pre + Placeholder(name) + post, Placeholder(name), rep) == pre + rep + post
  {
    GsubSingle(pre, Placeholder(name), post, rep);
  }

  /** A definition titled "Index Sizes (top ${limit})" whose `limit`
      variable reads the parameter shows "Index Sizes (top 25)" when called
      with a limit of 25. */
  lemma TitleExample(def: Definition)
    requires def.title == "Index Sizes (top ${limit})"
    requires def.titleVars == Some([("limit", ValueConfig(Str("param"), "limit"))])
    ensures InterpolateTitle(def, [("limit", Int(25))], []) == Ok("Index Sizes (top 25)")
  {
    var vc := ValueConfig(Str("param"), "limit");
    LimitParamResolves(def, vc);
    InterpolateOne(def.title, "limit", vc, def, [("limit", Int(25))], [], Int(25));
    TitleExampleText(def.title);
  }

  lemma LimitParamResolves(def: Definition, vc: ValueConfig)
    requires vc == ValueConfig(Str("param"), "limit")
    ensures ResolveValue(def, vc, [("limit", Int(25))], []) == Ok(Int(25))
  {
    assert Get([("limit", Int(25))], "limit") == Int(25);
  }

  /** A single title variable that resolves replaces its placeholder. */
  lemma InterpolateOne(title: string, name: string, vc: ValueConfig, def: Definition, params: Dict, settings: Settings, v: Value)
    requires ResolveValue(def, vc, params, settings) == Ok(v)
    ensures Interpolate(title, [(name, vc)], def, params, settings) == Ok(Gsub(title, Placeholder(name), ToS(v)))
  {
    assert [(name, vc)][1..] == [];
  }

  lemma TitleExampleText(title: string)
    requires title == "Index Sizes (top ${limit})"
    ensures Gsub(title, Placeholder("limit"), ToS(Int(25))) == "Index Sizes (top 25)"
  {
    TwentyFiveText();
    ExampleTitleParts(title);
    DollarFree("Index Sizes (top ", ")");
    ReplaceSinglePlaceholder("Index Sizes (top ", "limit", ")", "25");
  }

  lemma DollarFree(pre: string, post: string)
    requires pre == "Index Sizes (top " && post == ")"
    ensures '$' !in pre && '$' !in post && '\\' !in "25"
  {
  }

  lemma TwentyFiveText()
    ensures ToS(Int(25)) == "25"
  {
    assert NatText(25) == NatText(2) + [DigitChar(5)];
  }

  lemma ExampleTitleParts(title: string)
    requires title == "Index Sizes (top ${limit})"
    ensures title == "Index Sizes (top " + Placeholder("limit") + ")"
  {
  }

  // ---------------------------------------------------------------------------
  // generate_report

  /** `generate_report` once the SQL has returned `data`: filters, then the
      enrichment hook, then the limit, then the title; the first step that
      raises ends it. */
  function GenerateReport(def: Definition, data: seq<Dict>, params: Dict, settings: Settings): (r: Result<Report>)
    ensures r.Ok? ==> IsPrefix(r.value.data, Prepared(def, data, params, settings))
    ensures r.Ok? && !def.enriched ==> IsSubsequence(r.value.data, data)
    ensures r.Ok? ==> ApplyFilters(def, data, params, settings).Ok?
    ensures r.Ok? <==>
      ApplyFilters(def, data, params, settings).Ok? &&
      TakeLimit(Prepared(def, data, params, settings), EffectiveLimit(def, params)).Ok? &&
      InterpolateTitle(def, params, settings).Ok?
    ensures r.Ok? && EffectiveLimit(def, params).Int? ==>
      |r.value.data| == Min(EffectiveLimit(def, params).i, |Prepared(def, data, params, settings)|)
    ensures r.Ok? && !Truthy(EffectiveLimit(def, params)) ==> r.value.data == Prepared(def, data, params, settings)
    ensures r.Ok? ==> r.value.title == InterpolateTitle(def, params, settings).value
    ensures r.Ok? && def.titleVars.None? ==> r.value.title == def.title
    ensures r.Ok? && def.columns.Some? ==> r.value.columns == def.columns.value
    ensures def.filters.None? && !def.enriched && !Truthy(EffectiveLimit(def, params)) && def.titleVars.None? ==>
      r.Ok? && r.value.data == data
  {
    var filtered :- ApplyFilters(def, data, params, settings);
    var prepared := if def.enriched then Enrich(filtered) else filtered;
    var limited :- TakeLimit(prepared, EffectiveLimit(def, params));
    var title :- InterpolateTitle(def, params, settings);
    assert !def.enriched ==> IsSubsequence(limited, data) by {
      if !def.enriched {
        PrefixSubsequence(prepared, |limited|);
        SubsequenceTrans(limited, prepared, data);
      }
    }
    Ok(NewReport(title, limited, def.columns))
  }

  /** The rows after filtering and enrichment, before the limit (the empty
      list when a filter raises). */
  function Prepared(def: Definition, data: seq<Dict>, params: Dict, settings: Settings): (r: seq<Dict>)
    ensures ApplyFilters(def, data, params, settings).Ok? ==> |r| == |ApplyFilters(def, data, params, settings).value|
  {
    match ApplyFilters(def, data, params, settings)
    case Err(_) => []
    case Ok(filtered) => if def.enriched then Enrich(filtered) else filtered
  }

  // ---------------------------------------------------------------------------
  // filter_parameters and problem_explanations

  /** One entry of `filter_parameters`. The entries of declared parameters
      have no `current_config` and no `is_threshold` (here `None` and
      `false`). */
  datatype ParamInfo = ParamInfo(
    ptype: Value, default: Value, description: Value, caption: string,
    currentConfig: Option<Value>, isThreshold: bool)

  type ParamInfos = seq<(string, ParamInfo)>

  /** The entries of the `parameters` section, put in order. */
  function DeclaredInfos(ps: seq<(string, ParamConfig)>, titleize: string -> string, acc: ParamInfos): (r: ParamInfos)
    ensures forall k :: Lookup(r, k).Some? <==> Lookup(acc, k).Some? || Lookup(ps, k).Some?
    ensures forall k :: Lookup(ps, k).None? ==> Lookup(r, k) == Lookup(acc, k)
    ensures forall k :: Lookup(ps, k).Some? ==> Lookup(r, k).Some? && !Lookup(r, k).value.isThreshold
    decreases |ps|
  {
    if |ps| == 0 then acc
    else
      var (name, pc) := ps[0];
      var info := ParamInfo(pc.ptype, pc.default, pc.description, titleize(name), None, false);
      DeclaredInfos(ps[1..], titleize, SetEntry(acc, name, info))
  }

  /** `filter["cast"] || "integer"`. */
  function ThresholdType(cast: Value): (r: Value)
    ensures Truthy(r)
    ensures Truthy(cast) ==> r == cast
    ensures !Truthy(cast) ==> r == Str("integer")
  {
    if Truthy(cast) then cast else Str("integer")
  }

  /** Whether a filter reads its threshold from the configuration. */
  predicate ConfigSourced(f: FilterConfig) { f.value.source == Str("config") }

  function ThresholdKey(f: FilterConfig): string { f.field + "_threshold" }

  /** The entry a config-sourced filter contributes, given the setting it
      reads. */
  function ThresholdEntry(f: FilterConfig, current: Value, titleize: string -> string): ParamInfo {
    ParamInfo(ThresholdType(f.cast), current, Str("Override threshold for " + f.field),
      titleize(f.field) + " Threshold", Some(current), true)
  }

  /** `fs[j]` is the last config-sourced filter whose threshold key is `k`. */
  predicate LastThreshold(fs: seq<FilterConfig>, k: string, j: int) {
    0 <= j < |fs| && ConfigSourced(fs[j]) && ThresholdKey(fs[j]) == k &&
    forall i :: j < i < |fs| && ConfigSourced(fs[i]) ==> ThresholdKey(fs[i]) != k
  }

  /** The `"<field>_threshold"` entries of the config-sourced filters, put in
      order; reading a setting the configuration lacks raises. */
  function ThresholdInfos(fs: seq<FilterConfig>, settings: Settings, titleize: string -> string, acc: ParamInfos): (r: Result<ParamInfos>)
    ensures r.Ok? ==> forall k :: Lookup(r.value, k).Some? <==>
      Lookup(acc, k).Some? || exists f :: f in fs && ConfigSourced(f) && k == ThresholdKey(f)
    ensures r.Ok? ==> forall k :: (forall f :: f in fs && ConfigSourced(f) ==> k != ThresholdKey(f)) ==>
      Lookup(r.value, k) == Lookup(acc, k)
    ensures r.Ok? ==> forall f :: f in fs && ConfigSourced(f) ==>
      Lookup(r.value, ThresholdKey(f)).Some? && Lookup(r.value, ThresholdKey(f)).value.isThreshold
    ensures r.Err? ==> exists f :: f in fs && ConfigSourced(f) && Setting(settings, f.value.key) == Err(r.error)
    decreases |fs|
  {
    if |fs| == 0 then Ok(acc)
    else
      var f := fs[0];
      assert forall g :: g in fs <==> g == f || g in fs[1..];
      if ConfigSourced(f) then
        var current :- Setting(settings, f.value.key);
        ThresholdInfos(fs[1..], settings, titleize, SetEntry(acc, ThresholdKey(f), ThresholdEntry(f, current, titleize)))
      else
        ThresholdInfos(fs[1..], settings, titleize, acc)
  }

  /** A threshold entry is the one the last filter with that key builds: its
      `type` is that filter's cast (or `"integer"`) and its `default` and
      `current_config` are the setting the filter reads. */
  lemma {:induction false} ThresholdInfosEntry(fs: seq<FilterConfig>, settings: Settings, titleize: string -> string, acc: ParamInfos, k: string)
    requires ThresholdInfos(fs, settings, titleize, acc).Ok?
    requires exists f :: f in fs && ConfigSourced(f) && k == ThresholdKey(f)
    ensures exists j :: (LastThreshold(fs, k, j) && Setting(settings, fs[j].value.key).Ok? &&
      Lookup(ThresholdInfos(fs, settings, titleize, acc).value, k) ==
        Some(ThresholdEntry(fs[j], Setting(settings, fs[j].value.key).value, titleize)))
    decreases |fs|
  {
    var f := fs[0];
    assert forall g :: g in fs <==> g == f || g in fs[1..];
    assert forall i :: 1 <= i < |fs| ==> fs[i] == fs[1..][i - 1];
    var acc' := if ConfigSourced(f) then SetEntry(acc, ThresholdKey(f), ThresholdEntry(f, Setting(settings, f.value.key).value, titleize)) else acc;
    assert ThresholdInfos(fs, settings, titleize, acc) == ThresholdInfos(fs[1..], settings, titleize, acc');
    if exists g :: g in fs[1..] && ConfigSourced(g) && k == ThresholdKey(g) {
      ThresholdInfosEntry(fs[1..], settings, titleize, acc', k);
      var j :| LastThreshold(fs[1..], k, j) && Setting(settings, fs[1..][j].value.key).Ok? &&
        Lookup(ThresholdInfos(fs[1..], settings, titleize, acc').value, k) ==
          Some(ThresholdEntry(fs[1..][j], Setting(settings, fs[1..][j].value.key).value, titleize));
      assert LastThreshold(fs, k, j + 1);
    } else {
      assert forall i :: 0 < i < |fs| && ConfigSourced(fs[i]) ==> ThresholdKey(fs[i]) != k by {
        forall i | 0 < i < |fs| && ConfigSourced(fs[i]) ensures ThresholdKey(fs[i]) != k {
          assert fs[i] in fs[1..];
        }
      }
      assert LastThreshold(fs, k, 0);
    }
  }

  /** Whether the definition declares parameter `k`. */
  predicate Declared(def: Definition, k: string) {
    def.parameters.Some? && Lookup(def.parameters.value, k).Some?
  }

  /** Whether `k` is the threshold key of a config-sourced filter. */
  predicate ThresholdName(def: Definition, k: string) {
    def.filters.Some? && exists f :: f in def.filters.value && ConfigSourced(f) && k == ThresholdKey(f)
  }

  /** `filter_parameters`: every declared parameter, then a threshold entry
      for every config-sourced filter (replacing a declared one of the same
      name); `titleize` is ActiveSupport's. */
  function FilterParameters(def: Definition, settings: Settings, titleize: string -> string): (r: Result<ParamInfos>)
    ensures r.Ok? ==> forall k :: Lookup(r.value, k).Some? <==> Declared(def, k) || ThresholdName(def, k)
    ensures r.Ok? ==> forall k :: ThresholdName(def, k) ==> Lookup(r.value, k).value.isThreshold
    ensures r.Ok? ==> forall k :: Declared(def, k) && !ThresholdName(def, k) ==> !Lookup(r.value, k).value.isThreshold
    ensures def.filters.None? ==> r.Ok?
    ensures r.Err? ==>
      def.filters.Some? &&
      exists f :: f in def.filters.value && ConfigSourced(f) && Setting(settings, f.value.key) == Err(r.error)
  {
    var declared := match def.parameters
      case None => []
      case Some(ps) => DeclaredInfos(ps, titleize, []);
    match def.filters
    case None => Ok(declared)
    case Some(fs) => ThresholdInfos(fs, settings, titleize, declared)
  }

  /** In `filter_parameters`, a threshold entry takes its `type` and its
      `default` from the last config-sourced filter with that key. */
  lemma FilterParametersThreshold(def: Definition, settings: Settings, titleize: string -> string, k: string)
    requires FilterParameters(def, settings, titleize).Ok?
    requires ThresholdName(def, k)
    ensures exists j :: (LastThreshold(def.filters.value, k, j) &&
      Setting(settings, def.filters.value[j].value.key).Ok? &&
      Lookup(FilterParameters(def, settings, titleize).value, k) ==
        Some(ThresholdEntry(def.filters.value[j], Setting(settings, def.filters.value[j].value.key).value, titleize)))
  {
    var declared := match def.parameters
      case None => []
      case Some(ps) => DeclaredInfos(ps, titleize, []);
    ThresholdInfosEntry(def.filters.value, settings, titleize, declared, k);
  }

  /** `problem_explanations`: an empty map when the section is missing. */
  function ProblemExplanations(def: Definition): (r: Dict)
    ensures def.problemExplanations.None? ==> r == []
    ensures def.problemExplanations.Some? ==> r == def.problemExplanations.value
  {
    def.problemExplanations.GetOr([])
  }
}
