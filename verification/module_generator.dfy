/** `PgReports::ModuleGenerator`: one report method per loaded definition,
    on the report modules that exist, each merging the declared parameter
    defaults under the caller's parameters. */
module ModuleGenerator {
  import opened Common
  import opened Text
  import opened Values
  import opened Lists
  import opened Filter
  import opened Reports
  import opened ReportDefinition

  // ---------------------------------------------------------------------------
  // Parameter defaults

  /** `parameters.transform_values { |v| v["default"] }` over one list of
      declared parameters. */
  function DefaultsOf(ps: seq<(string, ParamConfig)>): (d: Dict)
    ensures Keys(d) == seq(|ps|, i requires 0 <= i < |ps| => ps[i].0)
    ensures forall k :: Get(d, k) == (if Lookup(ps, k).Some? then Lookup(ps, k).value.default else Nil)
    decreases |ps|
  {
    if |ps| == 0 then []
    else
      var rest := DefaultsOf(ps[1..]);
      var d := [(ps[0].0, ps[0].1.default)] + rest;
      assert d[1..] == rest;
      d
  }

  /** The defaults the generated method starts from: one per declared
      parameter (nil when it declares none), none without a `parameters`
      section. */
  function Defaults(def: Definition): (d: Dict)
    ensures def.parameters.None? ==> d == []
    ensures forall k :: Get(d, k) == DefaultParam(def, k)
    ensures forall k :: HasKey(d, k) <==> Declared(def, k)
  {
    match def.parameters
    case None => []
    case Some(ps) =>
      var d := DefaultsOf(ps);
      assert forall k :: HasKey(d, k) <==> Declared(def, k) by {
        forall k
          ensures HasKey(d, k) <==> Lookup(ps, k).Some?
        {
          if HasKey(d, k) {
            var i :| 0 <= i < |d| && Keys(d)[i] == k;
            assert ps[i].0 == k;
          }
          if Lookup(ps, k).Some? {
            var i :| 0 <= i < |ps| && ps[i].0 == k;
            assert Keys(d)[i] == k;
          }
        }
      }
      d
  }

  /** `captured_defaults.merge(params)`. */
  function MergedParams(def: Definition, caller: Dict): Dict {
    Merge(Defaults(def), caller)
  }

  /** Caller values override the defaults, declared keys the caller omits
      keep their defaults, and extra caller keys pass through. */
  lemma MergedParamsGet(def: Definition, caller: Dict, k: string)
    requires UniqueKeys(caller)
    ensures HasKey(caller, k) ==> Get(MergedParams(def, caller), k) == Get(caller, k)
    ensures !HasKey(caller, k) ==> Get(MergedParams(def, caller), k) == DefaultParam(def, k)
    ensures HasKey(MergedParams(def, caller), k) <==> Declared(def, k) || HasKey(caller, k)
  {
    MergeGet(Defaults(def), caller, k);
  }

  /** Merging the defaults in beforehand changes no value the definition
      resolves: `resolve_value` falls back to the same defaults itself. */
  lemma ResolveAfterMerge(def: Definition, vc: ValueConfig, caller: Dict, settings: Settings)
    requires UniqueKeys(caller)
    ensures ResolveValue(def, vc, MergedParams(def, caller), settings) == ResolveValue(def, vc, caller, settings)
  {
    MergedParamsGet(def, caller, vc.key);
  }

  /** Nor does it change the effective limit. */
  lemma LimitAfterMerge(def: Definition, caller: Dict)
    requires UniqueKeys(caller)
    ensures EffectiveLimit(def, MergedParams(def, caller)) == EffectiveLimit(def, caller)
  {
    MergedParamsGet(def, caller, "limit");
  }

  /** Title variables resolve the same with or without the merged defaults. */
  lemma {:induction false} InterpolateAfterMerge(title: string, vars: seq<(string, ValueConfig)>, def: Definition, caller: Dict, settings: Settings)
    requires UniqueKeys(caller)
    ensures Interpolate(title, vars, def, MergedParams(def, caller), settings) == Interpolate(title, vars, def, caller, settings)
    decreases |vars|
  {
    if |vars| > 0 {
      ResolveAfterMerge(def, vars[0].1, caller, settings);
      var v := ResolveValue(def, vars[0].1, caller, settings);
      if v.Ok? {
        InterpolateAfterMerge(Gsub(title, Placeholder(vars[0].0), ToS(v.value)), vars[1..], def, caller, settings);
      }
    }
  }

  /** The generated report method: `generate_report(**defaults.merge(params))`
      once the SQL has returned `data`. For a definition without filters,
      merging the defaults in is invisible: the title and the limit fall back
      to the same defaults on their own. */
  function ReportMethod(def: Definition, caller: Dict, data: seq<Dict>, settings: Settings): (r: Result<Report>)
    ensures UniqueKeys(caller) && def.filters.None? ==> r == GenerateReport(def, data, caller, settings)
  {
    var merged := MergedParams(def, caller);
    assert UniqueKeys(caller) && def.filters.None? ==>
      GenerateReport(def, data, merged, settings) == GenerateReport(def, data, caller, settings) by {
      if UniqueKeys(caller) && def.filters.None? {
        LimitAfterMerge(def, caller);
        if def.titleVars.Some? {
          InterpolateAfterMerge(def.title, def.titleVars.value, def, caller, settings);
        }
        assert InterpolateTitle(def, merged, settings) == InterpolateTitle(def, caller, settings);
        SameInputsSameReport(def, data, merged, caller, settings);
      }
    }
    GenerateReport(def, data, merged, settings)
  }

  /** `generate_report` reads the parameters only through the filters, the
      limit and the title. */
  lemma SameInputsSameReport(def: Definition, data: seq<Dict>, p: Dict, q: Dict, settings: Settings)
    ensures ApplyFilters(def, data, p, settings) == ApplyFilters(def, data, q, settings)
      && EffectiveLimit(def, p) == EffectiveLimit(def, q)
      && InterpolateTitle(def, p, settings) == InterpolateTitle(def, q, settings)
      ==> GenerateReport(def, data, p, settings) == GenerateReport(def, data, q, settings)
  {
  }

  // ---------------------------------------------------------------------------
  // generate!

  /** A report method the generator defines: its module, its name and the
      definition it runs. */
  datatype Method = Method(moduleName: string, reportName: string, def: Definition)

  /** The loader's output: report definitions grouped by module name. */
  type Loaded = seq<(string, seq<(string, Definition)>)>

  /** The methods for one module, in the loader's order. */
  function MethodsOf(m: string, reports: seq<(string, Definition)>): (r: seq<Method>)
    ensures |r| == |reports|
    ensures forall j :: 0 <= j < |r| ==> r[j] == Method(m, reports[j].0, reports[j].1)
  {
    seq(|reports|, j requires 0 <= j < |reports| => Method(m, reports[j].0, reports[j].1))
  }

  /** The number of reports of the modules that exist. */
  function KnownCount(loaded: Loaded, known: set<string>): nat
    decreases |loaded|
  {
    if |loaded| == 0 then 0
    else (if loaded[0].0 in known then |loaded[0].1| else 0) + KnownCount(loaded[1..], known)
  }

  /** `generate!`: every (module, report) pair of the loader's output, in
      order, skipping the modules that do not resolve (`known` holds those
      that do). */
  function Generate(loaded: Loaded, known: set<string>): (r: seq<Method>)
    ensures |r| == KnownCount(loaded, known)
    ensures forall x :: x in r <==>
      exists i, j :: 0 <= i < |loaded| && 0 <= j < |loaded[i].1| && loaded[i].0 in known &&
        x == Method(loaded[i].0, loaded[i].1[j].0, loaded[i].1[j].1)
    decreases |loaded|
  {
    if |loaded| == 0 then []
    else
      var (m, reports) := loaded[0];
      var here := if m in known then MethodsOf(m, reports) else [];
      var rest := Generate(loaded[1..], known);
      GenerateMembers(loaded, known, here, rest);
      here + rest
  }

  lemma GenerateMembers(loaded: Loaded, known: set<string>, here: seq<Method>, rest: seq<Method>)
    requires |loaded| > 0
    requires here == if loaded[0].0 in known then MethodsOf(loaded[0].0, loaded[0].1) else []
    requires forall x :: x in rest <==>
      exists i, j :: 0 <= i < |loaded[1..]| && 0 <= j < |loaded[1..][i].1| && loaded[1..][i].0 in known &&
        x == Method(loaded[1..][i].0, loaded[1..][i].1[j].0, loaded[1..][i].1[j].1)
    ensures forall x :: x in here + rest <==>
      exists i, j :: 0 <= i < |loaded| && 0 <= j < |loaded[i].1| && loaded[i].0 in known &&
        x == Method(loaded[i].0, loaded[i].1[j].0, loaded[i].1[j].1)
  {
    forall x
      ensures x in here + rest <==>
        exists i, j :: 0 <= i < |loaded| && 0 <= j < |loaded[i].1| && loaded[i].0 in known &&
          x == Method(loaded[i].0, loaded[i].1[j].0, loaded[i].1[j].1)
    {
      if x in here {
        var j :| 0 <= j < |here| && here[j] == x;
        assert 0 < |loaded| && 0 <= j < |loaded[0].1| && loaded[0].0 in known;
      }
      if x in rest {
        var i, j :| 0 <= i < |loaded[1..]| && 0 <= j < |loaded[1..][i].1| && loaded[1..][i].0 in known &&
          x == Method(loaded[1..][i].0, loaded[1..][i].1[j].0, loaded[1..][i].1[j].1);
        assert loaded[1..][i] == loaded[i + 1];
      }
      if exists i, j :: 0 <= i < |loaded| && 0 <= j < |loaded[i].1| && loaded[i].0 in known &&
          x == Method(loaded[i].0, loaded[i].1[j].0, loaded[i].1[j].1) {
        var i, j :| 0 <= i < |loaded| && 0 <= j < |loaded[i].1| && loaded[i].0 in known &&
          x == Method(loaded[i].0, loaded[i].1[j].0, loaded[i].1[j].1);
        if i == 0 {
          assert here[j] == x;
        } else {
          assert loaded[1..][i - 1] == loaded[i];
          assert x in rest;
        }
      }
    }
  }

  /** A module that does not resolve gets no method at all. */
  lemma UnknownModuleSkipped(loaded: Loaded, known: set<string>, m: string)
    requires m !in known
    ensures forall x :: x in Generate(loaded, known) ==> x.moduleName != m
  {
  }
}
