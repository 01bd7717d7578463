/** Row filters declared in a report definition: a field, a comparison
    operator, a threshold taken from the settings or the request parameters,
    and a cast applied to both sides. */
module Filter {
  import opened Common
  import opened Values
  import opened Lists

  // ---------------------------------------------------------------------------
  // Settings

  /** The configuration object, as the bindings of its readers. */
  type Settings = Dict

  /** `PgReports.config.public_send(key)`: the setting, or the exception for
      a reader the configuration does not have. */
  function Setting(settings: Settings, key: string): (r: Result<Value>)
    ensures r.Ok? <==> HasKey(settings, key)
    ensures r.Ok? ==> r.value == Get(settings, key)
  {
    if HasKey(settings, key) then Ok(Get(settings, key))
    else Err(NoMethodError("undefined method '" + key + "' for an instance of PgReports::Configuration"))
  }

  // ---------------------------------------------------------------------------
  // OPERATORS

  datatype Op = Eq | Ne | Lt | Lte | Gt | Gte

  /** The key an operator has in `OPERATORS`. */
  function Name(op: Op): string {
    match op
    case Eq => "eq"
    case Ne => "ne"
    case Lt => "lt"
    case Lte => "lte"
    case Gt => "gt"
    case Gte => "gte"
  }

  /** `OPERATORS[name]`: the operator whose key is `name`, nil for any other
      value. */
  function OperatorNamed(name: Value): (r: Option<Op>)
    ensures r.Some? ==> name == Str(Name(r.value))
    ensures r.None? ==> forall op: Op :: name != Str(Name(op))
  {
    if name == Str("eq") then Some(Eq)
    else if name == Str("ne") then Some(Ne)
    else if name == Str("lt") then Some(Lt)
    else if name == Str("lte") then Some(Lte)
    else if name == Str("gt") then Some(Gt)
    else if name == Str("gte") then Some(Gte)
    else None
  }

  /** Every operator is found under its own key. */
  lemma OperatorNamedName(op: Op)
    ensures OperatorNamed(Str(Name(op))) == Some(op)
  {
  }

  /** The operator applied to a row value `a` and the threshold `b`; an
      ordering between values Ruby cannot compare raises. */
  function Holds(op: Op, a: Value, b: Value): (r: Result<bool>)
    ensures op == Eq ==> r == Ok(RubyEq(a, b))
    ensures op == Ne ==> r == Ok(!RubyEq(a, b))
    ensures r.Ok? && IsNumeric(a) && IsNumeric(b) && !(op == Eq || op == Ne) ==>
      (r.value <==> match op
        case Lt => NumericValue(a) < NumericValue(b)
        case Lte => NumericValue(a) <= NumericValue(b)
        case Gt => NumericValue(a) > NumericValue(b)
        case Gte => NumericValue(a) >= NumericValue(b)
        case _ => false)
    ensures !(op == Eq || op == Ne) ==>
      (r.Ok? <==> (IsNumeric(a) && IsNumeric(b)) || (a.Str? && b.Str?))
  {
    match op
    case Eq => Ok(RubyEq(a, b))
    case Ne => Ok(!RubyEq(a, b))
    case Lt => var c :- Compare(a, b, "<"); Ok(c < 0)
    case Lte => var c :- Compare(a, b, "<="); Ok(c <= 0)
    case Gt => var c :- Compare(a, b, ">"); Ok(c > 0)
    case Gte => var c :- Compare(a, b, ">="); Ok(c >= 0)
  }

  // ---------------------------------------------------------------------------
  // cast_value

  /** `config["cast"] || "string"`. */
  function CastName(cast: Value): (r: Value)
    ensures Truthy(r)
    ensures Truthy(cast) ==> r == cast
  {
    if Truthy(cast) then cast else Str("string")
  }

  /** `cast_value`: `to_i`, `to_f` or `to_s` for the three known casts, the
      value itself for any other. */
  function Cast(v: Value, cast: Value): (r: Result<Value>)
    ensures cast == Str("integer") ==> (r.Ok? <==> ToI(v).Ok?) && (r.Ok? ==> r.value == Int(ToI(v).value))
    ensures cast == Str("float") ==> (r.Ok? <==> ToF(v).Ok?) && (r.Ok? ==> r.value == Float(ToF(v).value))
    ensures cast == Str("string") ==> r == Ok(Str(ToS(v)))
    ensures !(cast in [Str("integer"), Str("float"), Str("string")]) ==> r == Ok(v)
  {
    if cast == Str("integer") then var i :- ToI(v); Ok(Int(i))
    else if cast == Str("float") then var f :- ToF(v); Ok(Float(f))
    else if cast == Str("string") then Ok(Str(ToS(v)))
    else Ok(v)
  }

  /** Casting a cast value again changes nothing. */
  lemma CastIdempotent(v: Value, cast: Value)
    requires Cast(v, cast).Ok?
    ensures Cast(Cast(v, cast).value, cast) == Cast(v, cast)
  {
  }

  // ---------------------------------------------------------------------------
  // Filter#apply

  datatype ValueConfig = ValueConfig(source: Value, key: string)

  /** One entry of a definition's `filters` list. */
  datatype FilterConfig = FilterConfig(field: string, operator: Value, value: ValueConfig, cast: Value)

  /** `resolve_value` before the cast: the setting, the request parameter,
      or the error for any other source. */
  function RawThreshold(vc: ValueConfig, params: Dict, settings: Settings): (r: Result<Value>)
    ensures vc.source == Str("param") ==> r == Ok(Get(params, vc.key))
    ensures vc.source == Str("config") ==> r == Setting(settings, vc.key)
    ensures !(vc.source in [Str("param"), Str("config")]) ==>
      r == Err(ArgumentError("Unknown value source: " + ToS(vc.source)))
  {
    if vc.source == Str("config") then Setting(settings, vc.key)
    else if vc.source == Str("param") then Ok(Get(params, vc.key))
    else Err(ArgumentError("Unknown value source: " + ToS(vc.source)))
  }

  function Threshold(f: FilterConfig, params: Dict, settings: Settings): Result<Value> {
    var v :- RawThreshold(f.value, params, settings);
    Cast(v, CastName(f.cast))
  }

  /** Whether one row passes: its field cast, compared with the threshold. */
  function Keep(row: Dict, field: string, cast: Value, op: Op, t: Value): (r: Result<bool>)
    ensures Cast(Get(row, field), cast).Err? ==> r == Err(Cast(Get(row, field), cast).error)
    ensures Cast(Get(row, field), cast).Ok? && op == Eq ==> r == Ok(RubyEq(Cast(Get(row, field), cast).value, t))
    ensures Cast(Get(row, field), cast).Ok? && op == Ne ==> r == Ok(!RubyEq(Cast(Get(row, field), cast).value, t))
    ensures Cast(Get(row, field), cast).Ok? && !(op == Eq || op == Ne) ==>
      (r.Ok? <==> (IsNumeric(Cast(Get(row, field), cast).value) && IsNumeric(t)) || (Cast(Get(row, field), cast).value.Str? && t.Str?))
  {
    var v :- Cast(Get(row, field), cast);
    Holds(op, v, t)
  }

  /** The rows `Keep` lets through, as a predicate on rows. */
  function Passes(field: string, cast: Value, op: Op, t: Value): Dict -> bool {
    row => Keep(row, field, cast, op, t) == Ok(true)
  }

  /** `data.select { ... }`: the rows that pass, in order, or the first
      exception a row raises. */
  function Select(rows: seq<Dict>, field: string, cast: Value, op: Op, t: Value): (r: Result<seq<Dict>>)
    ensures r.Ok? <==> forall i :: 0 <= i < |rows| ==> Keep(rows[i], field, cast, op, t).Ok?
    ensures r.Ok? ==> IsSubsequence(r.value, rows)
    ensures r.Ok? ==> forall x :: x in r.value <==> x in rows && Keep(x, field, cast, op, t) == Ok(true)
    ensures r.Err? ==> exists i :: 0 <= i < |rows| && Keep(rows[i], field, cast, op, t) == Err(r.error)
    ensures r.Ok? ==> r.value == Lists.Filter(rows, Passes(field, cast, op, t))
    decreases |rows|
  {
    if |rows| == 0 then Ok([])
    else
      var k := Keep(rows[0], field, cast, op, t);
      var rest := Select(rows[1..], field, cast, op, t);
      assert forall i :: 1 <= i < |rows| ==> rows[i] == rows[1..][i - 1];
      assert forall x :: x in rows <==> x == rows[0] || x in rows[1..];
      if k.Err? then Err(k.error)
      else if rest.Err? then
        assert rest.Err? ==> exists i :: 0 <= i < |rows| && Keep(rows[i], field, cast, op, t) == Err(rest.error) by {
          var j :| 0 <= j < |rows[1..]| && Keep(rows[1..][j], field, cast, op, t) == Err(rest.error);
          assert rows[j + 1] == rows[1..][j];
        }
        Err(rest.error)
      else if k.value then
        assert IsSubsequence([rows[0]] + rest.value, rows) by {
          assert ([rows[0]] + rest.value)[1..] == rest.value;
        }
        Ok([rows[0]] + rest.value)
      else
        SubsequenceOfTail(rest.value, rows);
        Ok(rest.value)
  }

  /** `Filter#apply`: the threshold is resolved first, then the operator is
      looked up, then the rows are selected. */
  function Apply(f: FilterConfig, data: seq<Dict>, params: Dict, settings: Settings): (r: Result<seq<Dict>>)
    ensures Threshold(f, params, settings).Err? ==> r == Err(Threshold(f, params, settings).error)
    ensures Threshold(f, params, settings).Ok? && OperatorNamed(f.operator).None? ==>
      r == Err(ArgumentError("Unknown operator: " + ToS(f.operator)))
    ensures r.Ok? ==> IsSubsequence(r.value, data)
    ensures r.Ok? ==> OperatorNamed(f.operator).Some? && Threshold(f, params, settings).Ok?
  {
    var t :- Threshold(f, params, settings);
    match OperatorNamed(f.operator)
    case None => Err(ArgumentError("Unknown operator: " + ToS(f.operator)))
    case Some(op) => Select(data, f.field, CastName(f.cast), op, t)
  }

  /** A row passes `Apply` exactly when its cast field stands in the
      operator's relation to the cast threshold. */
  lemma ApplyKeeps(f: FilterConfig, data: seq<Dict>, params: Dict, settings: Settings, row: Dict)
    requires Apply(f, data, params, settings).Ok?
    ensures row in Apply(f, data, params, settings).value <==>
      row in data && Keep(row, f.field, CastName(f.cast), OperatorNamed(f.operator).value, Threshold(f, params, settings).value) == Ok(true)
  {
  }

  /** With the same threshold, `eq` and `ne` split the rows between them. */
  lemma {:induction false} EqNePartition(rows: seq<Dict>, field: string, cast: Value, t: Value)
    requires Select(rows, field, cast, Eq, t).Ok?
    ensures Select(rows, field, cast, Ne, t).Ok?
    ensures |Select(rows, field, cast, Eq, t).value| + |Select(rows, field, cast, Ne, t).value| == |rows|
    ensures forall x :: x in rows ==> (x in Select(rows, field, cast, Eq, t).value <==> x !in Select(rows, field, cast, Ne, t).value)
    decreases |rows|
  {
    if |rows| > 0 {
      assert forall i :: 1 <= i < |rows| ==> rows[i] == rows[1..][i - 1];
      EqNePartition(rows[1..], field, cast, t);
    }
  }

  /** Values 10, 20 and 30 filtered with `lte` against a parameter of 20 keep
      the first two rows. */
  lemma LteExample()
    ensures Apply(FilterConfig("calls", Str("lte"), ValueConfig(Str("param"), "max_calls"), Str("integer")),
            ExampleRows(), [("max_calls", Int(20))], [])
      == Ok(ExampleRows()[..2])
  {
    assert OperatorNamed(Str("lte")) == Some(Lte);
    assert Threshold(FilterConfig("calls", Str("lte"), ValueConfig(Str("param"), "max_calls"), Str("integer")),
      [("max_calls", Int(20))], []) == Ok(Int(20));
    SelectExample();
  }

  function ExampleRows(): seq<Dict> { [[("calls", Int(10))], [("calls", Int(20))], [("calls", Int(30))]] }

  lemma SelectExample()
    ensures Select(ExampleRows(), "calls", Str("integer"), Lte, Int(20)) == Ok(ExampleRows()[..2])
  {
    var rows := ExampleRows();
    KeepExample();
    var r1 := rows[1..];
    var r2 := rows[2..];
    assert |r2| == 1 && r2[0] == rows[2] && r2[1..] == [];
    var empty: seq<Dict> := [];
    assert Select(empty, "calls", Str("integer"), Lte, Int(20)) == Ok([]);
    assert Keep(r2[0], "calls", Str("integer"), Lte, Int(20)) == Ok(false);
    assert Select(r2, "calls", Str("integer"), Lte, Int(20)) == Ok([]);
    assert |r1| == 2 && r1[0] == rows[1] && r1[1..] == r2;
    assert Keep(r1[0], "calls", Str("integer"), Lte, Int(20)) == Ok(true);
    assert [r1[0]] + empty == [rows[1]];
    assert Select(r1, "calls", Str("integer"), Lte, Int(20)) == Ok([rows[1]]);
    assert rows[..2] == [rows[0]] + [rows[1]];
  }

  lemma KeepExample()
    ensures Keep(ExampleRows()[0], "calls", Str("integer"), Lte, Int(20)) == Ok(true)
    ensures Keep(ExampleRows()[1], "calls", Str("integer"), Lte, Int(20)) == Ok(true)
    ensures Keep(ExampleRows()[2], "calls", Str("integer"), Lte, Int(20)) == Ok(false)
  {
  }
}
