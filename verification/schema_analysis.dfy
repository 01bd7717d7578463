/** `PgReports::Modules::SchemaAnalysis#missing_validations`: unique indexes
    whose ActiveRecord model declares no matching uniqueness validation, with
    the validation to add. The model lookup (`find_model_for_table`) is taken
    as a parameter. */
module SchemaAnalysis {
  import opened Common
  import opened Text
  import opened Values
  import opened Lists
  import opened Reports

  // ---------------------------------------------------------------------------
  // parse_array

  /** `gsub(/[{}]/, "")`. */
  function DeleteBraces(s: string): (r: string)
    ensures '{' !in r && '}' !in r
    ensures ('{' !in s && '}' !in s) ==> r == s
    decreases |s|
  {
    if |s| == 0 then ""
    else
      var rest := DeleteBraces(s[1..]);
      assert '{' !in s && '}' !in s ==> ('{' !in s[1..] && '}' !in s[1..]);
      assert s == [s[0]] + s[1..];
      if s[0] == '{' || s[0] == '}' then rest else [s[0]] + rest
  }

  lemma {:induction false} DeleteBracesAppend(a: string, b: string)
    ensures DeleteBraces(a + b) == DeleteBraces(a) + DeleteBraces(b)
    decreases |a|
  {
    if |a| > 0 {
      assert (a + b)[0] == a[0];
      assert (a + b)[1..] == a[1..] + b;
      DeleteBracesAppend(a[1..], b);
    } else {
      assert a + b == b;
    }
  }

  /** `parse_array`: a PostgreSQL array literal `{a,b,c}` as the list of its
      stripped elements; NULL and the empty string give no elements. */
  function ParseArray(text: Option<string>): (r: seq<string>)
    ensures text.None? || text.value == "" ==> r == []
    ensures forall i :: 0 <= i < |r| ==> ',' !in r[i] && Strip(r[i]) == r[i]
    ensures text.Some? && text.value != "" ==>
      var pieces := Split(DeleteBraces(text.value), ',');
      |r| == |pieces| && forall i :: 0 <= i < |r| ==> r[i] == Strip(pieces[i])
  {
    if text.None? || text.value == "" then []
    else
      var parts := Split(DeleteBraces(text.value), ',');
      var r := seq(|parts|, i requires 0 <= i < |parts| => Strip(parts[i]));
      assert forall i :: 0 <= i < |r| ==> ',' !in r[i] && Strip(r[i]) == r[i] by {
        forall i | 0 <= i < |r|
          ensures ',' !in r[i] && Strip(r[i]) == r[i]
        {
          StripInside(parts[i]);
          StripIdempotent(parts[i]);
        }
      }
      r
  }

  /** Every character `strip` keeps was in the string. */
  lemma StripInside(s: string)
    ensures forall c :: c in Strip(s) ==> c in s
  {
    var l := LStrip(s);
    assert forall c :: c in l ==> c in s by {
      forall c | c in l
        ensures c in s
      {
        var k :| 0 <= k < |l| && l[k] == c;
        assert s[|s| - |l| + k] == c;
      }
    }
    var r := RStrip(l);
    assert forall c :: c in r ==> c in l by {
      forall c | c in r
        ensures c in l
      {
        var k :| 0 <= k < |r| && r[k] == c;
        assert l[k] == c;
      }
    }
  }

  /** A joined list of pieces avoids a character none of the pieces nor the
      separator holds. */
  lemma {:induction false} JoinAvoids(parts: seq<string>, sep: string, c: char)
    requires c !in sep
    requires forall i :: 0 <= i < |parts| ==> c !in parts[i]
    ensures c !in Join(parts, sep)
    decreases |parts|
  {
    if |parts| > 1 {
      JoinAvoids(parts[1..], sep, c);
    }
  }

  /** An element PostgreSQL writes back unchanged: not empty, without the
      separator or braces, and without white space at its edges. */
  predicate PlainElement(name: string) {
    name != "" && ',' !in name && '{' !in name && '}' !in name && Strip(name) == name
  }

  /** Deleting the braces around a brace-free body gives the body. */
  lemma DeleteOuterBraces(body: string)
    requires '{' !in body && '}' !in body
    ensures DeleteBraces("{" + body + "}") == body
  {
    DeleteBracesAppend("{", body + "}");
    DeleteBracesAppend(body, "}");
    assert "{" + body + "}" == "{" + (body + "}");
  }

  lemma JoinBraceFree(names: seq<string>)
    requires forall i :: 0 <= i < |names| ==> PlainElement(names[i])
    ensures '{' !in Join(names, ",") && '}' !in Join(names, ",")
  {
    JoinAvoids(names, ",", '{');
    JoinAvoids(names, ",", '}');
  }

  /** Splitting a join of plain names on the separator gives the names. */
  lemma SplitJoin(names: seq<string>)
    requires |names| > 0
    requires forall i :: 0 <= i < |names| ==> PlainElement(names[i])
    ensures Split(Join(names, ","), ',') == names
  {
    FieldsJoin(names, ',');
    assert names[|names| - 1] != "";
  }

  /** Parsing the array literal PostgreSQL prints for a list of plain element
      names gives the names back. */
  lemma ParseArrayRoundTrip(names: seq<string>)
    requires |names| > 0
    requires forall i :: 0 <= i < |names| ==> PlainElement(names[i])
    ensures ParseArray(Some("{" + Join(names, ",") + "}")) == names
  {
    JoinBraceFree(names);
    DeleteOuterBraces(Join(names, ","));
    SplitJoin(names);
    ParseStripped("{" + Join(names, ",") + "}", names);
  }

  lemma ParseStripped(t: string, names: seq<string>)
    requires t != "" && Split(DeleteBraces(t), ',') == names
    requires forall i :: 0 <= i < |names| ==> Strip(names[i]) == names[i]
    ensures ParseArray(Some(t)) == names
  {
  }

  // ---------------------------------------------------------------------------
  // check_uniqueness_validation

  /** A validator of an ActiveRecord model: whether it is a uniqueness
      validator, the attributes it validates, and its `scope` option (a single
      symbol is a one-element list, as `Array(...)` makes it). */
  datatype Validator = Validator(uniqueness: bool, attributes: seq<string>, scope: Option<seq<string>>)

  /** An ActiveRecord model: its name, whether it responds to `validators`,
      and those validators. */
  datatype Model = Model(name: string, respondsToValidators: bool, validators: seq<Validator>)

  function UniquenessValidators(m: Model): (u: seq<Validator>)
    ensures forall k :: 0 <= k < |u| ==> u[k].uniqueness && u[k] in m.validators
    ensures forall v :: v in m.validators && v.uniqueness ==> v in u
  {
    Filter(m.validators, (v: Validator) => v.uniqueness)
  }

  /** Some uniqueness validator validates `column`. */
  predicate Covered(m: Model, column: string) {
    exists v :: v in UniquenessValidators(m) && column in v.attributes
  }

  /** A validator on the first column of a composite index scoped to exactly
      the other columns; the comparison of the sorted lists is a comparison of
      multisets. */
  predicate ScopedOn(v: Validator, columns: seq<string>)
    requires |columns| > 0
  {
    columns[0] in v.attributes && v.scope.Some? && multiset(v.scope.value) == multiset(columns[1..])
  }

  predicate HasScoped(m: Model, columns: seq<string>)
    requires |columns| > 0
  {
    exists v :: v in UniquenessValidators(m) && ScopedOn(v, columns)
  }

  /** `uniqueness_validators.any? { |v| v.attributes.include?(column) }`. */
  function AnyCovers(uvs: seq<Validator>, column: string): (r: bool)
    ensures r <==> exists v :: v in uvs && column in v.attributes
    decreases |uvs|
  {
    if |uvs| == 0 then false
    else
      var rest := AnyCovers(uvs[1..], column);
      assert forall v :: v in uvs <==> v == uvs[0] || v in uvs[1..];
      column in uvs[0].attributes || rest
  }

  /** The `any?` over the validators for the composite index. */
  function AnyScoped(uvs: seq<Validator>, columns: seq<string>): (r: bool)
    requires |columns| > 0
    ensures r <==> exists v :: v in uvs && ScopedOn(v, columns)
    decreases |uvs|
  {
    if |uvs| == 0 then false
    else
      var rest := AnyScoped(uvs[1..], columns);
      assert forall v :: v in uvs <==> v == uvs[0] || v in uvs[1..];
      ScopedOn(uvs[0], columns) || rest
  }

  /** `column_names.each { ... return false unless has_validator }`. */
  function EachCovered(uvs: seq<Validator>, columns: seq<string>): (r: bool)
    ensures r <==> forall i :: 0 <= i < |columns| ==> AnyCovers(uvs, columns[i])
    decreases |columns|
  {
    if |columns| == 0 then true
    else
      var rest := EachCovered(uvs, columns[1..]);
      assert forall i :: 1 <= i < |columns| ==> columns[i] == columns[1..][i - 1];
      AnyCovers(uvs, columns[0]) && rest
  }

  /** `check_uniqueness_validation` as written: every column of the index must
      be validated by some uniqueness validator, and a composite index must
      in addition have a validator on its first column scoped to the rest. */
  function CheckUniquenessAsWritten(m: Model, columns: seq<string>): (ok: bool)
    ensures ok <==>
      m.respondsToValidators && |UniquenessValidators(m)| > 0 &&
      (forall i :: 0 <= i < |columns| ==> Covered(m, columns[i])) &&
      (|columns| > 1 ==> HasScoped(m, columns))
  {
    if !m.respondsToValidators then false
    else
      var uvs := UniquenessValidators(m);
      if |uvs| == 0 then false
      else if !EachCovered(uvs, columns) then false
      else if |columns| > 1 then AnyScoped(uvs, columns)
      else true
  }

  /** The check as its suggestion implies it is meant: a single-column index
      needs a uniqueness validator on the column, a composite index needs one
      on its first column scoped to the others (the scope columns need no
      validator of their own). */
  function CheckUniqueness(m: Model, columns: seq<string>): (ok: bool)
    ensures ok <==>
      m.respondsToValidators && |UniquenessValidators(m)| > 0 &&
      (if |columns| > 1 then HasScoped(m, columns)
       else forall i :: 0 <= i < |columns| ==> Covered(m, columns[i]))
  {
    if !m.respondsToValidators then false
    else
      var uvs := UniquenessValidators(m);
      if |uvs| == 0 then false
      else if |columns| > 1 then AnyScoped(uvs, columns)
      else EachCovered(uvs, columns)
  }

  /** The corrected check accepts whatever the check as written accepts. */
  lemma AsWrittenIsStricter(m: Model, columns: seq<string>)
    ensures CheckUniquenessAsWritten(m, columns) ==> CheckUniqueness(m, columns)
  {
  }

  // ---------------------------------------------------------------------------
  // build_validation_suggestion

  /** `Array#inspect` of a list of strings. */
  function InspectNames(names: seq<string>): string {
    Inspect(Arr(seq(|names|, i requires 0 <= i < |names| => Str(names[i]))))
  }

  /** The declaration `validates :a, uniqueness: ...` of a uniqueness
      validator on its first attribute. */
  function Declaration(v: Validator): string
    requires |v.attributes| > 0
  {
    "validates :" + v.attributes[0] + ", uniqueness: " +
    (if v.scope.None? then "true" else "{ scope: " + InspectNames(v.scope.value) + " }")
  }

  /** The validator the suggestion for an index declares. */
  function SuggestedValidator(columns: seq<string>): (v: Validator)
    requires |columns| > 0
    ensures v.uniqueness && v.attributes == [columns[0]]
    ensures |columns| > 1 <==> v.scope.Some?
    ensures |columns| > 1 ==> v.scope.value == columns[1..]
  {
    Validator(true, [columns[0]], if |columns| == 1 then None else Some(columns[1..]))
  }

  /** `build_validation_suggestion`. An index without columns gets
      `validates :, uniqueness: { scope: nil }`, from `nil` first and rest. */
  function BuildValidationSuggestion(columns: seq<string>): (r: string)
    ensures StartsWith(r, "validates :")
    ensures |columns| == 1 ==> r == "validates :" + columns[0] + ", uniqueness: true"
  {
    if |columns| == 1 then "validates :" + columns[0] + ", uniqueness: true"
    else
      var first := if |columns| == 0 then "" else columns[0];
      var scopes := if |columns| == 0 then "nil" else InspectNames(columns[1..]);
      var r := "validates :" + first + ", uniqueness: { scope: " + scopes + " }";
      assert r[..11] == "validates :";
      r
  }

  /** The suggestion is the declaration of the suggested validator. */
  lemma SuggestionDeclares(columns: seq<string>)
    requires |columns| > 0
    ensures BuildValidationSuggestion(columns) == Declaration(SuggestedValidator(columns))
  {
  }

  /** A model that gains a validator. */
  function AddValidator(m: Model, v: Validator): (m': Model)
    ensures m'.name == m.name && m'.respondsToValidators == m.respondsToValidators
    ensures m'.validators == m.validators + [v]
  {
    m.(validators := m.validators + [v])
  }

  lemma AddedValidatorListed(m: Model, v: Validator)
    requires v.uniqueness
    ensures v in UniquenessValidators(AddValidator(m, v))
  {
  }

  /** Declaring the suggested validator satisfies the corrected check, for
      every index with columns and every model that has validators. */
  lemma SuggestionAccepted(m: Model, columns: seq<string>)
    requires m.respondsToValidators && |columns| > 0
    ensures CheckUniqueness(AddValidator(m, SuggestedValidator(columns)), columns)
  {
    var v := SuggestedValidator(columns);
    var m' := AddValidator(m, v);
    AddedValidatorListed(m, v);
    assert v in UniquenessValidators(m');
    if |columns| > 1 {
      assert ScopedOn(v, columns);
    } else {
      assert forall i :: 0 <= i < |columns| ==> Covered(m', columns[i]) by {
        assert columns[0] in v.attributes;
      }
    }
  }

  /** The check as written rejects the validator it suggests for a composite
      index: with columns `user_id, email` and only
      `validates :user_id, uniqueness: { scope: ["email"] }`, no uniqueness
      validator validates `email`. */
  lemma SuggestionRejectedAsWritten()
    ensures
      var m := Model("Membership", true, []);
      var columns := ["user_id", "email"];
      !CheckUniquenessAsWritten(AddValidator(m, SuggestedValidator(columns)), columns)
  {
    var m := Model("Membership", true, []);
    var columns := ["user_id", "email"];
    var v := SuggestedValidator(columns);
    var m' := AddValidator(m, v);
    assert m'.validators == [v];
    assert UniquenessValidators(m') == [v];
    assert "email" !in v.attributes;
    assert !Covered(m', columns[1]);
  }

  // ---------------------------------------------------------------------------
  // missing_validations

  const Title := "Unique Indexes Missing Validations"
  const DisplayColumns := ["table_name", "model_name", "columns", "status", "validation_status"]

  /** The `column_names` cell: the array literal as text, or none. */
  function ColumnText(v: Value): (r: Option<string>)
    ensures v.Str? <==> r.Some?
  {
    if v.Str? then Some(v.s) else None
  }

  function IndexColumns(index: Dict): seq<string> {
    ParseArray(ColumnText(Get(index, "column_names")))
  }

  /** One row of the report before it becomes a hash: the index, the model
      found (none for a `no_model` row), the status and the suggestion. */
  datatype Finding = Finding(
    schema: Value, tableName: Value, modelName: Option<string>, indexName: Value,
    columns: seq<string>, indexType: Value,
    status: string, validationStatus: string, suggestion: string)

  /** The hash of a finding, keys in the order the rows are written. */
  function Row(f: Finding): (row: Dict)
    ensures |row| == (if f.modelName.Some? then 9 else 8)
    ensures row[|row| - 3] == ("status", Str(f.status)) && row[|row| - 1] == ("suggestion", Str(f.suggestion))
  {
    var model := if f.modelName.Some? then [("model_name", Str(f.modelName.value))] else [];
    [("schema", f.schema), ("table_name", f.tableName)] + model +
    [("index_name", f.indexName), ("columns", Str(Join(f.columns, ", "))), ("index_type", f.indexType),
     ("status", Str(f.status)), ("validation_status", Str(f.validationStatus)), ("suggestion", Str(f.suggestion))]
  }

  /** The finding for an index whose table has no model. */
  function NoModelFinding(index: Dict): (f: Finding)
    ensures f.status == "no_model" && f.modelName.None?
    ensures f.columns == IndexColumns(index)
  {
    var columns := IndexColumns(index);
    var first := if |columns| == 0 then "" else columns[0];
    Finding(Get(index, "schema_name"), Get(index, "table_name"), None, Get(index, "index_name"),
      columns, Get(index, "index_type"), "no_model", "Model not found",
      "Create a model for this table or add validates :" + first + ", uniqueness: true")
  }

  /** The finding for an index whose model lacks the validation. */
  function MissingFinding(index: Dict, m: Model): (f: Finding)
    ensures f.status == "missing_validation" && f.modelName == Some(m.name)
    ensures f.columns == IndexColumns(index)
    ensures f.suggestion == BuildValidationSuggestion(IndexColumns(index))
  {
    var columns := IndexColumns(index);
    Finding(Get(index, "schema_name"), Get(index, "table_name"), Some(m.name), Get(index, "index_name"),
      columns, Get(index, "index_type"), "missing_validation", "Missing uniqueness validation",
      BuildValidationSuggestion(columns))
  }

  /** What one index contributes, given the model found for its table:
      nothing for a primary key, a `no_model` finding without a model, and a
      `missing_validation` finding exactly when the model fails the check. */
  function RowsFor(index: Dict, model: Option<Model>): (fs: seq<Finding>)
    ensures |fs| <= 1
    ensures Get(index, "index_type") == Str("primary_key") ==> fs == []
    ensures Get(index, "index_type") != Str("primary_key") && model.None? ==> fs == [NoModelFinding(index)]
    ensures Get(index, "index_type") != Str("primary_key") && model.Some? ==>
      (fs == [] <==> CheckUniqueness(model.value, IndexColumns(index)))
    ensures |fs| == 1 && model.Some? ==> fs[0] == MissingFinding(index, model.value)
  {
    if Get(index, "index_type") == Str("primary_key") then []
    else if model.None? then [NoModelFinding(index)]
    else if CheckUniqueness(model.value, IndexColumns(index)) then []
    else [MissingFinding(index, model.value)]
  }

  /** The findings of `missing_validations`, index by index. */
  function MissingRows(indexes: seq<Dict>, findModel: Value -> Option<Model>): (fs: seq<Finding>)
    ensures |fs| <= |indexes|
    ensures forall j :: 0 <= j < |fs| ==> fs[j].status == "no_model" || fs[j].status == "missing_validation"
    decreases |indexes|
  {
    if |indexes| == 0 then []
    else RowsFor(indexes[0], findModel(Get(indexes[0], "table_name"))) + MissingRows(indexes[1..], findModel)
  }

  /** `missing_validations`. */
  function MissingValidations(indexes: seq<Dict>, findModel: Value -> Option<Model>): (rep: Report)
    ensures rep.title == Title && rep.columns == DisplayColumns
    ensures |rep.data| == |MissingRows(indexes, findModel)| <= |indexes|
    ensures forall j :: 0 <= j < |rep.data| ==> rep.data[j] == Row(MissingRows(indexes, findModel)[j])
  {
    var fs := MissingRows(indexes, findModel);
    NewReport(Title, seq(|fs|, j requires 0 <= j < |fs| => Row(fs[j])), Some(DisplayColumns))
  }

  /** Indexes are examined one after the other. */
  lemma {:induction false} MissingRowsAppend(a: seq<Dict>, b: seq<Dict>, findModel: Value -> Option<Model>)
    ensures MissingRows(a + b, findModel) == MissingRows(a, findModel) + MissingRows(b, findModel)
    decreases |a|
  {
    if |a| == 0 {
      assert a + b == b;
    } else {
      assert (a + b)[0] == a[0];
      assert (a + b)[1..] == a[1..] + b;
      MissingRowsAppend(a[1..], b, findModel);
    }
  }

  /** The index contributes no row to the report. */
  predicate Clean(index: Dict, findModel: Value -> Option<Model>) {
    RowsFor(index, findModel(Get(index, "table_name"))) == []
  }

  /** The report is empty exactly when no index contributes a row. */
  lemma {:induction false} NoMissingRows(indexes: seq<Dict>, findModel: Value -> Option<Model>)
    ensures MissingRows(indexes, findModel) == [] <==> forall i :: 0 <= i < |indexes| ==> Clean(indexes[i], findModel)
    decreases |indexes|
  {
    if |indexes| > 0 {
      NoMissingRows(indexes[1..], findModel);
      MissingRowsCons(indexes, findModel);
      AllCleanCons(indexes, findModel);
    }
  }

  lemma MissingRowsCons(indexes: seq<Dict>, findModel: Value -> Option<Model>)
    requires |indexes| > 0
    ensures MissingRows(indexes, findModel) ==
      RowsFor(indexes[0], findModel(Get(indexes[0], "table_name"))) + MissingRows(indexes[1..], findModel)
  {
  }

  lemma AllCleanCons(indexes: seq<Dict>, findModel: Value -> Option<Model>)
    requires |indexes| > 0
    ensures (forall i :: 0 <= i < |indexes| ==> Clean(indexes[i], findModel)) <==>
      Clean(indexes[0], findModel) && forall i :: 0 <= i < |indexes[1..]| ==> Clean(indexes[1..][i], findModel)
  {
    AllCons(indexes, d => Clean(d, findModel));
  }

  /** Following a suggestion clears the finding: once the model declares the
      suggested validator, the index contributes no row. */
  lemma FollowingSuggestionClears(index: Dict, m: Model)
    requires m.respondsToValidators && |IndexColumns(index)| > 0
    ensures RowsFor(index, Some(AddValidator(m, SuggestedValidator(IndexColumns(index))))) == []
  {
    SuggestionAccepted(m, IndexColumns(index));
  }
}
