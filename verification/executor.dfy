/** `PgReports::Executor#interpolate_params`: `:name` placeholders in a
    report's SQL replaced by quoted parameter values. The connection's
    `quote` for strings is taken as given. */
module Executor {
  import opened Text
  import opened Values

  /** `quote_value`: nil is NULL, numbers their decimal text, strings go
      through the connection's quoting, arrays become a parenthesised list,
      and anything else is quoted as its `to_s`. */
  function QuoteValue(v: Value, quote: string -> string): (r: string)
    ensures v.Nil? ==> r == "NULL"
    ensures v.Int? ==> r == IntText(v.i)
    ensures v.Str? ==> r == quote(v.s)
    ensures v.Bool? ==> r == quote(if v.b then "true" else "false")
    ensures v.Float? ==> r == FloatText(v.f)
    ensures v.Arr? ==> |r| >= 2 && r[0] == '(' && r[|r| - 1] == ')'
    ensures v.Arr? && |v.items| == 0 ==> r == "()"
    ensures v.Arr? && |v.items| == 1 ==> r == "(" + QuoteValue(v.items[0], quote) + ")"
  {
    match v
    case Nil => "NULL"
    case Int(i) => IntText(i)
    case Float(f) => FloatText(f)
    case Str(s) => quote(s)
    case Arr(xs) => "(" + Join(seq(|xs|, i requires 0 <= i < |xs| => QuoteValue(xs[i], quote)), ", ") + ")"
    case Bool(_) => quote(ToS(v))
  }

  /** The elements of an array, each quoted. */
  function QuotedItems(xs: seq<Value>, quote: string -> string): (r: seq<string>)
    ensures |r| == |xs| && forall i :: 0 <= i < |xs| ==> r[i] == QuoteValue(xs[i], quote)
  {
    seq(|xs|, i requires 0 <= i < |xs| => QuoteValue(xs[i], quote))
  }

  lemma QuoteArrayJoin(xs: seq<Value>, quote: string -> string)
    ensures QuoteValue(Arr(xs), quote) == "(" + Join(QuotedItems(xs, quote), ", ") + ")"
  {
  }

  /** Dropping the closing parenthesis of a parenthesised text. */
  lemma OpenParen(j: string, a: string)
    requires a == "(" + j + ")"
    ensures a[..|a| - 1] == "(" + j && a[1..] == j + ")"
  {
  }

  /** An array's quoting grows element by element: one more element adds
      ", " and its own quoting before the closing parenthesis. */
  lemma QuoteArraySnoc(xs: seq<Value>, x: Value, quote: string -> string)
    requires |xs| >= 1
    ensures var a := QuoteValue(Arr(xs), quote);
      QuoteValue(Arr(xs + [x]), quote) == a[..|a| - 1] + ", " + QuoteValue(x, quote) + ")"
  {
    var qs, y := QuotedItems(xs, quote), QuoteValue(x, quote);
    assert QuotedItems(xs + [x], quote) == qs + [y];
    JoinSnoc(qs, y, ", ");
    QuoteArrayJoin(xs + [x], quote);
    QuoteArrayJoin(xs, quote);
    OpenParen(Join(qs, ", "), QuoteValue(Arr(xs), quote));
  }

  /** Read from the front: the first element's quoting, ", ", then the rest
      of the array's quoting without its opening parenthesis. With the
      one-element case this fixes the quoting of every array: each element
      quoted recursively, in order, separated by ", ". */
  lemma QuoteArrayCons(x: Value, xs: seq<Value>, quote: string -> string)
    requires |xs| >= 1
    ensures QuoteValue(Arr([x] + xs), quote) == "(" + QuoteValue(x, quote) + ", " + QuoteValue(Arr(xs), quote)[1..]
  {
    var qs, y := QuotedItems(xs, quote), QuoteValue(x, quote);
    assert QuotedItems([x] + xs, quote) == [y] + qs;
    JoinCons(y, qs, ", ");
    QuoteArrayJoin([x] + xs, quote);
    QuoteArrayJoin(xs, quote);
    OpenParen(Join(qs, ", "), QuoteValue(Arr(xs), quote));
  }

  /** `[1, nil, 2]` is quoted as "(1, NULL, 2)". */
  lemma QuoteArrayExample(quote: string -> string)
    ensures QuoteValue(Arr([Int(1), Nil, Int(2)]), quote) == "(1, NULL, 2)"
  {
    assert QuoteValue(Int(1), quote) == "1";
    assert QuoteValue(Arr([Int(1)]), quote) == "(1)";
    QuoteArraySnoc([Int(1)], Nil, quote);
    assert [Int(1)] + [Nil] == [Int(1), Nil];
    assert QuoteValue(Arr([Int(1), Nil]), quote) == "(1, NULL)";
    QuoteArraySnoc([Int(1), Nil], Int(2), quote);
    assert [Int(1), Nil] + [Int(2)] == [Int(1), Nil, Int(2)];
    assert QuoteValue(Int(2), quote) == "2";
  }

  /** The placeholder a parameter replaces. */
  function Placeholder(key: string): (p: string)
    ensures |p| == |key| + 1 && p[0] == ':'
  {
    ":" + key
  }

  /** The `params.reduce(sql)` of `interpolate_params`: each parameter, in
      insertion order, replaces every occurrence of its placeholder through
      `gsub`, so back-references in a quoted value are expanded. */
  function Substitute(sql: string, params: Dict, quote: string -> string): (r: string)
    ensures |params| == 0 ==> r == sql
    ensures ':' !in sql ==> r == sql
    decreases |params|
  {
    if |params| == 0 then sql
    else
      var p := Placeholder(params[0].0);
      assert ':' !in sql ==> Gsub(sql, p, QuoteValue(params[0].1, quote)) == sql by {
        if ':' !in sql {
          NotContainsFirstChar(sql, p);
          GsubAbsent(sql, p, QuoteValue(params[0].1, quote));
        }
      }
      Substitute(Gsub(sql, Placeholder(params[0].0), QuoteValue(params[0].1, quote)), params[1..], quote)
  }

  /** `interpolate_params`: the SQL as written without parameters. */
  function InterpolateParams(sql: string, params: Dict, quote: string -> string): (r: string)
    ensures |params| == 0 ==> r == sql
  {
    if |params| == 0 then sql else Substitute(sql, params, quote)
  }

  /** Parameters act one after the other: interpolating `p1 + p2` is
      interpolating `p1` and then `p2`. */
  lemma {:induction false} SubstituteAppend(sql: string, p1: Dict, p2: Dict, quote: string -> string)
    ensures Substitute(sql, p1 + p2, quote) == Substitute(Substitute(sql, p1, quote), p2, quote)
    decreases |p1|
  {
    if |p1| == 0 {
      assert p1 + p2 == p2;
    } else {
      assert (p1 + p2)[0] == p1[0];
      assert (p1 + p2)[1..] == p1[1..] + p2;
      SubstituteAppend(Gsub(sql, Placeholder(p1[0].0), QuoteValue(p1[0].1, quote)), p1[1..], p2, quote);
    }
  }

  /** One parameter replaces every occurrence of its placeholder; a quoted
      value without a backslash is written as it is. */
  lemma SubstituteOne(sql: string, key: string, v: Value, quote: string -> string)
    ensures InterpolateParams(sql, [(key, v)], quote) == Gsub(sql, Placeholder(key), QuoteValue(v, quote))
    ensures '\\' !in QuoteValue(v, quote) ==>
      InterpolateParams(sql, [(key, v)], quote) == ReplaceAll(sql, Placeholder(key), QuoteValue(v, quote))
  {
    var r := Gsub(sql, Placeholder(key), QuoteValue(v, quote));
    assert Substitute(r, [(key, v)][1..], quote) == r;
    if '\\' !in QuoteValue(v, quote) {
      GsubLiteral(sql, Placeholder(key), QuoteValue(v, quote));
    }
  }

  /** A string value whose quoting holds a back-reference is not written
      as quoted: when the value `x\\0` is quoted as `'x\\0'`, its placeholder
      becomes `'x:key'`, the placeholder put back between the quotes. */
  lemma SubstituteExpandsValue(pre: string, key: string, post: string, quote: string -> string)
    requires ':' !in pre && ':' !in post
    requires quote("x\\0") == "'x\\0'"
    ensures InterpolateParams(pre + Placeholder(key) + post, [(key, Str("x\\0"))], quote) ==
      pre + "'x" + Placeholder(key) + "'" + post
  {
    SubstituteOne(pre + Placeholder(key) + post, key, Str("x\\0"), quote);
    GsubExpandsMatch(pre, Placeholder(key), post);
  }

  /** Insertion order decides between placeholders that share a prefix: with
      `limit` given before `limit_total`, ":limit_total" is consumed by the
      `:limit` replacement and reads "5_total". */
  lemma SharedPrefixExample(quote: string -> string)
    ensures InterpolateParams(":limit_total", [("limit", Int(5)), ("limit_total", Int(3))], quote) == "5_total"
  {
    var p1: Dict, p2: Dict := [("limit", Int(5))], [("limit_total", Int(3))];
    SubstituteAppend(":limit_total", p1, p2, quote);
    assert p1 + p2 == [("limit", Int(5)), ("limit_total", Int(3))];
    SharedPrefixFirst(quote);
    SharedPrefixSecond(quote);
  }

  lemma SharedPrefixFirst(quote: string -> string)
    ensures Substitute(":limit_total", [("limit", Int(5))], quote) == "5_total"
  {
    assert QuoteValue(Int(5), quote) == "5";
    SharedPrefixStep();
    SubstituteOne(":limit_total", "limit", Int(5), quote);
  }

  lemma SharedPrefixSecond(quote: string -> string)
    ensures Substitute("5_total", [("limit_total", Int(3))], quote) == "5_total"
  {
    assert ':' !in "5_total";
  }

  lemma SharedPrefixStep()
    ensures ReplaceAll(":limit_total", ":limit", "5") == "5_total"
  {
    var s := ":limit_total";
    assert s[..6] == ":limit";
    assert s[6..] == "_total";
    assert !Contains("_total", ":limit") by {
      NotContainsFirstChar("_total", ":limit");
    }
    ReplaceAllAbsent("_total", ":limit", "5");
  }
}
