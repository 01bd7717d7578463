/** The pure parts of `PgReports::DashboardController`: the guards in front of
    `explain_analyze` and `execute_query`, `$n` parameter substitution and
    quoting, the LIMIT appended to ad-hoc queries, the filter parameters
    passed to reports, migration file names, and report dispatch. Rendering,
    SQL execution and file writes are left to the caller. */
module Dashboard {
  import opened Common
  import opened Text
  import opened Values
  import opened Lists

  // ---------------------------------------------------------------------------
  // quote_param_value

  /** Every `'` doubled: `gsub("'", "''")`. */
  function DoubleQuotes(s: string): (r: string)
    ensures |r| >= |s|
    ensures '\'' !in s ==> r == s
    ensures '\\' !in s ==> '\\' !in r
    decreases |s|
  {
    if |s| == 0 then ""
    else
      assert s == [s[0]] + s[1..];
      (if s[0] == '\'' then "''" else [s[0]]) + DoubleQuotes(s[1..])
  }

  lemma {:induction false} ReplaceQuotes(s: string)
    ensures ReplaceAll(s, "'", "''") == DoubleQuotes(s)
    decreases |s|
  {
    if |s| > 0 {
      assert s[..1] == [s[0]];
      ReplaceQuotes(s[1..]);
    }
  }

  /** How PostgreSQL reads the body of a string literal: `''` stands for one
      quote, and a lone quote would end the literal (none here). */
  function Undouble(t: string): (r: Option<string>)
    decreases |t|
  {
    if |t| == 0 then Some("")
    else if t[0] != '\'' then
      match Undouble(t[1..])
      case None => None
      case Some(rest) => Some([t[0]] + rest)
    else if |t| >= 2 && t[1] == '\'' then
      match Undouble(t[2..])
      case None => None
      case Some(rest) => Some("'" + rest)
    else None
  }

  /** The value of a quoted string literal, if the text is one. */
  function ReadLiteral(q: string): (r: Option<string>)
    ensures r.Some? ==> |q| >= 2 && q[0] == '\'' && q[|q| - 1] == '\''
  {
    if |q| >= 2 && q[0] == '\'' && q[|q| - 1] == '\'' then Undouble(q[1..|q| - 1]) else None
  }

  lemma {:induction false} UndoubleDoubled(s: string)
    ensures Undouble(DoubleQuotes(s)) == Some(s)
    decreases |s|
  {
    if |s| > 0 {
      var rest := DoubleQuotes(s[1..]);
      UndoubleDoubled(s[1..]);
      if s[0] == '\'' {
        assert DoubleQuotes(s) == "''" + rest;
        assert DoubleQuotes(s)[2..] == rest;
      } else {
        assert DoubleQuotes(s) == [s[0]] + rest;
        assert DoubleQuotes(s)[1..] == rest;
      }
      assert s == [s[0]] + s[1..];
    }
  }

  /** A value's text that reads as NULL or a boolean in any case. */
  predicate KeywordText(str: string) {
    Lower(str) == "null" || Lower(str) == "true" || Lower(str) == "false"
  }

  /** `quote_param_value`: NULL, a lower-case boolean, or a string literal. */
  function QuoteParamValue(v: Value): (r: string)
    ensures Lower(ToS(v)) == "null" ==> r == "NULL"
    ensures (Lower(ToS(v)) == "true" || Lower(ToS(v)) == "false") ==> r == Lower(ToS(v))
  {
    var str := ToS(v);
    if Lower(str) == "null" then "NULL"
    else if Lower(str) == "true" || Lower(str) == "false" then Lower(str)
    else "'" + ReplaceAll(str, "'", "''") + "'"
  }

  /** Any other text becomes a literal PostgreSQL reads back as that text: a
      quote inside the value cannot close the literal early. */
  lemma QuoteParamRoundTrip(v: Value)
    requires !KeywordText(ToS(v))
    ensures ReadLiteral(QuoteParamValue(v)) == Some(ToS(v))
  {
    var str := ToS(v);
    ReplaceQuotes(str);
    UndoubleDoubled(str);
    var q := "'" + DoubleQuotes(str) + "'";
    assert q[1..|q| - 1] == DoubleQuotes(str);
  }

  // ---------------------------------------------------------------------------
  // substitute_params

  predicate SortedDesc(xs: seq<int>) {
    forall i, j :: 0 <= i < j < |xs| ==> xs[i] >= xs[j]
  }

  function InsertDesc(x: int, xs: seq<int>): (r: seq<int>)
    requires SortedDesc(xs)
    ensures SortedDesc(r)
    ensures multiset(r) == multiset(xs) + multiset{x}
    ensures |r| == |xs| + 1
    decreases |xs|
  {
    if |xs| == 0 || x >= xs[0] then [x] + xs
    else
      var rest := InsertDesc(x, xs[1..]);
      var r := [xs[0]] + rest;
      assert multiset(xs) == multiset{xs[0]} + multiset(xs[1..]) by {
        assert xs == [xs[0]] + xs[1..];
      }
      assert forall k :: 0 <= k < |rest| ==> rest[k] <= xs[0] by {
        forall k | 0 <= k < |rest|
          ensures rest[k] <= xs[0]
        {
          assert rest[k] in multiset(rest);
          if rest[k] != x {
            assert rest[k] in multiset(xs[1..]);
            var m :| 0 <= m < |xs[1..]| && xs[1..][m] == rest[k];
            assert xs[m + 1] == rest[k];
          }
        }
      }
      r
  }

  /** `sort.reverse`: the numbers, largest first. */
  function SortDesc(xs: seq<int>): (r: seq<int>)
    ensures SortedDesc(r)
    ensures multiset(r) == multiset(xs)
    decreases |xs|
  {
    if |xs| == 0 then []
    else
      assert xs == [xs[0]] + xs[1..];
      InsertDesc(xs[0], SortDesc(xs[1..]))
  }

  /** `params_hash.keys.map(&:to_i)`. */
  function ParamNumbers(ps: Dict): (ns: seq<int>)
    ensures |ns| == |ps|
    ensures forall i :: 0 <= i < |ps| ==> ns[i] == StrToI(ps[i].0)
  {
    seq(|ps|, i requires 0 <= i < |ps| => StrToI(ps[i].0))
  }

  /** `params_hash[num.to_s] || params_hash[num]`: the keys are strings, so a
      missing or false entry gives nil. */
  function ParamValue(ps: Dict, n: int): (v: Value)
    ensures v.Nil? || Truthy(v)
    ensures Truthy(Get(ps, IntText(n))) ==> v == Get(ps, IntText(n))
  {
    var g := Get(ps, IntText(n));
    if Truthy(g) then g else Nil
  }

  /** The `$n` placeholder. */
  function Dollar(n: int): (p: string)
    ensures |p| >= 2 && p[0] == '$'
  {
    "$" + IntText(n)
  }

  /** A value `substitute_params` skips: nil or empty text. */
  predicate Skipped(v: Value) {
    v.Nil? || ToS(v) == ""
  }

  /** The substitutions for the numbers in the order given, each through
      `gsub`, so back-references in a quoted value are expanded. A query
      without `$` is left as written, whatever the parameters. */
  function SubstituteNumbers(query: string, ps: Dict, ns: seq<int>): (r: string)
    ensures |ns| == 0 ==> r == query
    ensures '$' !in query ==> r == query
    decreases |ns|
  {
    if |ns| == 0 then query
    else
      var v := ParamValue(ps, ns[0]);
      var q := if Skipped(v) then query else Gsub(query, Dollar(ns[0]), QuoteParamValue(v));
      assert '$' !in query ==> q == query by {
        if '$' !in query && !Skipped(v) {
          NotContainsFirstChar(query, Dollar(ns[0]));
          GsubAbsent(query, Dollar(ns[0]), QuoteParamValue(v));
        }
      }
      SubstituteNumbers(q, ps, ns[1..])
  }

  /** `substitute_params`: the numbered placeholders, largest number first so
      that `$10` is not read as `$1` followed by `0`. */
  function SubstituteParams(query: string, ps: Dict): (r: string)
    ensures |ps| == 0 ==> r == query
  {
    SubstituteNumbers(query, ps, SortDesc(ParamNumbers(ps)))
  }

  /** Parameters that are all nil or empty change nothing. */
  lemma {:induction false} SubstituteSkipped(query: string, ps: Dict, ns: seq<int>)
    requires forall i :: 0 <= i < |ns| ==> Skipped(ParamValue(ps, ns[i]))
    ensures SubstituteNumbers(query, ps, ns) == query
    decreases |ns|
  {
    if |ns| > 0 {
      assert Skipped(ParamValue(ps, ns[0]));
      assert forall i :: 1 <= i < |ns| ==> ns[i] == ns[1..][i - 1];
      SubstituteSkipped(query, ps, ns[1..]);
    }
  }

  lemma NatTextSmall()
    ensures NatText(0) == "0" && NatText(1) == "1" && NatText(10) == "10"
  {
    assert NatText(10) == NatText(1) + [DigitChar(0)];
  }

  lemma ExampleNumbers()
    ensures StrToI("1") == 1 && StrToI("10") == 10
    ensures IntText(1) == "1" && IntText(10) == "10"
  {
    NatTextSmall();
    StrToINatText(1);
    StrToINatText(10);
  }

  /** `gsub` steps over a character where the pattern cannot start. */
  lemma ReplaceAllMiss(s: string, pat: string, rep: string, k: nat)
    requires |pat| > 0 && k < |pat| <= |s| && s[k] != pat[k]
    ensures ReplaceAll(s, pat, rep) == [s[0]] + ReplaceAll(s[1..], pat, rep)
  {
    assert s[..|pat|][k] != pat[k];
  }

  /** `gsub` replaces an occurrence at the start. */
  lemma ReplaceAllHit(s: string, pat: string, rep: string)
    requires 0 < |pat| <= |s| && s[..|pat|] == pat
    ensures ReplaceAll(s, pat, rep) == rep + ReplaceAll(s[|pat|..], pat, rep)
  {
  }

  lemma ExampleQuote(c: char)
    requires 'a' <= c <= 'z'
    ensures QuoteParamValue(Str([c])) == "'" + [c] + "'"
  {
    ReplaceQuotes([c]);
    assert DoubleQuotes([c]) == [c];
    assert Lower([c]) == [c];
    assert |Lower([c])| == 1;
  }

  lemma ExampleTenFirst()
    ensures ReplaceAll("$1 $10", "$10", "'b'") == "$1 'b'"
  {
    var s := "$1 $10";
    ReplaceAllMiss(s, "$10", "'b'", 2);
    assert s[1..] == "1 $10";
    ReplaceAllMiss(s[1..], "$10", "'b'", 0);
    assert s[2..] == " $10";
    ReplaceAllMiss(s[2..], "$10", "'b'", 0);
    assert s[3..] == "$10";
    ReplaceAllHit(s[3..], "$10", "'b'");
    assert s[3..][3..] == "";
  }

  lemma ExampleOneNext()
    ensures ReplaceAll("$1 'b'", "$1", "'a'") == "'a' 'b'"
  {
    var s := "$1 'b'";
    ReplaceAllHit(s, "$1", "'a'");
    var t := s[2..];
    assert t == " 'b'";
    assert !Contains(t, "$1") by {
      NotContainsFirstChar(t, "$1");
    }
    ReplaceAllAbsent(t, "$1", "'a'");
  }

  lemma ExampleKeys(ps: Dict)
    requires ps == [("1", Str("a")), ("10", Str("b"))]
    ensures ParamNumbers(ps) == [1, 10]
  {
    ExampleNumbers();
  }

  lemma ExampleValues(ps: Dict)
    requires ps == [("1", Str("a")), ("10", Str("b"))]
    ensures ParamValue(ps, 10) == Str("b") && ParamValue(ps, 1) == Str("a")
  {
    NatTextSmall();
    assert Get(ps, "10") == Str("b");
    assert Get(ps, "1") == Str("a");
  }

  lemma ExampleDollars()
    ensures Dollar(10) == "$10" && Dollar(1) == "$1"
  {
    NatTextSmall();
  }

  lemma ExampleOrder()
    ensures SortDesc([1, 10]) == [10, 1]
  {
    assert [1, 10][1..] == [10];
    assert SortDesc([10]) == [10];
  }

  /** Numbers are taken one after the other. */
  lemma {:induction false} SubstituteNumbersAppend(query: string, ps: Dict, ns: seq<int>, ms: seq<int>)
    ensures SubstituteNumbers(query, ps, ns + ms) == SubstituteNumbers(SubstituteNumbers(query, ps, ns), ps, ms)
    decreases |ns|
  {
    if |ns| == 0 {
      assert ns + ms == ms;
    } else {
      assert (ns + ms)[0] == ns[0];
      assert (ns + ms)[1..] == ns[1..] + ms;
      var v := ParamValue(ps, ns[0]);
      var q := if Skipped(v) then query else Gsub(query, Dollar(ns[0]), QuoteParamValue(v));
      SubstituteNumbersAppend(q, ps, ns[1..], ms);
    }
  }

  /** One number whose value is not skipped replaces its placeholder; a
      quoted value without a backslash is written as it is. */
  lemma SubstituteOneNumber(query: string, ps: Dict, n: int)
    requires !Skipped(ParamValue(ps, n))
    ensures SubstituteNumbers(query, ps, [n]) == Gsub(query, Dollar(n), QuoteParamValue(ParamValue(ps, n)))
    ensures '\\' !in QuoteParamValue(ParamValue(ps, n)) ==>
      SubstituteNumbers(query, ps, [n]) == ReplaceAll(query, Dollar(n), QuoteParamValue(ParamValue(ps, n)))
  {
    var rep := QuoteParamValue(ParamValue(ps, n));
    var q := Gsub(query, Dollar(n), rep);
    assert SubstituteNumbers(q, ps, [n][1..]) == q;
    if '\\' !in rep {
      GsubLiteral(query, Dollar(n), rep);
    }
  }

  lemma ExampleStepTen(ps: Dict)
    requires ps == [("1", Str("a")), ("10", Str("b"))]
    ensures SubstituteNumbers("$1 $10", ps, [10]) == "$1 'b'"
  {
    ExampleValues(ps);
    SubstituteOneNumber("$1 $10", ps, 10);
    ExampleDollars();
    ExampleQuote('b');
    assert "'" + ['b'] + "'" == "'b'";
    ExampleTenFirst();
  }

  lemma ExampleStepOne(ps: Dict)
    requires ps == [("1", Str("a")), ("10", Str("b"))]
    ensures SubstituteNumbers("$1 'b'", ps, [1]) == "'a' 'b'"
  {
    ExampleValues(ps);
    SubstituteOneNumber("$1 'b'", ps, 1);
    ExampleDollars();
    ExampleQuote('a');
    assert "'" + ['a'] + "'" == "'a'";
    ExampleOneNext();
  }

  lemma ExampleSteps(ps: Dict)
    requires ps == [("1", Str("a")), ("10", Str("b"))]
    ensures SubstituteNumbers("$1 $10", ps, [10, 1]) == "'a' 'b'"
  {
    SubstituteNumbersAppend("$1 $10", ps, [10], [1]);
    assert [10] + [1] == [10, 1];
    ExampleStepTen(ps);
    ExampleStepOne(ps);
  }

  /** `$10` is replaced before `$1`: "$1 $10" with 1 => a and 10 => b reads
      "'a' 'b'" (taking `$1` first would leave "'a' 'a'0"). */
  lemma SubstituteExample()
    ensures SubstituteParams("$1 $10", [("1", Str("a")), ("10", Str("b"))]) == "'a' 'b'"
  {
    var ps: Dict := [("1", Str("a")), ("10", Str("b"))];
    ExampleKeys(ps);
    ExampleOrder();
    ExampleSteps(ps);
  }

  // ---------------------------------------------------------------------------
  // The guards of explain_analyze and execute_query

  /** `match?(/\$\d+/)`: a `$` followed by a digit somewhere. */
  predicate HasDollarDigits(s: string) {
    exists i :: 0 <= i < |s| - 1 && s[i] == '$' && IsDigit(s[i + 1])
  }

  /** The JSON a guarded action renders: the statement it runs, or an error. */
  datatype Outcome = Run(sql: string) | Rejected(error: string)

  const QueryRequired := "Query is required"
  const SelectOnly := "Only SELECT queries are allowed for EXPLAIN ANALYZE"
  const SelectOrShowOnly := "Only SELECT and SHOW queries are allowed"
  const MissingParams := "Please provide values for all parameter placeholders ($1, $2, etc.)"

  /** `query.blank?`. */
  predicate BlankQuery(query: Option<string>) {
    query.None? || IsBlank(query.value)
  }

  /** `explain_analyze`: the EXPLAIN statement it runs for a query and its
      `$n` parameters, or the error it renders. */
  function ExplainAnalyze(query: Option<string>, ps: Dict): (o: Outcome)
    ensures BlankQuery(query) ==> o == Rejected(QueryRequired)
    ensures o.Run? <==>
      !BlankQuery(query) && StartsWith(Normalize(query.value), "select") &&
      !HasDollarDigits(SubstituteParams(query.value, ps))
    ensures o.Run? ==> o.sql == "EXPLAIN (ANALYZE, BUFFERS, FORMAT TEXT) " + SubstituteParams(query.value, ps)
  {
    if BlankQuery(query) then Rejected(QueryRequired)
    else if !StartsWith(Normalize(query.value), "select") then Rejected(SelectOnly)
    else
      var final := SubstituteParams(query.value, ps);
      if HasDollarDigits(final) then Rejected(MissingParams)
      else Run("EXPLAIN (ANALYZE, BUFFERS, FORMAT TEXT) " + final)
  }

  /** `execute_query`: the statement it runs (with the row limit of 100), or
      the error it renders. */
  function ExecuteQuery(query: Option<string>, ps: Dict): (o: Outcome)
    ensures BlankQuery(query) ==> o == Rejected(QueryRequired)
    ensures o.Run? <==>
      !BlankQuery(query) &&
      (StartsWith(Normalize(query.value), "select") || StartsWith(Normalize(query.value), "show")) &&
      !HasDollarDigits(SubstituteParams(query.value, ps))
    ensures o.Run? ==> o.sql == AddLimitIfMissing(SubstituteParams(query.value, ps), 100)
  {
    if BlankQuery(query) then Rejected(QueryRequired)
    else if !(StartsWith(Normalize(query.value), "select") || StartsWith(Normalize(query.value), "show")) then
      Rejected(SelectOrShowOnly)
    else
      var final := SubstituteParams(query.value, ps);
      if HasDollarDigits(final) then Rejected(MissingParams)
      else Run(AddLimitIfMissing(final, 100))
  }

  /** Every statement `execute_query` runs ends in a LIMIT clause. */
  lemma ExecutedQueryLimited(query: Option<string>, ps: Dict)
    requires ExecuteQuery(query, ps).Run?
    ensures EndsWithLimit(Normalize(ExecuteQuery(query, ps).sql))
  {
    AddLimitDetected(SubstituteParams(query.value, ps), 100);
  }

  /** A query that is already free of placeholders is run as written. */
  lemma ExplainWithoutParams(query: string, ps: Dict)
    requires !IsBlank(query) && StartsWith(Normalize(query), "select")
    requires '$' !in query
    ensures ExplainAnalyze(Some(query), ps) == Run("EXPLAIN (ANALYZE, BUFFERS, FORMAT TEXT) " + query)
  {
    assert !HasDollarDigits(query) by {
      forall i | 0 <= i < |query| - 1
        ensures query[i] != '$'
      {
        assert query[i] in query;
      }
    }
  }

  /** `blank?` counts Unicode white space: a query of one no-break space is
      refused as missing, before the SELECT check. */
  lemma NoBreakSpaceQueryRequired(ps: Dict)
    ensures ExplainAnalyze(Some("\U{00A0}"), ps) == Rejected(QueryRequired)
    ensures ExecuteQuery(Some("\U{00A0}"), ps) == Rejected(QueryRequired)
  {
  }

  /** A parameter value holding the back-reference `\\0` writes the `$1`
      it replaces back into the query, so EXPLAIN ANALYZE refuses a query
      whose every placeholder was given a value. */
  lemma ExplainRejectsBackReference(pre: string, post: string, ps: Dict)
    requires '$' !in pre && '$' !in post
    requires !IsBlank(pre + "$1" + post) && StartsWith(Normalize(pre + "$1" + post), "select")
    requires ps == [("1", Str("x\\0"))]
    ensures ExplainAnalyze(Some(pre + "$1" + post), ps) == Rejected(MissingParams)
  {
    SubstituteBackReference(pre, post, ps);
    PlaceholderLeft(pre, post);
    ExplainRejectsLeftover(pre + "$1" + post, ps);
  }

  /** A placeholder still in the query after substitution gets it refused. */
  lemma ExplainRejectsLeftover(query: string, ps: Dict)
    requires !IsBlank(query) && StartsWith(Normalize(query), "select")
    requires HasDollarDigits(SubstituteParams(query, ps))
    ensures ExplainAnalyze(Some(query), ps) == Rejected(MissingParams)
  {
  }

  lemma PlaceholderLeft(pre: string, post: string)
    ensures HasDollarDigits(pre + "'x" + "$1" + "'" + post)
  {
    var final := pre + "'x" + "$1" + "'" + post;
    assert final[|pre| + 2] == '$' && final[|pre| + 3] == '1';
  }

  lemma SubstituteBackReference(pre: string, post: string, ps: Dict)
    requires '$' !in pre && '$' !in post
    requires ps == [("1", Str("x\\0"))]
    ensures SubstituteParams(pre + "$1" + post, ps) == pre + "'x" + "$1" + "'" + post
  {
    OneParamNumber(ps);
    BackReferenceValue(ps);
    SubstituteSortedOne(pre, post, ps);
  }

  lemma OneParamNumber(ps: Dict)
    requires ps == [("1", Str("x\\0"))]
    ensures ParamNumbers(ps) == [1]
  {
    ExampleNumbers();
  }

  lemma SubstituteSortedOne(pre: string, post: string, ps: Dict)
    requires '$' !in pre && '$' !in post
    requires ParamNumbers(ps) == [1]
    requires !Skipped(ParamValue(ps, 1)) && QuoteParamValue(ParamValue(ps, 1)) == "'x\\0'"
    ensures SubstituteParams(pre + "$1" + post, ps) == pre + "'x" + "$1" + "'" + post
  {
    assert SortDesc([1]) == [1];
    ExampleDollars();
    SubstituteOneBackReference(pre, post, ps, 1);
  }

  /** A value quoted as `'x\\0'` puts its own placeholder back. */
  lemma SubstituteOneBackReference(pre: string, post: string, ps: Dict, n: int)
    requires '$' !in pre && '$' !in post
    requires !Skipped(ParamValue(ps, n)) && QuoteParamValue(ParamValue(ps, n)) == "'x\\0'"
    ensures SubstituteNumbers(pre + Dollar(n) + post, ps, [n]) == pre + "'x" + Dollar(n) + "'" + post
  {
    SubstituteOneNumber(pre + Dollar(n) + post, ps, n);
    GsubExpandsMatch(pre, Dollar(n), post);
  }

  lemma BackReferenceValue(ps: Dict)
    requires ps == [("1", Str("x\\0"))]
    ensures !Skipped(ParamValue(ps, 1)) && QuoteParamValue(ParamValue(ps, 1)) == "'x\\0'"
  {
    ExampleNumbers();
    assert Get(ps, "1") == Str("x\\0");
    BackReferenceQuoted(ParamValue(ps, 1));
  }

  lemma BackReferenceQuoted(v: Value)
    requires v == Str("x\\0")
    ensures !Skipped(v) && QuoteParamValue(v) == "'x\\0'"
  {
    QuotedThreeChars(v);
  }

  /** A three-character string without quotes is neither NULL nor a
      boolean, so it is quoted as it stands. */
  lemma QuotedThreeChars(v: Value)
    requires v.Str? && |v.s| == 3 && '\'' !in v.s
    ensures !Skipped(v) && QuoteParamValue(v) == "'" + v.s + "'"
  {
    assert ToS(v) == v.s;
    assert |Lower(v.s)| == 3;
    ReplaceQuotes(v.s);
  }

  // ---------------------------------------------------------------------------
  // add_limit_if_missing

  /** `limit\s+\d+\s*(?:offset\s+\d+\s*)?` matching the whole of `t`, ignoring
      case. The runs of spaces and digits are disjoint, so reading each run to
      its end is the only way the pattern can match. */
  predicate LimitTail(t: string) {
    |t| >= 5 && Lower(t[..5]) == "limit" &&
    var j1 := SpanEnd(t, 5, IsSpace);
    j1 > 5 &&
    var j2 := DigitsEnd(t, j1);
    j2 > j1 &&
    var j3 := SpanEnd(t, j2, IsSpace);
    (j3 == |t| || OffsetTail(t[j3..]))
  }

  /** `offset\s+\d+\s*` matching the whole of `t`, ignoring case. */
  predicate OffsetTail(t: string) {
    |t| >= 6 && Lower(t[..6]) == "offset" &&
    var j1 := SpanEnd(t, 6, IsSpace);
    j1 > 6 &&
    var j2 := DigitsEnd(t, j1);
    j2 > j1 && SpanEnd(t, j2, IsSpace) == |t|
  }

  /** `match?(/\blimit\s+\d+\s*(?:offset\s+\d+\s*)?\z/i)`. */
  predicate EndsWithLimit(s: string) {
    exists i :: 0 <= i <= |s| && (i == 0 || !IsWordChar(s[i - 1])) && LimitTail(s[i..])
  }

  /** A text that ends in a LIMIT clause ends in its digits or in the white
      space after them, and is at least as long as "limit 0". */
  lemma LimitClauseShape(s: string)
    requires EndsWithLimit(s)
    ensures |s| >= 7 && (IsDigit(s[|s| - 1]) || IsSpace(s[|s| - 1]))
  {
    var i :| 0 <= i <= |s| && (i == 0 || !IsWordChar(s[i - 1])) && LimitTail(s[i..]);
    LimitTailAt(s, i);
  }

  lemma LimitTailAt(s: string, i: nat)
    requires i <= |s| && LimitTail(s[i..])
    ensures |s| >= 7 && (IsDigit(s[|s| - 1]) || IsSpace(s[|s| - 1]))
  {
    var t := s[i..];
    LimitTailShape(t);
    assert t[|t| - 1] == s[|s| - 1];
  }

  lemma LimitTailShape(t: string)
    requires LimitTail(t)
    ensures |t| >= 7 && (IsDigit(t[|t| - 1]) || IsSpace(t[|t| - 1]))
  {
    var j1 := SpanEnd(t, 5, IsSpace);
    var j2 := DigitsEnd(t, j1);
    var j3 := SpanEnd(t, j2, IsSpace);
    if j3 == |t| {
      assert j3 > 6;
      if j3 > j2 {
        assert IsSpace(t[j3 - 1]);
      } else {
        assert IsDigit(t[j2 - 1]);
      }
    } else {
      var u := t[j3..];
      OffsetTailShape(u);
      assert u[|u| - 1] == t[|t| - 1];
    }
  }

  lemma OffsetTailShape(u: string)
    requires OffsetTail(u)
    ensures |u| >= 8 && (IsDigit(u[|u| - 1]) || IsSpace(u[|u| - 1]))
  {
    var k1 := SpanEnd(u, 6, IsSpace);
    var k2 := DigitsEnd(u, k1);
    var k3 := SpanEnd(u, k2, IsSpace);
    if k3 > k2 {
      assert IsSpace(u[k3 - 1]);
    } else {
      assert IsDigit(u[k2 - 1]);
    }
  }

  /** `add_limit_if_missing`. */
  function AddLimitIfMissing(query: string, limit: int): (r: string)
    ensures EndsWithLimit(Normalize(query)) ==> r == query
    ensures !EndsWithLimit(Normalize(query)) ==> r == query + " LIMIT " + IntText(limit)
  {
    if EndsWithLimit(Normalize(query)) then query else query + " LIMIT " + IntText(limit)
  }

  // The appended clause is seen by the next call: the proof follows the
  // clause through strip, white-space squeezing and downcasing.

  lemma {:induction false} DropSpacesSplit(a: string, b: string)
    requires |b| > 0 && !IsSpace(b[0])
    ensures DropSpaces(a) == [] ==> DropSpaces(a + " " + b) == b
    ensures DropSpaces(a) != [] ==> DropSpaces(a + " " + b) == DropSpaces(a) + " " + b
    decreases |a|
  {
    if |a| == 0 {
      assert a + " " + b == " " + b;
      assert (" " + b)[1..] == b;
    } else {
      assert (a + " " + b)[0] == a[0];
      assert (a + " " + b)[1..] == a[1..] + " " + b;
      if IsSpace(a[0]) {
        DropSpacesSplit(a[1..], b);
      }
    }
  }

  /** Squeezing keeps a space-separated tail that starts with a non-space. */
  lemma {:induction false} SqueezeKeepsSuffix(a: string, b: string)
    requires |b| > 0 && !IsSpace(b[0])
    ensures EndsWith(Squeeze(a + " " + b), " " + Squeeze(b))
    decreases |a|
  {
    var x := a + " " + b;
    if |a| == 0 {
      SqueezeSpaceThen(b);
      assert x == " " + b;
    } else if IsSpace(a[0]) {
      assert x[1..] == a[1..] + " " + b;
      assert Squeeze(x) == " " + Squeeze(DropSpaces(a[1..] + " " + b));
      DropSpacesSplit(a[1..], b);
      var d := DropSpaces(a[1..]);
      if |d| == 0 {
        assert Squeeze(x) == " " + Squeeze(b);
      } else {
        assert |d| <= |a[1..]|;
        SqueezeKeepsSuffix(d, b);
        SuffixAfter(" ", Squeeze(d + " " + b), " " + Squeeze(b));
      }
    } else {
      assert x[1..] == a[1..] + " " + b;
      assert Squeeze(x) == [a[0]] + Squeeze(a[1..] + " " + b);
      SqueezeKeepsSuffix(a[1..], b);
      SuffixAfter([a[0]], Squeeze(a[1..] + " " + b), " " + Squeeze(b));
    }
  }

  lemma SqueezeSpaceThen(b: string)
    requires |b| > 0 && !IsSpace(b[0])
    ensures Squeeze(" " + b) == " " + Squeeze(b)
  {
    assert (" " + b)[1..] == b;
    assert DropSpaces(b) == b;
  }

  lemma SuffixAfter(p: string, s: string, t: string)
    requires EndsWith(s, t)
    ensures EndsWith(p + s, t)
  {
    assert (p + s)[|p + s| - |t|..] == s[|s| - |t|..];
  }

  lemma {:induction false} SqueezeNoSpace(s: string)
    requires forall i :: 0 <= i < |s| ==> !IsSpace(s[i])
    ensures Squeeze(s) == s
    decreases |s|
  {
    if |s| > 0 {
      SqueezeNoSpace(s[1..]);
      assert s == [s[0]] + s[1..];
    }
  }

  /** A word, one space and a word squeeze to themselves. */
  lemma {:induction false} SqueezeWordSpace(w: string, d: string)
    requires forall i :: 0 <= i < |w| ==> !IsSpace(w[i])
    requires |d| > 0 && forall i :: 0 <= i < |d| ==> !IsSpace(d[i])
    ensures Squeeze(w + " " + d) == w + " " + d
    decreases |w|
  {
    if |w| == 0 {
      SqueezeSpaceThen(d);
      SqueezeNoSpace(d);
      assert w + " " + d == " " + d;
    } else {
      var rest := w[1..] + " " + d;
      assert w + " " + d == [w[0]] + rest;
      SqueezeCons(w[0], rest);
      SqueezeWordSpace(w[1..], d);
    }
  }

  lemma SqueezeCons(c: char, t: string)
    requires !IsSpace(c)
    ensures Squeeze([c] + t) == [c] + Squeeze(t)
  {
    assert ([c] + t)[1..] == t;
  }

  lemma LStripNoop(y: string)
    requires |y| > 0 && !IsStripChar(y[0])
    ensures LStrip(y) == y
  {
  }

  lemma RStripNoop(y: string)
    requires |y| > 0 && !IsStripChar(y[|y| - 1])
    ensures RStrip(y) == y
  {
  }

  /** `lstrip` stops at the first character it keeps. */
  lemma {:induction false} LStripPrefix(q: string, t: string)
    requires |t| > 0 && !IsStripChar(t[0])
    ensures LStrip(q + t) == LStrip(q) + t
    decreases |q|
  {
    if |q| == 0 {
      assert q + t == t;
    } else {
      assert (q + t)[0] == q[0];
      if IsStripChar(q[0]) {
        assert (q + t)[1..] == q[1..] + t;
        LStripPrefix(q[1..], t);
      }
    }
  }

  /** Stripping text that ends with the clause keeps the clause, behind a
      space unless nothing else is left. */
  lemma StripKeepsClause(q: string, b: string)
    requires |b| > 0 && !IsStripChar(b[0]) && !IsStripChar(b[|b| - 1])
    ensures Strip(q + " " + b) == b || exists a :: Strip(q + " " + b) == a + " " + b
  {
    var qs := q + " ";
    assert q + " " + b == qs + b;
    LStripPrefix(qs, b);
    var l := LStrip(qs);
    var y := l + b;
    assert y[|y| - 1] == b[|b| - 1];
    RStripNoop(y);
    assert Strip(qs + b) == y;
    if |l| > 0 {
      assert l == qs[|qs| - |l|..];
      assert l[|l| - 1] == ' ';
      var a := l[..|l| - 1];
      assert l == a + " ";
      assert y == a + " " + b;
    } else {
      assert y == b;
    }
  }

  /** Lower-casing keeps a suffix lower-cased. */
  lemma LowerSuffix(s: string, t: string)
    requires EndsWith(s, t)
    ensures EndsWith(Lower(s), Lower(t))
  {
    assert Lower(s)[|s| - |t|..] == Lower(s[|s| - |t|..]);
  }

  /** A normalised text ending with the clause for digits `d`, after a space
      or on its own, ends with a LIMIT clause. */
  lemma ClauseDetected(n: string, d: string)
    requires |d| > 0 && AllDigits(d)
    requires n == "limit " + d || EndsWith(n, " limit " + d)
    ensures EndsWithLimit(n)
  {
    var c := "limit " + d;
    var i := |n| - |c|;
    assert n[i..] == c;
    assert i == 0 || n[i - 1] == ' ' by {
      if n != c {
        assert n[|n| - |" " + c|..] == " " + c;
        assert n[i - 1] == (" " + c)[0];
      }
    }
    LimitClauseTail(d);
    assert LimitTail(n[i..]);
  }

  lemma LimitClauseTail(d: string)
    requires |d| > 0 && AllDigits(d)
    ensures LimitTail("limit " + d)
  {
    var c := "limit " + d;
    assert c[..5] == "limit";
    assert Lower(c[..5]) == "limit";
    assert !IsSpace(c[6]);
    assert SpanEnd(c, 5, IsSpace) == 6 by {
      assert IsSpace(c[5]);
      assert SpanEnd(c, 6, IsSpace) == 6;
    }
    assert forall k :: 6 <= k < |c| ==> c[k] == d[k - 6];
    SpanAll(c, 6);
  }

  lemma {:induction false} SpanAll(s: string, i: nat)
    requires i <= |s|
    requires forall k :: i <= k < |s| ==> IsDigit(s[k])
    ensures DigitsEnd(s, i) == |s|
    decreases |s| - i
  {
    if i < |s| {
      SpanAll(s, i + 1);
    }
  }

  lemma LowerLimit(d: string)
    requires AllDigits(d)
    ensures Lower("LIMIT " + d) == "limit " + d
  {
  }

  lemma LimitWordNoSpace()
    ensures forall i :: 0 <= i < 5 ==> !IsSpace("LIMIT"[i])
  {
  }

  /** The clause `add_limit_if_missing` appends is found by the next call. */
  lemma AddLimitDetected(query: string, limit: int)
    requires limit >= 0
    ensures EndsWithLimit(Normalize(AddLimitIfMissing(query, limit)))
  {
    if !EndsWithLimit(Normalize(query)) {
      AppendedClauseDetected(query, limit);
    }
  }

  lemma AppendedClauseDetected(query: string, limit: int)
    requires limit >= 0 && !EndsWithLimit(Normalize(query))
    ensures EndsWithLimit(Normalize(query + " LIMIT " + IntText(limit)))
  {
    AppendedDetected(query, IntText(limit));
  }

  lemma AppendedDetected(query: string, d: string)
    requires |d| > 0 && AllDigits(d)
    ensures EndsWithLimit(Normalize(query + " LIMIT " + d))
  {
    AppendedClause(query, d);
    ClauseNormalized(query, d);
    ClauseDetected(Normalize(query + " " + ("LIMIT " + d)), d);
  }

  lemma AppendedClause(query: string, d: string)
    ensures query + " LIMIT " + d == query + " " + ("LIMIT " + d)
  {
    assert " LIMIT " == " " + "LIMIT ";
  }

  lemma ClauseNormalized(query: string, d: string)
    requires |d| > 0 && AllDigits(d)
    ensures Normalize(query + " " + ("LIMIT " + d)) == "limit " + d ||
            EndsWith(Normalize(query + " " + ("LIMIT " + d)), " limit " + d)
  {
    var b := "LIMIT " + d;
    assert !IsStripChar(b[0]) && !IsStripChar(b[|b| - 1]) by {
      assert b[|b| - 1] == d[|d| - 1];
    }
    StripKeepsClause(query, b);
    ClauseSqueezed(d);
    LowerLimit(d);
    var st := Strip(query + " " + b);
    if st != b {
      var a :| st == a + " " + b;
      SqueezeKeepsSuffix(a, b);
      LowerSuffix(Squeeze(st), " " + b);
      LowerSpace(b, d);
    }
  }

  lemma ClauseSqueezed(d: string)
    requires |d| > 0 && AllDigits(d)
    ensures Squeeze("LIMIT " + d) == "LIMIT " + d
  {
    LimitWordNoSpace();
    assert forall i :: 0 <= i < |d| ==> !IsSpace(d[i]);
    SqueezeWordSpace("LIMIT", d);
    assert "LIMIT" + " " + d == "LIMIT " + d;
  }

  lemma LowerSpace(b: string, d: string)
    requires Lower(b) == "limit " + d
    ensures Lower(" " + b) == " limit " + d
  {
    LowerAppend(" ", b);
    assert Lower(" ") == " ";
  }

  /** `add_limit_if_missing` is idempotent for the limits it is given. */
  lemma AddLimitIdempotent(query: string, limit: int)
    requires limit >= 0
    ensures AddLimitIfMissing(AddLimitIfMissing(query, limit), limit) == AddLimitIfMissing(query, limit)
  {
    AddLimitDetected(query, limit);
  }

  // ---------------------------------------------------------------------------
  // extract_filter_params

  const AllowedFilters := ["limit", "min_duration_seconds", "min_calls"]

  /** `match?(/^\d+$/)`: some line of the text is a non-empty run of digits
      (`^` and `$` match at every line break). */
  predicate DigitLine(s: string) {
    exists line :: line in Fields(s, '\n') && |line| > 0 && AllDigits(line)
  }

  /** The value an allowed filter gets: an Integer when a line of its text is
      all digits, else the text. */
  function FilterValue(v: Value): (r: Value)
    ensures r.Int? || r.Str?
  {
    var text := ToS(v);
    if DigitLine(text) then Int(StrToI(text)) else Str(text)
  }

  /** The allowed filters the request carries, in their fixed order. */
  function AllowedValues(params: Dict, keys: seq<string>, acc: Dict): (r: Dict)
    ensures forall k :: HasKey(r, k) <==> HasKey(acc, k) || (k in keys && Present(Get(params, k)))
    ensures forall k :: k in keys && Present(Get(params, k)) ==> Get(r, k) == FilterValue(Get(params, k))
    ensures forall k :: k !in keys ==> Get(r, k) == Get(acc, k)
    decreases |keys|
  {
    if |keys| == 0 then acc
    else
      var k := keys[0];
      var acc' := if Present(Get(params, k)) then Put(acc, k, FilterValue(Get(params, k))) else acc;
      var r := AllowedValues(params, keys[1..], acc');
      assert forall x :: x in keys <==> x == k || x in keys[1..];
      assert HasKey(acc', k) <==> HasKey(acc, k) || Present(Get(params, k)) by {
        if Present(Get(params, k)) {
          assert Keys(acc') == Keys(acc) || Keys(acc') == Keys(acc) + [k];
          assert k in Keys(acc');
        }
      }
      assert forall x :: x != k ==> (HasKey(acc', x) <==> HasKey(acc, x)) by {
        forall x | x != k
          ensures HasKey(acc', x) <==> HasKey(acc, x)
        {
          if Present(Get(params, k)) {
            assert Keys(acc') == Keys(acc) || Keys(acc') == Keys(acc) + [k];
          }
        }
      }
      r
  }

  /** A request parameter that overrides a threshold. */
  predicate ThresholdOverride(k: string, v: Value) {
    EndsWith(k, "_threshold") && Present(v)
  }

  /** The `*_threshold` overrides, in the request's order, through `to_i`. */
  function ThresholdValues(ps: Dict, acc: Dict): (r: Result<Dict>)
    ensures r.Ok? ==> forall k :: HasKey(r.value, k) <==> HasKey(acc, k) || exists i :: 0 <= i < |ps| && ps[i].0 == k && ThresholdOverride(k, ps[i].1)
    ensures r.Err? ==> exists i :: 0 <= i < |ps| && ThresholdOverride(ps[i].0, ps[i].1) && ToI(ps[i].1).Err?
    ensures r.Ok? ==> forall i :: 0 <= i < |ps| && ThresholdOverride(ps[i].0, ps[i].1) ==> ToI(ps[i].1).Ok?
    ensures r.Ok? ==> forall k :: !Overridden(ps, k) ==> Get(r.value, k) == Get(acc, k)
    ensures r.Ok? ==> forall i :: LastOverride(ps, i) ==> Get(r.value, ps[i].0) == Int(ToI(ps[i].1).value)
    decreases |ps|
  {
    if |ps| == 0 then Ok(acc)
    else
      var (k, v) := ps[0];
      if ThresholdOverride(k, v) then
        match ToI(v)
        case Err(e) => Err(e)
        case Ok(n) => ThresholdStep(ps, acc, Put(acc, k, Int(n)))
      else ThresholdStep(ps, acc, acc)
  }

  /** The rest of the request after its first parameter. */
  function ThresholdStep(ps: Dict, acc: Dict, acc': Dict): (r: Result<Dict>)
    requires |ps| > 0
    requires forall x :: HasKey(acc', x) <==> HasKey(acc, x) || (x == ps[0].0 && ThresholdOverride(ps[0].0, ps[0].1))
    requires ThresholdOverride(ps[0].0, ps[0].1) ==> ToI(ps[0].1).Ok? && Get(acc', ps[0].0) == Int(ToI(ps[0].1).value)
    requires forall x :: x != ps[0].0 || !ThresholdOverride(ps[0].0, ps[0].1) ==> Get(acc', x) == Get(acc, x)
    ensures r.Ok? ==> forall k :: HasKey(r.value, k) <==> HasKey(acc, k) || exists i :: 0 <= i < |ps| && ps[i].0 == k && ThresholdOverride(k, ps[i].1)
    ensures r.Err? ==> exists i :: 0 <= i < |ps| && ThresholdOverride(ps[i].0, ps[i].1) && ToI(ps[i].1).Err?
    ensures r.Ok? ==> forall i :: 0 <= i < |ps| && ThresholdOverride(ps[i].0, ps[i].1) ==> ToI(ps[i].1).Ok?
    ensures r.Ok? ==> forall k :: !Overridden(ps, k) ==> Get(r.value, k) == Get(acc, k)
    ensures r.Ok? ==> forall i :: LastOverride(ps, i) ==> Get(r.value, ps[i].0) == Int(ToI(ps[i].1).value)
    decreases |ps|, 0
  {
    var r := ThresholdValues(ps[1..], acc');
    KeyStep(ps, acc, acc', r);
    OverrideStep(ps, acc, acc', r);
    r
  }

  /** Some parameter of `ps` named `k` overrides a threshold. */
  predicate Overridden(ps: Dict, k: string) {
    exists i :: 0 <= i < |ps| && ps[i].0 == k && ThresholdOverride(k, ps[i].1)
  }

  /** The `i`-th parameter overrides a threshold and no later one overrides
      the same key: its value is the one that stays. */
  predicate LastOverride(ps: Dict, i: int) {
    0 <= i < |ps| && ThresholdOverride(ps[i].0, ps[i].1) &&
    forall j :: i < j < |ps| ==> ps[j].0 != ps[i].0 || !ThresholdOverride(ps[j].0, ps[j].1)
  }

  /** The keys the first parameter of `ps` and the rest contribute, and the
      override that raises, given what the rest (`r`) promises about `ps[1..]`. */
  lemma KeyStep(ps: Dict, acc: Dict, acc': Dict, r: Result<Dict>)
    requires |ps| > 0
    requires forall x :: HasKey(acc', x) <==> HasKey(acc, x) || (x == ps[0].0 && ThresholdOverride(ps[0].0, ps[0].1))
    requires r.Ok? ==> forall k :: HasKey(r.value, k) <==> HasKey(acc', k) || exists i :: 0 <= i < |ps[1..]| && ps[1..][i].0 == k && ThresholdOverride(k, ps[1..][i].1)
    requires r.Err? ==> exists i :: 0 <= i < |ps[1..]| && ThresholdOverride(ps[1..][i].0, ps[1..][i].1) && ToI(ps[1..][i].1).Err?
    ensures r.Ok? ==> forall k :: HasKey(r.value, k) <==> HasKey(acc, k) || exists i :: 0 <= i < |ps| && ps[i].0 == k && ThresholdOverride(k, ps[i].1)
    ensures r.Err? ==> exists i :: 0 <= i < |ps| && ThresholdOverride(ps[i].0, ps[i].1) && ToI(ps[i].1).Err?
  {
    assert forall i :: 1 <= i < |ps| ==> ps[i] == ps[1..][i - 1];
    assert r.Err? ==> exists i :: 0 <= i < |ps| && ThresholdOverride(ps[i].0, ps[i].1) && ToI(ps[i].1).Err? by {
      if r.Err? {
        var i :| 0 <= i < |ps[1..]| && ThresholdOverride(ps[1..][i].0, ps[1..][i].1) && ToI(ps[1..][i].1).Err?;
        assert ps[i + 1] == ps[1..][i];
      }
    }
    assert r.Ok? ==> forall k :: HasKey(r.value, k) <==> HasKey(acc, k) || exists i :: 0 <= i < |ps| && ps[i].0 == k && ThresholdOverride(k, ps[i].1) by {
      if r.Ok? {
        forall k
          ensures HasKey(r.value, k) <==> HasKey(acc, k) || exists i :: 0 <= i < |ps| && ps[i].0 == k && ThresholdOverride(k, ps[i].1)
        {
          if exists i :: 0 <= i < |ps| && ps[i].0 == k && ThresholdOverride(k, ps[i].1) {
            var i :| 0 <= i < |ps| && ps[i].0 == k && ThresholdOverride(k, ps[i].1);
            if i > 0 {
              assert ps[1..][i - 1].0 == k;
            }
          }
          if exists i :: 0 <= i < |ps[1..]| && ps[1..][i].0 == k && ThresholdOverride(k, ps[1..][i].1) {
            var i :| 0 <= i < |ps[1..]| && ps[1..][i].0 == k && ThresholdOverride(k, ps[1..][i].1);
            assert ps[i + 1].0 == k;
          }
        }
      }
    }
  }

  /** What the first parameter of `ps` and the rest contribute, given what
      the rest (`r`) promises about `ps[1..]` from `acc'`. */
  lemma OverrideStep(ps: Dict, acc: Dict, acc': Dict, r: Result<Dict>)
    requires |ps| > 0
    requires ThresholdOverride(ps[0].0, ps[0].1) ==> ToI(ps[0].1).Ok? && Get(acc', ps[0].0) == Int(ToI(ps[0].1).value)
    requires forall x :: x != ps[0].0 || !ThresholdOverride(ps[0].0, ps[0].1) ==> Get(acc', x) == Get(acc, x)
    requires r.Ok? ==> forall i :: 0 <= i < |ps[1..]| && ThresholdOverride(ps[1..][i].0, ps[1..][i].1) ==> ToI(ps[1..][i].1).Ok?
    requires r.Ok? ==> forall k :: !Overridden(ps[1..], k) ==> Get(r.value, k) == Get(acc', k)
    requires r.Ok? ==> forall i :: LastOverride(ps[1..], i) ==> Get(r.value, ps[1..][i].0) == Int(ToI(ps[1..][i].1).value)
    ensures r.Ok? ==> forall i :: 0 <= i < |ps| && ThresholdOverride(ps[i].0, ps[i].1) ==> ToI(ps[i].1).Ok?
    ensures r.Ok? ==> forall k :: !Overridden(ps, k) ==> Get(r.value, k) == Get(acc, k)
    ensures r.Ok? ==> forall i :: LastOverride(ps, i) ==> Get(r.value, ps[i].0) == Int(ToI(ps[i].1).value)
  {
    if r.Ok? {
      var t := ps[1..];
      forall i | 0 <= i < |ps| && ThresholdOverride(ps[i].0, ps[i].1)
        ensures ToI(ps[i].1).Ok?
      {
        if i > 0 {
          assert t[i - 1] == ps[i];
        }
      }
      forall k | !Overridden(ps, k)
        ensures Get(r.value, k) == Get(acc, k)
      {
        assert !Overridden(t, k);
      }
      forall i | LastOverride(ps, i)
        ensures Get(r.value, ps[i].0) == Int(ToI(ps[i].1).value)
      {
        if i > 0 {
          assert t[i - 1] == ps[i];
          forall j | i - 1 < j < |t|
            ensures t[j].0 != t[i - 1].0 || !ThresholdOverride(t[j].0, t[j].1)
          {
            assert t[j] == ps[j + 1];
          }
          assert LastOverride(t, i - 1);
        } else {
          assert !Overridden(t, ps[0].0);
        }
      }
    }
  }

  /** `extract_filter_params`: the allowed filters that are present, then the
      `*_threshold` overrides; a threshold value without `to_i` raises. */
  function ExtractFilterParams(params: Dict): (r: Result<Dict>)
    ensures r.Ok? ==> forall k :: HasKey(r.value, k) <==>
      (k in AllowedFilters && Present(Get(params, k))) ||
      (exists i :: 0 <= i < |params| && params[i].0 == k && ThresholdOverride(k, params[i].1))
  {
    var allowed := AllowedValues(params, AllowedFilters, []);
    ThresholdValues(params, allowed)
  }

  /** What `extract_filter_params` stores: an allowed filter its converted
      value, an override the Integer `to_i` gives (the last one of a key
      wins); it fails exactly when a present override has no `to_i`. */
  lemma ExtractedValues(params: Dict)
    ensures ExtractFilterParams(params).Ok? <==>
      forall i :: 0 <= i < |params| && ThresholdOverride(params[i].0, params[i].1) ==> ToI(params[i].1).Ok?
    ensures ExtractFilterParams(params).Ok? ==> forall k :: k in AllowedFilters && Present(Get(params, k)) ==>
      Get(ExtractFilterParams(params).value, k) == FilterValue(Get(params, k))
    ensures ExtractFilterParams(params).Ok? ==> forall i :: LastOverride(params, i) ==>
      Get(ExtractFilterParams(params).value, params[i].0) == Int(ToI(params[i].1).value)
  {
    AllowedNeverOverridden(params);
  }

  /** No allowed filter name ends in "_threshold", so no override shadows one. */
  lemma AllowedNeverOverridden(params: Dict)
    ensures forall k :: k in AllowedFilters ==> !Overridden(params, k)
  {
    forall k | k in AllowedFilters
      ensures !EndsWith(k, "_threshold")
    {
      assert k == "limit" || k == "min_duration_seconds" || k == "min_calls";
      if k == "min_duration_seconds" {
        assert k[|k| - 10..] != "_threshold" by { assert k[|k| - 1] == 's'; }
      }
    }
  }

  /** A threshold given as an ideographic space is blank, so it overrides
      nothing and the request yields no filter parameters. */
  lemma IdeographicSpaceThresholdDropped(params: Dict)
    requires params == [("calls_threshold", Str("\U{3000}"))]
    ensures ExtractFilterParams(params) == Ok([])
  {
    assert !Present(Str("\U{3000}"));
    assert AllowedValues(params, AllowedFilters, []) == [] by {
      assert AllowedValues(params, AllowedFilters[2..], []) == [];
      assert AllowedValues(params, AllowedFilters[1..], []) == [];
    }
    assert params[1..] == [];
    assert ThresholdValues(params, []) == ThresholdStep(params, [], []);
  }

  /** No key outside the allowed filters and the threshold overrides reaches
      a report. */
  lemma ExtractedKeys(params: Dict, k: string)
    ensures ExtractFilterParams(params).Ok? && HasKey(ExtractFilterParams(params).value, k) ==>
      k in AllowedFilters || EndsWith(k, "_threshold")
  {
  }

  /** An allowed filter that no threshold override shadows gets its converted
      value. */
  lemma AllowedFilterValue(params: Dict, k: string)
    requires k in AllowedFilters && Present(Get(params, k))
    ensures Get(AllowedValues(params, AllowedFilters, []), k) == FilterValue(Get(params, k))
  {
  }

  /** A digit-only value becomes an Integer. */
  lemma DigitsBecomeInteger(n: nat)
    ensures FilterValue(Str(NatText(n))) == Int(n)
  {
    var t := NatText(n);
    assert Fields(t, '\n') == [t] by {
      assert '\n' !in t by {
        forall i | 0 <= i < |t|
          ensures t[i] != '\n'
        {
          assert IsDigit(t[i]);
        }
      }
      JoinFieldsSingle(t);
    }
    assert t in Fields(t, '\n');
    StrToINatText(n);
  }

  lemma JoinFieldsSingle(t: string)
    requires '\n' !in t
    ensures Fields(t, '\n') == [t]
  {
    FieldsJoin([t], '\n');
  }

  // ---------------------------------------------------------------------------
  // create_migration

  /** `[a-z0-9_.]`. */
  predicate MigrationChar(c: char) {
    'a' <= c <= 'z' || IsDigit(c) || c == '_' || c == '.'
  }

  /** `gsub(/[^a-z0-9_.]/, "")`. */
  function SanitizeFileName(name: string): (r: string)
    ensures forall i :: 0 <= i < |r| ==> MigrationChar(r[i])
    ensures IsSubsequence(r, name)
    ensures (forall i :: 0 <= i < |name| ==> MigrationChar(name[i])) ==> r == name
  {
    FilterIsSubsequence(name, MigrationChar);
    assert (forall i :: 0 <= i < |name| ==> MigrationChar(name[i])) ==> Filter(name, MigrationChar) == name by {
      if forall i :: 0 <= i < |name| ==> MigrationChar(name[i]) {
        FilterAll(name, MigrationChar);
      }
    }
    Filter(name, MigrationChar)
  }

  /** Sanitising twice is sanitising once. */
  lemma SanitizeIdempotent(name: string)
    ensures SanitizeFileName(SanitizeFileName(name)) == SanitizeFileName(name)
  {
  }

  /** `match?(/\A\d{14}_\w+\.rb\z/)`. */
  predicate MigrationFileName(s: string) {
    |s| >= 19 && AllDigits(s[..14]) && s[14] == '_' &&
    (forall k :: 15 <= k < |s| - 3 ==> IsWordChar(s[k])) && s[|s| - 3..] == ".rb"
  }

  /** An accepted name stays inside the migrations directory: no `/`, and
      its only `.` is the one before `rb`. */
  lemma MigrationNameIsPlain(s: string)
    requires MigrationFileName(s)
    ensures '/' !in s
    ensures forall k :: 0 <= k < |s| && s[k] == '.' ==> k == |s| - 3
  {
    forall k | 0 <= k < |s|
      ensures s[k] != '/' && (s[k] == '.' ==> k == |s| - 3)
    {
      if k < 14 {
        assert IsDigit(s[..14][k]);
      } else if k >= |s| - 3 {
        assert s[k] == s[|s| - 3..][k - (|s| - 3)];
      }
    }
  }

  const MigrationsOnlyInDevelopment := "Migration creation is only allowed in development environment"
  const NameAndCodeRequired := "File name and code are required"
  const InvalidMigrationName := "Invalid migration file name format"
  const NoMigrationsDirectory := "Migrations directory not found"

  /** `create_migration`: the file it writes under db/migrate, or the error it
      renders; the environment and the directory's existence are inputs. */
  function CreateMigration(development: bool, fileName: Option<string>, code: Option<string>, dirExists: bool): (o: Outcome)
    ensures !development ==> o == Rejected(MigrationsOnlyInDevelopment)
    ensures o.Run? <==>
      development && fileName.Some? && !IsBlank(fileName.value) && code.Some? && !IsBlank(code.value) &&
      MigrationFileName(SanitizeFileName(fileName.value)) && dirExists
    ensures o.Run? ==> o.sql == "db/migrate/" + SanitizeFileName(fileName.value)
  {
    if !development then Rejected(MigrationsOnlyInDevelopment)
    else if BlankQuery(fileName) || BlankQuery(code) then Rejected(NameAndCodeRequired)
    else
      var safe := SanitizeFileName(fileName.value);
      if !MigrationFileName(safe) then Rejected(InvalidMigrationName)
      else if !dirExists then Rejected(NoMigrationsDirectory)
      else Run("db/migrate/" + safe)
  }

  // ---------------------------------------------------------------------------
  // execute_report

  /** The report modules by category. */
  function ModuleFor(category: string): (m: Option<string>)
    ensures m.Some? <==> category in ["queries", "indexes", "tables", "connections", "system", "schema_analysis"]
  {
    if category == "queries" then Some("Queries")
    else if category == "indexes" then Some("Indexes")
    else if category == "tables" then Some("Tables")
    else if category == "connections" then Some("Connections")
    else if category == "system" then Some("System")
    else if category == "schema_analysis" then Some("SchemaAnalysis")
    else None
  }

  /** `execute_report`: the module method it calls (`responds` says which
      methods a module has), or the ArgumentError it raises. */
  function ExecuteReport(category: string, report: string, responds: (string, string) -> bool): (r: Result<(string, string)>)
    ensures ModuleFor(category).None? ==> r == Err(ArgumentError("Unknown category: " + category))
    ensures ModuleFor(category).Some? && !responds(ModuleFor(category).value, report) ==>
      r == Err(ArgumentError("Unknown report: " + report))
    ensures r.Ok? <==> ModuleFor(category).Some? && responds(ModuleFor(category).value, report)
    ensures r.Ok? ==> r.value == (ModuleFor(category).value, report)
  {
    match ModuleFor(category)
    case None => Err(ArgumentError("Unknown category: " + category))
    case Some(m) =>
      if !responds(m, report) then Err(ArgumentError("Unknown report: " + report))
      else Ok((m, report))
  }
}
