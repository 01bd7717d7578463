/** The regular expressions the EXPLAIN analyser applies to one line of
    PostgreSQL plan text, written out as matchers. Each matcher is tried at
    every start position from the left, as a regexp match is; the comments say
    how backtracking settles each pattern's groups. */
module PlanText {
  import opened Common
  import opened Text

  /** The patterns the analyser uses, by shape. */
  datatype Pattern =
    | RangePattern(key: string)   // key([\d.]+)\.\.([\d.]+)
    | IntPattern(key: string)     // key(\d+)
    | TimePattern(key: string)    // key([\d.]+) ms
    | TablePattern                // on (\w+)

  /** The pattern matches when tried at position `i`. */
  predicate MatchesAt(s: string, pat: Pattern, i: nat) {
    match pat
    case RangePattern(key) => RangeAt(s, key, i).Some?
    case IntPattern(key) => IntKeyAt(s, key, i)
    case TimePattern(key) => TimeAt(s, key, i).Some?
    case TablePattern => TableAt(s, i).Some?
  }

  /** The leftmost position in [i, |s|] where the pattern matches: where a
      regexp search reports its match. */
  function FirstPos(s: string, pat: Pattern, i: nat): (r: Option<nat>)
    ensures r.Some? ==> i <= r.value <= |s| && MatchesAt(s, pat, r.value)
    ensures r.Some? ==> forall j :: i <= j < r.value ==> !MatchesAt(s, pat, j)
    ensures r.None? ==> forall j :: i <= j <= |s| ==> !MatchesAt(s, pat, j)
    decreases |s| + 1 - i
  {
    if i > |s| then None
    else if MatchesAt(s, pat, i) then Some(i)
    else FirstPos(s, pat, i + 1)
  }

  /** The first match is at `k` when the pattern matches there and nowhere before. */
  lemma {:induction false} FirstPosIs(s: string, pat: Pattern, i: nat, k: nat)
    requires i <= k <= |s| && MatchesAt(s, pat, k)
    requires forall j :: i <= j < k ==> !MatchesAt(s, pat, j)
    ensures FirstPos(s, pat, i) == Some(k)
    decreases k - i
  {
    if i < k {
      FirstPosIs(s, pat, i + 1, k);
    }
  }

  // ---------------------------------------------------------------------------
  // `key([\d.]+)\.\.([\d.]+)`

  /** `[\d.]`. */
  predicate IsNumChar(c: char) { IsDigit(c) || c == '.' }

  /** The two groups of `key([\d.]+)\.\.([\d.]+)` matched at `i`. Both groups
      lie in the run of `[\d.]` after the key; the first is greedy, so the
      `..` is the last one that leaves both groups non-empty, and the second
      group runs to the end of the run. */
  function RangeAt(s: string, key: string, i: nat): (r: Option<(string, string)>)
    ensures r.Some? ==> OccursAt(s, key, i)
    ensures r.Some? ==>
      var j := i + |key|;
      var e := SpanEnd(s, j, IsNumChar);
      && |r.value.0| >= 1 && |r.value.1| >= 1
      && j + |r.value.0| + 2 + |r.value.1| == e
      && s[j..e] == r.value.0 + ".." + r.value.1
      && forall p :: j + |r.value.0| < p && p + 3 <= e ==> !OccursAt(s, "..", p)
  {
    if !OccursAt(s, key, i) then None
    else
      var j := i + |key|;
      var e := SpanEnd(s, j, IsNumChar);
      if e < j + 4 then None
      else match FindLastBelow(s, "..", j + 1, e - 2)
        case None => None
        case Some(p) =>
          assert s[j..e] == s[j..p] + s[p..p + 2] + s[p + 2..e];
          Some((s[j..p], s[p + 2..e]))
  }

  /** `line.match(/key([\d.]+)\.\.([\d.]+)/)`: both groups, read with `to_f`. */
  function RangeAfter(s: string, key: string): (r: Option<(real, real)>)
    ensures r.Some? <==> exists k :: 0 <= k <= |s| && MatchesAt(s, RangePattern(key), k)
  {
    match FirstPos(s, RangePattern(key), 0)
    case None => None
    case Some(k) =>
      var g := RangeAt(s, key, k).value;
      Some((DottedNumberValue(g.0), DottedNumberValue(g.1)))
  }

  /** Decimal text as PostgreSQL prints costs and times: digits, a point, digits. */
  predicate DecimalText(t: string) {
    exists k :: 0 < k < |t| - 1 && t[k] == '.' && AllDigits(t[..k]) && AllDigits(t[k + 1..])
  }

  lemma DecimalTextShape(t: string)
    requires DecimalText(t)
    ensures |t| >= 3 && IsDigit(t[0]) && IsDigit(t[|t| - 1])
    ensures forall m :: 0 <= m < |t| ==> IsNumChar(t[m])
    ensures forall p :: 0 <= p < |t| - 1 ==> !(t[p] == '.' && t[p + 1] == '.')
  {
    var k :| 0 < k < |t| - 1 && t[k] == '.' && AllDigits(t[..k]) && AllDigits(t[k + 1..]);
    assert forall m :: 0 <= m < k ==> t[m] == t[..k][m];
    assert forall m :: k < m < |t| ==> t[m] == t[k + 1..][m - k - 1];
  }

  /** A plan line whose first `key` is followed by `x..y` (two decimal texts,
      then a character outside `[\d.]` or the end) yields exactly `x` and `y`. */
  lemma RangeOfPlanText(pre: string, key: string, x: string, y: string, post: string)
    requires forall k :: 0 <= k < |pre| ==> RangeAt(pre + key + x + ".." + y + post, key, k).None?
    requires DecimalText(x) && DecimalText(y)
    requires post == [] || !IsNumChar(post[0])
    ensures RangeAfter(pre + key + x + ".." + y + post, key) == Some((DottedNumberValue(x), DottedNumberValue(y)))
  {
    var w := x + ".." + y;
    var s := pre + key + x + ".." + y + post;
    assert s == (pre + key) + w + post;
    var i := |pre|;
    var e := i + |key| + |w|;
    assert s[i..i + |key|] == key;
    assert s[i + |key|..e] == w;
    assert e < |s| ==> s[e] == post[0];
    RangeAtShape(s, key, i, x, y);
    FirstPosIs(s, RangePattern(key), 0, i);
  }

  /** The range pattern, tried where `key` is followed by `x..y` and the end of
      the `[\d.]` run, reads `x` and `y`. */
  lemma RangeAtShape(s: string, key: string, i: nat, x: string, y: string)
    requires OccursAt(s, key, i)
    requires DecimalText(x) && DecimalText(y)
    requires i + |key| + |x| + 2 + |y| <= |s|
    requires s[i + |key|..i + |key| + |x| + 2 + |y|] == x + ".." + y
    requires var e := i + |key| + |x| + 2 + |y|; e == |s| || !IsNumChar(s[e])
    ensures RangeAt(s, key, i) == Some((x, y))
  {
    var j := i + |key|;
    RangeRun(s, j, x, y);
    RangeParts(s, j, x, y);
    RangeAtFromParts(s, key, i, x, y, j, j + |x|, j + |x| + 2 + |y|);
  }

  lemma RangeAtFromParts(s: string, key: string, i: nat, x: string, y: string, j: nat, p: nat, e: nat)
    requires OccursAt(s, key, i)
    requires j == i + |key| && p == j + |x| && e == p + 2 + |y| && e <= |s|
    requires |x| >= 3 && |y| >= 3
    requires SpanEnd(s, j, IsNumChar) == e
    requires FindLastBelow(s, "..", j + 1, p + |y|) == Some(p)
    requires s[j..p] == x && s[p + 2..e] == y
    ensures RangeAt(s, key, i) == Some((x, y))
  {
    SameBound(s, j + 1, p + |y|, e - 2, p);
    RangeAtLast(s, key, i, j, p, e);
  }

  lemma SameBound(s: string, lo: nat, a: nat, b: nat, p: nat)
    requires a == b && a <= |s| + 1
    requires FindLastBelow(s, "..", lo, a) == Some(p)
    ensures FindLastBelow(s, "..", lo, b) == Some(p)
  {
  }

  /** Where `x..y` stands at `j` and the `[\d.]` run ends with it, the run
      ends after `y` and its last inner `..` is the one after `x`. */
  lemma RangeRun(s: string, j: nat, x: string, y: string)
    requires DecimalText(x) && DecimalText(y)
    requires j + |x| + 2 + |y| <= |s|
    requires s[j..j + |x| + 2 + |y|] == x + ".." + y
    requires var e := j + |x| + 2 + |y|; e == |s| || !IsNumChar(s[e])
    ensures |x| >= 3 && |y| >= 3
    ensures SpanEnd(s, j, IsNumChar) == j + |x| + 2 + |y|
    ensures FindLastBelow(s, "..", j + 1, j + |x| + |y|) == Some(j + |x|)
  {
    RunEnd(s, j, x, y);
    LastDoubleDotIn(s, j, x, y);
  }

  lemma RunEnd(s: string, j: nat, x: string, y: string)
    requires DecimalText(x) && DecimalText(y)
    requires j + |x| + 2 + |y| <= |s|
    requires s[j..j + |x| + 2 + |y|] == x + ".." + y
    requires var e := j + |x| + 2 + |y|; e == |s| || !IsNumChar(s[e])
    ensures SpanEnd(s, j, IsNumChar) == j + |x| + 2 + |y|
  {
    RangeTextShape(x, y);
    NumericRun(s, j, x, y);
    SpanEndIs(s, j, j + |x| + 2 + |y|);
  }

  lemma LastDoubleDotIn(s: string, j: nat, x: string, y: string)
    requires DecimalText(x) && DecimalText(y)
    requires j + |x| + 2 + |y| <= |s|
    requires s[j..j + |x| + 2 + |y|] == x + ".." + y
    ensures |x| >= 3 && |y| >= 3
    ensures FindLastBelow(s, "..", j + 1, j + |x| + |y|) == Some(j + |x|)
  {
    RangeTextShape(x, y);
    LastDoubleDot(s, j, x, y);
  }

  /** `RangeAt` where the key occurs, the `[\d.]` run after it ends at `e`
      and its last inner `..` is at `p`. */
  lemma RangeAtLast(s: string, key: string, i: nat, j: nat, p: nat, e: nat)
    requires OccursAt(s, key, i)
    requires j == i + |key| && SpanEnd(s, j, IsNumChar) == e && e >= j + 4
    requires FindLastBelow(s, "..", j + 1, e - 2) == Some(p)
    ensures RangeAt(s, key, i) == Some((s[j..p], s[p + 2..e]))
  {
  }

  lemma NumericRun(s: string, j: nat, x: string, y: string)
    requires j + |x| + 2 + |y| <= |s|
    requires s[j..j + |x| + 2 + |y|] == x + ".." + y
    requires forall m :: 0 <= m < |x + ".." + y| ==> IsNumChar((x + ".." + y)[m])
    ensures forall m :: j <= m < j + |x| + 2 + |y| ==> IsNumChar(s[m])
  {
    var w := x + ".." + y;
    var e := j + |w|;
    forall m | j <= m < e
      ensures IsNumChar(s[m])
    {
      assert s[m] == s[j..e][m - j] == w[m - j];
    }
  }

  lemma RangeParts(s: string, j: nat, x: string, y: string)
    requires j + |x| + 2 + |y| <= |s|
    requires s[j..j + |x| + 2 + |y|] == x + ".." + y
    ensures s[j..j + |x|] == x
    ensures s[j + |x| + 2..j + |x| + 2 + |y|] == y
  {
    var w := x + ".." + y;
    var e := j + |w|;
    assert s[j..j + |x|] == s[j..e][..|x|];
    assert s[j + |x| + 2..e] == s[j..e][|x| + 2..];
  }

  /** In `x..y` every character is in `[\d.]`, and the only `..` leaving text
      on both sides is the one between `x` and `y`. */
  lemma RangeTextShape(x: string, y: string)
    requires DecimalText(x) && DecimalText(y)
    ensures var w := x + ".." + y;
      && |x| >= 3 && |y| >= 3
      && (forall m :: 0 <= m < |w| ==> IsNumChar(w[m]))
      && w[|x|..|x| + 2] == ".."
      && forall q :: |x| < q < |w| - 1 ==> !(w[q] == '.' && w[q + 1] == '.')
  {
    var w := x + ".." + y;
    DecimalTextShape(x);
    DecimalTextShape(y);
    forall m | 0 <= m < |w|
      ensures IsNumChar(w[m])
    {
      if m >= |x| + 2 {
        assert w[m] == y[m - |x| - 2];
      }
    }
    forall q | |x| < q < |w| - 1
      ensures !(w[q] == '.' && w[q + 1] == '.')
    {
      assert w[q + 1] == y[q + 1 - |x| - 2];
      if q > |x| + 1 {
        assert w[q] == y[q - |x| - 2];
      }
    }
  }

  lemma LastDoubleDot(s: string, j: nat, x: string, y: string)
    requires j + |x| + 2 + |y| <= |s| && |x| >= 1 && |y| >= 1
    requires s[j..j + |x| + 2 + |y|] == x + ".." + y
    requires var w := x + ".." + y;
      && w[|x|..|x| + 2] == ".."
      && forall q :: |x| < q < |w| - 1 ==> !(w[q] == '.' && w[q + 1] == '.')
    ensures FindLastBelow(s, "..", j + 1, j + |x| + |y|) == Some(j + |x|)
  {
    DotsAfterX(s, j, x, y);
    NoDotsLater(s, j, x, y);
  }

  lemma DotsAfterX(s: string, j: nat, x: string, y: string)
    requires j + |x| + 2 + |y| <= |s|
    requires s[j..j + |x| + 2 + |y|] == x + ".." + y
    ensures OccursAt(s, "..", j + |x|)
  {
    var w := x + ".." + y;
    var p := j + |x|;
    assert s[p..p + 2] == s[j..j + |w|][|x|..|x| + 2];
    assert w[|x|..|x| + 2] == "..";
  }

  lemma NoDotsLater(s: string, j: nat, x: string, y: string)
    requires j + |x| + 2 + |y| <= |s|
    requires s[j..j + |x| + 2 + |y|] == x + ".." + y
    requires var w := x + ".." + y;
      forall q :: |x| < q < |w| - 1 ==> !(w[q] == '.' && w[q + 1] == '.')
    ensures forall q :: j + |x| < q < j + |x| + |y| ==> !OccursAt(s, "..", q)
  {
    var w := x + ".." + y;
    forall q | j + |x| < q < j + |x| + |y|
      ensures !OccursAt(s, "..", q)
    {
      assert s[q] == s[j..j + |w|][q - j] == w[q - j];
      assert s[q + 1] == s[j..j + |w|][q - j + 1] == w[q - j + 1];
      assert s[q..q + 2][0] == s[q] && s[q..q + 2][1] == s[q + 1];
    }
  }

  /** `SpanEnd` stops exactly at the first character outside the class. */
  lemma SpanEndIs(s: string, j: nat, e: nat)
    requires j <= e <= |s|
    requires forall m :: j <= m < e ==> IsNumChar(s[m])
    requires e == |s| || !IsNumChar(s[e])
    ensures SpanEnd(s, j, IsNumChar) == e
    decreases e - j
  {
    if j < e {
      SpanEndIs(s, j + 1, e);
    }
  }

  // ---------------------------------------------------------------------------
  // `key(\d+)` and friends

  /** `key` occurs at `i` and a digit follows it. */
  predicate IntKeyAt(s: string, key: string, i: nat) {
    OccursAt(s, key, i) && i + |key| < |s| && IsDigit(s[i + |key|])
  }

  /** The number `key(\d+)` reads when matched at `i` (its group is greedy). */
  function IntAt(s: string, key: string, i: nat): (r: Option<nat>)
    ensures r.Some? <==> IntKeyAt(s, key, i)
  {
    if IntKeyAt(s, key, i) then
      var j := i + |key|;
      Some(DigitsValue(s[j..DigitsEnd(s, j)]))
    else None
  }

  /** `line.match(/key(\d+)/)`: the digits after the first occurrence of
      `key` that a digit follows, read with `to_i`. */
  function IntAfter(s: string, key: string): (r: Option<nat>)
    ensures r.Some? <==> exists k :: 0 <= k <= |s| && MatchesAt(s, IntPattern(key), k)
  {
    match FirstPos(s, IntPattern(key), 0)
    case None => None
    case Some(k) => IntAt(s, key, k)
  }

  /** A plan line whose first `key` is followed by the decimal text of `n`
      and then a non-digit yields `n`. */
  lemma IntOfPlanText(pre: string, key: string, n: nat, post: string)
    requires forall k :: 0 <= k < |pre| ==> !IntKeyAt(pre + key + NatText(n) + post, key, k)
    requires post == [] || !IsDigit(post[0])
    ensures IntAfter(pre + key + NatText(n) + post, key) == Some(n)
  {
    var t := NatText(n);
    var s := pre + key + t + post;
    var i := |pre|;
    var j := i + |key|;
    assert s[i..j] == key;
    assert forall m :: j <= m < j + |t| ==> s[m] == t[m - j];
    assert j + |t| == |s| || s[j + |t|] == post[0];
    DigitsEndIs(s, j, j + |t|);
    assert s[j..j + |t|] == t;
    DigitsValueNatText(n);
    assert IntAt(s, key, i) == Some(n);
    FirstPosIs(s, IntPattern(key), 0, i);
  }

  lemma DigitsEndIs(s: string, j: nat, e: nat)
    requires j <= e <= |s|
    requires forall m :: j <= m < e ==> IsDigit(s[m])
    requires e == |s| || !IsDigit(s[e])
    ensures DigitsEnd(s, j) == e
    decreases e - j
  {
    if j < e {
      DigitsEndIs(s, j + 1, e);
    }
  }

  /** The last position where `key` is followed by a digit. */
  function LastIntKey(s: string, key: string, hi: nat): (r: Option<nat>)
    requires hi <= |s| + 1
    ensures r.Some? ==> r.value < hi && IntKeyAt(s, key, r.value)
    ensures r.Some? ==> forall j :: r.value < j < hi ==> !IntKeyAt(s, key, j)
    ensures r.None? ==> forall j :: 0 <= j < hi ==> !IntKeyAt(s, key, j)
    decreases hi
  {
    if hi == 0 then None
    else if IntKeyAt(s, key, hi - 1) then Some(hi - 1)
    else LastIntKey(s, key, hi - 1)
  }

  function IntAtKey(s: string, key: string, i: nat): nat
    requires IntKeyAt(s, key, i)
  {
    IntAt(s, key, i).value
  }

  /** `rows=(\d+).*actual.*rows=(\d+)`. The match starts at the first
      `rows=<digit>` (a later start only has fewer choices). The first group
      takes the whole digit run, since "actual" cannot begin inside it. The
      greedy `.*`s then put the second `rows=` at its last occurrence, which
      works iff that occurrence lies past the first "actual" after the first
      group. */
  function EstimatedAndActualRows(s: string): (r: Option<(nat, nat)>)
    ensures r.Some? ==>
      exists p, a, q ::
        && 0 <= p < a && a + 6 <= q <= |s|
        && IntKeyAt(s, "rows=", p) && OccursAt(s, "actual", a) && IntKeyAt(s, "rows=", q)
        && r.value == (IntAtKey(s, "rows=", p), IntAtKey(s, "rows=", q))
  {
    match FirstPos(s, IntPattern("rows="), 0)
    case None => None
    case Some(p) =>
      var d := DigitsEnd(s, p + 5);
      match (FindFrom(s, "actual", d), LastIntKey(s, "rows=", |s| + 1))
      case (Some(a), Some(q)) =>
        if q >= a + 6 then Some((IntAtKey(s, "rows=", p), IntAtKey(s, "rows=", q))) else None
      case _ => None
  }

  /** `actual.*rows=(\d+)`: the last `rows=<digit>` lying past the first "actual". */
  function ActualRowsOnly(s: string): (r: Option<nat>)
    ensures r.Some? ==>
      exists a, q :: 0 <= a && a + 6 <= q <= |s| && OccursAt(s, "actual", a) && IntKeyAt(s, "rows=", q)
        && r.value == IntAtKey(s, "rows=", q)
  {
    match (FindFrom(s, "actual", 0), LastIntKey(s, "rows=", |s| + 1))
    case (Some(a), Some(q)) => if q >= a + 6 then Some(IntAtKey(s, "rows=", q)) else None
    case _ => None
  }

  /** Whenever the combined pattern matches, the actual-only pattern matches
      too and reads the same actual row count: the `elsif` only adds the
      case where the estimate comes after "actual" or is missing. */
  lemma ActualRowsAgree(s: string)
    ensures EstimatedAndActualRows(s).Some? ==>
      ActualRowsOnly(s).Some? && ActualRowsOnly(s).value == EstimatedAndActualRows(s).value.1
  {
    if EstimatedAndActualRows(s).Some? {
      var p := FirstPos(s, IntPattern("rows="), 0).value;
      var d := DigitsEnd(s, p + 5);
      var a := FindFrom(s, "actual", d).value;
      var a0 := FindFrom(s, "actual", 0);
      assert a0.Some? && a0.value <= a;
    }
  }

  /** The first group of the combined pattern is the number `rows=(\d+)` reads. */
  lemma EstimatedRowsAgree(s: string)
    ensures EstimatedAndActualRows(s).Some? ==> IntAfter(s, "rows=") == Some(EstimatedAndActualRows(s).value.0)
  {
  }

  // ---------------------------------------------------------------------------
  // `key([\d.]+) ms` and `on (\w+)`

  /** `key([\d.]+) ms` matched at `i`: the run cannot contain the space, so
      " ms" follows the whole run. */
  function TimeAt(s: string, key: string, i: nat): (r: Option<real>)
    ensures r.Some? ==> OccursAt(s, key, i)
  {
    if !OccursAt(s, key, i) then None
    else
      var j := i + |key|;
      var e := SpanEnd(s, j, IsNumChar);
      if e > j && OccursAt(s, " ms", e) then Some(DottedNumberValue(s[j..e])) else None
  }

  /** `line.match(/key([\d.]+) ms/)`, read with `to_f`. */
  function TimeAfter(s: string, key: string): (r: Option<real>)
    ensures r.Some? ==> Contains(s, key)
  {
    match FirstPos(s, TimePattern(key), 0)
    case None => None
    case Some(k) =>
      ContainsAt(s, key, k);
      TimeAt(s, key, k)
  }

  /** `on (\w+)` matched at `i`: the greedy word after "on ". */
  function TableAt(s: string, i: nat): (r: Option<string>)
    ensures r.Some? <==> TableStart(s, i)
    ensures r.Some? ==> forall m :: 0 <= m < |r.value| ==> IsWordChar(r.value[m])
    ensures r.Some? ==> exists e :: i + 3 < e <= |s| && r.value == s[i + 3..e] && (e == |s| || !IsWordChar(s[e]))
  {
    if TableStart(s, i) then
      var e := SpanEnd(s, i + 3, IsWordChar);
      Some(s[i + 3..e])
    else None
  }

  /** "on " followed by a word character starts at `i`. */
  predicate TableStart(s: string, i: nat) {
    OccursAt(s, "on ", i) && i + 3 < |s| && IsWordChar(s[i + 3])
  }

  /** `match(/on (\w+)/)[1]`: the whole word after the first "on " that is
      followed by a word character; none when there is no such "on ". */
  function TableName(s: string): (r: Option<string>)
    ensures r.Some? ==> Contains(s, "on ") && |r.value| >= 1
    ensures r.Some? <==> exists i: nat :: TableStart(s, i)
    ensures r.Some? ==>
      (exists i: nat, e :: TableStart(s, i) && (forall j: nat :: j < i ==> !TableStart(s, j))
        && i + 3 < e <= |s| && r.value == s[i + 3..e] && (e == |s| || !IsWordChar(s[e])))
  {
    match FirstPos(s, TablePattern, 0)
    case None =>
      assert forall i: nat :: !TableStart(s, i) by {
        forall i: nat
          ensures !TableStart(s, i)
        {
          if i <= |s| {
            assert !MatchesAt(s, TablePattern, i);
          }
        }
      }
      None
    case Some(k) =>
      ContainsAt(s, "on ", k);
      assert forall j: nat :: j < k ==> !TableStart(s, j) by {
        forall j: nat | j < k
          ensures !TableStart(s, j)
        {
          assert !MatchesAt(s, TablePattern, j);
        }
      }
      var r := TableAt(s, k);
      var e :| k + 3 < e <= |s| && r.value == s[k + 3..e] && (e == |s| || !IsWordChar(s[e]));
      assert TableStart(s, k) && (forall j: nat :: j < k ==> !TableStart(s, j));
      r
  }


  /** `indent_level`: the number of leading spaces, halved. */
  function IndentLevel(s: string): (r: nat)
    ensures var n := SpanEnd(s, 0, c => c == ' '); r == n / 2 && (n == |s| || s[n] != ' ')
  {
    SpanEnd(s, 0, c => c == ' ') / 2
  }
}
