/** Ruby's dynamically typed values as the report pipeline sees them (query
    result cells, YAML settings, request parameters), their conversions
    (`to_s`, `to_i`, `to_f`, `inspect`), comparison, and insertion-ordered
    hashes. Symbols and strings are both represented by strings. */
module Values {
  import opened Common
  import opened Text

  datatype Value =
    | Nil
    | Bool(b: bool)
    | Int(i: int)
    | Float(f: real)
    | Str(s: string)
    | Arr(items: seq<Value>)

  /** Ruby truthiness: everything except `nil` and `false`. */
  predicate Truthy(v: Value) {
    !(v.Nil? || v == Bool(false))
  }

  /** ActiveSupport's `present?`. */
  predicate Present(v: Value) {
    match v
    case Nil => false
    case Bool(b) => b
    case Str(s) => !IsBlank(s)
    case Arr(xs) => |xs| > 0
    case _ => true
  }

  // ---------------------------------------------------------------------------
  // Text renderings

  /** The digits after the decimal point of `x` in [0, 1), at most `k` of them,
      with no trailing zeros. */
  function FractionDigits(x: real, k: nat): string
    requires 0.0 <= x < 1.0
    decreases k
  {
    if k == 0 || x == 0.0 then ""
    else
      var d := (x * 10.0).Floor;
      assert 0 <= d < 10;
      [DigitChar(d)] + FractionDigits(x * 10.0 - d as real, k - 1)
  }

  /** `Float#to_s` for values written in positional notation: the integer
      part, a point, and the fraction digits (at least one). */
  function FloatText(f: real): (r: string)
    ensures |r| >= 3
  {
    var a := if f < 0.0 then -f else f;
    var w := a.Floor;
    var frac := FractionDigits(a - w as real, 17);
    (if f < 0.0 then "-" else "") + NatText(w) + "." + (if frac == "" then "0" else frac)
  }

  /** The escapes `String#inspect` applies to quotes, backslashes and the common
      control characters. */
  function EscapeInspect(s: string): string {
    if |s| == 0 then ""
    else
      var c := s[0];
      var e :=
        if c == '"' then "\\\"" else if c == '\\' then "\\\\"
        else if c == '\n' then "\\n" else if c == '\t' then "\\t"
        else if c == '\r' then "\\r" else [c];
      e + EscapeInspect(s[1..])
  }

  /** `inspect`. */
  function Inspect(v: Value): string {
    match v
    case Nil => "nil"
    case Str(s) => "\"" + EscapeInspect(s) + "\""
    case Arr(xs) => "[" + Join(seq(|xs|, i requires 0 <= i < |xs| => Inspect(xs[i])), ", ") + "]"
    case Bool(b) => if b then "true" else "false"
    case Int(i) => IntText(i)
    case Float(f) => FloatText(f)
  }

  /** `to_s`. Integers read back through `to_i`. */
  function ToS(v: Value): (r: string)
    ensures v.Nil? ==> r == ""
    ensures v.Str? ==> r == v.s
    ensures v.Int? ==> StrToI(r) == v.i
  {
    StrToIIntText(if v.Int? then v.i else 0);
    match v
    case Nil => ""
    case Str(s) => s
    case _ => Inspect(v)
  }

  // ---------------------------------------------------------------------------
  // Numeric conversions

  /** Rounds toward zero, as `Float#to_i` does. */
  function Truncate(f: real): int {
    if f >= 0.0 then f.Floor else -((-f).Floor)
  }

  /** The optional sign and the text after it, once leading white space is skipped. */
  function SignAndBody(s: string): (bool, string) {
    var t := DropSpaces(s);
    if |t| > 0 && (t[0] == '-' || t[0] == '+') then (t[0] == '-', t[1..]) else (false, t)
  }

  /** `String#to_i`: optional white space and sign, then the leading digits; 0
      when there are none. */
  function StrToI(s: string): (r: int)
    ensures NoDigits(s) ==> r == 0
  {
    NoDigitsBody(s);
    var (neg, body) := SignAndBody(s);
    var e := DigitsEnd(body, 0);
    var n: int := DigitsValue(body[..e]);
    if neg then -n else n
  }

  /** No decimal digit anywhere in the text. */
  predicate NoDigits(s: string) {
    forall i :: 0 <= i < |s| ==> !IsDigit(s[i])
  }

  lemma NoDigitsBody(s: string)
    ensures NoDigits(s) ==> NoDigits(SignAndBody(s).1)
  {
    var t := DropSpaces(s);
    assert t == s[|s| - |t|..];
    if NoDigits(s) {
      forall i | 0 <= i < |t|
        ensures !IsDigit(t[i])
      {
        assert t[i] == s[|s| - |t| + i];
      }
    }
  }

  /** `String#to_f`: optional white space and sign, then
      `digits[.digits][(e|E)[sign]digits]`; 0 when no digit leads. */
  function StrToF(s: string): (r: real)
    ensures NoDigits(s) ==> r == 0.0
  {
    NoDigitsBody(s);
    var (neg, body) := SignAndBody(s);
    var x := NumberValue(body);
    if neg then -x else x
  }

  /** End of the `digits[.digits]` mantissa at the start of `t`; a dot counts
      only when a digit follows it. */
  function MantissaEnd(t: string): (m: nat)
    ensures m <= |t|
  {
    var e := DigitsEnd(t, 0);
    if e + 1 < |t| && t[e] == '.' && IsDigit(t[e + 1]) then DigitsEnd(t, e + 1) else e
  }

  /** The exponent written right after the mantissa: `e` or `E`, an optional
      sign and at least one digit (negative, magnitude); none otherwise. */
  function ExponentAt(t: string, m: nat): (x: Option<(bool, nat)>)
    requires m <= |t|
  {
    if m < |t| && (t[m] == 'e' || t[m] == 'E') then
      var j := if m + 1 < |t| && (t[m + 1] == '-' || t[m + 1] == '+') then m + 2 else m + 1;
      var d := DigitsEnd(t, j);
      if d > j then Some((t[m + 1] == '-', DigitsValue(t[j..d]))) else None
    else None
  }

  /** The unsigned number `to_f` reads at the start of `t`. */
  function NumberValue(t: string): (r: real)
    ensures r >= 0.0
    ensures NoDigits(t) ==> r == 0.0
  {
    var m := MantissaEnd(t);
    var base := DottedNumberValue(t[..m]);
    assert NoDigits(t) ==> base == 0.0 by {
      if NoDigits(t) {
        assert DigitsEnd(t, 0) == 0;
        assert DigitsEnd(t[..m], 0) == 0;
      }
    }
    match ExponentAt(t, m)
    case None => base
    case Some((negative, k)) =>
      if negative then base / Pow10(k) as real else base * Pow10(k) as real
  }

  /** `to_f` reads back the decimal text of an integer. */
  lemma StrToFIntText(i: int)
    ensures StrToF(IntText(i)) == i as real
  {
    var n: nat := if i < 0 then -i else i;
    NumberValueNatText(n);
    if i < 0 {
      assert IntText(i) == "-" + NatText(n);
      StrToFSigned(NatText(n));
    } else {
      StrToFUnsigned(NatText(n));
    }
  }

  /** Text that starts with a digit is read as it stands. */
  lemma StrToFUnsigned(t: string)
    requires |t| > 0 && IsDigit(t[0])
    ensures StrToF(t) == NumberValue(t)
  {
    NoSign(t);
    StrToFOfBody(t, false, t);
  }

  /** A minus sign in front negates what follows it. */
  lemma StrToFSigned(t: string)
    requires |t| > 0 && IsDigit(t[0])
    ensures StrToF("-" + t) == -NumberValue(t)
  {
    MinusSign(t);
    StrToFOfBody("-" + t, true, t);
  }

  /** Text that starts with a digit has no sign and is its own body. */
  lemma NoSign(t: string)
    requires |t| > 0 && IsDigit(t[0])
    ensures SignAndBody(t) == (false, t)
  {
    DropSpacesKeeps(t);
  }

  /** Text that does not start with white space has none to drop. */
  lemma DropSpacesKeeps(s: string)
    requires |s| > 0 && !IsSpace(s[0])
    ensures DropSpaces(s) == s
  {
  }

  /** `to_f` reads the number at the start of the body, negated after a minus. */
  lemma StrToFOfBody(s: string, neg: bool, body: string)
    requires SignAndBody(s) == (neg, body)
    ensures StrToF(s) == if neg then -NumberValue(body) else NumberValue(body)
  {
  }

  /** `to_f` of the decimal text of `n`. */
  lemma NumberValueNatText(n: nat)
    ensures NumberValue(NatText(n)) == n as real
  {
    MantissaOfNatText(n, "");
    assert NatText(n) + "" == NatText(n);
  }

  lemma SpanDigitsPrefix(digits: string, rest: string)
    requires AllDigits(digits)
    requires rest == [] || !IsDigit(rest[0])
    ensures DigitsEnd(digits + rest, 0) == |digits|
  {
    SpanDigitsFrom(digits, rest, 0);
  }

  lemma {:induction false} SpanDigitsFrom(digits: string, rest: string, i: nat)
    requires AllDigits(digits) && i <= |digits|
    requires rest == [] || !IsDigit(rest[0])
    ensures SpanEnd(digits + rest, i, IsDigit) == |digits|
    decreases |digits| - i
  {
    var t := digits + rest;
    if i < |digits| {
      assert t[i] == digits[i];
      SpanDigitsFrom(digits, rest, i + 1);
    } else if i < |t| {
      assert t[i] == rest[0];
    }
  }

  /** `to_f` reads a negative exponent: "25e-3" is 0.025. */
  lemma StrToFNegativeExponent(n: nat, k: nat)
    ensures StrToF(NatText(n) + "e-" + NatText(k)) == n as real / Pow10(k) as real
  {
    var t := NatText(n) + ("e-" + NatText(k));
    DigitLeads(NatText(n), "e-", NatText(k));
    NumberValueNegativeExponent(n, k);
    StrToFUnsigned(t);
  }

  /** Text led by a digit keeps it in front, however the rest is grouped. */
  lemma DigitLeads(a: string, b: string, c: string)
    requires |a| > 0 && IsDigit(a[0])
    ensures a + b + c == a + (b + c)
    ensures |a + (b + c)| > 0 && IsDigit((a + (b + c))[0])
  {
  }

  lemma NumberValueNegativeExponent(n: nat, k: nat)
    ensures NumberValue(NatText(n) + ("e-" + NatText(k))) == n as real / Pow10(k) as real
  {
    var rest := "e-" + NatText(k);
    MantissaOfNatText(n, rest);
    ExponentAfterNatText(n, k);
    NumberValueScaled(NatText(n) + rest, |NatText(n)|, n, k);
  }

  lemma ExponentAfterNatText(n: nat, k: nat)
    ensures ExponentAt(NatText(n) + ("e-" + NatText(k)), |NatText(n)|) == Some((true, k))
  {
    var t := NatText(n) + ("e-" + NatText(k));
    var w := |NatText(n)|;
    assert t[w] == 'e' && t[w + 1] == '-';
    assert t[w + 2..] == NatText(k);
    NegativeExponentAt(t, w, k);
  }

  lemma NumberValueScaled(t: string, w: nat, n: nat, k: nat)
    requires w <= |t| && MantissaEnd(t) == w
    requires DottedNumberValue(t[..w]) == n as real
    requires ExponentAt(t, w) == Some((true, k))
    ensures NumberValue(t) == n as real / Pow10(k) as real
  {
  }

  /** The mantissa of a text that starts with the digits of `n` and goes on
      with something other than a digit or a dot. */
  lemma MantissaOfNatText(n: nat, rest: string)
    requires rest == [] || (!IsDigit(rest[0]) && rest[0] != '.')
    ensures MantissaEnd(NatText(n) + rest) == |NatText(n)|
    ensures DottedNumberValue((NatText(n) + rest)[..|NatText(n)|]) == n as real
  {
    var t := NatText(n) + rest;
    assert t[..|NatText(n)|] == NatText(n);
    SpanDigitsPrefix(NatText(n), rest);
    DottedNumberOfDigits(NatText(n));
    DigitsValueNatText(n);
  }

  lemma NegativeExponentAt(t: string, w: nat, k: nat)
    requires w + 2 <= |t| && t[w] == 'e' && t[w + 1] == '-' && t[w + 2..] == NatText(k)
    ensures ExponentAt(t, w) == Some((true, k))
  {
    DigitsEndShift(t, w + 2);
    assert t[w + 2..|t|] == NatText(k);
    DigitsValueNatText(k);
  }

  /** A run of digits that reaches the end of the text. */
  lemma DigitsEndShift(t: string, j: nat)
    requires j <= |t| && AllDigits(t[j..])
    ensures DigitsEnd(t, j) == |t|
  {
    assert forall i :: j <= i < |t| ==> t[i] == t[j..][i - j];
  }

  lemma StrToINatText(n: nat)
    ensures StrToI(NatText(n)) == n
  {
    var t := NatText(n);
    assert DropSpaces(t) == t;
    assert DigitsEnd(t, 0) == |t|;
    assert t[..|t|] == t;
    DigitsValueNatText(n);
  }

  /** `to_i` reads back `Integer#to_s`, negative numbers included. */
  lemma StrToIIntText(i: int)
    ensures StrToI(IntText(i)) == i
  {
    if i < 0 {
      var u := NatText(-i);
      assert IntText(i) == "-" + u;
      MinusSign(u);
      StrToIOfBody("-" + u, true, u);
      DigitsEndShift(u, 0);
      assert u[..|u|] == u;
      DigitsValueNatText(-i);
    } else {
      StrToINatText(i);
    }
  }

  /** A leading minus is the sign, and what follows it the body. */
  lemma MinusSign(u: string)
    requires |u| > 0 && IsDigit(u[0])
    ensures SignAndBody("-" + u) == (true, u)
  {
    DropSpacesKeeps("-" + u);
    assert ("-" + u)[1..] == u;
  }

  /** `to_i` reads the leading digits of the body, negated after a minus. */
  lemma StrToIOfBody(s: string, neg: bool, body: string)
    requires SignAndBody(s) == (neg, body)
    ensures var n: int := DigitsValue(body[..DigitsEnd(body, 0)]); StrToI(s) == if neg then -n else n
  {
  }

  function UndefinedMethod(name: string, v: Value): Error {
    NoMethodError("undefined method '" + name + "' for " + Inspect(v))
  }

  /** `to_i` (raises on values that have no such method). */
  function ToI(v: Value): Result<int> {
    match v
    case Nil => Ok(0)
    case Int(i) => Ok(i)
    case Float(f) => Ok(Truncate(f))
    case Str(s) => Ok(StrToI(s))
    case _ => Err(UndefinedMethod("to_i", v))
  }

  /** `to_f`. */
  function ToF(v: Value): Result<real> {
    match v
    case Nil => Ok(0.0)
    case Int(i) => Ok(i as real)
    case Float(f) => Ok(f)
    case Str(s) => Ok(StrToF(s))
    case _ => Err(UndefinedMethod("to_f", v))
  }

  // ---------------------------------------------------------------------------
  // Equality and ordering

  /** `==`: Integer and Float compare by value; everything else structurally. */
  predicate RubyEq(a: Value, b: Value) {
    match (a, b)
    case (Int(x), Float(y)) => x as real == y
    case (Float(x), Int(y)) => x == y as real
    case (Arr(xs), Arr(ys)) =>
      |xs| == |ys| && forall i :: 0 <= i < |xs| ==> RubyEq(xs[i], ys[i])
    case _ => a == b
  }

  lemma RubyEqReflexive(a: Value)
    ensures RubyEq(a, a)
  {
    match a
    case Arr(xs) =>
      forall i | 0 <= i < |xs|
        ensures RubyEq(xs[i], xs[i])
      {
        RubyEqReflexive(xs[i]);
      }
    case _ =>
  }

  /** Lexicographic order on strings (by code point, which is also UTF-8 byte order). */
  function StrCompare(a: string, b: string): (r: int)
    ensures -1 <= r <= 1
    ensures r == 0 <==> a == b
    decreases |a|
  {
    if |a| == 0 then (if |b| == 0 then 0 else -1)
    else if |b| == 0 then 1
    else if a[0] < b[0] then -1
    else if a[0] > b[0] then 1
    else
      var r := StrCompare(a[1..], b[1..]);
      assert r == 0 ==> a == [a[0]] + a[1..] && b == [b[0]] + b[1..];
      r
  }

  predicate IsNumeric(v: Value) { v.Int? || v.Float? }

  function NumericValue(v: Value): real
    requires IsNumeric(v)
  {
    if v.Int? then v.i as real else v.f
  }

  /** How Ruby names the right operand in "comparison of X with Y failed". */
  function ComparisonOperandName(v: Value): string {
    match v
    case Str(_) => "String"
    case Arr(_) => "Array"
    case _ => Inspect(v)
  }

  function ClassName(v: Value): string {
    match v
    case Nil => "NilClass"
    case Bool(b) => if b then "TrueClass" else "FalseClass"
    case Int(_) => "Integer"
    case Float(_) => "Float"
    case Str(_) => "String"
    case Arr(_) => "Array"
  }

  /** `a <=> b` as the ordering operators use it: -1, 0 or 1 for two numbers
      or two strings, and the exception Ruby raises otherwise (`op` names the
      operator for the message). */
  function Compare(a: Value, b: Value, op: string): (r: Result<int>)
    ensures r.Ok? <==> (IsNumeric(a) && IsNumeric(b)) || (a.Str? && b.Str?)
    ensures r.Ok? ==> -1 <= r.value <= 1
    ensures r.Ok? && IsNumeric(a) ==>
      (r.value < 0 <==> NumericValue(a) < NumericValue(b)) &&
      (r.value == 0 <==> NumericValue(a) == NumericValue(b))
  {
    if IsNumeric(a) && IsNumeric(b) then
      var x := NumericValue(a);
      var y := NumericValue(b);
      Ok(if x < y then -1 else if x == y then 0 else 1)
    else if a.Str? && b.Str? then Ok(StrCompare(a.s, b.s))
    else if IsNumeric(a) || a.Str? then
      Err(ArgumentError("comparison of " + ClassName(a) + " with " + ComparisonOperandName(b) + " failed"))
    else Err(UndefinedMethod(op, a))
  }

  // ---------------------------------------------------------------------------
  // Insertion-ordered hashes

  /** A Ruby Hash: bindings in insertion order. */
  type Dict = seq<(string, Value)>

  function Keys(d: Dict): (ks: seq<string>)
    ensures |ks| == |d|
    ensures forall i :: 0 <= i < |d| ==> ks[i] == d[i].0
  {
    if |d| == 0 then [] else [d[0].0] + Keys(d[1..])
  }

  predicate HasKey(d: Dict, k: string) {
    k in Keys(d)
  }

  /** No key is bound twice (every Ruby hash). */
  predicate UniqueKeys(d: Dict) {
    |d| == 0 || (!HasKey(d[1..], d[0].0) && UniqueKeys(d[1..]))
  }

  /** `hash[k]`: the value of the first binding of `k`, or nil. */
  function Get(d: Dict, k: string): (v: Value)
    ensures !HasKey(d, k) ==> v == Nil
  {
    if |d| == 0 then Nil
    else if d[0].0 == k then d[0].1
    else Get(d[1..], k)
  }

  /** A bound key reads the value of its first binding. */
  lemma {:induction false} GetFirst(d: Dict, k: string)
    requires HasKey(d, k)
    ensures exists i :: 0 <= i < |d| && d[i] == (k, Get(d, k)) && !HasKey(d[..i], k)
    decreases |d|
  {
    if d[0].0 == k {
      assert d[..0] == [];
      assert d[0] == (k, Get(d, k));
    } else {
      assert Keys(d) == [d[0].0] + Keys(d[1..]);
      GetFirst(d[1..], k);
      var j :| 0 <= j < |d[1..]| && d[1..][j] == (k, Get(d[1..], k)) && !HasKey(d[1..][..j], k);
      assert d[1..][..j] == d[1..j + 1];
      assert Keys(d[..j + 1]) == [d[0].0] + Keys(d[1..j + 1]);
      assert d[j + 1] == (k, Get(d, k));
    }
  }

  /** The value of the last binding of `k`. */
  function LastValue(d: Dict, k: string): (v: Value)
    requires HasKey(d, k)
    decreases |d|
  {
    assert Keys(d) == [d[0].0] + Keys(d[1..]);
    if HasKey(d[1..], k) then LastValue(d[1..], k) else d[0].1
  }

  /** In a hash, the last binding of a key is its only one. */
  lemma {:induction false} LastValueUnique(d: Dict, k: string)
    requires UniqueKeys(d) && HasKey(d, k)
    ensures LastValue(d, k) == Get(d, k)
    decreases |d|
  {
    assert Keys(d) == [d[0].0] + Keys(d[1..]);
    if HasKey(d[1..], k) {
      LastValueUnique(d[1..], k);
    }
  }

  /** `hash[k] = v`: replaces the binding in place, or appends a new one. */
  function Put(d: Dict, k: string, v: Value): (r: Dict)
    ensures Get(r, k) == v
    ensures forall k' :: k' != k ==> Get(r, k') == Get(d, k')
    ensures HasKey(d, k) ==> Keys(r) == Keys(d)
    ensures !HasKey(d, k) ==> Keys(r) == Keys(d) + [k]
  {
    if |d| == 0 then [(k, v)]
    else if d[0].0 == k then
      assert ([(k, v)] + d[1..])[1..] == d[1..];
      [(k, v)] + d[1..]
    else
      var rest := Put(d[1..], k, v);
      assert ([d[0]] + rest)[1..] == rest;
      assert Keys([d[0]] + rest) == [d[0].0] + Keys(rest);
      [d[0]] + rest
  }

  /** Putting into a hash keeps it a hash. */
  lemma {:induction false} PutUnique(d: Dict, k: string, v: Value)
    requires UniqueKeys(d)
    ensures UniqueKeys(Put(d, k, v))
  {
    if |d| > 0 && d[0].0 != k {
      PutUnique(d[1..], k, v);
      var r := Put(d, k, v);
      assert r[1..] == Put(d[1..], k, v);
      assert !HasKey(r[1..], d[0].0);
    }
  }

  /** A new key is appended at the end. */
  lemma {:induction false} PutAbsent(d: Dict, k: string, v: Value)
    requires !HasKey(d, k)
    ensures Put(d, k, v) == d + [(k, v)]
  {
    if |d| > 0 {
      AbsentFromTail(d, k);
      var tail := d[1..];
      assert Put(d, k, v) == [d[0]] + Put(tail, k, v);
      PutAbsent(tail, k, v);
      AppendAssoc([d[0]], tail, [(k, v)]);
      HeadTail(d);
    }
  }

  lemma HeadTail(d: Dict)
    requires |d| > 0
    ensures [d[0]] + d[1..] == d
  {
  }

  lemma AppendAssoc(a: Dict, b: Dict, c: Dict)
    ensures a + (b + c) == (a + b) + c
  {
  }

  lemma AbsentFromTail(d: Dict, k: string)
    requires |d| > 0 && !HasKey(d, k)
    ensures d[0].0 != k && !HasKey(d[1..], k)
  {
    assert Keys(d) == [d[0].0] + Keys(d[1..]);
  }

  /** `a.merge(b)`: the bindings of `b` put into `a` in order, so the last
      binding of a key in `b` wins, and `a` supplies the keys `b` lacks. */
  function Merge(a: Dict, b: Dict): (r: Dict)
    ensures forall k :: Get(r, k) == if HasKey(b, k) then LastValue(b, k) else Get(a, k)
    ensures forall k :: HasKey(r, k) <==> HasKey(a, k) || HasKey(b, k)
    decreases |b|
  {
    if |b| == 0 then a
    else
      var r := Merge(Put(a, b[0].0, b[0].1), b[1..]);
      assert Keys(b) == [b[0].0] + Keys(b[1..]);
      assert forall k :: HasKey(Put(a, b[0].0, b[0].1), k) <==> HasKey(a, k) || k == b[0].0;
      r
  }

  /** Merging a leading binding is putting it first. */
  lemma MergeCons(a: Dict, k: string, v: Value, rest: Dict)
    ensures Merge(a, [(k, v)] + rest) == Merge(Put(a, k, v), rest)
  {
    assert ([(k, v)] + rest)[1..] == rest;
  }

  /** Merging: the right-hand hash wins on shared keys, the left-hand one
      supplies the rest, and the keys are those of both. */
  lemma {:induction false} MergeGet(a: Dict, b: Dict, k: string)
    requires UniqueKeys(b)
    ensures Get(Merge(a, b), k) == if HasKey(b, k) then Get(b, k) else Get(a, k)
    ensures HasKey(Merge(a, b), k) <==> HasKey(a, k) || HasKey(b, k)
    decreases |b|
  {
    if HasKey(b, k) {
      LastValueUnique(b, k);
    }
  }

  /** Merging into a hash keeps it a hash. */
  lemma {:induction false} MergeUnique(a: Dict, b: Dict)
    requires UniqueKeys(a)
    ensures UniqueKeys(Merge(a, b))
    decreases |b|
  {
    if |b| > 0 {
      PutUnique(a, b[0].0, b[0].1);
      MergeUnique(Put(a, b[0].0, b[0].1), b[1..]);
    }
  }

  lemma KeysSnoc(a: Dict, p: (string, Value))
    ensures Keys(a + [p]) == Keys(a) + [p.0]
  {
    var l := Keys(a + [p]);
    assert |l| == |Keys(a) + [p.0]|;
    forall i | 0 <= i < |l|
      ensures l[i] == (Keys(a) + [p.0])[i]
    {
      assert (a + [p])[i] == if i < |a| then a[i] else p;
    }
  }

  lemma TailKeysFresh(a: Dict, b: Dict)
    requires |b| > 0 && UniqueKeys(b)
    requires forall i :: 0 <= i < |b| ==> b[i].0 !in Keys(a)
    ensures forall i :: 0 <= i < |b| - 1 ==> b[1..][i].0 !in Keys(a + [b[0]])
  {
    KeysSnoc(a, b[0]);
    var kb := Keys(b[1..]);
    forall i | 0 <= i < |b| - 1
      ensures b[1..][i].0 !in Keys(a + [b[0]])
    {
      assert b[1..][i] == b[i + 1];
      assert b[i + 1].0 == kb[i];
    }
  }

  lemma SnocConcat(a: Dict, b: Dict)
    requires |b| > 0
    ensures (a + [b[0]]) + b[1..] == a + b
  {
    assert b == [b[0]] + b[1..];
  }

  /** Merging a hash whose keys are all new appends its bindings in order. */
  lemma {:induction false} MergeDisjoint(a: Dict, b: Dict)
    requires UniqueKeys(b)
    requires forall i :: 0 <= i < |b| ==> b[i].0 !in Keys(a)
    ensures Merge(a, b) == a + b
    decreases |b|
  {
    if |b| > 0 {
      PutAbsent(a, b[0].0, b[0].1);
      TailKeysFresh(a, b);
      MergeDisjoint(a + [b[0]], b[1..]);
      SnocConcat(a, b);
    }
  }
}
