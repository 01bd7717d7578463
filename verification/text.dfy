/** String primitives the Ruby code relies on, written out over `seq<char>`:
    character classes, substring search, `strip`, `split`, `join`, `gsub` with a
    literal pattern, `downcase`, and the decimal readings behind `to_i`/`to_f`.
    Character classes are the ASCII ones Ruby's regexps use (`\d`, `\w`, `\s`);
    only `blank?` looks at Unicode white space. */
module Text {
  import opened Common

  // ---------------------------------------------------------------------------
  // Character classes

  predicate IsDigit(c: char) { '0' <= c <= '9' }

  predicate IsUpper(c: char) { 'A' <= c <= 'Z' }

  predicate IsLetter(c: char) { 'a' <= c <= 'z' || IsUpper(c) }

  /** Ruby's `\w`. */
  predicate IsWordChar(c: char) { IsLetter(c) || IsDigit(c) || c == '_' }

  /** Ruby's `\s`: space, tab, line feed, vertical tab, form feed, carriage return. */
  predicate IsSpace(c: char) {
    c == ' ' || c == '\t' || c == '\n' || c == '\U{000B}' || c == '\U{000C}' || c == '\r'
  }

  /** What `String#strip` removes at either end: `\s` and NUL. */
  predicate IsStripChar(c: char) { IsSpace(c) || c == '\0' }

  predicate AllDigits(s: string) { forall i :: 0 <= i < |s| ==> IsDigit(s[i]) }

  /** Unicode White_Space, what `[[:space:]]` matches in a Ruby regexp: `\s`
      plus NEL, the no-break spaces, the ogham space mark, the typographic
      spaces U+2000..U+200A, the line and paragraph separators, the medium
      mathematical space and the ideographic space. */
  predicate IsWhiteSpace(c: char) {
    IsSpace(c) || c == '\U{0085}' || c == '\U{00A0}' || c == '\U{1680}' ||
    ('\U{2000}' <= c <= '\U{200A}') || c == '\U{2028}' || c == '\U{2029}' ||
    c == '\U{202F}' || c == '\U{205F}' || c == '\U{3000}'
  }

  /** ActiveSupport's `blank?` on a string, `/\A[[:space:]]*\z/`: nothing but
      Unicode white space. */
  predicate IsBlank(s: string) { forall i :: 0 <= i < |s| ==> IsWhiteSpace(s[i]) }

  // ---------------------------------------------------------------------------
  // Case

  function LowerChar(c: char): (r: char)
    ensures IsUpper(c) ==> r as int == c as int + 32
    ensures !IsUpper(c) ==> r == c
    ensures !IsUpper(r)
  {
    if IsUpper(c) then (c as int + 32) as char else c
  }

  function UpperChar(c: char): (r: char)
    ensures 'a' <= c <= 'z' ==> r as int == c as int - 32
    ensures !('a' <= c <= 'z') ==> r == c
  {
    if 'a' <= c <= 'z' then (c as int - 32) as char else c
  }

  /** `String#downcase`, on ASCII letters. */
  function Lower(s: string): (r: string)
    ensures |r| == |s|
    ensures forall i :: 0 <= i < |s| ==> r[i] == LowerChar(s[i])
  {
    seq(|s|, i requires 0 <= i < |s| => LowerChar(s[i]))
  }

  lemma LowerIdempotent(s: string)
    ensures Lower(Lower(s)) == Lower(s)
  {
  }

  lemma LowerAppend(a: string, b: string)
    ensures Lower(a + b) == Lower(a) + Lower(b)
  {
  }

  // ---------------------------------------------------------------------------
  // Prefixes, suffixes, substrings

  predicate StartsWith(s: string, p: string) { |p| <= |s| && s[..|p|] == p }

  predicate EndsWith(s: string, p: string) { |p| <= |s| && s[|s| - |p|..] == p }

  /** `sub` occurs in `s` starting at index `i`. */
  predicate OccursAt(s: string, sub: string, i: int) {
    0 <= i && i + |sub| <= |s| && s[i..i + |sub|] == sub
  }

  /** First index at or after `from` where `sub` occurs. */
  function FindFrom(s: string, sub: string, from: nat): (r: Option<nat>)
    ensures r.Some? ==> from <= r.value && OccursAt(s, sub, r.value)
    ensures r.Some? ==> forall j :: from <= j < r.value ==> !OccursAt(s, sub, j)
    ensures r.None? ==> forall j :: from <= j ==> !OccursAt(s, sub, j)
    decreases |s| - from
  {
    if from + |sub| > |s| then None
    else if s[from..from + |sub|] == sub then Some(from)
    else FindFrom(s, sub, from + 1)
  }

  /** `String#include?`. */
  predicate Contains(s: string, sub: string) {
    FindFrom(s, sub, 0).Some?
  }

  lemma ContainsIff(s: string, sub: string)
    ensures Contains(s, sub) <==> exists i :: OccursAt(s, sub, i)
  {
    if Contains(s, sub) {
      assert OccursAt(s, sub, FindFrom(s, sub, 0).value);
    }
  }

  /** An occurrence past a prefix is an occurrence in the rest. */
  lemma NoOccurrenceAfter(pre: string, rest: string, sub: string)
    requires !Contains(rest, sub)
    ensures forall k :: |pre| <= k ==> !OccursAt(pre + rest, sub, k)
  {
    forall k | |pre| <= k && OccursAt(pre + rest, sub, k)
      ensures OccursAt(rest, sub, k - |pre|)
    {
      assert (pre + rest)[k..k + |sub|] == rest[k - |pre|..k - |pre| + |sub|];
    }
    ContainsIff(rest, sub);
  }

  /** A text without the first character of `sub` does not contain it. */
  lemma NotContainsFirstChar(s: string, sub: string)
    requires |sub| > 0 && sub[0] !in s
    ensures !Contains(s, sub)
  {
    forall i | 0 <= i && i + |sub| <= |s|
      ensures !OccursAt(s, sub, i)
    {
      assert s[i..i + |sub|][0] == s[i];
    }
    ContainsIff(s, sub);
  }

  lemma ContainsAt(s: string, sub: string, i: int)
    requires OccursAt(s, sub, i)
    ensures Contains(s, sub)
  {
    ContainsIff(s, sub);
  }

  lemma NotContainsAt(s: string, sub: string, i: int)
    requires !Contains(s, sub)
    ensures !OccursAt(s, sub, i)
  {
    ContainsIff(s, sub);
  }

  /** A string contains everything a piece of it contains. */
  lemma ContainsInside(s: string, i: nat, j: nat, sub: string)
    requires i <= j <= |s|
    requires Contains(s[i..j], sub)
    ensures Contains(s, sub)
  {
    ContainsIff(s[i..j], sub);
    var k :| OccursAt(s[i..j], sub, k);
    assert 0 <= k && k + |sub| <= j - i;
    var t := s[i..j];
    var a := s[i + k..i + k + |sub|];
    var b := t[k..k + |sub|];
    forall m | 0 <= m < |sub|
      ensures a[m] == b[m]
    {
      assert a[m] == s[i + k + m];
      assert b[m] == t[k + m] == s[i + k + m];
    }
    assert a == b;
    ContainsAt(s, sub, i + k);
  }

  /** Last index `i` with `i >= lo` where `sub` occurs. */
  function FindLast(s: string, sub: string, lo: nat): (r: Option<nat>)
    ensures r.Some? ==> lo <= r.value && OccursAt(s, sub, r.value)
    ensures r.Some? ==> forall j :: r.value < j ==> !OccursAt(s, sub, j)
    ensures r.None? ==> forall j :: lo <= j ==> !OccursAt(s, sub, j)
  {
    FindLastBelow(s, sub, lo, |s| + 1)
  }

  function FindLastBelow(s: string, sub: string, lo: nat, hi: nat): (r: Option<nat>)
    requires hi <= |s| + 1
    ensures r.Some? ==> lo <= r.value < hi && OccursAt(s, sub, r.value)
    ensures r.Some? ==> forall j :: r.value < j < hi ==> !OccursAt(s, sub, j)
    ensures r.None? ==> forall j :: lo <= j < hi ==> !OccursAt(s, sub, j)
    ensures hi == |s| + 1 ==> forall j :: hi <= j ==> !OccursAt(s, sub, j)
    decreases hi
  {
    if hi <= lo then None
    else if OccursAt(s, sub, hi - 1) then Some(hi - 1)
    else FindLastBelow(s, sub, lo, hi - 1)
  }

  // ---------------------------------------------------------------------------
  // Runs of characters

  /** End of the maximal run of characters satisfying `p` that starts at `i`. */
  function SpanEnd(s: string, i: nat, p: char -> bool): (j: nat)
    requires i <= |s|
    ensures i <= j <= |s|
    ensures forall k :: i <= k < j ==> p(s[k])
    ensures j == |s| || !p(s[j])
    decreases |s| - i
  {
    if i == |s| || !p(s[i]) then i else SpanEnd(s, i + 1, p)
  }

  /** End of the maximal run of digits starting at `i`. */
  function DigitsEnd(s: string, i: nat): (j: nat)
    requires i <= |s|
    ensures i <= j <= |s|
    ensures forall k :: i <= k < j ==> IsDigit(s[k])
    ensures j == |s| || !IsDigit(s[j])
  {
    SpanEnd(s, i, IsDigit)
  }

  /** Start of the maximal run of characters satisfying `p` that ends at `j`. */
  function SpanStart(s: string, j: nat, p: char -> bool): (i: nat)
    requires j <= |s|
    ensures i <= j
    ensures forall k :: i <= k < j ==> p(s[k])
    ensures i == 0 || !p(s[i - 1])
    decreases j
  {
    if j == 0 || !p(s[j - 1]) then j else SpanStart(s, j - 1, p)
  }

  // ---------------------------------------------------------------------------
  // Whole words

  /** `w` (lower-case) occurs at `i` ignoring ASCII case, with a word boundary
      (`\b`) on both sides: the regexp `/\bw\b/i` matches there. */
  predicate WordAt(s: string, w: string, i: int) {
    OccursAt(Lower(s), w, i)
    && (i == 0 || !IsWordChar(s[i - 1]))
    && (i + |w| == |s| || !IsWordChar(s[i + |w|]))
  }

  /** `s.match?(/\bw\b/i)` for a lower-case word `w`. */
  predicate ContainsWord(s: string, w: string) {
    exists i | 0 <= i <= |s| :: WordAt(s, w, i)
  }

  // ---------------------------------------------------------------------------
  // strip, blank, white-space squeezing

  function LStrip(s: string): (r: string)
    ensures |r| <= |s| && r == s[|s| - |r|..]
    ensures forall k :: 0 <= k < |s| - |r| ==> IsStripChar(s[k])
    ensures r == [] || !IsStripChar(r[0])
  {
    if |s| > 0 && IsStripChar(s[0]) then LStrip(s[1..]) else s
  }

  function RStrip(s: string): (r: string)
    ensures |r| <= |s| && r == s[..|r|]
    ensures forall k :: |r| <= k < |s| ==> IsStripChar(s[k])
    ensures r == [] || !IsStripChar(r[|r| - 1])
  {
    if |s| > 0 && IsStripChar(s[|s| - 1]) then RStrip(s[..|s| - 1]) else s
  }

  /** Leading white space never changes what `lstrip` leaves. */
  lemma {:induction false} LStripLeading(sp: string, x: string)
    requires forall k :: 0 <= k < |sp| ==> IsStripChar(sp[k])
    ensures LStrip(sp + x) == LStrip(x)
    decreases |sp|
  {
    if |sp| > 0 {
      assert (sp + x)[0] == sp[0];
      assert (sp + x)[1..] == sp[1..] + x;
      LStripLeading(sp[1..], x);
    } else {
      assert sp + x == x;
    }
  }

  /** `String#strip`. */
  function Strip(s: string): (r: string)
    ensures r == [] || (!IsStripChar(r[0]) && !IsStripChar(r[|r| - 1]))
  {
    RStrip(LStrip(s))
  }

  lemma StripLeading(sp: string, x: string)
    requires forall k :: 0 <= k < |sp| ==> IsStripChar(sp[k])
    ensures Strip(sp + x) == Strip(x)
  {
    LStripLeading(sp, x);
  }

  lemma StripNoop(s: string)
    requires s == [] || (!IsStripChar(s[0]) && !IsStripChar(s[|s| - 1]))
    ensures Strip(s) == s
  {
  }

  lemma StripIdempotent(s: string)
    ensures Strip(Strip(s)) == Strip(s)
  {
    StripNoop(Strip(s));
  }

  /** Drops a leading run of `\s` characters. */
  function DropSpaces(s: string): (r: string)
    ensures |r| <= |s| && r == s[|s| - |r|..]
    ensures r == [] || !IsSpace(r[0])
  {
    if |s| > 0 && IsSpace(s[0]) then DropSpaces(s[1..]) else s
  }

  /** `gsub(/\s+/, " ")`: every maximal run of white space becomes one space. */
  function Squeeze(s: string): (r: string)
    decreases |s|
  {
    if |s| == 0 then []
    else if IsSpace(s[0]) then " " + Squeeze(DropSpaces(s[1..]))
    else [s[0]] + Squeeze(s[1..])
  }

  /** The normalisation the dashboard applies before its keyword checks:
      `strip.gsub(/\s+/, " ").downcase`. */
  function Normalize(s: string): string {
    Lower(Squeeze(Strip(s)))
  }

  // ---------------------------------------------------------------------------
  // split / join

  /** The pieces of `s` between occurrences of `sep`, empty pieces kept. */
  function Fields(s: string, sep: char): (r: seq<string>)
    ensures |r| >= 1
    ensures forall i :: 0 <= i < |r| ==> sep !in r[i]
    decreases |s|
  {
    if |s| == 0 then [""]
    else
      var rest := Fields(s[1..], sep);
      if s[0] == sep then [""] + rest else [[s[0]] + rest[0]] + rest[1..]
  }

  /** `Array#join(sep)`. */
  function Join(parts: seq<string>, sep: string): string
    decreases |parts|
  {
    if |parts| == 0 then ""
    else if |parts| == 1 then parts[0]
    else parts[0] + sep + Join(parts[1..], sep)
  }

  lemma JoinCons(p: string, parts: seq<string>, sep: string)
    requires |parts| >= 1
    ensures Join([p] + parts, sep) == p + sep + Join(parts, sep)
  {
    assert ([p] + parts)[1..] == parts;
  }

  lemma JoinSnoc(parts: seq<string>, p: string, sep: string)
    requires |parts| >= 1
    ensures Join(parts + [p], sep) == Join(parts, sep) + sep + p
    decreases |parts|
  {
    if |parts| == 1 {
      assert parts + [p] == [parts[0], p];
    } else {
      assert (parts + [p])[1..] == parts[1..] + [p];
      JoinSnoc(parts[1..], p, sep);
    }
  }

  /** Joining the fields of `s` with the separator gives `s` back. */
  lemma {:induction false} JoinFields(s: string, sep: char)
    ensures Join(Fields(s, sep), [sep]) == s
    decreases |s|
  {
    if |s| > 0 {
      var rest := Fields(s[1..], sep);
      JoinFields(s[1..], sep);
      if s[0] == sep {
        JoinCons("", rest, [sep]);
      } else if |rest| == 1 {
        assert Fields(s, sep) == [[s[0]] + rest[0]];
      } else {
        JoinCons(rest[0], rest[1..], [sep]);
        assert rest == [rest[0]] + rest[1..];
        JoinCons([s[0]] + rest[0], rest[1..], [sep]);
        assert s == [s[0]] + s[1..];
      }
    }
  }

  /** Splitting a join of separator-free pieces gives the pieces back. */
  lemma {:induction false} FieldsJoin(parts: seq<string>, sep: char)
    requires |parts| >= 1
    requires forall i :: 0 <= i < |parts| ==> sep !in parts[i]
    ensures Fields(Join(parts, [sep]), sep) == parts
    decreases |parts|, |parts[0]|
  {
    var p := parts[0];
    if |p| == 0 {
      if |parts| == 1 {
      } else {
        JoinCons(p, parts[1..], [sep]);
        var s := Join(parts, [sep]);
        assert s == [sep] + Join(parts[1..], [sep]);
        assert s[1..] == Join(parts[1..], [sep]);
        FieldsJoin(parts[1..], sep);
        assert parts == [""] + parts[1..];
      }
    } else {
      var parts' := [p[1..]] + parts[1..];
      assert forall i :: 0 <= i < |parts'| ==> sep !in parts'[i] by {
        forall i | 0 <= i < |parts'|
          ensures sep !in parts'[i]
        {
          if i == 0 {
            assert forall c :: c in p[1..] ==> c in p;
          } else {
            assert parts'[i] == parts[i];
          }
        }
      }
      FieldsJoin(parts', sep);
      var s := Join(parts, [sep]);
      if |parts| == 1 {
        assert s == p;
        assert s[1..] == Join(parts', [sep]);
      } else {
        JoinCons(p, parts[1..], [sep]);
        JoinCons(p[1..], parts[1..], [sep]);
        assert s == [p[0]] + (p[1..] + [sep] + Join(parts[1..], [sep]));
        assert s[1..] == Join(parts', [sep]);
      }
      assert s[0] == p[0] && p[0] != sep;
      assert p == [p[0]] + p[1..];
      assert parts == [p] + parts[1..];
    }
  }

  /** Drops the empty strings at the end of a list of fields. */
  function DropTrailingEmpty(fs: seq<string>): (r: seq<string>)
    ensures |r| <= |fs| && r == fs[..|r|]
    ensures r == [] || r[|r| - 1] != ""
    ensures forall k :: |r| <= k < |fs| ==> fs[k] == ""
  {
    if |fs| > 0 && fs[|fs| - 1] == "" then DropTrailingEmpty(fs[..|fs| - 1]) else fs
  }

  /** `String#split(sep)` with a one-character string separator: the fields,
      with trailing empty fields removed (so `""` splits into no fields). */
  function Split(s: string, sep: char): (r: seq<string>)
    ensures forall i :: 0 <= i < |r| ==> sep !in r[i]
  {
    DropTrailingEmpty(Fields(s, sep))
  }

  /** `String#split(sep, 2)`: the text before the first `sep` and the rest,
      or the whole string when there is no `sep`, or nothing for `""`. */
  function SplitOnce(s: string, sep: char): (r: seq<string>)
    ensures |r| <= 2
    ensures |r| == 2 ==> r[0] + [sep] + r[1] == s && sep !in r[0]
    ensures |r| == 1 <==> s != "" && sep !in s
    ensures |r| == 1 ==> r[0] == s
    ensures |r| == 0 <==> s == ""
  {
    if sep in s then
      var i := IndexOfChar(s, sep);
      [s[..i], s[i + 1..]]
    else if s == "" then []
    else [s]
  }

  function IndexOfChar(s: string, c: char): (i: nat)
    requires c in s
    ensures i < |s| && s[i] == c && c !in s[..i]
  {
    if s[0] == c then 0 else 1 + IndexOfChar(s[1..], c)
  }

  // ---------------------------------------------------------------------------
  // gsub / sub with a literal pattern

  /** `gsub(pat, rep)` with a literal, non-empty pattern: every occurrence,
      scanned left to right without overlap, is replaced. */
  function ReplaceAll(s: string, pat: string, rep: string): string
    requires |pat| > 0
    decreases |s|
  {
    if |s| < |pat| then s
    else if s[..|pat|] == pat then rep + ReplaceAll(s[|pat|..], pat, rep)
    else [s[0]] + ReplaceAll(s[1..], pat, rep)
  }

  /** Text without the pattern is left alone by `gsub`. */
  lemma {:induction false} ReplaceAllAbsent(s: string, pat: string, rep: string)
    requires |pat| > 0
    requires !Contains(s, pat)
    ensures ReplaceAll(s, pat, rep) == s
    decreases |s|
  {
    if |s| >= |pat| {
      NotContainsAt(s, pat, 0);
      assert s[..|pat|] != pat;
      if Contains(s[1..], pat) {
        assert s[1..|s|] == s[1..];
        ContainsInside(s, 1, |s|, pat);
      }
      ReplaceAllAbsent(s[1..], pat, rep);
      assert s == [s[0]] + s[1..];
    }
  }

  /** Replacing a pattern by itself is the identity. */
  lemma {:induction false} ReplaceAllSelf(s: string, pat: string)
    requires |pat| > 0
    ensures ReplaceAll(s, pat, pat) == s
    decreases |s|
  {
    if |s| >= |pat| {
      if s[..|pat|] == pat {
        ReplaceAllSelf(s[|pat|..], pat);
        assert s == s[..|pat|] + s[|pat|..];
      } else {
        ReplaceAllSelf(s[1..], pat);
        assert s == [s[0]] + s[1..];
      }
    }
  }

  /** The replacement text `gsub(String, String)` writes for one match, with
      Ruby's back-references expanded: `\0` and `\&` give the match, `` \` ``
      the text before it, `\'` the text after it, `\\` one backslash, `\1` to
      `\9` nothing (a literal pattern has no groups); any other escaped
      character, and a final lone backslash, are kept as written. */
  function Expand(rep: string, pre: string, matched: string, post: string): (r: string)
    ensures '\\' !in rep ==> r == rep
    decreases |rep|
  {
    if |rep| == 0 then ""
    else if rep[0] != '\\' || |rep| == 1 then
      assert '\\' !in rep ==> '\\' !in rep[1..];
      assert rep == [rep[0]] + rep[1..];
      [rep[0]] + Expand(rep[1..], pre, matched, post)
    else
      var c := rep[1];
      var piece :=
        if c == '0' || c == '&' then matched
        else if c == '`' then pre
        else if c == '\'' then post
        else if c == '\\' then "\\"
        else if '1' <= c <= '9' then ""
        else ['\\', c];
      piece + Expand(rep[2..], pre, matched, post)
  }

  /** `s.gsub(pat, rep)` with a literal, non-empty pattern and a string
      replacement: every occurrence, scanned left to right without overlap,
      is replaced by the expansion of `rep` for it. */
  function Gsub(s: string, pat: string, rep: string): (r: string)
    requires |pat| > 0
  {
    GsubFrom(s, pat, rep, 0)
  }

  /** `gsub` from index `i` of the original text on. */
  function GsubFrom(s: string, pat: string, rep: string, i: nat): (r: string)
    requires |pat| > 0 && i <= |s|
    ensures i == |s| ==> r == ""
    decreases |s| - i
  {
    if |s| - i < |pat| then s[i..]
    else if s[i..i + |pat|] == pat then
      Expand(rep, s[..i], pat, s[i + |pat|..]) + GsubFrom(s, pat, rep, i + |pat|)
    else [s[i]] + GsubFrom(s, pat, rep, i + 1)
  }

  /** Without a backslash in the replacement, `gsub` is plain replacement of
      every occurrence. */
  lemma GsubLiteral(s: string, pat: string, rep: string)
    requires |pat| > 0 && '\\' !in rep
    ensures Gsub(s, pat, rep) == ReplaceAll(s, pat, rep)
  {
    GsubFromLiteral(s, pat, rep, 0);
  }

  lemma {:induction false} GsubFromLiteral(s: string, pat: string, rep: string, i: nat)
    requires |pat| > 0 && '\\' !in rep && i <= |s|
    ensures GsubFrom(s, pat, rep, i) == ReplaceAll(s[i..], pat, rep)
    decreases |s| - i, 1
  {
    if |s| - i < |pat| {
      LiteralEnd(s, pat, rep, i);
    } else if s[i..i + |pat|] == pat {
      LiteralHitFrom(s, pat, rep, i);
    } else {
      LiteralMissFrom(s, pat, rep, i);
    }
  }

  lemma {:induction false} LiteralHitFrom(s: string, pat: string, rep: string, i: nat)
    requires |pat| > 0 && '\\' !in rep && i + |pat| <= |s| && s[i..i + |pat|] == pat
    ensures GsubFrom(s, pat, rep, i) == ReplaceAll(s[i..], pat, rep)
    decreases |s| - i, 0
  {
    GsubFromLiteral(s, pat, rep, i + |pat|);
    LiteralHit(s, pat, rep, i);
  }

  lemma {:induction false} LiteralMissFrom(s: string, pat: string, rep: string, i: nat)
    requires |pat| > 0 && '\\' !in rep && i + |pat| <= |s| && s[i..i + |pat|] != pat
    ensures GsubFrom(s, pat, rep, i) == ReplaceAll(s[i..], pat, rep)
    decreases |s| - i, 0
  {
    GsubFromLiteral(s, pat, rep, i + 1);
    LiteralMiss(s, pat, rep, i);
  }

  lemma SuffixShift(s: string, i: nat, t: string, k: nat)
    requires i <= |s| && t == s[i..] && k <= |t|
    ensures i + k <= |s| && t[k..] == s[i + k..]
    ensures t[..k] == s[i..i + k]
  {
  }

  lemma LiteralEnd(s: string, pat: string, rep: string, i: nat)
    requires |pat| > 0 && i <= |s| && |s| - i < |pat|
    ensures GsubFrom(s, pat, rep, i) == ReplaceAll(s[i..], pat, rep)
  {
  }

  lemma LiteralHit(s: string, pat: string, rep: string, i: nat)
    requires |pat| > 0 && '\\' !in rep && i + |pat| <= |s| && s[i..i + |pat|] == pat
    requires GsubFrom(s, pat, rep, i + |pat|) == ReplaceAll(s[i + |pat|..], pat, rep)
    ensures GsubFrom(s, pat, rep, i) == ReplaceAll(s[i..], pat, rep)
  {
    var t := s[i..];
    SuffixShift(s, i, t, |pat|);
    GsubFromStep(s, pat, rep, i);
    ReplaceAllStep(t, pat, rep);
  }

  lemma LiteralMiss(s: string, pat: string, rep: string, i: nat)
    requires |pat| > 0 && i + |pat| <= |s| && s[i..i + |pat|] != pat
    requires GsubFrom(s, pat, rep, i + 1) == ReplaceAll(s[i + 1..], pat, rep)
    ensures GsubFrom(s, pat, rep, i) == ReplaceAll(s[i..], pat, rep)
  {
    var t := s[i..];
    SuffixShift(s, i, t, |pat|);
    SuffixShift(s, i, t, 1);
    GsubFromStep(s, pat, rep, i);
    ReplaceAllStep(t, pat, rep);
  }

  /** One step of `gsub`: a match is expanded, any other character copied. */
  lemma GsubFromStep(s: string, pat: string, rep: string, i: nat)
    requires |pat| > 0 && i + |pat| <= |s|
    ensures GsubFrom(s, pat, rep, i) ==
      if s[i..i + |pat|] == pat then Expand(rep, s[..i], pat, s[i + |pat|..]) + GsubFrom(s, pat, rep, i + |pat|)
      else [s[i]] + GsubFrom(s, pat, rep, i + 1)
  {
  }

  /** One step of plain replacement. */
  lemma ReplaceAllStep(t: string, pat: string, rep: string)
    requires |pat| > 0 && |pat| <= |t|
    ensures ReplaceAll(t, pat, rep) ==
      if t[..|pat|] == pat then rep + ReplaceAll(t[|pat|..], pat, rep) else [t[0]] + ReplaceAll(t[1..], pat, rep)
  {
  }

  /** Text without the pattern is left alone by `gsub`, whatever the
      replacement. */
  lemma GsubAbsent(s: string, pat: string, rep: string)
    requires |pat| > 0 && !Contains(s, pat)
    ensures Gsub(s, pat, rep) == s
  {
    forall j | 0 <= j
      ensures !OccursAt(s, pat, j)
    {
      NotContainsAt(s, pat, j);
    }
    GsubFromNoneAfter(s, pat, rep, 0);
  }

  /** Past the last occurrence `gsub` copies the rest of the text. */
  lemma {:induction false} GsubFromNoneAfter(s: string, pat: string, rep: string, i: nat)
    requires |pat| > 0 && i <= |s|
    requires forall j :: i <= j ==> !OccursAt(s, pat, j)
    ensures GsubFrom(s, pat, rep, i) == s[i..]
    decreases |s| - i
  {
    if |s| - i >= |pat| {
      assert !OccursAt(s, pat, i);
      GsubFromNoneAfter(s, pat, rep, i + 1);
      assert s[i..] == [s[i]] + s[i + 1..];
    }
  }

  /** A pattern that occurs once, in text where its first character occurs
      nowhere else, is replaced by the expansion of the replacement for that
      one match. */
  lemma GsubSingle(pre: string, pat: string, post: string, rep: string)
    requires |pat| > 0 && pat[0] !in pre && pat[0] !in post
    ensures Gsub(pre + pat + post, pat, rep) == pre + Expand(rep, pre, pat, post) + post
  {
    var s := pre + pat + post;
    var e := Expand(rep, pre, pat, post);
    SingleLayout(pre, pat, post);
    SingleTail(pre, pat, post, rep);
    GsubSinglePrefix(s, pre, pat, rep, e + post, |pre|);
    PrefixThenTail(pre, e, post);
  }

  /** From the match on, the single occurrence is expanded and the rest copied. */
  lemma SingleTail(pre: string, pat: string, post: string, rep: string)
    requires |pat| > 0 && pat[0] !in post
    ensures GsubFrom(pre + pat + post, pat, rep, |pre|) == Expand(rep, pre, pat, post) + post
  {
    var s := pre + pat + post;
    SingleLayout(pre, pat, post);
    PatternNotInPost(pre, pat, post);
    GsubFromNoneAfter(s, pat, rep, |pre| + |pat|);
    GsubFromHit(s, pat, rep, |pre|);
  }

  lemma PrefixThenTail(pre: string, e: string, post: string)
    ensures pre[|pre| - |pre|..] + (e + post) == pre + e + post
  {
    assert pre[|pre| - |pre|..] == pre;
  }

  /** Where the three parts of `pre + pat + post` lie. */
  lemma SingleLayout(pre: string, pat: string, post: string)
    ensures var s := pre + pat + post;
      s[..|pre|] == pre && OccursAt(s, pat, |pre|) && s[|pre| + |pat|..] == post
  {
    var s := pre + pat + post;
    assert s[|pre|..|pre| + |pat|] == pat;
  }

  /** The pattern does not start anywhere in `post` when its first character
      does not occur there. */
  lemma PatternNotInPost(pre: string, pat: string, post: string)
    requires |pat| > 0 && pat[0] !in post
    ensures forall j :: |pre| + |pat| <= j ==> !OccursAt(pre + pat + post, pat, j)
  {
    var s := pre + pat + post;
    forall j | |pre| + |pat| <= j
      ensures !OccursAt(s, pat, j)
    {
      if j + |pat| <= |s| {
        assert s[j] == post[j - |pre| - |pat|];
        assert s[j..j + |pat|][0] == s[j];
      }
    }
  }

  lemma GsubFromHit(s: string, pat: string, rep: string, k: nat)
    requires |pat| > 0 && OccursAt(s, pat, k)
    ensures GsubFrom(s, pat, rep, k) ==
      Expand(rep, s[..k], pat, s[k + |pat|..]) + GsubFrom(s, pat, rep, k + |pat|)
  {
  }

  lemma GsubFromMiss(s: string, pat: string, rep: string, k: nat)
    requires |pat| > 0 && k < |s| && s[k] != pat[0]
    ensures GsubFrom(s, pat, rep, k) == [s[k]] + GsubFrom(s, pat, rep, k + 1)
  {
    if k + |pat| <= |s| {
      assert s[k..k + |pat|][0] == s[k];
    }
  }

  /** `gsub` copies a prefix that holds no first character of the pattern. */
  lemma {:induction false} GsubSinglePrefix(s: string, pre: string, pat: string, rep: string, tail: string, i: nat)
    requires |pat| > 0 && pat[0] !in pre && i <= |pre| && |pre| <= |s| && s[..|pre|] == pre
    requires GsubFrom(s, pat, rep, |pre|) == tail
    ensures GsubFrom(s, pat, rep, |pre| - i) == pre[|pre| - i..] + tail
    decreases i
  {
    if i > 0 {
      var k := |pre| - i;
      GsubSinglePrefix(s, pre, pat, rep, tail, i - 1);
      assert s[k] == pre[k];
      GsubFromMiss(s, pat, rep, k);
      assert pre[k..] == [pre[k]] + pre[k + 1..];
    }
  }

  /** A back-reference in the replacement is expanded, not copied: the
      replacement `'x\\0'` writes the match between the quotes. */
  lemma ExpandMatchReference(pre: string, matched: string, post: string)
    ensures Expand("'x\\0'", pre, matched, post) == "'x" + matched + "'"
  {
    var rep := "'x\\0'";
    assert rep[1..] == "x\\0'";
    assert rep[2..] == "\\0'";
    assert rep[4..] == "'";
    assert Expand(rep[4..], pre, matched, post) == "'";
  }

  /** A single occurrence replaced by `'x\\0'` comes out as `'x`, the
      match itself and `'`. */
  lemma GsubExpandsMatch(pre: string, pat: string, post: string)
    requires |pat| > 0 && pat[0] !in pre && pat[0] !in post
    ensures Gsub(pre + pat + post, pat, "'x\\0'") == pre + "'x" + pat + "'" + post
  {
    GsubSingle(pre, pat, post, "'x\\0'");
    ExpandMatchReference(pre, pat, post);
  }

  /** `sub(pat, rep)`: only the first occurrence is replaced. */
  function ReplaceFirst(s: string, pat: string, rep: string): (r: string)
    ensures !Contains(s, pat) ==> r == s
  {
    match FindFrom(s, pat, 0)
    case None => s
    case Some(i) => s[..i] + rep + s[i + |pat|..]
  }

  // ---------------------------------------------------------------------------
  // Repetition and padding

  /** `c * n`. */
  function Repeat(c: char, n: int): (r: string)
    ensures |r| == if n < 0 then 0 else n
    ensures forall i :: 0 <= i < |r| ==> r[i] == c
  {
    if n <= 0 then [] else [c] + Repeat(c, n - 1)
  }

  /** `String#ljust(w)`: pads with spaces on the right up to width `w`. */
  function LJust(s: string, w: int): (r: string)
    ensures |r| == if |s| >= w then |s| else w
    ensures r[..|s|] == s
  {
    s + Repeat(' ', w - |s|)
  }

  // ---------------------------------------------------------------------------
  // Decimal numbers

  function DigitChar(d: nat): (c: char)
    requires d < 10
    ensures IsDigit(c)
  {
    ('0' as int + d) as char
  }

  function DigitValue(c: char): (d: nat)
    requires IsDigit(c)
    ensures d < 10 && DigitChar(d) == c
  {
    c as int - '0' as int
  }

  /** Decimal text of a natural number, without leading zeros. */
  function NatText(n: nat): (r: string)
    ensures |r| >= 1 && AllDigits(r)
    ensures |r| > 1 ==> r[0] != '0'
  {
    if n < 10 then [DigitChar(n)] else NatText(n / 10) + [DigitChar(n % 10)]
  }

  /** `Integer#to_s`. */
  function IntText(i: int): (r: string)
    ensures |r| >= 1
  {
    if i < 0 then "-" + NatText(-i) else NatText(i)
  }

  /** The number a string of decimal digits denotes. */
  function DigitsValue(s: string): nat
    requires AllDigits(s)
  {
    if |s| == 0 then 0 else DigitsValue(s[..|s| - 1]) * 10 + DigitValue(s[|s| - 1])
  }

  /** Reading back the decimal text of `n` gives `n`. */
  lemma {:induction false} DigitsValueNatText(n: nat)
    ensures DigitsValue(NatText(n)) == n
  {
    if n >= 10 {
      var t := NatText(n);
      assert t[..|t| - 1] == NatText(n / 10);
      DigitsValueNatText(n / 10);
    }
  }

  /** Decimal text is injective. */
  lemma NatTextInjective(m: nat, n: nat)
    requires NatText(m) == NatText(n)
    ensures m == n
  {
    DigitsValueNatText(m);
    DigitsValueNatText(n);
  }

  function Pow10(k: nat): (r: nat)
    ensures r >= 1
  {
    if k == 0 then 1 else 10 * Pow10(k - 1)
  }

  /** Value of a `digits[.digits]` reading: integer digits and fraction digits. */
  function DecimalValue(intDigits: string, fracDigits: string): real
    requires AllDigits(intDigits) && AllDigits(fracDigits)
  {
    DigitsValue(intDigits) as real + DigitsValue(fracDigits) as real / Pow10(|fracDigits|) as real
  }

  /** What `String#to_f` reads from a text made of digits and dots (the
      `[\d.]+` groups of the plan patterns): leading digits, then a dot and
      more digits when present; anything after that is ignored. */
  function DottedNumberValue(t: string): (r: real)
    ensures r >= 0.0
  {
    var e := DigitsEnd(t, 0);
    if e + 1 < |t| && t[e] == '.' && IsDigit(t[e + 1]) then
      var f := DigitsEnd(t, e + 1);
      DecimalValue(t[..e], t[e + 1..f])
    else
      DecimalValue(t[..e], "")
  }

  lemma DottedNumberOfDigits(t: string)
    requires AllDigits(t)
    ensures DottedNumberValue(t) == DigitsValue(t) as real
  {
    assert DigitsEnd(t, 0) == |t|;
    assert t[..|t|] == t;
  }
}
