/** Reading source annotations out of SQL comments: the block comments of a
    query, the `key:value`, `key='value'` and `key="value"` pairs inside them,
    removal of the comments, and the one-line display of what was found.

    A parsed annotation is an insertion-ordered hash from normalised keys to
    string values (`Values.Dict` whose values are all `Str`). */
module AnnotationParser {
  import opened Common
  import opened Text
  import opened Values

  // ---------------------------------------------------------------------------
  // `/\*(.+?)\*/`

  /** A match of the lazy comment pattern starting at `i` and closing at `j`:
      at least one character between the delimiters, none of them a line
      feed, and no earlier closing delimiter. */
  predicate CommentMatch(s: string, i: int, j: int) {
    && OccursAt(s, "/*", i) && i + 3 <= j && OccursAt(s, "*/", j)
    && (forall k :: i + 2 <= k < j ==> s[k] != '\n')
    && (forall k :: i + 3 <= k < j ==> !OccursAt(s, "*/", k))
  }

  /** The two-character delimiter `ab` at index `k`, read character by
      character. */
  predicate DelimAt(s: string, k: int, a: char, b: char) {
    0 <= k && k + 2 <= |s| && s[k] == a && s[k + 1] == b
  }

  lemma DelimOccurs(s: string, k: int, a: char, b: char)
    ensures DelimAt(s, k, a, b) <==> OccursAt(s, [a, b], k)
  {
    if 0 <= k && k + 2 <= |s| {
      assert s[k..k + 2] == [s[k], s[k + 1]];
    }
  }

  /** The first closing delimiter at or after `k` that no line feed precedes. */
  function CloseFrom(s: string, k: nat): (r: Option<nat>)
    ensures r.Some? ==> k <= r.value && r.value + 2 <= |s|
    decreases |s| - k
  {
    if k + 2 > |s| then None
    else if DelimAt(s, k, '*', '/') then Some(k)
    else if s[k] == '\n' then None
    else CloseFrom(s, k + 1)
  }

  /** The delimiter found is the first one, with no line feed before it;
      when none is found, every later delimiter has a line feed before it. */
  lemma {:induction false} CloseFromFirst(s: string, k: nat)
    ensures CloseFrom(s, k).Some? ==> (OccursAt(s, "*/", CloseFrom(s, k).value)
      && (forall m :: k <= m < CloseFrom(s, k).value ==> s[m] != '\n' && !OccursAt(s, "*/", m)))
    ensures CloseFrom(s, k).None? ==> forall j :: k <= j && OccursAt(s, "*/", j) ==>
      exists m :: k <= m < j && s[m] == '\n'
    decreases |s| - k
  {
    if k + 2 <= |s| && !OccursAt(s, "*/", k) && s[k] != '\n' {
      CloseFromFirst(s, k + 1);
    }
  }

  /** Where the comment pattern matches at `i`: the index of its closing
      delimiter. */
  function CommentAt(s: string, i: nat): (r: Option<nat>)
    ensures r.Some? ==> i + 3 <= r.value && r.value + 2 <= |s|
  {
    if DelimAt(s, i, '/', '*') && i + 2 < |s| && s[i + 2] != '\n' then CloseFrom(s, i + 3) else None
  }

  /** `CommentAt` finds the match of the lazy pattern, and only it. */
  lemma CommentAtMatch(s: string, i: nat)
    ensures CommentAt(s, i).Some? ==> CommentMatch(s, i, CommentAt(s, i).value)
    ensures CommentAt(s, i).None? ==> forall j :: !CommentMatch(s, i, j)
  {
    CloseFromFirst(s, i + 3);
  }

  // `query.scan(%r{/\*(.+?)\*/}).flatten` from index `i`: the contents of
  // the comments, left to right, each search resuming after the previous
  // match.
  function Comments(s: string, i: nat): (r: seq<string>)
    ensures forall n :: 0 <= n < |r| ==> |r[n]| >= 1 && '\n' !in r[n]
    decreases |s| - i
  {
    if i >= |s| then []
    else
      CommentAtMatch(s, i);
      match CommentAt(s, i)
      case Some(j) =>
        var c := s[i + 2..j];
        assert '\n' !in c by {
          forall k | 0 <= k < |c| ensures c[k] != '\n' {
            assert c[k] == s[i + 2 + k];
          }
        }
        [c] + Comments(s, j + 2)
      case None => Comments(s, i + 1)
  }

  /** The scan finds nothing exactly when the pattern matches nowhere from
      `i` on. */
  lemma {:induction false} CommentsEmpty(s: string, i: nat)
    ensures Comments(s, i) == [] <==> forall a, b :: i <= a ==> !CommentMatch(s, a, b)
    decreases |s| - i
  {
    if i < |s| {
      CommentAtMatch(s, i);
      if CommentAt(s, i).None? {
        CommentsEmpty(s, i + 1);
      }
    }
  }

  /** Without a closing delimiter from `i` on there is no comment. */
  lemma {:induction false} NoCloseNoComments(s: string, i: nat)
    requires forall k :: i <= k ==> !OccursAt(s, "*/", k)
    ensures Comments(s, i) == []
    decreases |s| - i
  {
    if i < |s| {
      CommentAtMatch(s, i);
      assert CommentAt(s, i).None?;
      NoCloseNoComments(s, i + 1);
    }
  }

  /** A well-formed comment at the start closes at its first closing
      delimiter. */
  lemma LeadingCommentAt(content: string, rest: string)
    requires |content| >= 1 && '\n' !in content && '*' !in content
    ensures CommentAt("/*" + content + "*/" + rest, 0) == Some(|content| + 2)
  {
    var s := "/*" + content + "*/" + rest;
    var j := |content| + 2;
    assert s[2..j] == content;
    assert OccursAt(s, "*/", j);
    forall k | 2 <= k < j
      ensures s[k] != '\n' && !OccursAt(s, "*/", k)
    {
      assert s[k] == content[k - 2];
      assert s[k..k + 2][0] == s[k];
    }
    assert s[..2] == "/*";
    assert CommentMatch(s, 0, j);
    CommentAtMatch(s, 0);
  }

  /** A query that starts with a well-formed comment and has no closing
      delimiter after it holds exactly that one comment. */
  lemma LeadingComment(content: string, rest: string)
    requires |content| >= 1 && '\n' !in content && '*' !in content
    requires !Contains(rest, "*/")
    ensures Comments("/*" + content + "*/" + rest, 0) == [content]
  {
    var s := "/*" + content + "*/" + rest;
    var j := |content| + 2;
    LeadingCommentAt(content, rest);
    assert s[2..j] == content;
    NoOccurrenceAfter("/*" + content + "*/", rest, "*/");
    NoCloseNoComments(s, j + 2);
  }

  // ---------------------------------------------------------------------------
  // Keys and pairs

  function NormalizeChar(c: char): (r: char)
    ensures r != '-' && !IsSpace(r) && !IsUpper(r)
  {
    var l := LowerChar(c);
    if l == '-' || IsSpace(l) then '_' else l
  }

  /** `normalize_key`: lower case, with `-` and white space turned into `_`. */
  function NormalizeKey(k: string): (r: string)
    ensures |r| == |k|
    ensures forall i :: 0 <= i < |k| ==> r[i] == NormalizeChar(k[i])
  {
    seq(|k|, i requires 0 <= i < |k| => NormalizeChar(k[i]))
  }

  /** Normalising twice changes nothing more. */
  lemma NormalizeKeyIdempotent(k: string)
    ensures NormalizeKey(NormalizeKey(k)) == NormalizeKey(k)
  {
    var n := NormalizeKey(k);
    forall i | 0 <= i < |n|
      ensures NormalizeChar(n[i]) == n[i]
    {
      assert LowerChar(n[i]) == n[i];
    }
  }

  /** A key that is already normal: no capitals, dashes or white space. */
  predicate NormalKey(k: string) {
    forall i :: 0 <= i < |k| ==> !IsUpper(k[i]) && k[i] != '-' && !IsSpace(k[i])
  }

  lemma NormalKeyFixed(k: string)
    requires NormalKey(k)
    ensures NormalizeKey(k) == k
  {
  }

  /** The binding one comma-separated piece gives (`pair.split(":", 2)`):
      none without a colon; otherwise the stripped text before the first
      colon, normalised, bound to the stripped rest, later colons included. */
  function ColonBinding(piece: string): (r: Option<(string, Value)>)
    ensures r.Some? <==> ':' in piece
  {
    var kv := SplitOnce(piece, ':');
    if |kv| == 2 then Some((NormalizeKey(Strip(kv[0])), Str(Strip(kv[1])))) else None
  }

  /** The binding splits the piece at its first colon. */
  lemma ColonBindingParts(piece: string)
    requires ':' in piece
    ensures ColonBinding(piece) ==
      Some((NormalizeKey(Strip(piece[..IndexOfChar(piece, ':')])), Str(Strip(piece[IndexOfChar(piece, ':') + 1..]))))
  {
    var kv := SplitOnce(piece, ':');
    assert piece == kv[0] + [':'] + kv[1];
    assert piece[..|kv[0]|] == kv[0] && piece[|kv[0]| + 1..] == kv[1];
    FirstIndexOfChar(piece, ':', |kv[0]|);
  }

  /** The first occurrence of a character is where `IndexOfChar` finds it. */
  lemma FirstIndexOfChar(s: string, c: char, i: nat)
    requires i < |s| && s[i] == c && c !in s[..i]
    ensures IndexOfChar(s, c) == i
  {
    var j := IndexOfChar(s, c);
    assert forall k :: 0 <= k < i ==> s[k] != c by {
      forall k | 0 <= k < i ensures s[k] != c {
        assert s[k] == s[..i][k];
      }
    }
    assert forall k :: 0 <= k < j ==> s[k] != c by {
      forall k | 0 <= k < j ensures s[k] != c {
        assert s[k] == s[..j][k];
      }
    }
  }

  /** A piece `key:value` whose key has no colon binds the normalised key to
      the whole stripped value, however many colons it holds. */
  lemma ColonBindingSplit(key: string, value: string)
    requires ':' !in key
    ensures ColonBinding(key + ":" + value) == Some((NormalizeKey(Strip(key)), Str(Strip(value))))
  {
    var piece := key + ":" + value;
    assert piece[|key|] == ':' && piece[..|key|] == key && piece[|key| + 1..] == value;
    FirstIndexOfChar(piece, ':', |key|);
  }

  /** The bindings of the pieces that have a colon, in order. */
  function ColonBindings(pieces: seq<string>): (r: seq<(string, Value)>)
    ensures |r| <= |pieces|
    decreases |pieces|
  {
    if |pieces| == 0 then []
    else
      var rest := ColonBindings(pieces[1..]);
      match ColonBinding(pieces[0])
      case Some(b) => [b] + rest
      case None => rest
  }

  /** A binding is read from the pieces exactly when one of them, having a
      colon, gives it; the pieces without a colon are skipped. */
  lemma {:induction false} ColonBindingsMember(pieces: seq<string>, b: (string, Value))
    ensures b in ColonBindings(pieces) <==> exists n :: 0 <= n < |pieces| && ColonBinding(pieces[n]) == Some(b)
    decreases |pieces|
  {
    if |pieces| > 0 {
      var tail := pieces[1..];
      ColonBindingsMember(tail, b);
      ColonBindingsUnfold(pieces, b);
      if b in ColonBindings(pieces) {
        if ColonBinding(pieces[0]) != Some(b) {
          var n :| 0 <= n < |tail| && ColonBinding(tail[n]) == Some(b);
          assert pieces[n + 1] == tail[n];
        }
      }
      if exists n :: 0 <= n < |pieces| && ColonBinding(pieces[n]) == Some(b) {
        var n :| 0 <= n < |pieces| && ColonBinding(pieces[n]) == Some(b);
        if n > 0 {
          assert tail[n - 1] == pieces[n];
        }
      }
    }
  }

  lemma ColonBindingsUnfold(pieces: seq<string>, b: (string, Value))
    requires |pieces| > 0
    ensures b in ColonBindings(pieces) <==> ColonBinding(pieces[0]) == Some(b) || b in ColonBindings(pieces[1..])
  {
    var rest := ColonBindings(pieces[1..]);
    match ColonBinding(pieces[0]) {
      case Some(x) =>
        assert ColonBindings(pieces) == [x] + rest;
        assert b in [x] + rest <==> b == x || b in rest;
      case None =>
        assert ColonBindings(pieces) == rest;
    }
  }

  /** The `key:value` pairs of a comment put into `acc` in order: the colon
      bindings merged in, so a later piece replaces an earlier one. */
  function ColonPairs(pieces: seq<string>, acc: Dict): (r: Dict)
    ensures r == Merge(acc, ColonBindings(pieces))
    decreases |pieces|
  {
    if |pieces| == 0 then acc
    else
      var kv := SplitOnce(pieces[0], ':');
      var acc' := if |kv| == 2 then Put(acc, NormalizeKey(Strip(kv[0])), Str(Strip(kv[1]))) else acc;
      var r := ColonPairs(pieces[1..], acc');
      if |kv| == 2 then
        MergeCons(acc, NormalizeKey(Strip(kv[0])), Str(Strip(kv[1])), ColonBindings(pieces[1..]));
        r
      else r
  }

  /** `(\w+)=q([^q]*)q` at `i`, for the quote character `q`: the end of the
      key and the index of the closing quote. */
  function QuotedAt(s: string, i: nat, q: char): (r: Option<(nat, nat)>)
    requires i <= |s|
    ensures r.Some? ==> (i < r.value.0 && r.value.0 + 2 <= r.value.1 < |s|
      && (forall k :: i <= k < r.value.0 ==> IsWordChar(s[k]))
      && s[r.value.0] == '=' && s[r.value.0 + 1] == q && s[r.value.1] == q
      && forall k :: r.value.0 + 2 <= k < r.value.1 ==> s[k] != q)
  {
    var e := WordEnd(s, i);
    if e == i || e + 2 > |s| || s[e] != '=' || s[e + 1] != q then None
    else match CharFrom(s, e + 2, q)
      case None => None
      case Some(c) => Some((e, c))
  }

  /** The end of the run of word characters (`\w*`) starting at `i`. */
  function WordEnd(s: string, i: nat): (j: nat)
    requires i <= |s|
    ensures i <= j <= |s| && (j == |s| || !IsWordChar(s[j]))
    ensures forall k :: i <= k < j ==> IsWordChar(s[k])
    decreases |s| - i
  {
    if i == |s| || !IsWordChar(s[i]) then i else WordEnd(s, i + 1)
  }

  /** The first index at or after `j` holding `q`, if any. */
  function CharFrom(s: string, j: nat, q: char): (r: Option<nat>)
    ensures r.Some? ==> (j <= r.value < |s| && s[r.value] == q
      && forall k :: j <= k < r.value ==> s[k] != q)
    ensures r.None? ==> forall k :: j <= k < |s| ==> s[k] != q
    decreases |s| - j
  {
    if j >= |s| then None else if s[j] == q then Some(j) else CharFrom(s, j + 1, q)
  }

  lemma AbsentFromSlice(s: string, a: nat, b: nat, q: char)
    requires a <= b <= |s| && forall k :: a <= k < b ==> s[k] != q
    ensures q !in s[a..b]
  {
  }

  /** `comment.scan(/(\w+)=q([^q]*)q/)` from `i`: the normalised keys bound
      to the quoted texts, left to right, each search resuming after the
      closing quote. */
  function QuotedMatches(s: string, i: nat, q: char): (r: seq<(string, Value)>)
    requires i <= |s|
    ensures forall n :: 0 <= n < |r| ==> r[n].1.Str? && q !in r[n].1.s
    ensures (forall k :: i <= k < |s| ==> s[k] != q) ==> r == []
    decreases |s| - i
  {
    if i == |s| then []
    else match QuotedAt(s, i, q)
      case Some((e, c)) =>
        AbsentFromSlice(s, e + 2, c, q);
        [(NormalizeKey(s[i..e]), Str(s[e + 2..c]))] + QuotedMatches(s, c + 1, q)
      case None => QuotedMatches(s, i + 1, q)
  }

  /** `comment.scan(/(\w+)=q([^q]*)q/)` from `i`, each pair put into `acc`:
      the matches merged in, so a later pair replaces an earlier one. */
  function QuotedPairs(s: string, i: nat, q: char, acc: Dict): (r: Dict)
    requires i <= |s|
    ensures r == Merge(acc, QuotedMatches(s, i, q))
    ensures UniqueKeys(acc) ==> UniqueKeys(r)
    decreases |s| - i
  {
    if i == |s| then acc
    else match QuotedAt(s, i, q)
      case Some((e, c)) =>
        var k := NormalizeKey(s[i..e]);
        var v := Str(s[e + 2..c]);
        QuotedPairsStep(s, i, q, acc, e, c);
        if UniqueKeys(acc) then
          PutUnique(acc, k, v);
          QuotedPairs(s, c + 1, q, Put(acc, k, v))
        else QuotedPairs(s, c + 1, q, Put(acc, k, v))
      case None => QuotedPairs(s, i + 1, q, acc)
  }

  lemma QuotedPairsStep(s: string, i: nat, q: char, acc: Dict, e: nat, c: nat)
    requires i < |s| && QuotedAt(s, i, q) == Some((e, c))
    ensures Merge(acc, QuotedMatches(s, i, q)) ==
      Merge(Put(acc, NormalizeKey(s[i..e]), Str(s[e + 2..c])), QuotedMatches(s, c + 1, q))
  {
    QuotedMatchesAt(s, i, q, e, c);
    MergeCons(acc, NormalizeKey(s[i..e]), Str(s[e + 2..c]), QuotedMatches(s, c + 1, q));
  }

  /** One match of the scan: its pair, then the scan after the closing quote. */
  lemma QuotedMatchesAt(s: string, i: nat, q: char, e: nat, c: nat)
    requires i < |s| && QuotedAt(s, i, q) == Some((e, c))
    ensures QuotedMatches(s, i, q) == [(NormalizeKey(s[i..e]), Str(s[e + 2..c]))] + QuotedMatches(s, c + 1, q)
  {
  }

  /** Without the quote character there is nothing to scan. */
  lemma {:induction false} QuotedPairsNone(s: string, i: nat, q: char, acc: Dict)
    requires i <= |s| && q !in s
    ensures QuotedPairs(s, i, q, acc) == acc
    decreases |s| - i
  {
    if i < |s| {
      QuotedPairsNone(s, i + 1, q, acc);
    }
  }

  /** The bindings `parse_comment` reads in the `key:value` format: none
      unless the comment has a colon. */
  function ColonSection(c: string): seq<(string, Value)> {
    if ':' in c then ColonBindings(Split(c, ',')) else []
  }

  /** The bindings `parse_comment` reads with quote `q`: none unless the
      comment has an equals sign. */
  function QuotedSection(c: string, q: char): seq<(string, Value)> {
    if '=' in c then QuotedMatches(c, 0, q) else []
  }

  /** The value a comment gives key `k`: the last double-quoted pair on
      it, else the last single-quoted one, else the last colon pair, else
      nil. */
  function CommentValue(c: string, k: string): Value {
    if HasKey(QuotedSection(c, '"'), k) then LastValue(QuotedSection(c, '"'), k)
    else if HasKey(QuotedSection(c, '\''), k) then LastValue(QuotedSection(c, '\''), k)
    else if HasKey(ColonSection(c), k) then LastValue(ColonSection(c), k)
    else Nil
  }

  /** `parse_comment`: colon pairs first, then single-quoted, then
      double-quoted pairs, a later pair replacing an earlier one on the same
      key. */
  function ParseComment(c: string): (r: Dict)
    ensures forall k :: HasKey(r, k) <==>
      HasKey(ColonSection(c), k) || HasKey(QuotedSection(c, '\''), k) || HasKey(QuotedSection(c, '"'), k)
    ensures forall k :: Get(r, k) == CommentValue(c, k)
  {
    var colon := if ':' in c then ColonPairs(Split(c, ','), []) else [];
    var r := if '=' in c then QuotedPairs(c, 0, '"', QuotedPairs(c, 0, '\'', colon)) else colon;
    assert r == Merge(Merge(Merge([], ColonSection(c)), QuotedSection(c, '\'')), QuotedSection(c, '"'));
    MergeLayers(ColonSection(c), QuotedSection(c, '\''), QuotedSection(c, '"'), r);
    r
  }

  /** Three binding lists merged in turn into an empty hash: a key is bound
      when one of them binds it, and the last list binding it wins. */
  lemma MergeLayers(a: Dict, b: Dict, d: Dict, r: Dict)
    requires r == Merge(Merge(Merge([], a), b), d)
    ensures forall k :: HasKey(r, k) <==> HasKey(a, k) || HasKey(b, k) || HasKey(d, k)
    ensures forall k :: Get(r, k) ==
                        (if HasKey(d, k) then LastValue(d, k)
                         else if HasKey(b, k) then LastValue(b, k)
                         else if HasKey(a, k) then LastValue(a, k)
                         else Nil)
  {
  }

  /** A comment with a colon and no quote characters is read in the
      `key:value` format only. */
  lemma ParseCommentColonOnly(c: string)
    requires ':' in c && '\'' !in c && '"' !in c
    ensures ParseComment(c) == ColonPairs(Split(c, ','), [])
  {
    var colon := ColonPairs(Split(c, ','), []);
    QuotedPairsNone(c, 0, '\'', colon);
    QuotedPairsNone(c, 0, '"', colon);
  }

  /** Every parsed comment is a hash. */
  lemma ParseCommentUnique(c: string)
    ensures UniqueKeys(ParseComment(c))
  {
    var colon := if ':' in c then ColonPairs(Split(c, ','), []) else [];
    if ':' in c {
      ColonPairsUnique(Split(c, ','), []);
    }
  }

  lemma {:induction false} ColonPairsUnique(pieces: seq<string>, acc: Dict)
    requires UniqueKeys(acc)
    ensures UniqueKeys(ColonPairs(pieces, acc))
    decreases |pieces|
  {
    if |pieces| > 0 {
      var kv := SplitOnce(pieces[0], ':');
      if |kv| == 2 {
        PutUnique(acc, NormalizeKey(Strip(kv[0])), Str(Strip(kv[1])));
      }
      var acc' := if |kv| == 2 then Put(acc, NormalizeKey(Strip(kv[0])), Str(Strip(kv[1]))) else acc;
      ColonPairsUnique(pieces[1..], acc');
    }
  }

  // ---------------------------------------------------------------------------
  // parse

  /** The comments' hashes merged left to right into `acc`. */
  function MergeAll(cs: seq<string>, acc: Dict): (r: Dict)
    ensures forall k :: HasKey(r, k) <==> HasKey(acc, k) || exists n :: 0 <= n < |cs| && HasKey(ParseComment(cs[n]), k)
    decreases |cs|
  {
    if |cs| == 0 then acc
    else
      var r := MergeAll(cs[1..], Merge(acc, ParseComment(cs[0])));
      MergeAllKeysStep(cs);
      r
  }

  lemma MergeAllKeysStep(cs: seq<string>)
    requires |cs| > 0
    ensures forall k :: (exists n :: 0 <= n < |cs| && HasKey(ParseComment(cs[n]), k)) <==>
      HasKey(ParseComment(cs[0]), k) || exists n :: 0 <= n < |cs[1..]| && HasKey(ParseComment(cs[1..][n]), k)
  {
    forall n | 0 < n < |cs| ensures cs[n] == cs[1..][n - 1] { }
    forall n | 0 <= n < |cs[1..]| ensures cs[1..][n] == cs[n + 1] { }
  }

  /** `parse`: `{}` for nil, for the empty string and for a query without
      comments; otherwise the merge of every comment's pairs. */
  function Parse(query: Option<string>): (r: Dict)
    ensures query.None? || query == Some("") ==> r == []
    ensures query.Some? && Comments(query.value, 0) == [] ==> r == []
    ensures query.Some? ==> forall k :: Get(r, k) == LastBinding(Comments(query.value, 0), k, [])
  {
    match query
    case None => []
    case Some(q) =>
      if q == "" then []
      else
        var cs := Comments(q, 0);
        if |cs| == 0 then []
        else
          assert forall k :: Get(MergeAll(cs, []), k) == LastBinding(cs, k, []) by {
            forall k ensures Get(MergeAll(cs, []), k) == LastBinding(cs, k, []) {
              MergeAllLastWins(cs, [], k);
            }
          }
          MergeAll(cs, [])
  }

  /** The value a list of comments gives key `k`: that of the last comment
      binding it, otherwise the one in `acc`. */
  function LastBinding(cs: seq<string>, k: string, acc: Dict): Value
    decreases |cs|
  {
    if |cs| == 0 then Get(acc, k)
    else
      var last := ParseComment(cs[|cs| - 1]);
      if HasKey(last, k) then Get(last, k) else LastBinding(cs[..|cs| - 1], k, acc)
  }

  /** Later comments override earlier ones: each key takes its value from the
      last comment that binds it. */
  lemma {:induction false} MergeAllLastWins(cs: seq<string>, acc: Dict, k: string)
    ensures Get(MergeAll(cs, acc), k) == LastBinding(cs, k, acc)
    decreases |cs|
  {
    if |cs| > 0 {
      var init, c := cs[..|cs| - 1], cs[|cs| - 1];
      MergeAllSnoc(init, c, acc);
      assert init + [c] == cs;
      var last := ParseComment(c);
      ParseCommentUnique(c);
      MergeGet(MergeAll(init, acc), last, k);
      MergeAllLastWins(init, acc, k);
    }
  }

  lemma {:induction false} MergeAllSnoc(cs: seq<string>, c: string, acc: Dict)
    ensures MergeAll(cs + [c], acc) == Merge(MergeAll(cs, acc), ParseComment(c))
    decreases |cs|
  {
    if |cs| == 0 {
      assert [c][1..] == [];
    } else {
      assert (cs + [c])[1..] == cs[1..] + [c];
      MergeAllSnoc(cs[1..], c, Merge(acc, ParseComment(cs[0])));
    }
  }

  // ---------------------------------------------------------------------------
  // strip_annotations

  /** The end of the white-space run starting at `i` (`\s*`). */
  function SpacesEnd(s: string, i: nat): (j: nat)
    requires i <= |s|
    ensures i <= j <= |s| && (j == |s| || !IsSpace(s[j]))
    ensures forall k :: i <= k < j ==> IsSpace(s[k])
    decreases |s| - i
  {
    if i == |s| || !IsSpace(s[i]) then i else SpacesEnd(s, i + 1)
  }

  // `gsub(%r{/\*.+?\*/\s*}, "")` from `i`: every comment and the white space
  // after it removed, scanning left to right.
  function RemoveComments(s: string, i: nat): (r: string)
    requires i <= |s|
    ensures |r| <= |s| - i
    decreases |s| - i
  {
    if i == |s| then []
    else match CommentAt(s, i)
      case Some(j) => RemoveComments(s, SpacesEnd(s, j + 2))
      case None => [s[i]] + RemoveComments(s, i + 1)
  }

  /** Where the scan finds no comment, nothing is removed. */
  lemma {:induction false} RemoveNothing(s: string, i: nat)
    requires i <= |s| && Comments(s, i) == []
    ensures RemoveComments(s, i) == s[i..]
    decreases |s| - i
  {
    if i < |s| {
      RemoveNothing(s, i + 1);
      assert s[i..] == [s[i]] + s[i + 1..];
    }
  }

  /** `strip_annotations`: nil stays nil; otherwise the comments are removed
      and the result stripped. */
  function StripAnnotations(query: Option<string>): (r: Option<string>)
    ensures r.None? <==> query.None?
    ensures query.Some? && Comments(query.value, 0) == [] ==> r == Some(Strip(query.value))
  {
    match query
    case None => None
    case Some(q) =>
      var removed := RemoveComments(q, 0);
      assert Comments(q, 0) == [] ==> removed == q by {
        if Comments(q, 0) == [] {
          RemoveNothing(q, 0);
        }
      }
      Some(Strip(removed))
  }

  // ---------------------------------------------------------------------------
  // Queries with any number of comments

  /** A comment block and the text after it: the content between the
      delimiters, then plain text up to the next block. */
  datatype Block = Block(content: string, text: string)

  /** A block the lazy pattern reads as one comment closing at its own
      delimiter, followed by text without a slash. */
  predicate PlainBlock(b: Block) {
    |b.content| >= 1 && '\n' !in b.content && '*' !in b.content && '/' !in b.text
  }

  function Blocks(bs: seq<Block>): (r: string)
    ensures bs != [] ==> |r| >= 2 && r[0] == '/'
    decreases |bs|
  {
    if |bs| == 0 then "" else "/*" + bs[0].content + "*/" + bs[0].text + Blocks(bs[1..])
  }

  /** What removal leaves of the blocks: each text without the white space
      that directly follows its comment. */
  function Cleaned(bs: seq<Block>): string
    decreases |bs|
  {
    if |bs| == 0 then "" else bs[0].text[SpacesEnd(bs[0].text, 0)..] + Cleaned(bs[1..])
  }

  lemma CleanedCons(bs: seq<Block>)
    requires bs != []
    ensures Cleaned(bs) == bs[0].text[SpacesEnd(bs[0].text, 0)..] + Cleaned(bs[1..])
  {
  }

  function Contents(bs: seq<Block>): (r: seq<string>)
    ensures |r| == |bs| && forall n :: 0 <= n < |bs| ==> r[n] == bs[n].content
    decreases |bs|
  {
    if |bs| == 0 then [] else [bs[0].content] + Contents(bs[1..])
  }

  /** `t` sits in `q` from index `a` on. */
  predicate Placed(q: string, a: int, t: string) {
    0 <= a && a + |t| <= |q| && forall k :: 0 <= k < |t| ==> q[a + k] == t[k]
  }

  lemma PlacedSlice(q: string, a: int, t: string)
    requires Placed(q, a, t)
    ensures q[a..a + |t|] == t
  {
    forall k | 0 <= k < |t| ensures q[a..a + |t|][k] == t[k] {
      assert q[a + k] == t[k];
    }
  }

  /** The first closing delimiter from `k` is the one at `j` when no
      asterisk and no line feed comes before it. */
  lemma {:induction false} CloseFromAt(q: string, k: nat, j: nat)
    requires k <= j && DelimAt(q, j, '*', '/')
    requires forall m :: k <= m < j ==> q[m] != '*' && q[m] != '\n'
    ensures CloseFrom(q, k) == Some(j)
    decreases j - k
  {
    if k < j {
      CloseFromAt(q, k + 1, j);
    }
  }

  /** A well-formed comment at index `p` closes at its own delimiter. */
  lemma CommentAtBlock(q: string, p: nat, c: string)
    requires |c| >= 1 && '\n' !in c && '*' !in c
    requires Placed(q, p + 2, c) && p + |c| + 4 <= |q|
    requires q[p] == '/' && q[p + 1] == '*' && q[p + |c| + 2] == '*' && q[p + |c| + 3] == '/'
    ensures CommentAt(q, p) == Some(p + |c| + 2)
  {
    assert q[p + 2 + 0] == c[0];
    forall m | p + 3 <= m < p + |c| + 2 ensures q[m] != '*' && q[m] != '\n' {
      assert q[p + 2 + (m - p - 2)] == c[m - p - 2];
    }
    CloseFromAt(q, p + 3, p + |c| + 2);
  }

  /** The white-space run from `a` ends at `b` when everything between is
      white space and `b` is not. */
  lemma SpacesEndAt(q: string, a: nat, b: nat)
    requires a <= b <= |q|
    requires forall k :: a <= k < b ==> IsSpace(q[k])
    requires b == |q| || !IsSpace(q[b])
    ensures SpacesEnd(q, a) == b
  {
  }

  /** No comment starts at a character other than a slash. */
  lemma NoCommentAtSlashless(q: string, i: nat)
    requires i < |q| && q[i] != '/'
    ensures CommentAt(q, i).None?
  {
  }

  lemma ConsFrom(t: string, i: nat, r: string)
    requires i < |t|
    ensures [t[i]] + (t[i + 1..] + r) == t[i..] + r
  {
    assert t[i..] == [t[i]] + t[i + 1..];
  }

  /** Removal keeps text without a slash as it is. */
  lemma {:induction false} RemovePlainFrom(q: string, a: nat, t: string, i: nat)
    requires '/' !in t && Placed(q, a, t) && i <= |t|
    ensures RemoveComments(q, a + i) == t[i..] + RemoveComments(q, a + |t|)
    decreases |t| - i
  {
    if i < |t| {
      assert q[a + i] == t[i];
      NoCommentAtSlashless(q, a + i);
      RemoveKeep(q, a + i);
      RemovePlainFrom(q, a, t, i + 1);
      ConsFrom(t, i, RemoveComments(q, a + |t|));
    }
  }

  lemma RemovePlain(q: string, a: nat, t: string)
    requires '/' !in t && Placed(q, a, t)
    ensures RemoveComments(q, a) == t + RemoveComments(q, a + |t|)
  {
    RemovePlainFrom(q, a, t, 0);
    assert t[0..] == t;
  }

  /** The scan of comments skips text without a slash. */
  lemma {:induction false} CommentsPlainFrom(q: string, a: nat, t: string, i: nat)
    requires '/' !in t && Placed(q, a, t) && i <= |t|
    ensures Comments(q, a + i) == Comments(q, a + |t|)
    decreases |t| - i
  {
    if i < |t| {
      assert q[a + i] == t[i];
      NoCommentAtSlashless(q, a + i);
      CommentsNext(q, a + i);
      CommentsPlainFrom(q, a, t, i + 1);
    }
  }

  lemma CommentsPlain(q: string, a: nat, t: string)
    requires '/' !in t && Placed(q, a, t)
    ensures Comments(q, a) == Comments(q, a + |t|)
  {
    CommentsPlainFrom(q, a, t, 0);
  }

  /** The pieces of a comment `c`, its text `t` and what follows, where they
      sit from index `p` on. */
  lemma BlockLayout(q: string, p: nat, c: string, t: string, rest: string)
    requires Placed(q, p, "/*" + c + "*/" + t + rest)
    ensures q[p] == '/' && q[p + 1] == '*' && q[p + |c| + 2] == '*' && q[p + |c| + 3] == '/'
    ensures Placed(q, p + 2, c) && Placed(q, p + |c| + 4, t) && Placed(q, p + |c| + 4 + |t|, rest)
  {
    var u := "/*" + c + "*/" + t + rest;
    assert q[p + 0] == u[0] && q[p + 1] == u[1];
    assert q[p + (|c| + 2)] == u[|c| + 2] && q[p + (|c| + 3)] == u[|c| + 3];
    forall k | 0 <= k < |c| ensures q[p + 2 + k] == c[k] {
      assert q[p + (2 + k)] == u[2 + k];
    }
    forall k | 0 <= k < |t| ensures q[p + |c| + 4 + k] == t[k] {
      assert q[p + (|c| + 4 + k)] == u[|c| + 4 + k];
    }
    forall k | 0 <= k < |rest| ensures q[p + |c| + 4 + |t| + k] == rest[k] {
      assert q[p + (|c| + 4 + |t| + k)] == u[|c| + 4 + |t| + k];
    }
  }

  /** What follows a block is the end of the query or another comment. */
  lemma NextIsSlash(q: string, n: nat, rest: string)
    requires Placed(q, n, rest) && n + |rest| == |q| && (|rest| == 0 || rest[0] == '/')
    ensures n == |q| || q[n] == '/'
  {
    if n < |q| {
      assert q[n + 0] == rest[0];
    }
  }

  /** Removal at a plain block `/*c*/t`: the comment and the white space
      after it go, the rest of `t` stays. */
  lemma RemoveAtBlock(q: string, p: nat, c: string, t: string)
    requires |c| >= 1 && '\n' !in c && '*' !in c && '/' !in t
    requires Placed(q, p + 2, c) && Placed(q, p + |c| + 4, t)
    requires q[p] == '/' && q[p + 1] == '*' && q[p + |c| + 2] == '*' && q[p + |c| + 3] == '/'
    requires p + |c| + 4 + |t| == |q| || q[p + |c| + 4 + |t|] == '/'
    ensures RemoveComments(q, p) == t[SpacesEnd(t, 0)..] + RemoveComments(q, p + |c| + 4 + |t|)
  {
    CommentAtBlock(q, p, c);
    RemoveFirstBlock(q, p, p + |c| + 2, p + |c| + 4, t);
  }

  /** The scan at a plain block `/*c*/t`: `c` is the comment found, and the
      scan resumes after `t`. */
  lemma CommentsAtBlock(q: string, p: nat, c: string, t: string)
    requires |c| >= 1 && '\n' !in c && '*' !in c && '/' !in t
    requires Placed(q, p + 2, c) && Placed(q, p + |c| + 4, t)
    requires q[p] == '/' && q[p + 1] == '*' && q[p + |c| + 2] == '*' && q[p + |c| + 3] == '/'
    ensures Comments(q, p) == [c] + Comments(q, p + |c| + 4 + |t|)
  {
    CommentAtBlock(q, p, c);
    CommentsSkip(q, p, p + |c| + 2, p + |c| + 4);
    PlacedSlice(q, p + 2, c);
    CommentsPlain(q, p + |c| + 4, t);
  }

  lemma RemoveFirstBlock(q: string, p: nat, j: nat, a: nat, t: string)
    requires p < |q| && CommentAt(q, p) == Some(j) && a == j + 2
    requires '/' !in t && Placed(q, a, t)
    requires a + |t| == |q| || q[a + |t|] == '/'
    ensures RemoveComments(q, p) == t[SpacesEnd(t, 0)..] + RemoveComments(q, a + |t|)
  {
    SpacesAfterComment(q, a, t);
    RemoveAtComment(q, p, j, a);
    RemoveBlockText(q, a, t);
  }

  /** The text of a block stays, but for its leading white space. */
  lemma RemoveBlockText(q: string, a: nat, t: string)
    requires '/' !in t && Placed(q, a, t)
    ensures RemoveComments(q, a + SpacesEnd(t, 0)) == t[SpacesEnd(t, 0)..] + RemoveComments(q, a + |t|)
  {
    RemovePlainFrom(q, a, t, SpacesEnd(t, 0));
  }

  /** The white space after a comment is the white space its text starts
      with. */
  lemma SpacesAfterComment(q: string, a: nat, t: string)
    requires Placed(q, a, t)
    requires a + |t| == |q| || q[a + |t|] == '/'
    ensures SpacesEnd(q, a) == a + SpacesEnd(t, 0)
  {
    var e := SpacesEnd(t, 0);
    forall k | a <= k < a + e ensures IsSpace(q[k]) {
      assert q[a + (k - a)] == t[k - a];
    }
    if e < |t| {
      assert q[a + e] == t[e];
    }
    SpacesEndAt(q, a, a + e);
  }

  /** The first block, and the blocks after it, which start with a slash if
      there are any. */
  lemma BlocksTail(bs: seq<Block>)
    requires bs != []
    ensures Blocks(bs) == "/*" + bs[0].content + "*/" + bs[0].text + Blocks(bs[1..])
    ensures |Blocks(bs[1..])| == 0 || Blocks(bs[1..])[0] == '/'
  {
  }

  /** Removal of the first block: its comment goes, its text stays, and the
      scan resumes at the next block. */
  lemma RemoveBlockStep(q: string, p: nat, bs: seq<Block>) returns (next: nat)
    requires bs != [] && Placed(q, p, Blocks(bs)) && p + |Blocks(bs)| == |q| && PlainBlock(bs[0])
    ensures Placed(q, next, Blocks(bs[1..])) && next + |Blocks(bs[1..])| == |q|
    ensures RemoveComments(q, p) == bs[0].text[SpacesEnd(bs[0].text, 0)..] + RemoveComments(q, next)
  {
    next := p + |bs[0].content| + 4 + |bs[0].text|;
    BlocksTail(bs);
    BlockLayout(q, p, bs[0].content, bs[0].text, Blocks(bs[1..]));
    NextIsSlash(q, next, Blocks(bs[1..]));
    RemoveAtBlock(q, p, bs[0].content, bs[0].text);
  }

  /** Removal drops every comment of the blocks with the white space after
      it, and keeps the texts between them. */
  lemma {:induction false} RemoveBlocks(q: string, p: nat, bs: seq<Block>)
    requires Placed(q, p, Blocks(bs)) && p + |Blocks(bs)| == |q|
    requires forall n :: 0 <= n < |bs| ==> PlainBlock(bs[n])
    ensures RemoveComments(q, p) == Cleaned(bs)
    decreases |bs|
  {
    if |bs| > 0 {
      var next := RemoveBlockStep(q, p, bs);
      RemoveBlocks(q, next, bs[1..]);
      CleanedCons(bs);
    }
  }

  /** The scan at the first block: its content is the comment found, and
      the scan resumes at the next block. */
  lemma CommentsBlockStep(q: string, p: nat, bs: seq<Block>) returns (next: nat)
    requires bs != [] && Placed(q, p, Blocks(bs)) && p + |Blocks(bs)| == |q| && PlainBlock(bs[0])
    ensures Placed(q, next, Blocks(bs[1..])) && next + |Blocks(bs[1..])| == |q|
    ensures Comments(q, p) == [bs[0].content] + Comments(q, next)
  {
    next := p + |bs[0].content| + 4 + |bs[0].text|;
    BlocksTail(bs);
    BlockLayout(q, p, bs[0].content, bs[0].text, Blocks(bs[1..]));
    CommentsAtBlock(q, p, bs[0].content, bs[0].text);
  }

  /** The comments found are the blocks' contents, in order. */
  lemma {:induction false} CommentsOfBlocks(q: string, p: nat, bs: seq<Block>)
    requires Placed(q, p, Blocks(bs)) && p + |Blocks(bs)| == |q|
    requires forall n :: 0 <= n < |bs| ==> PlainBlock(bs[n])
    ensures Comments(q, p) == Contents(bs)
    decreases |bs|
  {
    if |bs| > 0 {
      var next := CommentsBlockStep(q, p, bs);
      CommentsOfBlocks(q, next, bs[1..]);
    }
  }

  /** `u` and `v` where they sit in `u + v`. */
  lemma PlacedParts(u: string, v: string)
    ensures Placed(u + v, 0, u) && Placed(u + v, |u|, v)
  {
    forall k | 0 <= k < |u| ensures (u + v)[0 + k] == u[k] {
    }
    forall k | 0 <= k < |v| ensures (u + v)[|u| + k] == v[k] {
    }
  }

  /** `strip_annotations` of a query made of plain text and any number of
      well-formed comments: the text with every comment and the white space
      after it removed, stripped. */
  lemma StripBlocks(lead: string, bs: seq<Block>)
    requires '/' !in lead
    requires forall n :: 0 <= n < |bs| ==> PlainBlock(bs[n])
    ensures StripAnnotations(Some(lead + Blocks(bs))) == Some(Strip(lead + Cleaned(bs)))
  {
    PlacedParts(lead, Blocks(bs));
    StripPlaced(lead + Blocks(bs), lead, bs);
  }

  lemma StripPlaced(q: string, lead: string, bs: seq<Block>)
    requires '/' !in lead && Placed(q, 0, lead)
    requires Placed(q, |lead|, Blocks(bs)) && |lead| + |Blocks(bs)| == |q|
    requires forall n :: 0 <= n < |bs| ==> PlainBlock(bs[n])
    ensures StripAnnotations(Some(q)) == Some(Strip(lead + Cleaned(bs)))
  {
    RemovePlain(q, 0, lead);
    RemoveBlocks(q, |lead|, bs);
    StripRemoved(q, lead, Cleaned(bs));
  }

  /** `strip_annotations` strips whatever the removal leaves. */
  lemma StripRemoved(q: string, lead: string, rest: string)
    requires |lead| <= |q|
    requires RemoveComments(q, 0) == lead + RemoveComments(q, |lead|)
    requires RemoveComments(q, |lead|) == rest
    ensures StripAnnotations(Some(q)) == Some(Strip(lead + rest))
  {
  }

  /** `parse` of such a query: each key takes its value from the last
      block's comment that binds it. */
  lemma ParseBlocks(lead: string, bs: seq<Block>, k: string)
    requires '/' !in lead
    requires forall n :: 0 <= n < |bs| ==> PlainBlock(bs[n])
    ensures Get(Parse(Some(lead + Blocks(bs))), k) == LastBinding(Contents(bs), k, [])
  {
    PlacedParts(lead, Blocks(bs));
    ParsePlaced(lead + Blocks(bs), lead, bs, k);
  }

  lemma ParsePlaced(q: string, lead: string, bs: seq<Block>, k: string)
    requires '/' !in lead && Placed(q, 0, lead)
    requires Placed(q, |lead|, Blocks(bs)) && |lead| + |Blocks(bs)| == |q|
    requires forall n :: 0 <= n < |bs| ==> PlainBlock(bs[n])
    ensures Get(Parse(Some(q)), k) == LastBinding(Contents(bs), k, [])
  {
    CommentsPlain(q, 0, lead);
    CommentsOfBlocks(q, |lead|, bs);
  }

  /** One step of the removal at a comment. */
  lemma RemoveAtComment(s: string, i: nat, j: nat, a: nat)
    requires i < |s| && CommentAt(s, i) == Some(j) && a == j + 2
    ensures RemoveComments(s, i) == RemoveComments(s, SpacesEnd(s, a))
  {
  }

  /** One step of the removal at a character that starts no comment. */
  lemma RemoveKeep(s: string, i: nat)
    requires i < |s| && CommentAt(s, i).None?
    ensures RemoveComments(s, i) == [s[i]] + RemoveComments(s, i + 1)
  {
  }

  lemma CommentsNext(s: string, i: nat)
    requires i < |s| && CommentAt(s, i).None?
    ensures Comments(s, i) == Comments(s, i + 1)
  {
  }

  lemma CommentsSkip(s: string, i: nat, j: nat, a: nat)
    requires i < |s| && CommentAt(s, i) == Some(j) && a == j + 2
    ensures Comments(s, i) == [s[i + 2..j]] + Comments(s, a)
  {
  }

  /** Stripping a query that starts with a well-formed comment, and has no
      closing delimiter after it, leaves the rest of the query stripped. */
  lemma StripLeadingComment(content: string, rest: string)
    requires |content| >= 1 && '\n' !in content && '*' !in content
    requires !Contains(rest, "*/")
    ensures StripAnnotations(Some("/*" + content + "*/" + rest)) == Some(Strip(rest))
  {
    var s := "/*" + content + "*/" + rest;
    var j := |content| + 2;
    LeadingCommentAt(content, rest);
    var e := SpacesEnd(s, j + 2);
    NoOccurrenceAfter("/*" + content + "*/", rest, "*/");
    NoCloseNoComments(s, e);
    RemoveNothing(s, e);
    assert RemoveComments(s, 0) == s[e..];
    assert rest == s[j + 2..e] + s[e..];
    StripLeading(s[j + 2..e], s[e..]);
  }

  // ---------------------------------------------------------------------------
  // format_for_display

  /** `format_for_display`: nil for an empty hash; otherwise the file with
      its line, the method, the controller with its action, and the
      application in brackets, each only when present, joined by spaces. */
  function FormatForDisplay(a: Dict): (r: Option<string>)
    ensures r.None? <==> |a| == 0
  {
    if |a| == 0 then None
    else
      var file := Get(a, "file");
      var line := Get(a, "line");
      var meth := Get(a, "method");
      var controller := Get(a, "controller");
      var action := Get(a, "action");
      var app := if Truthy(Get(a, "app")) then Get(a, "app") else Get(a, "application");
      Some(Join(DisplayParts(file, line, meth, controller, action, app), " "))
  }

  /** The displayed pieces, each only when its value is truthy. */
  function DisplayParts(file: Value, line: Value, meth: Value, controller: Value, action: Value, app: Value): seq<string> {
    (if Truthy(file) then [if Truthy(line) then ToS(file) + ":" + ToS(line) else ToS(file)] else [])
    + (if Truthy(meth) then ["#" + ToS(meth)] else [])
    + (if Truthy(controller) then [if Truthy(action) then ToS(controller) + "#" + ToS(action) else ToS(controller)] else [])
    + (if Truthy(app) then ["[" + ToS(app) + "]"] else [])
  }

  /** A hash with none of the displayed keys still displays, as the empty
      string. */
  lemma DisplayWithoutKnownKeys(a: Dict)
    requires |a| > 0
    requires forall k :: k in ["file", "method", "controller", "app", "application"] ==> !HasKey(a, k)
    ensures FormatForDisplay(a) == Some("")
  {
  }

  /** With every displayed key present, the pieces come in a fixed order:
      file and line, method, controller and action, application. */
  lemma DisplayAllKeys(a: Dict)
    requires |a| > 0
    requires Truthy(Get(a, "file")) && Truthy(Get(a, "line")) && Truthy(Get(a, "method"))
    requires Truthy(Get(a, "controller")) && Truthy(Get(a, "action")) && Truthy(Get(a, "app"))
    ensures FormatForDisplay(a) == Some(
      (ToS(Get(a, "file")) + ":" + ToS(Get(a, "line"))) + " " + ("#" + ToS(Get(a, "method"))) + " "
      + (ToS(Get(a, "controller")) + "#" + ToS(Get(a, "action"))) + " " + ("[" + ToS(Get(a, "app")) + "]"))
  {
    DisplayAllParts(Get(a, "file"), Get(a, "line"), Get(a, "method"), Get(a, "controller"), Get(a, "action"), Get(a, "app"));
  }

  lemma DisplayAllParts(file: Value, line: Value, meth: Value, controller: Value, action: Value, app: Value)
    requires Truthy(file) && Truthy(line) && Truthy(meth) && Truthy(controller) && Truthy(action) && Truthy(app)
    ensures Join(DisplayParts(file, line, meth, controller, action, app), " ")
      == (ToS(file) + ":" + ToS(line)) + " " + ("#" + ToS(meth)) + " "
         + (ToS(controller) + "#" + ToS(action)) + " " + ("[" + ToS(app) + "]")
  {
    var p0 := ToS(file) + ":" + ToS(line);
    var p1 := "#" + ToS(meth);
    var p2 := ToS(controller) + "#" + ToS(action);
    var p3 := "[" + ToS(app) + "]";
    assert DisplayParts(file, line, meth, controller, action, app) == [p0] + [p1] + [p2] + [p3];
    JoinFour(p0, p1, p2, p3, " ");
  }

  lemma JoinFour(p0: string, p1: string, p2: string, p3: string, sep: string)
    ensures Join([p0] + [p1] + [p2] + [p3], sep) == p0 + sep + p1 + sep + p2 + sep + p3
  {
    assert [p0] + [p1] + [p2] + [p3] == [p0] + ([p1] + ([p2] + [p3]));
    JoinCons(p2, [p3], sep);
    JoinCons(p1, [p2] + [p3], sep);
    JoinCons(p0, [p1] + ([p2] + [p3]), sep);
  }
}
