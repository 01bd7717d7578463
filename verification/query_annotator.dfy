/** Prepending a source-location comment to the SQL the adapter executes, and
    the switch that turns this on and off.

    The call stack (`caller_locations`), the application root, the
    `annotate_queries` setting and the thread-local controller and action
    are explicit inputs. */
module QueryAnnotator {
  import opened Common
  import opened Text
  import opened Values
  import opened AnnotationParser

  datatype Frame = Frame(path: string, lineno: int, caller: Option<string>)

  datatype Location = Location(file: string, line: int, methodName: Option<string>)

  /** What the controller hook left in the thread: `controllerLoaded` says
      whether `ActionController::Base` is defined. */
  datatype Context = Context(controllerLoaded: bool, controller: Option<string>, action: Option<string>)

  // ---------------------------------------------------------------------------
  // attach! / detach! / attached?

  /** `patched` records that the adapter patch has been prepended; it is
      never removed, so a detached annotator leaves SQL alone through the
      `attached?` test instead. */
  datatype Switch = Switch(attached: bool, patched: bool)

  const Initial := Switch(false, false)

  /** Once attached, the patch is in place. */
  predicate Valid(s: Switch) { s.attached ==> s.patched }

  function Attach(s: Switch): (r: Switch)
    ensures r.attached && (Valid(s) ==> Valid(r))
    ensures s.attached ==> r == s
    ensures !s.attached ==> r.patched
  {
    if s.attached then s else Switch(true, true)
  }

  function Detach(s: Switch): (r: Switch)
    ensures !r.attached && r.patched == s.patched
  {
    Switch(false, s.patched)
  }

  /** Attaching twice is attaching once; detaching after attaching leaves the
      patch in place but switched off. */
  lemma AttachIdempotent(s: Switch)
    requires Valid(s)
    ensures Attach(Attach(s)) == Attach(s)
    ensures Detach(Attach(s)) == Switch(false, true)
  {
  }

  // ---------------------------------------------------------------------------
  // find_source_location

  const SkipPatterns: seq<string> :=
    ["/gems/", "lib/pg_reports", "lib/ruby", "active_record", "active_support", "action_controller", "action_view"]

  /** An application frame: no skip pattern, and under `app/` or `lib/`. */
  predicate AppFrame(path: string) {
    && (forall i :: 0 <= i < |SkipPatterns| ==> !Contains(path, SkipPatterns[i]))
    && (Contains(path, "app/") || Contains(path, "lib/"))
  }

  /** `File.basename`: the last path component, trailing slashes ignored. */
  function Basename(path: string): (r: string)
    ensures r == "/" || '/' !in r
    ensures path != "" ==> r != ""
  {
    var t := TrimSlashes(path);
    if t == "" then (if path == "" then "" else "/")
    else
      var i := LastSlashEnd(t, |t|);
      assert t[|t| - 1] != '/';
      t[i..]
  }

  function TrimSlashes(s: string): (r: string)
    ensures |r| <= |s| && r == s[..|r|]
    ensures r == [] || r[|r| - 1] != '/'
  {
    if |s| > 0 && s[|s| - 1] == '/' then TrimSlashes(s[..|s| - 1]) else s
  }

  /** The index after the last slash below `hi`, or 0. */
  function LastSlashEnd(s: string, hi: nat): (i: nat)
    requires hi <= |s|
    ensures i <= hi && '/' !in s[i..hi]
    ensures i > 0 ==> s[i - 1] == '/'
  {
    if hi == 0 then 0 else if s[hi - 1] == '/' then hi else LastSlashEnd(s, hi - 1)
  }

  /** The relative path as written: when the path merely starts with the
      root, the first `root + "/"` anywhere in it is removed. */
  function RelativePathAsWritten(path: string, root: Option<string>): (r: string)
    ensures !(root.Some? && StartsWith(path, root.value)) ==> r == Basename(path)
    ensures root.Some? && StartsWith(path, root.value) && !Contains(path, root.value + "/") ==> r == path
    ensures root.Some? && StartsWith(path, root.value + "/") ==> path == root.value + "/" + r
  {
    if root.Some? && StartsWith(path, root.value) then
      assert StartsWith(path, root.value + "/") ==> FindFrom(path, root.value + "/", 0) == Some(0) by {
        if StartsWith(path, root.value + "/") {
          assert OccursAt(path, root.value + "/", 0);
        }
      }
      ReplaceFirst(path, root.value + "/", "")
    else Basename(path)
  }

  /** The relative path as intended: a path inside the root loses the root
      prefix, any other path is reduced to its base name. */
  function RelativePath(path: string, root: Option<string>): (r: string)
    ensures root.Some? && StartsWith(path, root.value + "/") ==> path == root.value + "/" + r
    ensures !(root.Some? && StartsWith(path, root.value + "/")) ==> r == Basename(path)
  {
    if root.Some? && StartsWith(path, root.value + "/") then path[|root.value| + 1..] else Basename(path)
  }

  /** For a path inside the root both readings agree. */
  lemma RelativePathAgrees(path: string, root: string)
    requires StartsWith(path, root + "/")
    ensures RelativePathAsWritten(path, Some(root)) == RelativePath(path, Some(root))
  {
    assert OccursAt(path, root + "/", 0);
    assert path[..|root|] == (root + "/")[..|root|] == root;
    assert FindFrom(path, root + "/", 0) == Some(0);
  }

  /** A sibling directory that shares the root's name as a prefix: the path
      starts with the root, contains no `root + "/"`, and is kept whole
      instead of being reduced to its base name. */
  lemma SiblingDirectoryKeptWhole()
    ensures RelativePathAsWritten("/srv/app2/app/a.rb", Some("/srv/app")) == "/srv/app2/app/a.rb"
    ensures RelativePath("/srv/app2/app/a.rb", Some("/srv/app")) == "a.rb"
  {
    SiblingAsWritten("/srv/app2/app/a.rb");
    SiblingIntended("/srv/app2/app/a.rb");
  }

  lemma SiblingAsWritten(path: string)
    requires path == "/srv/app2/app/a.rb"
    ensures RelativePathAsWritten(path, Some("/srv/app")) == path
  {
    forall i | 0 <= i
      ensures !OccursAt(path, "/srv/app/", i)
    {
      if i + 9 <= |path| {
        assert path[i] != '/' || path[i + 8] != '/';
        assert path[i..i + 9][0] == path[i] && path[i..i + 9][8] == path[i + 8];
      }
    }
    ContainsIff(path, "/srv/app/");
    assert !Contains(path, "/srv/app" + "/") by {
      assert "/srv/app" + "/" == "/srv/app/";
    }
    assert StartsWith(path, "/srv/app");
  }

  lemma SiblingIntended(path: string)
    requires path == "/srv/app2/app/a.rb"
    ensures RelativePath(path, Some("/srv/app")) == "a.rb"
  {
    assert !StartsWith(path, "/srv/app/") by {
      assert path[8] == '2';
    }
    assert TrimSlashes(path) == path;
    assert LastSlashEnd(path, |path|) == 14;
  }

  /** `find_source_location`: the first application frame, with its path
      made relative. */
  function FindSourceLocation(frames: seq<Frame>, root: Option<string>): (r: Option<Location>)
    ensures r.Some? <==> exists i :: 0 <= i < |frames| && AppFrame(frames[i].path)
    ensures r.Some? ==> exists i :: (0 <= i < |frames| && AppFrame(frames[i].path)
      && (forall j :: 0 <= j < i ==> !AppFrame(frames[j].path))
      && r.value == Location(RelativePath(frames[i].path, root), frames[i].lineno, frames[i].caller))
  {
    if |frames| == 0 then None
    else if AppFrame(frames[0].path) then
      Some(Location(RelativePath(frames[0].path, root), frames[0].lineno, frames[0].caller))
    else
      var r := FindSourceLocation(frames[1..], root);
      assert r.Some? ==> exists i :: 0 <= i < |frames| && AppFrame(frames[i].path) by {
        if r.Some? {
          var i :| 0 <= i < |frames[1..]| && AppFrame(frames[1..][i].path);
          assert frames[i + 1] == frames[1..][i];
        }
      }
      assert (exists i :: 0 <= i < |frames| && AppFrame(frames[i].path)) ==> r.Some? by {
        if exists i :: 0 <= i < |frames| && AppFrame(frames[i].path) {
          var i :| 0 <= i < |frames| && AppFrame(frames[i].path);
          assert i > 0 && frames[1..][i - 1] == frames[i];
        }
      }
      assert r.Some? ==> exists i :: (0 <= i < |frames| && AppFrame(frames[i].path)
        && (forall j :: 0 <= j < i ==> !AppFrame(frames[j].path))
        && r.value == Location(RelativePath(frames[i].path, root), frames[i].lineno, frames[i].caller)) by {
        if r.Some? {
          var i :| 0 <= i < |frames[1..]| && AppFrame(frames[1..][i].path)
            && (forall j :: 0 <= j < i ==> !AppFrame(frames[1..][j].path))
            && r.value == Location(RelativePath(frames[1..][i].path, root), frames[1..][i].lineno, frames[1..][i].caller);
          assert frames[i + 1] == frames[1..][i];
          forall j | 0 <= j < i + 1
            ensures !AppFrame(frames[j].path)
          {
            if j > 0 {
              assert frames[j] == frames[1..][j - 1];
            }
          }
        }
      }
      r
  }

  // ---------------------------------------------------------------------------
  // build_annotation

  /** `present?` on a string that may be nil. */
  predicate PresentText(s: Option<string>) { s.Some? && !IsBlank(s.value) }

  /** The `key:value` parts of an annotation, in order. */
  function AnnotationPairs(loc: Location, ctx: Context): (r: seq<(string, string)>)
    ensures 2 <= |r| <= 5
    ensures r[0] == ("file", loc.file) && r[1] == ("line", IntText(loc.line))
  {
    [("file", loc.file), ("line", IntText(loc.line))]
    + (if PresentText(loc.methodName) then [("method", loc.methodName.value)] else [])
    + (if ctx.controllerLoaded && ctx.controller.Some? then
         [("controller", ctx.controller.value)] + (if ctx.action.Some? then [("action", ctx.action.value)] else [])
       else [])
  }

  function PairTexts(ps: seq<(string, string)>): (r: seq<string>)
    ensures |r| == |ps|
    ensures forall i :: 0 <= i < |ps| ==> r[i] == ps[i].0 + ":" + ps[i].1
  {
    seq(|ps|, i requires 0 <= i < |ps| => ps[i].0 + ":" + ps[i].1)
  }

  /** `build_annotation`: nil when annotation is switched off or no frame
      qualifies, otherwise the parts inside one block comment. */
  function BuildAnnotation(enabled: bool, loc: Option<Location>, ctx: Context): (r: Option<string>)
    ensures r.None? <==> !enabled || loc.None?
    ensures r.Some? ==> r.value == "/*" + Join(PairTexts(AnnotationPairs(loc.value, ctx)), ",") + "*/"
  {
    if !enabled || loc.None? then None
    else Some("/*" + Join(PairTexts(AnnotationPairs(loc.value, ctx)), ",") + "*/")
  }

  // ---------------------------------------------------------------------------
  // AdapterPatch#annotate_sql

  /** `annotate_sql`: the SQL unchanged when detached, without an annotation
      or already carrying a comment; otherwise the annotation, a space and the
      SQL. */
  function AnnotateSql(s: Switch, annotation: Option<string>, sql: string): (r: string)
    ensures r == sql || (annotation.Some? && r == annotation.value + " " + sql)
    ensures r != sql <==> s.attached && annotation.Some? && !(Contains(sql, "/*") && Contains(sql, "*/"))
  {
    if !s.attached || annotation.None? then sql
    else if Contains(sql, "/*") && Contains(sql, "*/") then sql
    else annotation.value + " " + sql
  }

  /** Annotating twice is annotating once, since an annotated statement
      already holds both comment delimiters. */
  lemma AnnotateIdempotent(s: Switch, annotation: Option<string>, sql: string)
    requires annotation.Some? ==> Contains(annotation.value, "/*") && Contains(annotation.value, "*/")
    ensures AnnotateSql(s, annotation, AnnotateSql(s, annotation, sql)) == AnnotateSql(s, annotation, sql)
  {
    var once := AnnotateSql(s, annotation, sql);
    if once != sql {
      var a := annotation.value;
      ContainsPrefix(a, " " + sql, "/*");
      ContainsPrefix(a, " " + sql, "*/");
      assert once == a + (" " + sql);
    }
  }

  lemma ContainsPrefix(a: string, b: string, sub: string)
    requires Contains(a, sub)
    ensures Contains(a + b, sub)
  {
    ContainsIff(a, sub);
    var i :| OccursAt(a, sub, i);
    assert (a + b)[i..i + |sub|] == a[i..i + |sub|];
    ContainsAt(a + b, sub, i);
  }

  /** A built annotation holds both delimiters. */
  lemma BuiltAnnotationDelimited(enabled: bool, loc: Option<Location>, ctx: Context)
    requires enabled && loc.Some?
    ensures var a := BuildAnnotation(enabled, loc, ctx).value; Contains(a, "/*") && Contains(a, "*/")
  {
    var a := BuildAnnotation(enabled, loc, ctx).value;
    assert OccursAt(a, "/*", 0);
    ContainsAt(a, "/*", 0);
    assert OccursAt(a, "*/", |a| - 2);
    ContainsAt(a, "*/", |a| - 2);
  }

  // ---------------------------------------------------------------------------
  // Builder and parser

  /** A value the parser reads back unchanged: no separator, quote, star or
      line feed, and nothing `strip` would remove. */
  predicate CleanValue(v: string) {
    && ',' !in v && '\'' !in v && '"' !in v && '*' !in v && '\n' !in v
    && (v == [] || (!IsStripChar(v[0]) && !IsStripChar(v[|v| - 1])))
  }

  /** What the caller and the controller hook must supply for the annotation
      to read back: clean file, method, controller and action names. */
  predicate CleanContext(loc: Location, ctx: Context) {
    && CleanValue(loc.file)
    && (PresentText(loc.methodName) ==> CleanValue(loc.methodName.value))
    && (ctx.controllerLoaded && ctx.controller.Some? ==> CleanValue(ctx.controller.value))
    && (ctx.controllerLoaded && ctx.controller.Some? && ctx.action.Some? ==> CleanValue(ctx.action.value))
  }

  predicate KnownKey(k: string) { k in ["file", "line", "method", "controller", "action"] }

  predicate ReadablePair(p: (string, string)) { KnownKey(p.0) && CleanValue(p.1) }

  predicate PairsReadable(ps: seq<(string, string)>) {
    && (forall i :: 0 <= i < |ps| ==> ReadablePair(ps[i]))
    && (forall i, j :: 0 <= i < j < |ps| ==> ps[i].0 != ps[j].0)
  }

  /** The hash the parser should give for a list of pairs. */
  function PairsDict(ps: seq<(string, string)>): (r: Dict)
    ensures |r| == |ps|
    ensures forall i :: 0 <= i < |ps| ==> r[i] == (ps[i].0, Str(ps[i].1))
  {
    seq(|ps|, i requires 0 <= i < |ps| => (ps[i].0, Str(ps[i].1)))
  }

  lemma KnownKeyFacts(k: string)
    requires KnownKey(k)
    ensures ':' !in k && ',' !in k && '\'' !in k && '"' !in k && '*' !in k && '\n' !in k
    ensures Strip(k) == k && NormalizeKey(k) == k
  {
    assert forall i :: 0 <= i < |k| ==> 'a' <= k[i] <= 'z';
    assert NormalKey(k);
    assert !IsStripChar(k[0]) && !IsStripChar(k[|k| - 1]);
    StripNoop(k);
    NormalKeyFixed(k);
  }

  lemma IntTextClean(n: int)
    ensures CleanValue(IntText(n))
  {
    var t := IntText(n);
    if n < 0 {
      assert t == "-" + NatText(-n);
      forall i | 1 <= i < |t|
        ensures IsDigit(t[i])
      {
        assert t[i] == NatText(-n)[i - 1];
      }
    }

  }

  /** The pairs of a clean context are readable. */
  lemma PairsClean(loc: Location, ctx: Context)
    requires CleanContext(loc, ctx)
    ensures PairsReadable(AnnotationPairs(loc, ctx))
  {
    IntTextClean(loc.line);
    AnnotationShape(loc, ctx);
    var ps := AnnotationPairs(loc, ctx);
    var base := [("file", loc.file), ("line", IntText(loc.line))];
    var m: seq<(string, string)> := if PresentText(loc.methodName) then [("method", loc.methodName.value)] else [];
    var c: seq<(string, string)> := if ctx.controllerLoaded && ctx.controller.Some? then
        [("controller", ctx.controller.value)] + (if ctx.action.Some? then [("action", ctx.action.value)] else [])
      else [];
    assert ps == base + m + c;
    forall i | 0 <= i < |ps|
      ensures ReadablePair(ps[i])
    {
      assert ps[i] in base || ps[i] in m || ps[i] in c;
    }
  }

  lemma TextsExclude(ps: seq<(string, string)>, c: char)
    requires forall i :: 0 <= i < |ps| ==> ReadablePair(ps[i])
    requires c == '\n' || c == '*' || c == '\'' || c == '"'
    ensures c !in Join(PairTexts(ps), ",")
  {
    var texts := PairTexts(ps);
    forall i | 0 <= i < |texts|
      ensures c !in texts[i]
    {
      KnownKeyFacts(ps[i].0);
      assert texts[i] == ps[i].0 + ":" + ps[i].1;
    }
    JoinExcludes(texts, ",", c);
  }

  lemma {:induction false} JoinExcludes(parts: seq<string>, sep: string, c: char)
    requires c !in sep && forall i :: 0 <= i < |parts| ==> c !in parts[i]
    ensures c !in Join(parts, sep)
    decreases |parts|
  {
    if |parts| > 1 {
      JoinExcludes(parts[1..], sep, c);
    }
  }

  lemma NoCloseAfterSpace(sql: string)
    requires !Contains(sql, "*/")
    ensures !Contains(" " + sql, "*/")
  {
    var s := " " + sql;
    forall i | OccursAt(s, "*/", i)
      ensures OccursAt(sql, "*/", i - 1)
    {
      assert s[i..i + 2][0] == s[i] == '*' && s[0] == ' ';
      assert sql[i - 1..i + 1] == s[i..i + 2];
    }
    ContainsIff(s, "*/");
    ContainsIff(sql, "*/");
  }

  lemma {:induction false} PairsDictUnique(ps: seq<(string, string)>)
    requires forall i, j :: 0 <= i < j < |ps| ==> ps[i].0 != ps[j].0
    ensures UniqueKeys(PairsDict(ps))
    decreases |ps|
  {
    if |ps| > 0 {
      PairsDictUnique(ps[1..]);
      var d := PairsDict(ps);
      assert d[1..] == PairsDict(ps[1..]);
      assert Keys(d[1..]) == seq(|ps| - 1, i requires 0 <= i < |ps| - 1 => ps[i + 1].0);
    }
  }

  lemma SplitPair(k: string, v: string)
    requires ':' !in k
    ensures SplitOnce(k + ":" + v, ':') == [k, v]
  {
    var s := k + ":" + v;
    assert s[|k|] == ':';
    var i := IndexOfChar(s, ':');
    assert forall j :: 0 <= j < |k| ==> s[j] == k[j];
    forall j | 0 <= j < i
      ensures s[j] != ':'
    {
      assert s[j] == s[..i][j];
    }
    assert i == |k|;
    assert s[..i] == k;
    assert s[i + 1..] == v;
  }

  /** One colon pair of a clean text is put under its own key. */
  lemma ColonPairsStep(texts: seq<string>, acc: Dict, k: string, v: string)
    requires |texts| > 0 && texts[0] == k + ":" + v
    requires ReadablePair((k, v))
    ensures ColonPairs(texts, acc) == ColonPairs(texts[1..], Put(acc, k, Str(v)))
  {
    KnownKeyFacts(k);
    StripNoop(v);
    SplitPair(k, v);
  }

  /** Folding the colon pairs of clean texts puts their bindings in order. */
  lemma {:induction false} ColonPairsOfTexts(ps: seq<(string, string)>, acc: Dict)
    requires forall i :: 0 <= i < |ps| ==> ReadablePair(ps[i])
    ensures ColonPairs(PairTexts(ps), acc) == Merge(acc, PairsDict(ps))
    decreases |ps|
  {
    if |ps| > 0 {
      var texts := PairTexts(ps);
      var acc' := Put(acc, ps[0].0, Str(ps[0].1));
      ColonPairsStep(texts, acc, ps[0].0, ps[0].1);
      PairsTail(ps);
      ColonPairsOfTexts(ps[1..], acc');
      Values.MergeCons(acc, ps[0].0, Str(ps[0].1), PairsDict(ps[1..]));
    }
  }

  lemma PairsTail(ps: seq<(string, string)>)
    requires |ps| > 0
    ensures PairTexts(ps)[1..] == PairTexts(ps[1..])
    ensures PairsDict(ps)[1..] == PairsDict(ps[1..])
    ensures PairsDict(ps)[0] == (ps[0].0, Str(ps[0].1))
    ensures PairsDict(ps) == [(ps[0].0, Str(ps[0].1))] + PairsDict(ps[1..])
  {
  }

  /** Splitting the joined texts on commas gives them back. */
  lemma SplitJoined(ps: seq<(string, string)>)
    requires |ps| >= 1 && forall i :: 0 <= i < |ps| ==> ReadablePair(ps[i])
    ensures Split(Join(PairTexts(ps), ","), ',') == PairTexts(ps)
  {
    var texts := PairTexts(ps);
    forall i | 0 <= i < |texts|
      ensures ',' !in texts[i]
    {
      KnownKeyFacts(ps[i].0);
      assert texts[i] == ps[i].0 + ":" + ps[i].1;
    }
    FieldsJoin(texts, ',');
    assert texts[|texts| - 1] != "";
  }

  lemma JoinHasFirst(parts: seq<string>, sep: string, c: char)
    requires |parts| >= 1 && c in parts[0]
    ensures c in Join(parts, sep)
  {
  }

  /** `parse_comment` on the joined pairs gives the pairs back. */
  lemma ParseContent(ps: seq<(string, string)>)
    requires PairsReadable(ps) && |ps| >= 1
    ensures ParseComment(Join(PairTexts(ps), ",")) == PairsDict(ps)
  {
    var texts := PairTexts(ps);
    var content := Join(texts, ",");
    assert texts[0][|ps[0].0|] == ':';
    JoinHasFirst(texts, ",", ':');
    SplitJoined(ps);
    ColonPairsOfTexts(ps, []);
    PairsDictUnique(ps);
    MergeDisjoint([], PairsDict(ps));
    var colon := ColonPairs(Split(content, ','), []);
    assert colon == PairsDict(ps);
    TextsExclude(ps, '\'');
    TextsExclude(ps, '"');
    ParseCommentColonOnly(content);
  }

  /** The annotated statement holds exactly one comment: the joined pairs. */
  lemma AnnotatedComments(ps: seq<(string, string)>, sql: string)
    requires |ps| >= 1 && forall i :: 0 <= i < |ps| ==> ReadablePair(ps[i])
    requires !Contains(sql, "*/")
    ensures Comments("/*" + Join(PairTexts(ps), ",") + "*/" + " " + sql, 0) == [Join(PairTexts(ps), ",")]
  {
    var content := Join(PairTexts(ps), ",");
    NoCloseAfterSpace(sql);
    TextsExclude(ps, '\n');
    TextsExclude(ps, '*');
    assert |PairTexts(ps)[0]| >= 1;
    LeadingComment(content, " " + sql);
    assert "/*" + content + "*/" + " " + sql == "/*" + content + "*/" + (" " + sql);
  }

  /** The parser reads an annotation built from clean values back as exactly
      its pairs, in order, whatever SQL without a closing delimiter follows. */
  lemma ParseAnnotatedSql(loc: Location, ctx: Context, sql: string)
    requires CleanContext(loc, ctx) && !Contains(sql, "*/")
    ensures Parse(Some(AnnotateSql(Switch(true, true), BuildAnnotation(true, Some(loc), ctx), sql)))
      == PairsDict(AnnotationPairs(loc, ctx))
  {
    var ps := AnnotationPairs(loc, ctx);
    var content := Join(PairTexts(ps), ",");
    PairsClean(loc, ctx);
    var annotated := "/*" + content + "*/" + " " + sql;
    assert AnnotateSql(Switch(true, true), BuildAnnotation(true, Some(loc), ctx), sql) == annotated;
    AnnotatedComments(ps, sql);
    ParseContent(ps);
    PairsDictUnique(ps);
    MergeDisjoint([], PairsDict(ps));
    ParseSingle(annotated, content);
  }

  /** Stripping the annotations of an annotated statement gives back the
      statement, stripped. */
  lemma StripAnnotatedSql(loc: Location, ctx: Context, sql: string)
    requires CleanContext(loc, ctx) && !Contains(sql, "*/")
    ensures StripAnnotations(Some(AnnotateSql(Switch(true, true), BuildAnnotation(true, Some(loc), ctx), sql)))
      == Some(Strip(sql))
  {
    var ps := AnnotationPairs(loc, ctx);
    PairsClean(loc, ctx);
    assert AnnotateSql(Switch(true, true), BuildAnnotation(true, Some(loc), ctx), sql)
      == "/*" + Join(PairTexts(ps), ",") + "*/" + " " + sql;
    StripJoined(ps, sql);
  }

  lemma StripJoined(ps: seq<(string, string)>, sql: string)
    requires |ps| >= 1 && forall i :: 0 <= i < |ps| ==> ReadablePair(ps[i])
    requires !Contains(sql, "*/")
    ensures StripAnnotations(Some("/*" + Join(PairTexts(ps), ",") + "*/" + " " + sql)) == Some(Strip(sql))
  {
    var content := Join(PairTexts(ps), ",");
    TextsExclude(ps, '\n');
    TextsExclude(ps, '*');
    NoCloseAfterSpace(sql);
    assert |PairTexts(ps)[0]| >= 1;
    StripLeadingComment(content, " " + sql);
    StripLeading(" ", sql);
    assert "/*" + content + "*/" + " " + sql == "/*" + content + "*/" + (" " + sql);
  }

  lemma ParseSingle(q: string, c: string)
    requires Comments(q, 0) == [c]
    ensures Parse(Some(q)) == Merge([], ParseComment(c))
  {
    assert Comments("", 0) == [];
    assert MergeAll([c], []) == MergeAll([], Merge([], ParseComment(c)));
  }

  // ---------------------------------------------------------------------------
  // Reading the annotation back for display

  /** Where each key of an annotation comes from, and which are absent. */
  lemma AnnotationShape(loc: Location, ctx: Context)
    ensures var ps := AnnotationPairs(loc, ctx);
      && (forall a, b :: 0 <= a < b < |ps| ==> ps[a].0 != ps[b].0)
      && (forall i :: 0 <= i < |ps| ==> ps[i].0 != "app" && ps[i].0 != "application")
      && (PresentText(loc.methodName) ==> ("method", loc.methodName.value) in ps)
      && (!PresentText(loc.methodName) ==> forall i :: 0 <= i < |ps| ==> ps[i].0 != "method")
      && (ctx.controllerLoaded && ctx.controller.Some? ==> ("controller", ctx.controller.value) in ps)
      && (!(ctx.controllerLoaded && ctx.controller.Some?) ==> forall i :: 0 <= i < |ps| ==> ps[i].0 != "controller")
      && (ctx.controllerLoaded && ctx.controller.Some? && ctx.action.Some? ==> ("action", ctx.action.value) in ps)
      && (!(ctx.controllerLoaded && ctx.controller.Some? && ctx.action.Some?) ==> forall i :: 0 <= i < |ps| ==> ps[i].0 != "action")
  {
    var ps := AnnotationPairs(loc, ctx);
    var f, l := ("file", loc.file), ("line", IntText(loc.line));
    var ctl := ctx.controllerLoaded && ctx.controller.Some?;
    if PresentText(loc.methodName) {
      var m := ("method", loc.methodName.value);
      if ctl && ctx.action.Some? {
        assert ps == [f, l, m, ("controller", ctx.controller.value), ("action", ctx.action.value)];
      } else if ctl {
        assert ps == [f, l, m, ("controller", ctx.controller.value)];
      } else {
        assert ps == [f, l, m];
      }
    } else {
      if ctl && ctx.action.Some? {
        assert ps == [f, l, ("controller", ctx.controller.value), ("action", ctx.action.value)];
      } else if ctl {
        assert ps == [f, l, ("controller", ctx.controller.value)];
      } else {
        assert ps == [f, l];
      }
    }
  }

  lemma GetPairsIn(ps: seq<(string, string)>, k: string, v: string)
    requires forall a, b :: 0 <= a < b < |ps| ==> ps[a].0 != ps[b].0
    requires (k, v) in ps
    ensures Get(PairsDict(ps), k) == Str(v)
  {
    var i :| 0 <= i < |ps| && ps[i] == (k, v);
    GetPairs(ps, i);
  }

  lemma {:induction false} GetPairs(ps: seq<(string, string)>, i: nat)
    requires forall a, b :: 0 <= a < b < |ps| ==> ps[a].0 != ps[b].0
    requires i < |ps|
    ensures Get(PairsDict(ps), ps[i].0) == Str(ps[i].1)
    decreases i
  {
    PairsTail(ps);
    if i > 0 {
      GetPairs(ps[1..], i - 1);
    }
  }

  lemma {:induction false} GetPairsAbsent(ps: seq<(string, string)>, k: string)
    requires forall i :: 0 <= i < |ps| ==> ps[i].0 != k
    ensures Get(PairsDict(ps), k) == Nil
    decreases |ps|
  {
    if |ps| > 0 {
      PairsTail(ps);
      GetPairsAbsent(ps[1..], k);
    }
  }

  /** What `format_for_display` shows for a parsed annotation: file and line,
      the method, and the controller with its action, each when built. */
  function ExpectedDisplay(loc: Location, ctx: Context): string {
    Join([loc.file + ":" + IntText(loc.line)]
      + (if PresentText(loc.methodName) then ["#" + loc.methodName.value] else [])
      + (if ctx.controllerLoaded && ctx.controller.Some? then
           [if ctx.action.Some? then ctx.controller.value + "#" + ctx.action.value else ctx.controller.value]
         else []),
      " ")
  }

  /** Formatting the pairs an annotation carries gives the source location
      the query listing shows. */
  lemma DisplayAnnotation(loc: Location, ctx: Context)
    ensures FormatForDisplay(PairsDict(AnnotationPairs(loc, ctx))) == Some(ExpectedDisplay(loc, ctx))
  {
    var d := PairsDict(AnnotationPairs(loc, ctx));
    AnnotationGets(loc, ctx);
    assert |d| > 0 by {
      assert HasKey(d, "file");
    }
    AnnotationParts(loc, ctx, Get(d, "file"), Get(d, "line"), Get(d, "method"), Get(d, "controller"), Get(d, "action"));
  }

  /** The pieces `format_for_display` builds from the values an annotation
      carries: no application, so three pieces at most. */
  lemma AnnotationParts(loc: Location, ctx: Context, file: Value, line: Value, meth: Value, controller: Value, action: Value)
    requires file == Str(loc.file) && line == Str(IntText(loc.line))
    requires meth == (if PresentText(loc.methodName) then Str(loc.methodName.value) else Nil)
    requires controller == (if ctx.controllerLoaded && ctx.controller.Some? then Str(ctx.controller.value) else Nil)
    requires action == (if ctx.controllerLoaded && ctx.controller.Some? && ctx.action.Some? then Str(ctx.action.value) else Nil)
    ensures Join(DisplayParts(file, line, meth, controller, action, Nil), " ") == ExpectedDisplay(loc, ctx)
  {
    var hasM := PresentText(loc.methodName);
    var hasC := ctx.controllerLoaded && ctx.controller.Some?;
    var hasA := hasC && ctx.action.Some?;
    var first := [loc.file + ":" + IntText(loc.line)];
    var second: seq<string> := if hasM then ["#" + loc.methodName.value] else [];
    var third: seq<string> := if hasC then [if hasA then ctx.controller.value + "#" + ctx.action.value else ctx.controller.value] else [];
    assert DisplayParts(file, line, meth, controller, action, Nil) == first + second + third + [];
    assert first + second + third + [] == first + second + third;
  }

  /** The value the parsed annotation gives each key `format_for_display`
      reads. */
  lemma AnnotationGets(loc: Location, ctx: Context)
    ensures var d := PairsDict(AnnotationPairs(loc, ctx));
      && Get(d, "file") == Str(loc.file)
      && Get(d, "line") == Str(IntText(loc.line))
      && Get(d, "method") == (if PresentText(loc.methodName) then Str(loc.methodName.value) else Nil)
      && Get(d, "controller") == (if ctx.controllerLoaded && ctx.controller.Some? then Str(ctx.controller.value) else Nil)
      && Get(d, "action") == (if ctx.controllerLoaded && ctx.controller.Some? && ctx.action.Some? then Str(ctx.action.value) else Nil)
      && Get(d, "app") == Nil && Get(d, "application") == Nil
  {
    var ps := AnnotationPairs(loc, ctx);
    AnnotationShape(loc, ctx);
    GetPairs(ps, 0);
    GetPairs(ps, 1);
    GetPairsAbsent(ps, "app");
    GetPairsAbsent(ps, "application");
    if PresentText(loc.methodName) {
      GetPairsIn(ps, "method", loc.methodName.value);
    } else {
      GetPairsAbsent(ps, "method");
    }
    if ctx.controllerLoaded && ctx.controller.Some? {
      GetPairsIn(ps, "controller", ctx.controller.value);
    } else {
      GetPairsAbsent(ps, "controller");
    }
    if ctx.controllerLoaded && ctx.controller.Some? && ctx.action.Some? {
      GetPairsIn(ps, "action", ctx.action.value);
    } else {
      GetPairsAbsent(ps, "action");
    }
  }
}
