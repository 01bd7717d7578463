/** The enrichment hook of the query reports: each row's `query` is read for
    source annotations, and the row gains a `source` column. */
module Enrichment {
  import opened Common
  import opened Text
  import opened Values
  import opened AnnotationParser
  import opened QueryAnnotator

  /** The text of a row's query: `row["query"].to_s`. */
  function QueryText(row: Dict): (q: string)
    ensures Get(row, "query") == Nil ==> q == ""
    ensures Get(row, "query").Str? ==> q == Get(row, "query").s
  {
    ToS(Get(row, "query"))
  }

  /** The columns `enrich_with_annotations` merges into a row: the displayed
      source and the stripped query when an annotation was `found`,
      otherwise a nil source. */
  function Columns(found: bool, source: string, query: string): (e: Dict)
    ensures UniqueKeys(e) && HasKey(e, "source")
    ensures Get(e, "source") == (if found then Str(source) else Nil)
    ensures Get(e, "query") == (if found then Str(query) else Nil)
    ensures !found ==> !HasKey(e, "query")
  {
    var e: Dict := if found then [("source", Str(source)), ("query", Str(query))] else [("source", Nil)];
    assert Keys(e)[0] == "source";
    e
  }

  /** The annotation found in a query text. */
  function Annotation(q: string): Dict { Parse(Some(q)) }

  /** One row of `enrich_with_annotations`. */
  function EnrichRow(row: Dict): (r: Dict)
    ensures HasKey(r, "source")
    ensures UniqueKeys(row) ==> UniqueKeys(r)
  {
    var q := QueryText(row);
    var ann := Annotation(q);
    var e := Columns(|ann| > 0, FormatForDisplay(ann).GetOr(""), StripAnnotations(Some(q)).GetOr(""));
    MergeGet(row, e, "source");
    assert UniqueKeys(row) ==> UniqueKeys(Merge(row, e)) by {
      if UniqueKeys(row) {
        MergeUnique(row, e);
      }
    }
    Merge(row, e)
  }

  /** Every column other than `source` and `query` is left as it was. */
  lemma EnrichKeepsOthers(row: Dict, k: string)
    requires k != "source" && k != "query"
    ensures Get(EnrichRow(row), k) == Get(row, k)
  {
    var q := QueryText(row);
    var ann := Annotation(q);
    MergeGet(row, Columns(|ann| > 0, FormatForDisplay(ann).GetOr(""), StripAnnotations(Some(q)).GetOr("")), k);
  }

  /** Without annotations the source is nil and the query untouched. */
  lemma EnrichUnannotated(row: Dict)
    requires Parse(Some(QueryText(row))) == []
    ensures Get(EnrichRow(row), "source") == Nil
    ensures Get(EnrichRow(row), "query") == Get(row, "query")
  {
    var q := QueryText(row);
    var ann := Annotation(q);
    var e := Columns(|ann| > 0, FormatForDisplay(ann).GetOr(""), StripAnnotations(Some(q)).GetOr(""));
    MergeGet(row, e, "source");
    MergeGet(row, e, "query");
  }

  /** With annotations the source is their display form and the query has
      them stripped. */
  lemma EnrichAnnotated(row: Dict)
    requires Parse(Some(QueryText(row))) != []
    ensures Get(EnrichRow(row), "source") == Str(FormatForDisplay(Parse(Some(QueryText(row)))).value)
    ensures Get(EnrichRow(row), "query") == Str(StripAnnotations(Some(QueryText(row))).value)
  {
    var q := QueryText(row);
    var ann := Annotation(q);
    var e := Columns(|ann| > 0, FormatForDisplay(ann).GetOr(""), StripAnnotations(Some(q)).GetOr(""));
    MergeGet(row, e, "source");
    MergeGet(row, e, "query");
  }

  /** `enrich_with_annotations`: every row enriched, count and order kept. */
  function Enrich(rows: seq<Dict>): (r: seq<Dict>)
    ensures |r| == |rows|
    ensures forall i :: 0 <= i < |rows| ==> r[i] == EnrichRow(rows[i])
  {
    seq(|rows|, i requires 0 <= i < |rows| => EnrichRow(rows[i]))
  }

  /** A row whose query is nil is shown without a source and keeps its nil
      query. */
  lemma EnrichNilQuery(row: Dict)
    requires Get(row, "query") == Nil
    ensures Get(EnrichRow(row), "source") == Nil
    ensures Get(EnrichRow(row), "query") == Nil
  {
    EnrichUnannotated(row);
  }

  /** A row whose query holds no comment keeps it as it was. */
  lemma EnrichPlainQuery(row: Dict)
    requires Comments(QueryText(row), 0) == []
    ensures Get(EnrichRow(row), "source") == Nil
    ensures Get(EnrichRow(row), "query") == Get(row, "query")
  {
    EnrichUnannotated(row);
  }

  /** A row whose query the annotator prefixed shows the annotated location
      as its source and the original statement, stripped, as its query. */
  lemma EnrichAnnotatedQuery(row: Dict, loc: Location, ctx: Context, sql: string)
    requires CleanContext(loc, ctx) && !Contains(sql, "*/")
    requires Get(row, "query") == Str(AnnotateSql(Switch(true, true), BuildAnnotation(true, Some(loc), ctx), sql))
    ensures Get(EnrichRow(row), "source") == Str(ExpectedDisplay(loc, ctx))
    ensures Get(EnrichRow(row), "query") == Str(Strip(sql))
  {
    ParseAnnotatedSql(loc, ctx, sql);
    DisplayAnnotation(loc, ctx);
    StripAnnotatedSql(loc, ctx, sql);
    EnrichAnnotated(row);
  }
}
