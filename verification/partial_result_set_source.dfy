/**
 * The state a `PartialResultSetSource` keeps while it walks a stream of
 * `PartialResultSet` responses, and the accessors that report the metadata
 * and statistics of the latest response.
 *
 * The protobuf messages are modelled as datatypes: a sub-message that may be
 * absent is an `Option`, and the `row_count` oneof of `ResultSetStats` is a
 * datatype with one constructor per case plus the case where none is set.
 */
module PartialResultSetSource {
  import opened Wrappers
  import Values

  /** The `row_count` oneof of `ResultSetStats`. */
  datatype RowCount = RowCountNotSet | RowCountExact(exact: int) | RowCountLowerBound(lowerBound: int)

  /** A query plan, kept as the plan nodes' display names. */
  datatype QueryPlan = QueryPlan(planNodes: seq<string>)

  datatype ResultSetStats = ResultSetStats(
    queryPlan: Option<QueryPlan>,
    queryStats: Option<map<string, Values.ProtoValue>>,
    rowCount: RowCount)

  /** What a stats accessor of a message without stats hands back: every field unset. */
  const DefaultStats: ResultSetStats := ResultSetStats(None, None, RowCountNotSet)

  datatype ResultSetMetadata = ResultSetMetadata(rowType: seq<Values.Field>)

  datatype PartialResultSet = PartialResultSet(
    metadata: Option<ResultSetMetadata>,
    values: seq<Values.ProtoValue>,
    chunkedValue: bool,
    resumeToken: seq<bv8>,
    stats: Option<ResultSetStats>)

  /** A default-constructed message: no metadata, no values, no stats. */
  const EmptyResultSet: PartialResultSet := PartialResultSet(None, [], false, [], None)

  class Source {
    /** The responses the stream reader has yet to deliver. */
    var reader: seq<PartialResultSet>
    var lastResult: PartialResultSet
    var partialChunkedValue: Option<Values.ProtoValue>
    var finished: bool
    var nextValueIndex: int
    var nextValueTypeIndex: int

    /** A new source owns its reader and has read nothing yet. */
    constructor (reader: seq<PartialResultSet>)
      ensures this.reader == reader
      ensures lastResult == EmptyResultSet
      ensures partialChunkedValue == None
      ensures !finished
      ensures nextValueIndex == 0 && nextValueTypeIndex == 0
    {
      this.reader := reader;
      lastResult := EmptyResultSet;
      partialChunkedValue := None;
      finished := false;
      nextValueIndex := 0;
      nextValueTypeIndex := 0;
    }

    /** The metadata of the latest response, when it carries any. */
    function Metadata(): (r: Option<ResultSetMetadata>)
      reads this
      ensures r.Some? <==> lastResult.metadata.Some?
      ensures r.Some? ==> r.value == lastResult.metadata.value
    {
      if lastResult.metadata.Some? then Some(lastResult.metadata.value) else None
    }

    /** The stats of the latest response, when it carries any. */
    function Stats(): (r: Option<ResultSetStats>)
      reads this
      ensures r.Some? <==> lastResult.stats.Some?
      ensures r.Some? ==> r.value == lastResult.stats.value
    {
      if lastResult.stats.Some? then Some(lastResult.stats.value) else None
    }

    /** The stats message as protobuf's accessor returns it: the default one when absent. */
    function StatsMessage(): (s: ResultSetStats)
      reads this
      ensures lastResult.stats.None? ==> s == DefaultStats
      ensures lastResult.stats.Some? ==> s == lastResult.stats.value
    {
      if lastResult.stats.Some? then lastResult.stats.value else DefaultStats
    }

    /**
     * The lower bound when the row count is a lower bound, and otherwise the
     * exact count, which reads as 0 when that case is not the one set.
     */
    function RowsModified(): (r: int)
      reads this
      ensures Stats().Some? && Stats().value.rowCount.RowCountLowerBound? ==>
        r == Stats().value.rowCount.lowerBound
      ensures Stats().Some? && Stats().value.rowCount.RowCountExact? ==>
        r == Stats().value.rowCount.exact
      ensures Stats().None? || Stats().value.rowCount.RowCountNotSet? ==> r == 0
    {
      var count := StatsMessage().rowCount;
      if count.RowCountLowerBound? then count.lowerBound
      else if count.RowCountExact? then count.exact
      else 0
    }

    /** Present exactly when the stats carry query statistics; its entries are never copied. */
    function QueryStats(): (r: Option<map<string, string>>)
      reads this
      ensures r.Some? <==> Stats().Some? && Stats().value.queryStats.Some?
      ensures r.Some? ==> r.value == map[]
    {
      if lastResult.stats.Some? && lastResult.stats.value.queryStats.Some? then Some(map[]) else None
    }

    /** Present exactly when the stats carry a query plan, and then that plan. */
    function QueryExecutionPlan(): (r: Option<QueryPlan>)
      reads this
      ensures r.Some? <==> Stats().Some? && Stats().value.queryPlan.Some?
      ensures r.Some? ==> r.value == Stats().value.queryPlan.value
    {
      if lastResult.stats.Some? && lastResult.stats.value.queryPlan.Some? then
        Some(lastResult.stats.value.queryPlan.value)
      else None
    }
  }

  /** A source that has read nothing reports no metadata, no stats and no modified rows. */
  lemma FreshSourceReportsNothing(s: Source)
    requires s.lastResult == EmptyResultSet
    ensures s.Metadata().None? && s.Stats().None?
    ensures s.QueryStats().None? && s.QueryExecutionPlan().None?
    ensures s.RowsModified() == 0
  {
  }

  /** The query details are parts of the stats: without stats there are none. */
  lemma QueryDetailsNeedStats(s: Source)
    ensures s.QueryStats().Some? ==> s.Stats().Some?
    ensures s.QueryExecutionPlan().Some? ==> s.Stats().Some?
    ensures s.Stats().None? ==> s.QueryStats().None? && s.QueryExecutionPlan().None? && s.RowsModified() == 0
  {
  }

  /** The accessors depend on the latest response only, not on the cursor. */
  lemma AccessorsReadOnlyLastResult(s: Source, t: Source)
    requires s.lastResult == t.lastResult
    ensures s.Metadata() == t.Metadata() && s.Stats() == t.Stats()
    ensures s.RowsModified() == t.RowsModified()
    ensures s.QueryStats() == t.QueryStats() && s.QueryExecutionPlan() == t.QueryExecutionPlan()
  {
  }

  /** Each row-count case is read from its own field. */
  lemma RowsModifiedByCase(s: Source, n: int)
    ensures s.lastResult.stats == Some(ResultSetStats(None, None, RowCountExact(n))) ==> s.RowsModified() == n
    ensures s.lastResult.stats == Some(ResultSetStats(None, None, RowCountLowerBound(n))) ==> s.RowsModified() == n
    ensures s.lastResult.stats == Some(ResultSetStats(None, None, RowCountNotSet)) ==> s.RowsModified() == 0
  {
  }
}
