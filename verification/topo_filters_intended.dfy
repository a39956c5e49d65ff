/**
 The label-filter compiler as its structure evidently intends: the value
 slice of a membership clause is made with one slot per list item, and a
 plain `=` clause takes its key from the text before the `=`. Everything
 else (classification order, keyless inner filters, the comma split of the
 query) is unchanged, so the properties here also show what the fixes do
 not repair.
 */
module TopoFiltersIntended {
  import opened GoRuntime
  import opened GoStrings
  import opened TopoFilters
  import opened TopoFilterProperties

  /** The trimmed items of a membership list. */
  function TrimmedItems(field: string): seq<string>
    requires Contains(field, "(")
  {
    var gs := ListItems(field).value;
    seq(|gs|, k requires 0 <= k < |gs| => TrimSpace(gs[k]))
  }

  /** `extractValues` with `make([]string, len(gs))`: every store is in
      range, so the values are the trimmed items; the read of piece 1 of the
      split on `(` still panics when the field has no `(`. */
  function ExtractValuesSized(field: string): (r: Result<seq<string>>)
    ensures r.Ok? <==> Contains(field, "(")
    ensures r.Ok? ==> r.value == TrimmedItems(field)
    ensures r.Abort? ==> r.panic == IndexOutOfRange(1, 1)
  {
    var gs :- ListItems(field);
    var values := seq(|gs|, _ => "");
    var stored := StoreTrimmed(values, gs, 0);
    assert stored.Ok?;
    stored
  }

  /** `compileLabelFilter` with both repairs: no clause panics, and a clause
      yields nil exactly when it holds none of the markers. */
  function CompileLabelFilterIntended(field: string): (r: Result<Option<Filter>>)
    ensures r.Ok?
    ensures r.value == None <==> IsUnrecognizedClause(field)
  {
    MarkerPieces(field);
    if Contains(field, NotInMarker) then
      var key := ExtractKey(field, NotInMarker);
      (match ExtractValuesSized(field)
       case Abort(p) => Abort(p)
       case Ok(values) => Ok(Some(Filter(key, Not(Filter("", In(values)))))))
    else if Contains(field, InMarker) then
      var key := ExtractKey(field, InMarker);
      (match ExtractValuesSized(field)
       case Abort(p) => Abort(p)
       case Ok(values) => Ok(Some(Filter(key, In(values)))))
    else if Contains(field, NotEqualOp) then
      var key := ExtractKey(field, NotEqualOp);
      (match ExtractValue(field)
       case Abort(p) => Abort(p)
       case Ok(value) => Ok(Some(Filter(key, Not(Filter("", Equal(value)))))))
    else if Contains(field, EqualOp) then
      var key := ExtractKey(field, EqualOp);
      (match ExtractValue(field)
       case Abort(p) => Abort(p)
       case Ok(value) => Ok(Some(Filter(key, Equal(value)))))
    else
      Ok(None)
  }

  /** `compileLabelFilters` over the repaired clause compiler: no query panics. */
  function CompileLabelFiltersIntended(query: string): (r: Result<seq<Filter>>)
    ensures r.Ok?
    ensures |r.value| <= |Split(query, ",")|
  {
    CompileClauses(Split(query, ","), CompileLabelFilterIntended)
  }

  /** `compileFilters` over the repaired label compiler: it never panics. */
  function CompileFiltersIntended(objectType: ObjectType, labelQuery: string, kindQuery: string): (r: Filters)
    ensures CompileLabelFiltersIntended(labelQuery) == Ok(r.labelFilters)
    ensures r.kindFilters == []
  {
    var labels := CompileLabelFiltersIntended(labelQuery).value;
    if objectType == Kind || objectType == Relation then
      Filters(labels, CompileKindFilters(kindQuery).value)
    else
      Filters(labels, [])
  }

  /** The repaired `=` branch keys the filter by the trimmed text before the `=`. */
  lemma IntendedEqualClause(field: string)
    requires !IsMembershipClause(field) && !Contains(field, NotEqualOp) && Contains(field, EqualOp)
    ensures CompileLabelFilterIntended(field)
         == Ok(Some(Filter(TrimSpace(Before(field, EqualOp)), Equal(ValueAfterFirstEqual(field)))))
  {
  }

  /** The repaired `=` key never contains `=`, unlike the key the code as
      written produces, which is the whole clause. */
  lemma IntendedEqualKeyLacksEqual(field: string)
    requires !IsMembershipClause(field) && !Contains(field, NotEqualOp) && Contains(field, EqualOp)
    ensures CompileLabelFilterIntended(field).Ok? && CompileLabelFilterIntended(field).value.Some?
    ensures !Contains(CompileLabelFilterIntended(field).value.value.key, EqualOp)
  {
    IntendedEqualClause(field);
    var before := Before(field, EqualOp);
    BeforeLacksSep(field, EqualOp);
    ContainsChar(before, '=');
    TrimSpaceKeepsChars(before);
    ContainsChar(TrimSpace(before), '=');
  }

  /** The repaired ` in (` branch: the key is the trimmed text before the
      marker and the values are the trimmed list items. */
  lemma IntendedInClause(field: string)
    requires !Contains(field, NotInMarker) && Contains(field, InMarker)
    ensures Contains(field, "(")
    ensures CompileLabelFilterIntended(field) == Ok(Some(Filter(TrimSpace(Before(field, InMarker)), In(TrimmedItems(field)))))
  {
    MarkerPieces(field);
  }

  /** The ` !in (` branch negates a keyless membership filter. */
  lemma IntendedNotInClause(field: string)
    requires Contains(field, NotInMarker)
    ensures Contains(field, "(")
    ensures CompileLabelFilterIntended(field)
         == Ok(Some(Filter(TrimSpace(Before(field, NotInMarker)), Not(Filter("", In(TrimmedItems(field)))))))
  {
    MarkerPieces(field);
  }

  /** A clause without a comma has a one-item list. */
  lemma IntendedListOfClauseHasOneItem(field: string)
    requires ',' !in field && Contains(field, "(")
    ensures |TrimmedItems(field)| == 1
  {
    SplitShape(field, "(");
    var open := Split(field, "(")[1];
    assert ',' !in open by {
      SplitKeepsChars(field, "(");
    }
    var inner := Split(open, ")")[0];
    assert ',' !in inner by {
      SplitKeepsChars(open, ")");
    }
    ContainsChar(inner, ',');
    SplitShape(inner, ",");
  }

  /** A membership filter, plain or negated, holds exactly one value. */
  predicate SingleValued(f: Filter) {
    && (f.body.In? ==> |f.body.values| == 1)
    && (f.body.Not? && f.body.inner.body.In? ==> |f.body.inner.body.values| == 1)
  }

  /** The filter of a comma-free clause is single-valued. */
  lemma IntendedClauseSingleValued(field: string)
    requires ',' !in field
    ensures CompileLabelFilterIntended(field).value.Some? ==> SingleValued(CompileLabelFilterIntended(field).value.value)
  {
    if Contains(field, NotInMarker) {
      IntendedNotInClause(field);
      IntendedListOfClauseHasOneItem(field);
    } else if Contains(field, InMarker) {
      IntendedInClause(field);
      IntendedListOfClauseHasOneItem(field);
    }
  }

  /** Even with the repairs, every membership filter a query yields holds
      exactly one value: the top-level comma split has already cut each list
      apart. */
  lemma IntendedMembershipFiltersHaveOneValue(query: string)
    ensures forall f :: f in CompileLabelFiltersIntended(query).value ==> SingleValued(f)
  {
    var fields := Split(query, ",");
    forall i | 0 <= i < |fields|
      ensures var c := CompileLabelFilterIntended(TrimSpace(fields[i]));
        c.Ok? && c.value.Some? ==> SingleValued(c.value.value)
    {
      ClausesHaveNoComma(query);
      assert fields[i] in fields;
      TrimSpaceKeepsChars(fields[i]);
      IntendedClauseSingleValued(TrimSpace(fields[i]));
    }
    CompileClausesKeep(fields, CompileLabelFilterIntended, SingleValued);
  }

  /** A comma-free query whose clause takes the plain `=` branch yields one
      equality keyed by the trimmed text before the `=`. */
  lemma SinglePlainEqualQueryIntended(query: string)
    requires ',' !in query
    requires var field := TrimSpace(query);
      !IsMembershipClause(field) && !Contains(field, NotEqualOp) && Contains(field, EqualOp)
    ensures CompileLabelFiltersIntended(query)
         == Ok([Filter(TrimSpace(Before(TrimSpace(query), EqualOp)), Equal(ValueAfterFirstEqual(TrimSpace(query))))])
  {
    IntendedEqualClause(TrimSpace(query));
    SingleClauseQuery(query);
    CompileClausesOfOne(query, CompileLabelFilterIntended);
  }

  /** With the repair the query `a=1` yields the key `a`. */
  lemma IntendedPlainEqualExample()
    ensures CompileLabelFiltersIntended("a=1") == Ok([Filter("a", Equal("1"))])
  {
    var f := "a=1";
    assert TrimSpace(f) == f by {
      TrimSpaceOfTrimmed(f);
    }
    assert ValueAfterFirstEqual(f) == "1" && TrimSpace(Before(f, EqualOp)) == "a" by {
      IndexOfChar(f, '=', 1);
      assert After(f, EqualOp) == "1";
      ContainsChar("1", '=');
      TrimSpaceOfTrimmed("1");
      TrimSpaceOfTrimmed("a");
    }
    MarkersByChars(f);
    SinglePlainEqualQueryIntended(f);
  }
}
