/**
 The topology filter-expression compiler: a comma-separated label query such
 as `role=leaf, zone!=west` becomes an ordered list of filters, each carrying
 the key it constrains and an equality, membership or negation body. This
 module follows the code as written, including the paths on which it panics.
 */
module TopoFilters {
  import opened GoRuntime
  import opened GoStrings

  /** The `oneof` body of a topology filter. */
  datatype FilterBody = Equal(value: string) | In(values: seq<string>) | Not(inner: Filter)

  /** A topology filter: the key it applies to and its body. */
  datatype Filter = Filter(key: string, body: FilterBody)

  /** The aggregate handed to the topology query API. */
  datatype Filters = Filters(labelFilters: seq<Filter>, kindFilters: seq<Filter>)

  /** The topology object types a query can target. */
  datatype ObjectType = Unspecified | Entity | Relation | Kind

  /** The operator markers, in the order the classifier tests them. */
  const NotInMarker: string := " !in ("
  const InMarker: string := " in ("
  const NotEqualOp: string := "!="
  const EqualOp: string := "="

  /** A clause that the classifier sends down one of the membership branches. */
  predicate IsMembershipClause(field: string) {
    Contains(field, NotInMarker) || Contains(field, InMarker)
  }

  /** A clause that matches none of the four operator markers. */
  predicate IsUnrecognizedClause(field: string) {
    !IsMembershipClause(field) && !Contains(field, NotEqualOp) && !Contains(field, EqualOp)
  }

  /** Both membership markers contain an opening parenthesis, and `!=` contains `=`. */
  lemma MarkerPieces(field: string)
    ensures Contains(field, NotInMarker) ==> Contains(field, "(")
    ensures Contains(field, InMarker) ==> Contains(field, "(")
    ensures Contains(field, NotEqualOp) ==> Contains(field, EqualOp)
  {
    if Contains(field, NotInMarker) {
      assert OccursAt(NotInMarker, "(", 5);
      ContainsPiece(field, NotInMarker, "(", 5);
    }
    if Contains(field, InMarker) {
      assert OccursAt(InMarker, "(", 4);
      ContainsPiece(field, InMarker, "(", 4);
    }
    if Contains(field, NotEqualOp) {
      assert OccursAt(NotEqualOp, EqualOp, 1);
      ContainsPiece(field, NotEqualOp, EqualOp, 1);
    }
  }

  /** The value of an equality: the trimmed text between the first `=` and the next `=` (or the end). */
  function ValueAfterFirstEqual(field: string): string
    requires Contains(field, EqualOp)
  {
    TrimSpace(Before(After(field, EqualOp), EqualOp))
  }

  /** `extractKey`: the trimmed first piece of the field split on `sep`. */
  function ExtractKey(field: string, sep: string): (key: string)
    requires |sep| > 0
    ensures key == TrimSpace(Before(field, sep))
    ensures !Contains(field, sep) ==> key == TrimSpace(field)
  {
    TrimSpace(Split(field, sep)[0])
  }

  /** `extractValue`: the trimmed second piece of the field split on `=`;
      the read of piece 1 panics when the field has no `=`. */
  function ExtractValue(field: string): (r: Result<string>)
    ensures r.Ok? <==> Contains(field, EqualOp)
    ensures r.Ok? ==> r.value == ValueAfterFirstEqual(field)
    ensures r.Abort? ==> r.panic == IndexOutOfRange(1, 1)
  {
    SplitShape(field, EqualOp);
    var piece :- At(Split(field, EqualOp), 1);
    Ok(TrimSpace(piece))
  }

  /** The loop `for i, v := range gs { values[i] = strings.TrimSpace(v) }`,
      from index `i` on, writing into a slice whose length never changes. */
  function StoreTrimmed(values: seq<string>, gs: seq<string>, i: nat): (r: Result<seq<string>>)
    requires i <= |gs|
    ensures i < |gs| ==> (r.Ok? <==> |gs| <= |values|)
    ensures r.Abort? ==> r.panic == IndexOutOfRange(if i < |values| then |values| else i, |values|)
    ensures r.Ok? ==> |r.value| == |values|
    ensures r.Ok? ==> forall k :: i <= k < |gs| ==> r.value[k] == TrimSpace(gs[k])
    ensures r.Ok? ==> forall k :: 0 <= k < |values| && (k < i || |gs| <= k) ==> r.value[k] == values[k]
    decreases |gs| - i
  {
    if i == |gs| then
      Ok(values)
    else
      var stored :- Store(values, i, TrimSpace(gs[i]));
      StoreTrimmed(stored, gs, i + 1)
  }

  /** The comma-separated items of a membership list: the text after the
      first `(` up to the next `(` or `)`, split on `,`; reading piece 1 of
      the split on `(` panics when the field has no `(`. */
  function ListItems(field: string): (r: Result<seq<string>>)
    ensures r.Ok? <==> Contains(field, "(")
    ensures r.Ok? ==> |r.value| >= 1
    ensures r.Ok? ==> Join(r.value, ",") == Before(Before(After(field, "("), "("), ")")
    ensures r.Ok? ==> forall k :: 0 <= k < |r.value| ==> ',' !in r.value[k]
    ensures r.Abort? ==> r.panic == IndexOutOfRange(1, 1)
  {
    SplitShape(field, "(");
    var open :- At(Split(field, "("), 1);
    var list := Split(open, ")")[0];
    SplitFirst(open, ")");
    SplitJoinRoundTrip(list, ",");
    ItemsLackComma(list);
    Ok(Split(list, ","))
  }

  /** No item of a comma split holds a comma. */
  lemma ItemsLackComma(list: string)
    ensures forall k :: 0 <= k < |Split(list, ",")| ==> ',' !in Split(list, ",")[k]
  {
    var items := Split(list, ",");
    SplitPiecesLackSep(list, ",");
    forall k | 0 <= k < |items|
      ensures ',' !in items[k]
    {
      ContainsChar(items[k], ',');
    }
  }

  /** `extractValues`: the items are stored by index into a slice made with
      length 0, so the first store panics whatever the field holds. */
  function ExtractValues(field: string): (r: Result<seq<string>>)
    ensures r.Abort?
    ensures Contains(field, "(") ==> r.panic == IndexOutOfRange(0, 0)
    ensures !Contains(field, "(") ==> r.panic == IndexOutOfRange(1, 1)
  {
    var gs :- ListItems(field);
    StoreTrimmed([], gs, 0)
  }

  /** `compileLabelFilter`: test the trimmed clause for ` !in (`, ` in (`,
      `!=` and `=` in that order, wherever they stand, take the first one
      present and build its filter; `Ok(None)` is Go's `nil` filter for an
      unrecognized clause. The plain `=` branch extracts its key with the
      `!=` separator. */
  function CompileLabelFilter(field: string): (r: Result<Option<Filter>>)
    ensures r.Abort? <==> IsMembershipClause(field)
    ensures r.Abort? ==> r.panic == IndexOutOfRange(0, 0)
    ensures r == Ok(None) <==> IsUnrecognizedClause(field)
  {
    MarkerPieces(field);
    if Contains(field, NotInMarker) then
      var key := ExtractKey(field, NotInMarker);
      (match ExtractValues(field)
       case Abort(p) => Abort(p)
       case Ok(values) => Ok(Some(Filter(key, Not(Filter("", In(values)))))))
    else if Contains(field, InMarker) then
      var key := ExtractKey(field, InMarker);
      (match ExtractValues(field)
       case Abort(p) => Abort(p)
       case Ok(values) => Ok(Some(Filter(key, In(values)))))
    else if Contains(field, NotEqualOp) then
      var key := ExtractKey(field, NotEqualOp);
      (match ExtractValue(field)
       case Abort(p) => Abort(p)
       case Ok(value) => Ok(Some(Filter(key, Not(Filter("", Equal(value)))))))
    else if Contains(field, EqualOp) then
      var key := ExtractKey(field, NotEqualOp);
      (match ExtractValue(field)
       case Abort(p) => Abort(p)
       case Ok(value) => Ok(Some(Filter(key, Equal(value)))))
    else
      Ok(None)
  }

  /** The loop shared by `compileLabelFilters` and `compileKindFilters`:
      compile each trimmed field in order, keep the filters that are not nil,
      and stop at the first field whose compilation panics. */
  function CompileClauses(fields: seq<string>, compile: string -> Result<Option<Filter>>): (r: Result<seq<Filter>>)
    ensures r.Abort? ==> exists i :: 0 <= i < |fields| && compile(TrimSpace(fields[i])).Abort?
    ensures r.Ok? ==> forall i :: 0 <= i < |fields| ==> compile(TrimSpace(fields[i])).Ok?
    ensures r.Ok? ==> |r.value| <= |fields|
    decreases |fields|
  {
    if |fields| == 0 then
      Ok([])
    else
      var head :- compile(TrimSpace(fields[0]));
      var rest :- CompileClauses(fields[1..], compile);
      assert forall i :: 1 <= i < |fields| ==> fields[1..][i - 1] == fields[i];
      Ok(if head.Some? then [head.value] + rest else rest)
  }

  /** `compileLabelFilters`: the clauses are the query split on every comma. */
  function CompileLabelFilters(query: string): (r: Result<seq<Filter>>)
    ensures r.Ok? ==> |r.value| <= |Split(query, ",")|
  {
    CompileClauses(Split(query, ","), CompileLabelFilter)
  }

  /** `compileKindFilter`: a stub that returns a nil filter for every clause. */
  function CompileKindFilter(field: string): Result<Option<Filter>> {
    Ok(None)
  }

  /** Compiling clauses with a compiler that never yields a filter yields none. */
  lemma {:induction false} ClausesOfStubAreEmpty(fields: seq<string>)
    ensures CompileClauses(fields, CompileKindFilter) == Ok([])
    decreases |fields|
  {
    if |fields| > 0 {
      ClausesOfStubAreEmpty(fields[1..]);
    }
  }

  /** `compileKindFilters`: the kind-filter list is empty for every query. */
  function CompileKindFilters(query: string): (r: Result<seq<Filter>>)
    ensures r == Ok([])
  {
    ClausesOfStubAreEmpty(Split(query, ","));
    CompileClauses(Split(query, ","), CompileKindFilter)
  }

  /** `compileFilters`: label filters always come from the `label` query;
      kind filters are compiled from the `kind` query only for kind and
      relation queries and stay empty otherwise. A panic while compiling the
      label query ends the call. */
  function CompileFilters(objectType: ObjectType, labelQuery: string, kindQuery: string): (r: Result<Filters>)
    ensures r.Ok? <==> CompileLabelFilters(labelQuery).Ok?
    ensures r.Abort? ==> r.panic == CompileLabelFilters(labelQuery).panic
    ensures r.Ok? ==> r.value.labelFilters == CompileLabelFilters(labelQuery).value
    ensures r.Ok? && (objectType == Kind || objectType == Relation) ==>
              r.value.kindFilters == CompileKindFilters(kindQuery).value
    ensures r.Ok? ==> r.value.kindFilters == []
  {
    var labels :- CompileLabelFilters(labelQuery);
    if objectType == Kind || objectType == Relation then
      Ok(Filters(labels, CompileKindFilters(kindQuery).value))
    else
      Ok(Filters(labels, []))
  }
}
