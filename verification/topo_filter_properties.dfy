/**
 What the label-filter compiler guarantees, clause by clause and for a whole
 query: which clauses panic, which yield nothing, the key and value each
 operator branch extracts, and that the filter list follows the clause order.
 */
module TopoFilterProperties {
  import opened GoRuntime
  import opened GoStrings
  import opened TopoFilters

  /** The markers a clause contains, read off the characters it holds. */
  lemma MarkersByChars(field: string)
    ensures '(' !in field ==> !IsMembershipClause(field)
    ensures '!' !in field ==> !Contains(field, NotEqualOp)
    ensures Contains(field, EqualOp) <==> '=' in field
  {
    MarkerPieces(field);
    ContainsChar(field, '(');
    ContainsChar(field, '!');
    ContainsChar(field, '=');
    if Contains(field, NotEqualOp) {
      assert OccursAt(NotEqualOp, "!", 0);
      ContainsPiece(field, NotEqualOp, "!", 0);
    }
  }

  /** The `!=` branch: the key is the trimmed text before the first `!=`, the
      body negates an equality whose own key is empty and whose value is the
      trimmed text between the first and the second `=`. */
  lemma NotEqualClause(field: string)
    requires !IsMembershipClause(field) && Contains(field, NotEqualOp)
    ensures Contains(field, EqualOp)
    ensures CompileLabelFilter(field)
         == Ok(Some(Filter(TrimSpace(Before(field, NotEqualOp)), Not(Filter("", Equal(ValueAfterFirstEqual(field)))))))
  {
    MarkerPieces(field);
  }

  /** The plain `=` branch: since the key is taken by splitting on `!=`, which
      this clause lacks, the key is the whole trimmed clause. */
  lemma EqualClause(field: string)
    requires !IsMembershipClause(field) && !Contains(field, NotEqualOp) && Contains(field, EqualOp)
    ensures CompileLabelFilter(field) == Ok(Some(Filter(TrimSpace(field), Equal(ValueAfterFirstEqual(field)))))
  {
  }

  /** Every filter a clause yields is either a plain equality (the clause has
      no `!=`) or the negation of a keyless equality (the clause has `!=`);
      no clause ever yields a membership filter. */
  lemma CompiledFilterShape(field: string)
    requires CompileLabelFilter(field).Ok? && CompileLabelFilter(field).value.Some?
    ensures var f := CompileLabelFilter(field).value.value;
      && (f.body.Equal? <==> !Contains(field, NotEqualOp))
      && (f.body.Not? <==> Contains(field, NotEqualOp))
      && (f.body.Not? ==> f.body.inner.key == "" && f.body.inner.body.Equal?)
      && !f.body.In?
  {
    if Contains(field, NotEqualOp) {
      NotEqualClause(field);
    } else {
      EqualClause(field);
    }
  }

  /** Go's sequential evaluation of two runs: the first panic wins, otherwise
      the filters of the first run come before those of the second. */
  function Sequenced(first: Result<seq<Filter>>, second: Result<seq<Filter>>): Result<seq<Filter>> {
    if first.Abort? then first
    else if second.Abort? then second
    else Ok(first.value + second.value)
  }

  /** Compiling the fields `a + b` is compiling `a`, then `b`, and
      concatenating: the filter list follows the field order. */
  lemma {:induction false} CompileClausesAppend(a: seq<string>, b: seq<string>, compile: string -> Result<Option<Filter>>)
    ensures CompileClauses(a + b, compile) == Sequenced(CompileClauses(a, compile), CompileClauses(b, compile))
    decreases |a|
  {
    if |a| == 0 {
      assert a + b == b;
      if CompileClauses(b, compile).Ok? {
        assert [] + CompileClauses(b, compile).value == CompileClauses(b, compile).value;
      }
    } else {
      assert (a + b)[0] == a[0];
      assert (a + b)[1..] == a[1..] + b;
      CompileClausesAppend(a[1..], b, compile);
      var head := compile(TrimSpace(a[0]));
      if head.Ok? && head.value.Some? {
        var rest := CompileClauses(a[1..], compile);
        if rest.Ok? && CompileClauses(b, compile).Ok? {
          var f := head.value.value;
          assert CompileClauses(a, compile) == Ok([f] + rest.value);
          assert [f] + (rest.value + CompileClauses(b, compile).value)
              == ([f] + rest.value) + CompileClauses(b, compile).value;
        }
      }
    }
  }

  /** One field contributes its filter, nothing when it yields nil, or its panic. */
  lemma CompileClausesOfOne(field: string, compile: string -> Result<Option<Filter>>)
    ensures CompileClauses([field], compile)
         == match compile(TrimSpace(field))
            case Abort(p) => Abort(p)
            case Ok(None) => Ok([])
            case Ok(Some(f)) => Ok([f])
  {
    assert [field][1..] == [];
    assert [field][0] == field;
    assert CompileClauses([], compile) == Ok([]);
    match compile(TrimSpace(field))
    case Abort(p) =>
    case Ok(None) =>
    case Ok(Some(f)) =>
      assert [f] + [] == [f];
  }

  /** A property that every clause's own filter has is had by every filter
      of the list. */
  lemma {:induction false} CompileClausesKeep(fields: seq<string>, compile: string -> Result<Option<Filter>>, good: Filter -> bool)
    requires forall i :: 0 <= i < |fields| ==>
      var c := compile(TrimSpace(fields[i])); c.Ok? && c.value.Some? ==> good(c.value.value)
    ensures CompileClauses(fields, compile).Ok? ==>
      forall f :: f in CompileClauses(fields, compile).value ==> good(f)
  {
    if |fields| > 0 {
      assert forall i :: 1 <= i < |fields| ==> fields[1..][i - 1] == fields[i];
      CompileClausesKeep(fields[1..], compile, good);
    }
  }

  /** A whole query panics exactly when one of its trimmed comma-separated
      clauses contains a membership marker. */
  lemma LabelFiltersAbortIffMembership(query: string)
    ensures CompileLabelFilters(query).Abort? ==>
      exists i :: 0 <= i < |Split(query, ",")| && IsMembershipClause(TrimSpace(Split(query, ",")[i]))
    ensures CompileLabelFilters(query).Ok? ==>
      forall i :: 0 <= i < |Split(query, ",")| ==> !IsMembershipClause(TrimSpace(Split(query, ",")[i]))
  {
    var fields := Split(query, ",");
    var r := CompileClauses(fields, CompileLabelFilter);
    assert CompileLabelFilters(query) == r;
    if r.Abort? {
      var i :| 0 <= i < |fields| && CompileLabelFilter(TrimSpace(fields[i])).Abort?;
    } else {
      forall i | 0 <= i < |fields|
        ensures !IsMembershipClause(TrimSpace(fields[i]))
      {
      }
    }
  }

  /** Compiling two queries joined by a comma is compiling each in turn and
      concatenating the filters: clause order is filter order. */
  lemma LabelFiltersOfJoinedQuery(q1: string, q2: string)
    ensures CompileLabelFilters(q1 + "," + q2) == Sequenced(CompileLabelFilters(q1), CompileLabelFilters(q2))
  {
    SplitConcat(q1, q2, ',');
    CompileClausesAppend(Split(q1, ","), Split(q2, ","), CompileLabelFilter);
  }

  /** A query without a comma is one clause: an unrecognized one yields no
      filter, a recognized `=` or `!=` clause exactly one. */
  lemma SingleClauseQuery(query: string)
    requires ',' !in query
    ensures Split(query, ",") == [query]
    ensures IsUnrecognizedClause(TrimSpace(query)) ==> CompileLabelFilters(query) == Ok([])
    ensures CompileLabelFilter(TrimSpace(query)).Ok? && CompileLabelFilter(TrimSpace(query)).value.Some? ==>
              CompileLabelFilters(query) == Ok([CompileLabelFilter(TrimSpace(query)).value.value])
  {
    ContainsChar(query, ',');
    SplitShape(query, ",");
    CompileClausesOfOne(query, CompileLabelFilter);
  }

  /** The empty query is the single empty clause, which matches no marker. */
  lemma EmptyQueryHasNoFilters()
    ensures CompileLabelFilters("") == Ok([])
  {
    assert Split("", ",") == [""];
    assert TrimSpace("") == "";
  }

  /** No clause handed to the classifier contains a comma, so a comma inside
      an `in (...)` list always separates two clauses. */
  lemma ClausesHaveNoComma(query: string)
    ensures forall clause :: clause in Split(query, ",") ==> ',' !in clause
  {
    SplitPiecesLackSep(query, ",");
    forall clause | clause in Split(query, ",") {
      ContainsChar(clause, ',');
    }
  }

  /** A comma-free query whose clause takes a membership branch panics at
      the first store into the value slice. */
  lemma SingleMembershipQuery(query: string)
    requires ',' !in query && IsMembershipClause(TrimSpace(query))
    ensures CompileLabelFilters(query) == Abort(IndexOutOfRange(0, 0))
  {
    SingleClauseQuery(query);
    CompileClausesOfOne(query, CompileLabelFilter);
  }

  /** A comma-free query whose clause takes the plain `=` branch yields one
      equality keyed by the whole trimmed clause. */
  lemma SinglePlainEqualQuery(query: string)
    requires ',' !in query
    requires var field := TrimSpace(query);
      !IsMembershipClause(field) && !Contains(field, NotEqualOp) && Contains(field, EqualOp)
    ensures CompileLabelFilters(query) == Ok([Filter(TrimSpace(query), Equal(ValueAfterFirstEqual(TrimSpace(query))))])
  {
    EqualClause(TrimSpace(query));
    TrimSpaceIdempotent(query);
    SingleClauseQuery(query);
    CompileClausesOfOne(query, CompileLabelFilter);
  }

  /** A comma-free query whose clause takes the `!=` branch yields one
      negated keyless equality keyed by the trimmed text before the `!=`. */
  lemma SingleNotEqualQuery(query: string)
    requires ',' !in query
    requires var field := TrimSpace(query);
      !IsMembershipClause(field) && Contains(field, NotEqualOp)
    ensures Contains(TrimSpace(query), EqualOp)
    ensures var field := TrimSpace(query);
      CompileLabelFilters(query)
      == Ok([Filter(TrimSpace(Before(field, NotEqualOp)), Not(Filter("", Equal(ValueAfterFirstEqual(field)))))])
  {
    NotEqualClause(TrimSpace(query));
    SingleClauseQuery(query);
  }

  /** The query `a in (1)` panics instead of yielding a membership filter. */
  lemma MembershipQueryPanicsExample()
    ensures CompileLabelFilters("a in (1)") == Abort(IndexOutOfRange(0, 0))
  {
    var f := "a in (1)";
    assert TrimSpace(f) == f by {
      TrimSpaceOfTrimmed(f);
    }
    assert IsMembershipClause(f) by {
      assert OccursAt(f, InMarker, 1);
      ContainsIff(f, InMarker);
    }
    SingleMembershipQuery(f);
  }

  /** The query `a=1` yields the key `a=1`, not `a`. */
  lemma PlainEqualKeyExample()
    ensures CompileLabelFilters("a=1") == Ok([Filter("a=1", Equal("1"))])
  {
    var f := "a=1";
    assert TrimSpace(f) == f by {
      TrimSpaceOfTrimmed(f);
    }
    assert ValueAfterFirstEqual(f) == "1" by {
      IndexOfChar(f, '=', 1);
      assert After(f, EqualOp) == "1";
      ContainsChar("1", '=');
      TrimSpaceOfTrimmed("1");
    }
    MarkersByChars(f);
    SinglePlainEqualQuery(f);
  }

  /** The query `b!=2` yields a negated equality whose own key is empty. */
  lemma NotEqualExample()
    ensures CompileLabelFilters("b!=2") == Ok([Filter("b", Not(Filter("", Equal("2"))))])
  {
    var f := "b!=2";
    assert TrimSpace(f) == f by {
      TrimSpaceOfTrimmed(f);
    }
    assert IndexOf(f, NotEqualOp) == 1 by {
      assert f[1..3] == NotEqualOp;
      assert f[0..2][0] == 'b';
      IndexOfIsFirst(f, NotEqualOp, 1);
    }
    assert Contains(f, NotEqualOp) && TrimSpace(Before(f, NotEqualOp)) == "b" by {
      assert Before(f, NotEqualOp) == "b";
      TrimSpaceOfTrimmed("b");
    }
    assert ValueAfterFirstEqual(f) == "2" by {
      IndexOfChar(f, '=', 2);
      assert After(f, EqualOp) == "2";
      ContainsChar("2", '=');
      TrimSpaceOfTrimmed("2");
    }
    assert !IsMembershipClause(f) by {
      MarkersByChars(f);
    }
    SingleNotEqualQuery(f);
  }

  /** The query `a=1,b!=2` yields the equality keyed `a=1` followed by the
      negation of the keyless equality `2` keyed `b`. */
  lemma TwoClauseQueryExample()
    ensures CompileLabelFilters("a=1,b!=2")
         == Ok([Filter("a=1", Equal("1")), Filter("b", Not(Filter("", Equal("2"))))])
  {
    assert "a=1,b!=2" == "a=1" + "," + "b!=2";
    PlainEqualKeyExample();
    NotEqualExample();
    LabelFiltersOfJoinedQuery("a=1", "b!=2");
    assert [Filter("a=1", Equal("1"))] + [Filter("b", Not(Filter("", Equal("2"))))]
        == [Filter("a=1", Equal("1")), Filter("b", Not(Filter("", Equal("2"))))];
  }
}
