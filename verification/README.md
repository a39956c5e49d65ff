# Topology filter compiler and RAN-simulator node helpers, in Dafny

This project models two pieces of the onos-cli command-line tool.

The first is the topology filter-expression compiler (`pkg/topo/filters.go`).
It turns a label query such as `role=leaf, zone!=west` into the ordered list
of filters that goes to the topology query API:

- it splits the query on every comma;
- it trims each clause;
- it tests each clause for ` !in (`, ` in (`, `!=` and `=` in that order,
  wherever they stand in the clause, and takes the first one present, so
  `a=b !in (c)` is a ` !in (` clause;
- it extracts a key and a value or value list;
- it builds an `Equal`, `In` or `Not` filter node;
- a clause that matches no marker contributes nothing.

Kind filters go through the same loop with a stub clause compiler. They are
compiled only for kind and relation queries.

The model follows the code as written, defects included:

- Every membership clause panics. The value slice is made with length 0 and
  then written by index. A panic is the `Abort` outcome of a `Result`.
- The plain `=` branch takes its key by splitting on `!=`, so the key is the
  whole trimmed clause.
- The value is the text between the first and the second `=`.
- The inner filter under `Not` has an empty key.
- A comma inside an `in (...)` list splits the clause in two before
  classification.

Module `TopoFiltersIntended` fixes the first two defects, value-slice sizing
and the `=` key, and proves what the fixed compiler does.

The second piece is the set of pure helpers of the simulator's node commands
(`pkg/ransim/nodes.go`):

- `toECGIs` converts the `--cells` values into cell identifiers.
- `catECGIs` and `catStrings` build the comma-separated texts of the node
  listing.
- `optionsToNode` merges command-line options into a node. On create every
  list comes from its flag. On update a list is replaced only when its flag
  was given.

Go's run-time and library behaviour that this code relies on is modelled in
its own modules:

- `GoRuntime`: bounds-checked slice reads and writes, which panic.
- `GoStrings`: `strings.Split`, `Join`, `Contains`, `TrimSpace`, with the full
  `unicode.IsSpace` set.
- `GoFmt`: the `%d` rendering of an unsigned integer.

Strings are sequences of code points.

Three queries show what the code as written does:

- `a=1,b!=2` compiles to an equality keyed `a=1` with the value `1`, then a
  filter keyed `b` that negates a keyless equality with the value `2`
  (`TopoFilterProperties.TwoClauseQueryExample`).
- In `a=1=2` the value stops at the second `=`, so it is `1`
  (`TopoFilters.ExtractValue`).
- `a in (1, 2, 3)` panics (`TopoFilterProperties.MembershipQueryPanicsExample`
  shows this for `a in (1)`). Even with the slice sized, the comma split cuts
  the list apart, so every membership filter of a query holds one value
  (`TopoFiltersIntended.IntendedMembershipFiltersHaveOneValue`).

## Model

| member | source | states |
|---|---|---|
| `GoStrings.TrimSpaceSpec` | pkg/topo/filters.go:38 | the trimmed clause is the middle of the clause between an all-white-space prefix and suffix, and neither of its ends is white space |
| `GoStrings.TrimSpaceIdempotent` | pkg/topo/filters.go:38 | trimming an already trimmed clause again changes nothing |
| `GoStrings.TrimSpaceKeepsChars` | pkg/topo/filters.go:88 | trimming only removes characters, so a key never holds a character its clause lacks |
| `GoStrings.SplitJoinRoundTrip` | pkg/topo/filters.go:36 | joining the comma-split clauses with commas gives back the query |
| `GoStrings.SplitPiecesLackSep` | pkg/topo/filters.go:36 | no piece of a split contains the separator |
| `GoStrings.SplitKeepsChars` | pkg/topo/filters.go:96 | every character of a piece of a split occurs in the split string |
| `GoStrings.SplitShape` | pkg/topo/filters.go:92 | without the separator a string splits into itself alone; with it there are at least two pieces and piece 1 is the text between the first and second separator |
| `GoStrings.SplitConcat` | pkg/topo/filters.go:36 | splitting `a,b` on the comma is the split of `a` followed by the split of `b` |
| `GoStrings.JoinSplitRoundTrip` | pkg/ransim/nodes.go:340-349 | splitting a comma-join of comma-free parts gives back the parts |
| `GoStrings.SepPrefixedIsJoin` | pkg/ransim/nodes.go:353-355 | the accumulator that prefixes every part with the separator equals one separator followed by the join |
| `GoStrings.JoinEmpty` | pkg/ransim/nodes.go:356 | a join of at least one part is empty exactly when it is the single empty part |
| `GoFmt.FormatDecimal` | pkg/ransim/nodes.go:343 | the `%d` rendering has at least one digit, has a leading zero only for 0, and reads back as the number |
| `TopoFilters.ExtractKey` | pkg/topo/filters.go:87-89 | the key is the trimmed text before the first separator, or the whole trimmed field when the separator is absent |
| `TopoFilters.ExtractValue` | pkg/topo/filters.go:91-93 | the value exists exactly when the field has `=`, is the trimmed text between the first and second `=`, and a field without `=` panics reading piece 1 of a one-piece split |
| `TopoFilters.StoreTrimmed` | pkg/topo/filters.go:98-100 | the indexed store loop succeeds exactly when the slice is as long as the item list, then holds the trimmed items, and otherwise panics at the first index past the slice |
| `TopoFilters.ListItems` | pkg/topo/filters.go:96 | the item list exists exactly when the field has `(`; it has at least one item, no item holds a comma, and the items joined with commas are the text after the first `(` up to the next `(` or `)`; without `(` the split on `(` panics at index 1 |
| `TopoFilters.ExtractValues` | pkg/topo/filters.go:95-102 | extracting a value list always panics: at index 0 of the empty slice when the field has `(`, at index 1 of the split otherwise |
| `TopoFilters.CompileLabelFilter` | pkg/topo/filters.go:46-85 | a clause panics if and only if it contains ` !in (` or ` in (`, and the panic is the store into index 0 of the empty value slice; it yields no filter if and only if it contains none of the four markers |
| `TopoFilters.CompileClauses` | pkg/topo/filters.go:34-44 | a panic comes from some clause that panics; on success every clause compiled and there are at most as many filters as clauses |
| `TopoFilters.CompileLabelFilters` | pkg/topo/filters.go:34-44 | the label filters are never more than the comma-split clauses |
| `TopoFilters.ClausesOfStubAreEmpty` | pkg/topo/filters.go:107-118 | running the clause loop with the stub `TopoFilters.CompileKindFilter`, which returns a nil filter for every clause, yields no filter for any clause list |
| `TopoFilters.CompileKindFilters` | pkg/topo/filters.go:104-118 | the kind-filter list is empty for every query |
| `TopoFilters.CompileFilters` | pkg/topo/filters.go:23-32 | the call succeeds exactly when the label query compiles, and otherwise carries the label query's panic; label filters are the compiled label query; kind filters come from the kind query only for kind and relation queries and are empty in every case |
| `TopoFilters.MarkerPieces` | pkg/topo/filters.go:47-75 | a clause with either membership marker contains `(`, and one with `!=` contains `=` |
| `TopoFilterProperties.MarkersByChars` | pkg/topo/filters.go:47-75 | a clause without `(` is not a membership clause, one without `!` has no `!=`, and it has `=` exactly when it holds the character |
| `TopoFilterProperties.NotEqualClause` | pkg/topo/filters.go:65-73 | a `!=` clause yields the key before the first `!=`, negating an equality with an empty key whose value lies between the first and second `=` |
| `TopoFilterProperties.EqualClause` | pkg/topo/filters.go:75-81 | a plain `=` clause is keyed by the whole trimmed clause, with the value between the first and second `=` |
| `TopoFilterProperties.CompiledFilterShape` | pkg/topo/filters.go:46-85 | a filter is a plain equality exactly when its clause lacks `!=`, otherwise the negation of a keyless equality, and never a membership filter |
| `TopoFilterProperties.CompileClausesAppend` | pkg/topo/filters.go:37-42 | compiling two clause lists back to back is compiling each in turn: the first panic wins, otherwise the filters follow the clause order |
| `TopoFilterProperties.CompileClausesKeep` | pkg/topo/filters.go:37-42 | a property that the filter of every clause has is had by every filter of the list |
| `TopoFilterProperties.CompileClausesOfOne` | pkg/topo/filters.go:38-41 | one clause contributes its filter, nothing when it yields nil, or its panic |
| `TopoFilterProperties.LabelFiltersAbortIffMembership` | pkg/topo/filters.go:36-42 | a query panics if and only if one of its trimmed comma-separated clauses contains a membership marker |
| `TopoFilterProperties.LabelFiltersOfJoinedQuery` | pkg/topo/filters.go:34-44 | compiling `q1,q2` is compiling `q1`, then `q2`, and concatenating the filters |
| `TopoFilterProperties.SingleClauseQuery` | pkg/topo/filters.go:36-42 | a comma-free query is one clause: nothing for an unrecognized clause, exactly its filter otherwise |
| `TopoFilterProperties.EmptyQueryHasNoFilters` | pkg/topo/filters.go:36 | the empty query compiles to no filters |
| `TopoFilterProperties.ClausesHaveNoComma` | pkg/topo/filters.go:36 | no clause handed to the classifier contains a comma, so a comma inside a list always separates clauses |
| `TopoFilterProperties.SingleMembershipQuery` | pkg/topo/filters.go:95-99 | a comma-free membership query panics at index 0 |
| `TopoFilterProperties.SingleNotEqualQuery` | pkg/topo/filters.go:65-73 | a comma-free query whose trimmed clause has `!=` and no membership marker yields one filter keyed by the text before `!=`, negating a keyless equality |
| `TopoFilterProperties.SinglePlainEqualQuery` | pkg/topo/filters.go:75-81 | a comma-free query whose trimmed clause has `=` but neither `!=` nor a membership marker yields one equality keyed by the whole trimmed clause |
| `TopoFilterProperties.MembershipQueryPanicsExample` | pkg/topo/filters.go:97-99 | the query `a in (1)` panics with index 0 out of range for length 0 |
| `TopoFilterProperties.PlainEqualKeyExample` | pkg/topo/filters.go:76 | the query `a=1` yields the key `a=1` with the value `1` |
| `TopoFilterProperties.NotEqualExample` | pkg/topo/filters.go:65-73 | the query `b!=2` yields the key `b` negating a keyless equality with the value `2` |
| `TopoFilterProperties.TwoClauseQueryExample` | pkg/topo/filters.go:34-85 | the query `a=1,b!=2` yields the equality keyed `a=1`, then the filter keyed `b` negating the keyless equality `2` |
| `TopoFiltersIntended.ExtractValuesSized` | pkg/topo/filters.go:95-102 | with a slice of one slot per item, value extraction succeeds exactly when the field has `(` and yields the trimmed items |
| `TopoFiltersIntended.CompileLabelFilterIntended` | pkg/topo/filters.go:46-85 | with both repairs no clause panics, and a clause yields no filter if and only if it contains none of the four markers |
| `TopoFiltersIntended.CompileLabelFiltersIntended` | pkg/topo/filters.go:34-44 | with both repairs no query panics, and the filters are never more than the clauses |
| `TopoFiltersIntended.CompileFiltersIntended` | pkg/topo/filters.go:23-32 | the repaired aggregate always succeeds, carries the compiled label filters, and has no kind filters |
| `TopoFiltersIntended.IntendedEqualClause` | pkg/topo/filters.go:75-81 | the repaired `=` branch keys the filter by the trimmed text before the `=` |
| `TopoFiltersIntended.IntendedEqualKeyLacksEqual` | pkg/topo/filters.go:76 | the repaired `=` key never contains `=` |
| `TopoFiltersIntended.IntendedInClause` | pkg/topo/filters.go:57-63 | a repaired ` in (` clause yields the key before the marker and the trimmed list items |
| `TopoFiltersIntended.IntendedNotInClause` | pkg/topo/filters.go:47-55 | a repaired ` !in (` clause negates a keyless membership filter over the trimmed items |
| `TopoFiltersIntended.IntendedListOfClauseHasOneItem` | pkg/topo/filters.go:96 | the list of a comma-free clause with `(` has exactly one item |
| `TopoFiltersIntended.IntendedClauseSingleValued` | pkg/topo/filters.go:46-63 | with the repairs, a membership filter of a comma-free clause, plain or negated, holds exactly one value |
| `TopoFiltersIntended.IntendedMembershipFiltersHaveOneValue` | pkg/topo/filters.go:34-63 | with the repairs, every membership filter a query yields holds exactly one value, because the comma split has already cut each list apart |
| `TopoFiltersIntended.SinglePlainEqualQueryIntended` | pkg/topo/filters.go:75-81 | a comma-free query whose trimmed clause has `=` but neither `!=` nor a membership marker yields one equality keyed by the text before the `=` |
| `TopoFiltersIntended.IntendedPlainEqualExample` | pkg/topo/filters.go:75-81 | with the repair the query `a=1` yields the key `a` with the value `1` |
| `RansimNodes.ToECGIs` | pkg/ransim/nodes.go:332-338 | the identifiers have the ids' length and order, element `i` being the number `ids[i]` |
| `RansimNodes.DigitsLackComma` | pkg/ransim/nodes.go:343 | a decimal rendering holds no comma |
| `RansimNodes.CatECGIs` | pkg/ransim/nodes.go:340-349 | the text is the comma-join of the renderings, is empty exactly for no identifiers, and splitting it on commas and reading each piece gives back the identifiers |
| `RansimNodes.CatStrings` | pkg/ransim/nodes.go:351-360 | the text is the comma-join of the list if and only if the list is not the single empty string, for which it is `,`; no strings give the empty text |
| `RansimNodes.CatStringsJoined` | pkg/ransim/nodes.go:351-360 | with the strip test at length 0 the text is the comma-join for every list |
| `RansimNodes.OptionsToNode` | pkg/ransim/nodes.go:184-200 | the error is nil and the identifier and status are kept; on create all three lists come from the flags; on update each list comes from its flag exactly when that flag was changed and is kept otherwise |
| `RansimNodes.OptionsToNodeIdempotent` | pkg/ransim/nodes.go:184-200 | applying the same options twice is applying them once |
| `RansimNodes.UpdateWithoutFlagsKeepsNode` | pkg/ransim/nodes.go:186-198 | an update that names no flag returns the node unchanged |
| `RansimNodes.CreateIgnoresPriorLists` | pkg/ransim/nodes.go:214 | a create depends on the given node only through its identifier and status |
| `RansimNodes.UpdateOfAllFlagsIsCreate` | pkg/ransim/nodes.go:186-198 | an update that names every flag gives the same node as a create |

## Left out

- Cobra flag reads: `compileFilters` gets the label query, kind query and object type as parameters. `optionsToNode` gets the flag values and the "changed" bits as parameters.
- Command constructors, flag registration, gRPC connections, remote calls and the streaming receive loops of `pkg/ransim/nodes.go` (lines 29-183 and 201-330). These are command-line plumbing and network I/O.
- `cli.Output` and its column widths are output formatting. The model stops at the strings the helpers return.
- `strconv.ParseUint` of the eNodeB argument is a library parse that happens before `optionsToNode`. `EnbID` values are given directly.
- The topology API's protobuf types, including the `oneof` wrappers, are not part of this model. `Filter` is a datatype with a key and an `Equal`/`In`/`Not` body. `Node` holds only the fields `optionsToNode` and the listing touch.
- The widths of the onos-api types are not part of this model. `uint`, `ECGI` and `EnbID` are taken as 64-bit unsigned, so the `uint`-to-`ECGI` conversion keeps the value.
- Go strings are arbitrary byte sequences. The model assumes valid UTF-8 and uses sequences of code points, which agrees for the ASCII markers and for `TrimSpace`, which works on decoded runes. A query or flag value that is not valid UTF-8 cannot be represented.
- `RansimNodes.OptionsToNode`: it takes and returns a `Node` value. The Go code writes the fields through a `*types.Node` pointer and returns that same pointer. A nil node panics at its first field write. That happens on create, or on update when any flag was changed; an update with a nil reply from `GetNode` (pkg/ransim/nodes.go:240-245) can reach it. The model has no nil node, so this panic is not modelled.
- The capacity argument of `make` does not affect behaviour and is not modelled.
- The error results of `compileLabelFilter` and `compileKindFilter` are always nil and are ignored by their callers. They are not modelled.
- `TopoFilters.CompileLabelFilters`: it states only the length bound itself. Clause order, dropping and panics are stated by `CompileClausesAppend`, `CompileClausesOfOne`, `LabelFiltersOfJoinedQuery` and `LabelFiltersAbortIffMembership`. Per-index origins of each filter are not stated, because the index bookkeeping was too costly for the solver.

## Findings

| source | as written | input that shows it | evidently intended | confidence | as-written member | corrected member |
|---|---|---|---|---|---|---|
| pkg/topo/filters.go:97-99 | the value slice is made with length 0, then written by index | `a in (1)` panics with index 0 out of range for length 0 | make the slice with one slot per list item | high; not executed | `TopoFilters.ExtractValues` | `TopoFiltersIntended.ExtractValuesSized` |
| pkg/topo/filters.go:76 | the plain `=` branch extracts its key by splitting on `!=` | `a=1` yields the key `a=1` | split on `=`, giving the key `a` | high; not executed | `TopoFilterProperties.PlainEqualKeyExample` | `TopoFiltersIntended.IntendedPlainEqualExample` |
| pkg/ransim/nodes.go:356 | the leading comma is stripped only when the text is longer than one character | `[""]` renders as `,` | strip the leading comma whenever there is one, rendering `[""]` as the empty text | medium; not executed | `RansimNodes.CatStrings` | `RansimNodes.CatStringsJoined` |
