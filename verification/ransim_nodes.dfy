/**
 The pure helpers behind the RAN simulator's node commands: converting the
 `--cells` flag values to cell identifiers, rendering identifier and string
 lists as comma-separated text for the node listing, and merging command-line
 options into a node on create and on update.
 */
module RansimNodes {
  import opened GoRuntime
  import opened GoStrings
  import opened GoFmt

  /** Go's `uint` on a 64-bit platform. */
  newtype Uint = x: int | 0 <= x < 0x1_0000_0000_0000_0000

  /** A cell's E-UTRAN global identifier, a 64-bit unsigned number. */
  newtype ECGI = x: int | 0 <= x < 0x1_0000_0000_0000_0000

  /** An eNodeB identifier, carried through unchanged. */
  newtype EnbID = x: int | 0 <= x < 0x1_0000_0000_0000_0000

  /** The simulator's view of an E2 node. */
  datatype Node = Node(
    enbID: EnbID,
    status: string,
    serviceModels: seq<string>,
    controllers: seq<string>,
    cellECGIs: seq<ECGI>)

  /** The values of the `--cells`, `--service-models` and `--controllers` flags. */
  datatype NodeFlags = NodeFlags(cells: seq<Uint>, serviceModels: seq<string>, controllers: seq<string>)

  /** Whether each of those flags was given on the command line. */
  datatype ChangedFlags = ChangedFlags(cells: bool, serviceModels: bool, controllers: bool)

  /** `toECGIs`: convert each id in order, appending to a list that starts empty. */
  function ToECGIs(ids: seq<Uint>): (ecgis: seq<ECGI>)
    ensures |ecgis| == |ids|
    ensures forall i :: 0 <= i < |ids| ==> ecgis[i] as int == ids[i] as int
    decreases |ids|
  {
    if |ids| == 0 then [] else ToECGIs(ids[..|ids| - 1]) + [ids[|ids| - 1] as ECGI]
  }

  /** The `%d` renderings of the identifiers, in order. */
  function Renderings(ecgis: seq<ECGI>): seq<string> {
    seq(|ecgis|, i requires 0 <= i < |ecgis| => FormatDecimal(ecgis[i] as nat))
  }

  /** A join is at least as long as its first part. */
  lemma JoinCoversFirst(parts: seq<string>, sep: string)
    requires |parts| > 0
    ensures |Join(parts, sep)| >= |parts[0]|
  {
  }

  /** A decimal rendering never contains a comma. */
  lemma DigitsLackComma(s: string)
    requires AllDigits(s)
    ensures ',' !in s
  {
  }

  /** `catECGIs`: append `,` and the rendering of each identifier, then drop
      the leading comma when the text is longer than one character. Every
      rendering has a digit, so the result is the comma-join of the
      renderings, and splitting it on commas and reading each piece back
      gives the identifiers. */
  method CatECGIs(ecgis: seq<ECGI>) returns (r: string)
    ensures r == Join(Renderings(ecgis), ",")
    ensures r == "" <==> |ecgis| == 0
    ensures |ecgis| > 0 ==> |Split(r, ",")| == |ecgis|
    ensures |ecgis| > 0 ==> forall i :: 0 <= i < |ecgis| ==>
              AllDigits(Split(r, ",")[i]) && ParseDecimal(Split(r, ",")[i]) == ecgis[i] as nat
  {
    var texts := Renderings(ecgis);
    var s := "";
    for i := 0 to |ecgis|
      invariant s == SepPrefixed(texts[..i], ",")
    {
      assert texts[..i + 1][..i] == texts[..i];
      s := s + "," + FormatDecimal(ecgis[i] as nat);
    }
    assert texts[..|ecgis|] == texts;
    if |ecgis| > 0 {
      SepPrefixedIsJoin(texts, ",");
      JoinCoversFirst(texts, ",");
      forall i | 0 <= i < |texts|
        ensures ',' !in texts[i]
      {
        DigitsLackComma(texts[i]);
      }
      JoinSplitRoundTrip(texts, ',');
    }
    if |s| > 1 {
      r := s[1..];
    } else {
      r := s;
    }
  }

  /** `catStrings`: append `,` and each string, then drop the leading comma
      when the text is longer than one character. The result is the
      comma-join of the list except for the list holding one empty string,
      whose accumulated text `,` is only one character long and is returned
      whole. */
  method CatStrings(strs: seq<string>) returns (r: string)
    ensures r == Join(strs, ",") <==> strs != [""]
    ensures strs == [""] ==> r == ","
    ensures strs == [] ==> r == ""
  {
    var s := "";
    for i := 0 to |strs|
      invariant s == SepPrefixed(strs[..i], ",")
    {
      assert strs[..i + 1][..i] == strs[..i];
      s := s + "," + strs[i];
    }
    assert strs[..|strs|] == strs;
    if |strs| > 0 {
      SepPrefixedIsJoin(strs, ",");
      JoinEmpty(strs, ",");
    }
    if |s| > 1 {
      r := s[1..];
    } else {
      r := s;
    }
  }

  /** `catStrings` with the strip test `len(s) > 0`: the leading comma is
      dropped whenever there is one, so the result is always the comma-join. */
  method CatStringsJoined(strs: seq<string>) returns (r: string)
    ensures r == Join(strs, ",")
  {
    var s := "";
    for i := 0 to |strs|
      invariant s == SepPrefixed(strs[..i], ",")
    {
      assert strs[..i + 1][..i] == strs[..i];
      s := s + "," + strs[i];
    }
    assert strs[..|strs|] == strs;
    if |strs| > 0 {
      SepPrefixedIsJoin(strs, ",");
    }
    if |s| > 0 {
      r := s[1..];
    } else {
      r := s;
    }
  }

  /** `optionsToNode` with the flag reads passed in: on create every list is
      taken from its flag; on update a list is replaced exactly when its flag
      was given. The identifier and status are never touched and the error is
      always nil. */
  function OptionsToNode(node: Node, flags: NodeFlags, changed: ChangedFlags, update: bool): (r: (Node, Option<string>))
    ensures r.1 == None
    ensures r.0.enbID == node.enbID && r.0.status == node.status
    ensures !update ==> (r.0.cellECGIs == ToECGIs(flags.cells)
                         && r.0.serviceModels == flags.serviceModels
                         && r.0.controllers == flags.controllers)
    ensures update && changed.cells ==> r.0.cellECGIs == ToECGIs(flags.cells)
    ensures update && !changed.cells ==> r.0.cellECGIs == node.cellECGIs
    ensures update && changed.serviceModels ==> r.0.serviceModels == flags.serviceModels
    ensures update && !changed.serviceModels ==> r.0.serviceModels == node.serviceModels
    ensures update && changed.controllers ==> r.0.controllers == flags.controllers
    ensures update && !changed.controllers ==> r.0.controllers == node.controllers
  {
    var node := if !update || changed.cells then node.(cellECGIs := ToECGIs(flags.cells)) else node;
    var node := if !update || changed.serviceModels then node.(serviceModels := flags.serviceModels) else node;
    var node := if !update || changed.controllers then node.(controllers := flags.controllers) else node;
    (node, None)
  }

  /** The flags a create reads: all of them. */
  function AllChanged(): ChangedFlags {
    ChangedFlags(true, true, true)
  }

  /** Applying the same options twice is applying them once. */
  lemma OptionsToNodeIdempotent(node: Node, flags: NodeFlags, changed: ChangedFlags, update: bool)
    ensures OptionsToNode(OptionsToNode(node, flags, changed, update).0, flags, changed, update)
         == OptionsToNode(node, flags, changed, update)
  {
  }

  /** An update that names no flag returns the node as it was. */
  lemma UpdateWithoutFlagsKeepsNode(node: Node, flags: NodeFlags)
    ensures OptionsToNode(node, flags, ChangedFlags(false, false, false), true) == (node, None)
  {
  }

  /** A create depends on the given node only through its identifier and status. */
  lemma CreateIgnoresPriorLists(n1: Node, n2: Node, flags: NodeFlags, c1: ChangedFlags, c2: ChangedFlags)
    requires n1.enbID == n2.enbID && n1.status == n2.status
    ensures OptionsToNode(n1, flags, c1, false) == OptionsToNode(n2, flags, c2, false)
  {
  }

  /** An update that names every flag is a create. */
  lemma UpdateOfAllFlagsIsCreate(node: Node, flags: NodeFlags, changed: ChangedFlags)
    ensures OptionsToNode(node, flags, AllChanged(), true) == OptionsToNode(node, flags, changed, false)
  {
  }
}
