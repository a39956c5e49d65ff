/**
 The parts of Go's `strings` package the filter compiler and the node helpers
 call: `TrimSpace`, `Index`, `Contains`, `Split` and `Join`. A Go string is
 modelled as the sequence of its code points.
 */
module GoStrings {

  /** The code points Go's `unicode.IsSpace` reports as white space. */
  predicate IsSpace(c: char) {
    var n := c as int;
    || n == 0x20
    || (0x09 <= n <= 0x0D)
    || n == 0x85
    || n == 0xA0
    || n == 0x1680
    || (0x2000 <= n <= 0x200A)
    || n == 0x2028
    || n == 0x2029
    || n == 0x202F
    || n == 0x205F
    || n == 0x3000
  }

  predicate AllSpace(s: string) {
    forall i :: 0 <= i < |s| ==> IsSpace(s[i])
  }

  /** Neither end of `s` is white space. */
  predicate Trimmed(s: string) {
    s == [] || (!IsSpace(s[0]) && !IsSpace(s[|s| - 1]))
  }

  /** `r` is `s` with the white-space prefix of length `i` and some white-space suffix removed. */
  ghost predicate TrimmedAt(s: string, i: int, r: string) {
    && 0 <= i <= |s| - |r|
    && r == s[i..i + |r|]
    && AllSpace(s[..i])
    && AllSpace(s[i + |r|..])
  }

  /** Drops the leading white space. */
  function TrimLeft(s: string): string {
    if |s| > 0 && IsSpace(s[0]) then TrimLeft(s[1..]) else s
  }

  /** Drops the trailing white space. */
  function TrimRight(s: string): string {
    if |s| > 0 && IsSpace(s[|s| - 1]) then TrimRight(s[..|s| - 1]) else s
  }

  /** `TrimLeft` keeps a suffix, drops only white space, and stops at a non-space. */
  lemma {:induction false} TrimLeftSpec(s: string)
    ensures var r := TrimLeft(s);
      |r| <= |s| && r == s[|s| - |r|..] && AllSpace(s[..|s| - |r|]) && (r == [] || !IsSpace(r[0]))
    decreases |s|
  {
    if |s| > 0 && IsSpace(s[0]) {
      TrimLeftSpec(s[1..]);
      var r := TrimLeft(s[1..]);
      assert s[1..][..|s| - 1 - |r|] == s[1..|s| - |r|];
    }
  }

  /** `TrimRight` keeps a prefix, drops only white space, and stops at a non-space. */
  lemma {:induction false} TrimRightSpec(s: string)
    ensures var r := TrimRight(s);
      |r| <= |s| && r == s[..|r|] && AllSpace(s[|r|..]) && (r == [] || !IsSpace(r[|r| - 1]))
    decreases |s|
  {
    if |s| > 0 && IsSpace(s[|s| - 1]) {
      TrimRightSpec(s[..|s| - 1]);
      var r := TrimRight(s[..|s| - 1]);
      assert s[|r|..] == s[..|s| - 1][|r|..] + [s[|s| - 1]];
    }
  }

  /** Go's `strings.TrimSpace`. */
  function TrimSpace(s: string): string {
    TrimRight(TrimLeft(s))
  }

  /** The trimmed string is the middle of `s` between a white-space prefix
      and a white-space suffix, and neither of its ends is white space. */
  lemma TrimSpaceSpec(s: string)
    ensures Trimmed(TrimSpace(s))
    ensures TrimmedAt(s, |s| - |TrimLeft(s)|, TrimSpace(s))
  {
    var l := TrimLeft(s);
    var r := TrimRight(l);
    var i := |s| - |l|;
    assert l == s[i..] && AllSpace(s[..i]) && (l == [] || !IsSpace(l[0])) by {
      TrimLeftSpec(s);
    }
    assert r == l[..|r|] && AllSpace(l[|r|..]) && (r == [] || !IsSpace(r[|r| - 1])) by {
      TrimRightSpec(l);
    }
    assert r == s[i..i + |r|] by {
      assert l[..|r|] == s[i..i + |r|];
    }
    assert AllSpace(s[i + |r|..]) by {
      assert l[|r|..] == s[i + |r|..];
    }
    assert Trimmed(r) by {
      if r != [] {
        assert r[0] == l[0];
      }
    }
  }

  /** Trimming a string whose ends are not white space leaves it alone. */
  lemma TrimSpaceOfTrimmed(s: string)
    requires Trimmed(s)
    ensures TrimSpace(s) == s
  {
  }

  /** `strings.TrimSpace` is idempotent. */
  lemma TrimSpaceIdempotent(s: string)
    ensures TrimSpace(TrimSpace(s)) == TrimSpace(s)
  {
    TrimSpaceSpec(s);
    TrimSpaceOfTrimmed(TrimSpace(s));
  }

  /** Trimming only removes characters: every character of the result is one of `s`. */
  lemma TrimSpaceKeepsChars(s: string)
    ensures forall x :: x in TrimSpace(s) ==> x in s
  {
    var l := TrimLeft(s);
    TrimLeftSpec(s);
    TrimRightSpec(l);
    forall x | x in TrimSpace(s)
      ensures x in s
    {
      var k :| 0 <= k < |TrimSpace(s)| && TrimSpace(s)[k] == x;
      assert l[k] == x;
      assert s[|s| - |l| + k] == x;
    }
  }

  /** `sub` occurs in `s` starting at position `k`. */
  predicate OccursAt(s: string, sub: string, k: int) {
    0 <= k && k + |sub| <= |s| && s[k..k + |sub|] == sub
  }

  /** First position at or after `k` where `sub` occurs, or -1. */
  function IndexFrom(s: string, sub: string, k: nat): (r: int)
    requires k <= |s|
    ensures r == -1 || (k <= r && OccursAt(s, sub, r))
    ensures r == -1 ==> forall j :: k <= j ==> !OccursAt(s, sub, j)
    ensures r != -1 ==> forall j :: k <= j < r ==> !OccursAt(s, sub, j)
    decreases |s| - k
  {
    if OccursAt(s, sub, k) then k
    else if k == |s| then -1
    else IndexFrom(s, sub, k + 1)
  }

  /** Go's `strings.Index`: the position of the first occurrence of `sub`, or -1. */
  function IndexOf(s: string, sub: string): (r: int)
    ensures r == -1 || OccursAt(s, sub, r)
    ensures r == -1 ==> forall j :: !OccursAt(s, sub, j)
    ensures forall j :: 0 <= j < r ==> !OccursAt(s, sub, j)
  {
    IndexFrom(s, sub, 0)
  }

  /** Go's `strings.Contains`. */
  predicate Contains(s: string, sub: string) {
    IndexOf(s, sub) >= 0
  }

  /** `Contains` holds exactly when `sub` occurs somewhere in `s`. */
  lemma ContainsIff(s: string, sub: string)
    ensures Contains(s, sub) <==> exists k :: OccursAt(s, sub, k)
  {
    if Contains(s, sub) {
      assert OccursAt(s, sub, IndexOf(s, sub));
    }
  }

  /** A string that contains `big` contains every piece of `big`. */
  lemma ContainsPiece(s: string, big: string, sub: string, j: nat)
    requires Contains(s, big)
    requires OccursAt(big, sub, j)
    ensures Contains(s, sub)
  {
    var k := IndexOf(s, big);
    var w := s[k..k + |big|];
    assert w == big;
    assert s[k + j..k + j + |sub|] == w[j..j + |sub|];
    assert OccursAt(s, sub, k + j);
  }

  /** For a one-character pattern `Contains` is sequence membership. */
  lemma ContainsChar(s: string, c: char)
    ensures Contains(s, [c]) <==> c in s
  {
    if c in s {
      var k :| 0 <= k < |s| && s[k] == c;
      assert OccursAt(s, [c], k);
    }
    if Contains(s, [c]) {
      var k := IndexOf(s, [c]);
      assert s[k] == s[k..k + 1][0];
    }
  }

  /** The text before the first `sep`, or all of `s` when `sep` is absent. */
  function Before(s: string, sep: string): string {
    var i := IndexOf(s, sep);
    if i < 0 then s else s[..i]
  }

  /** The text after the first `sep`. */
  function After(s: string, sep: string): string
    requires Contains(s, sep)
  {
    s[IndexOf(s, sep) + |sep|..]
  }

  /** An occurrence inside a prefix is an occurrence in the whole string. */
  lemma OccursInPrefix(s: string, sub: string, n: nat, k: int)
    requires n <= |s|
    requires OccursAt(s[..n], sub, k)
    ensures OccursAt(s, sub, k) && k + |sub| <= n
  {
    assert s[..n][k..k + |sub|] == s[k..k + |sub|];
  }

  /** The text before the first `sep` does not contain `sep`. */
  lemma BeforeLacksSep(s: string, sep: string)
    requires |sep| > 0
    ensures !Contains(Before(s, sep), sep)
  {
    var b := Before(s, sep);
    if Contains(b, sep) {
      var k := IndexOf(b, sep);
      if IndexOf(s, sep) >= 0 {
        OccursInPrefix(s, sep, IndexOf(s, sep), k);
      }
      assert false;
    }
  }

  /** Go's `strings.Join`. */
  function Join(parts: seq<string>, sep: string): string {
    if |parts| == 0 then ""
    else if |parts| == 1 then parts[0]
    else parts[0] + sep + Join(parts[1..], sep)
  }

  /** Go's `strings.Split` for a non-empty separator: the text between
      successive non-overlapping occurrences of `sep`, scanning left to right. */
  function Split(s: string, sep: string): (r: seq<string>)
    requires |sep| > 0
    ensures |r| >= 1
    decreases |s|
  {
    var i := IndexOf(s, sep);
    if i < 0 then [s] else [s[..i]] + Split(s[i + |sep|..], sep)
  }

  /** Joining the pieces of a split with the same separator gives back the string. */
  lemma {:induction false} SplitJoinRoundTrip(s: string, sep: string)
    requires |sep| > 0
    ensures Join(Split(s, sep), sep) == s
    decreases |s|
  {
    var i := IndexOf(s, sep);
    if i >= 0 {
      var rest := Split(s[i + |sep|..], sep);
      SplitJoinRoundTrip(s[i + |sep|..], sep);
      assert s == s[..i] + sep + s[i + |sep|..];
      assert ([s[..i]] + rest)[1..] == rest;
    }
  }

  /** No piece of a split contains the separator. */
  lemma {:induction false} SplitPiecesLackSep(s: string, sep: string)
    requires |sep| > 0
    ensures forall p :: p in Split(s, sep) ==> !Contains(p, sep)
    decreases |s|
  {
    var i := IndexOf(s, sep);
    var first := Before(s, sep);
    assert !Contains(first, sep) by {
      BeforeLacksSep(s, sep);
    }
    if i >= 0 {
      var tail := s[i + |sep|..];
      var rest := Split(tail, sep);
      assert Split(s, sep) == [first] + rest by {
        SplitAt(s, sep);
      }
      assert forall p :: p in rest ==> !Contains(p, sep) by {
        SplitPiecesLackSep(tail, sep);
      }
    } else {
      assert Split(s, sep) == [first];
    }
  }


  /** Every character of every piece of a split is a character of the string. */
  lemma {:induction false} SplitKeepsChars(s: string, sep: string)
    requires |sep| > 0
    ensures forall p, x :: p in Split(s, sep) && x in p ==> x in s
    decreases |s|
  {
    var i := IndexOf(s, sep);
    if i >= 0 {
      var head, tail := s[..i], s[i + |sep|..];
      assert Split(s, sep) == [head] + Split(tail, sep);
      assert forall x :: x in head ==> x in s by {
        SliceKeepsChars(s, 0, i);
      }
      assert forall x :: x in tail ==> x in s by {
        SliceKeepsChars(s, i + |sep|, |s|);
      }
      SplitKeepsChars(tail, sep);
    }
  }

  /** Every character of a slice is a character of the string. */
  lemma SliceKeepsChars(s: string, i: nat, j: nat)
    requires i <= j <= |s|
    ensures forall x :: x in s[i..j] ==> x in s
  {
    forall x | x in s[i..j]
      ensures x in s
    {
      var k :| 0 <= k < j - i && s[i..j][k] == x;
      assert s[i + k] == x;
    }
  }

  /** The first piece of a split is the text before the first separator. */
  lemma SplitFirst(s: string, sep: string)
    requires |sep| > 0
    ensures Split(s, sep)[0] == Before(s, sep)
  {
  }

  /** Without the separator a string splits into itself alone; with it, the
      second piece is the text between the first and the second separator. */
  lemma SplitShape(s: string, sep: string)
    requires |sep| > 0
    ensures !Contains(s, sep) ==> Split(s, sep) == [s]
    ensures Contains(s, sep) ==> |Split(s, sep)| >= 2 && Split(s, sep)[1] == Before(After(s, sep), sep)
  {
  }

  /** A one-character pattern occurs exactly at the positions holding that character. */
  lemma OccursAtChar(t: string, c: char, j: int)
    ensures OccursAt(t, [c], j) <==> 0 <= j < |t| && t[j] == c
  {
    if 0 <= j < |t| {
      assert t[j..j + 1] == [t[j]];
    }
  }

  /** The first occurrence is the one with no occurrence before it. */
  lemma IndexOfIsFirst(t: string, sub: string, k: int)
    requires OccursAt(t, sub, k)
    requires forall j :: 0 <= j < k ==> !OccursAt(t, sub, j)
    ensures IndexOf(t, sub) == k
  {
  }

  /** The first position holding `c` is where a one-character search stops. */
  lemma IndexOfChar(t: string, c: char, k: int)
    requires 0 <= k < |t| && t[k] == c && c !in t[..k]
    ensures IndexOf(t, [c]) == k
  {
    OccursAtChar(t, c, k);
    forall j | 0 <= j < k
      ensures !OccursAt(t, [c], j)
    {
      OccursAtChar(t, c, j);
      assert t[..k][j] == t[j];
    }
    IndexOfIsFirst(t, [c], k);
  }

  /** Appending text after a string does not move the first occurrence of a
      character it already contains; otherwise the first occurrence is found in
      the appended text. */
  lemma IndexOfAppend(a: string, x: string, c: char)
    ensures c in a ==> IndexOf(a + x, [c]) == IndexOf(a, [c])
    ensures c !in a && c in x ==> IndexOf(a + x, [c]) == |a| + IndexOf(x, [c])
  {
    ContainsChar(a, c);
    ContainsChar(x, c);
    var t := a + x;
    forall j | 0 <= j < |t|
      ensures OccursAt(t, [c], j) <==> t[j] == c
    {
      OccursAtChar(t, c, j);
    }
    if c in a {
      var i := IndexOf(a, [c]);
      OccursAtChar(a, c, i);
      forall j | 0 <= j < i
        ensures !OccursAt(t, [c], j)
      {
        OccursAtChar(a, c, j);
      }
      IndexOfIsFirst(t, [c], i);
    } else if c in x {
      var k := IndexOf(x, [c]);
      OccursAtChar(x, c, k);
      forall j | 0 <= j < |a| + k
        ensures !OccursAt(t, [c], j)
      {
        OccursAtChar(t, c, j);
        if j >= |a| {
          OccursAtChar(x, c, j - |a|);
        }
      }
      IndexOfIsFirst(t, [c], |a| + k);
    }
  }

  /** One step of a split: the text before the first separator, then the
      split of what follows it. */
  lemma SplitAt(s: string, sep: string)
    requires |sep| > 0 && IndexOf(s, sep) >= 0
    ensures Split(s, sep) == [s[..IndexOf(s, sep)]] + Split(s[IndexOf(s, sep) + |sep|..], sep)
  {
  }

  /** Slicing inside the left operand of a concatenation. */
  lemma SliceAfterPrefix(a: string, x: string, i: nat)
    requires i <= |a|
    ensures (a + x)[..i] == a[..i] && (a + x)[i..] == a[i..] + x
  {
  }

  /** When `a` lacks `c`, the first piece of `a + c + b` is all of `a`. */
  lemma SplitConcatAbsent(a: string, b: string, c: char)
    requires c !in a
    ensures Split(a + [c] + b, [c]) == [a] + Split(b, [c])
  {
    var sep := [c];
    var x := sep + b;
    var s := a + x;
    assert a + [c] + b == s;
    IndexOfAppend(a, x, c);
    OccursAtChar(x, c, 0);
    IndexOfIsFirst(x, sep, 0);
    SplitAt(s, sep);
    SliceAfterPrefix(a, x, |a|);
    assert s[|a| + 1..] == b;
  }

  /** When the first `c` of `a` is at `i`, the first piece of `a + c + b`
      is the first piece of `a`. */
  lemma SplitConcatFirst(a: string, b: string, c: char, i: int)
    requires 0 <= i < |a| && IndexOf(a, [c]) == i
    ensures Split(a + [c] + b, [c]) == [a[..i]] + Split(a[i + 1..] + [c] + b, [c])
  {
    var sep := [c];
    var x := sep + b;
    var s := a + x;
    var tail := a[i + 1..] + [c] + b;
    assert a + [c] + b == s;
    assert IndexOf(s, sep) == i by {
      ContainsChar(a, c);
      IndexOfAppend(a, x, c);
    }
    assert s[..i] == a[..i] && s[i + 1..] == tail by {
      SliceAfterPrefix(a, x, i);
      SliceAfterPrefix(a, x, i + 1);
      assert a[i + 1..] + [c] + b == a[i + 1..] + x;
    }
    SplitAt(s, sep);
  }

  /** Splitting `a + c + b` on the one-character separator `c` splits `a` and `b` apart. */
  lemma {:induction false} SplitConcat(a: string, b: string, c: char)
    ensures Split(a + [c] + b, [c]) == Split(a, [c]) + Split(b, [c])
    decreases |a|
  {
    var sep := [c];
    ContainsChar(a, c);
    if c in a {
      var i := IndexOf(a, sep);
      var tail := a[i + 1..];
      var pieces, rest := Split(tail, sep), Split(b, sep);
      assert Split(a + [c] + b, sep) == [a[..i]] + (pieces + rest) by {
        SplitConcatFirst(a, b, c, i);
        SplitConcat(tail, b, c);
      }
      assert Split(a, sep) == [a[..i]] + pieces by {
        SplitAt(a, sep);
      }
      assert [a[..i]] + (pieces + rest) == ([a[..i]] + pieces) + rest;
    } else {
      SplitConcatAbsent(a, b, c);
      SplitShape(a, sep);
    }
  }

  /** Splitting a join on a one-character separator that no part contains
      gives back the parts. */
  lemma {:induction false} JoinSplitRoundTrip(parts: seq<string>, c: char)
    requires |parts| > 0
    requires forall i :: 0 <= i < |parts| ==> c !in parts[i]
    ensures Split(Join(parts, [c]), [c]) == parts
    decreases |parts|
  {
    var first := parts[0];
    assert Split(first, [c]) == [first] by {
      ContainsChar(first, c);
      SplitShape(first, [c]);
    }
    if |parts| > 1 {
      var rest := parts[1..];
      var joined := Join(rest, [c]);
      assert Join(parts, [c]) == first + [c] + joined;
      assert Split(joined, [c]) == rest by {
        JoinSplitRoundTrip(rest, c);
      }
      SplitConcat(first, joined, c);
      assert parts == [first] + rest;
    }
  }

  /** A join of at least one part is empty only when it is the join of one empty part. */
  lemma JoinEmpty(parts: seq<string>, sep: string)
    requires |parts| > 0 && |sep| > 0
    ensures Join(parts, sep) == "" <==> parts == [""]
  {
  }

  /** Joining one more part appends the separator and that part. */
  lemma {:induction false} JoinSnoc(parts: seq<string>, x: string, sep: string)
    requires |parts| > 0
    ensures Join(parts + [x], sep) == Join(parts, sep) + sep + x
    decreases |parts|
  {
    if |parts| == 1 {
      assert (parts + [x])[1..] == [x];
    } else {
      assert (parts + [x])[1..] == parts[1..] + [x];
      JoinSnoc(parts[1..], x, sep);
    }
  }

  /** Go's accumulator `s = s + sep + part` over all parts, starting from "". */
  function SepPrefixed(parts: seq<string>, sep: string): string {
    if |parts| == 0 then "" else SepPrefixed(parts[..|parts| - 1], sep) + sep + parts[|parts| - 1]
  }

  /** The accumulator equals one separator followed by the join. */
  lemma {:induction false} SepPrefixedIsJoin(parts: seq<string>, sep: string)
    requires |parts| > 0
    ensures SepPrefixed(parts, sep) == sep + Join(parts, sep)
    decreases |parts|
  {
    var init := parts[..|parts| - 1];
    var last := parts[|parts| - 1];
    assert parts == init + [last];
    if |parts| > 1 {
      SepPrefixedIsJoin(init, sep);
      JoinSnoc(init, last, sep);
    }
  }
}
