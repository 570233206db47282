/**
 * Field paths: the extractor that prints them while it walks an issue (src/extract.rs) and the
 * allowlist scope that reads them (src/allowlist.rs).
 */
module Paths {
  import opened Text
  import opened Findings

  datatype Json = Scalar | Str(text: Text) | Arr(items: seq<Json>) | Obj(members: seq<Member>)

  datatype Member = Member(key: Text, value: Json)

  datatype Segment = Segment(path: Text, text: Text, sourceType: SourceType)

  lemma Assoc<T>(x: seq<T>, y: seq<T>, z: seq<T>)
    ensures (x + y) + z == x + (y + z)
  {
  }

  // ----- printing -----

  function Decimal(n: nat): (d: Text)
    ensures d != ""
    ensures forall c <- d :: '0' <= c <= '9'
  {
    if n < 10 then ['0' + n as char] else Decimal(n / 10) + ['0' + (n % 10) as char]
  }

  function WithKey(path: Text, key: Text): Text {
    if path == "" then key else path + "." + key
  }

  function WithIndex(path: Text, i: nat): Text {
    path + "[" + Decimal(i) + "]"
  }

  /** As much of a text as fits the limit, in whole characters. */
  function Truncated(text: Text, maxBytes: nat): (t: Text)
    ensures t <= text && |t| <= maxBytes && IsBoundary(text, |t|)
    ensures forall j | |t| < j <= maxBytes && j <= |text| :: !IsBoundary(text, j)
  {
    if |text| <= maxBytes then text else text[..FloorBoundary(text, maxBytes)]
  }

  predicate StartsWith(t: Text, p: Text) {
    p <= t
  }

  function ClassifyPath(path: Text): SourceType {
    if StartsWith(path, "comment") || Contains(path, ".comment") then Comment
    else if StartsWith(path, "attachment") || Contains(path, ".attachment") then Attachment
    else if StartsWith(path, "description") then Description
    else CustomField
  }

  // ----- the walk -----

  function WalkValue(path: Text, value: Json, maxBytes: nat): seq<Segment>
    decreases value, 0
  {
    match value
    case Str(text) => [Segment(path, Truncated(text, maxBytes), ClassifyPath(path))]
    case Arr(items) => WalkItems(path, items, |items|, maxBytes)
    case Obj(members) => WalkMembers(path, members, |members|, maxBytes)
    case Scalar => []
  }

  function WalkItems(path: Text, items: seq<Json>, n: nat, maxBytes: nat): seq<Segment>
    requires n <= |items|
    decreases items, n
  {
    if n == 0 then [] else WalkItems(path, items, n - 1, maxBytes) + WalkValue(WithIndex(path, n - 1), items[n - 1], maxBytes)
  }

  function WalkMembers(path: Text, members: seq<Member>, n: nat, maxBytes: nat): seq<Segment>
    requires n <= |members|
    decreases members, n
  {
    if n == 0 then []
    else
      WalkMembers(path, members, n - 1, maxBytes)
      + WalkValue(WithKey(path, members[n - 1].key), members[n - 1].value, maxBytes)
  }

  /** The extractor: the walk appends to one vector. */
  class TextExtractor {
    const maxBytes: nat
    var segments: seq<Segment>

    constructor (maxBytes: nat)
      ensures this.maxBytes == maxBytes && segments == []
    {
      this.maxBytes := maxBytes;
      segments := [];
    }

    method Extract(fields: Json) returns (found: seq<Segment>)
      modifies this
      ensures found == if fields.Obj? then WalkMembers("", fields.members, |fields.members|, maxBytes) else []
    {
      segments := [];
      if fields.Obj? {
        VisitFields(fields, "");
      }
      found := segments;
    }

    method ExtractAt(path: Text, value: Json) returns (found: seq<Segment>)
      modifies this
      ensures found == WalkValue(path, value, maxBytes)
    {
      segments := [];
      VisitValue(path, value);
      found := segments;
    }

    method VisitFields(value: Json, path: Text)
      requires value.Obj?
      modifies this
      ensures segments == old(segments) + WalkMembers(path, value.members, |value.members|, maxBytes)
      decreases value, 0
    {
      var members := value.members;
      for i := 0 to |members|
        invariant segments == old(segments) + WalkMembers(path, members, i, maxBytes)
      {
        var below := WithKey(path, members[i].key);
        Assoc(old(segments), WalkMembers(path, members, i, maxBytes), WalkValue(below, members[i].value, maxBytes));
        VisitValue(below, members[i].value);
      }
    }

    method VisitValue(path: Text, value: Json)
      modifies this
      ensures segments == old(segments) + WalkValue(path, value, maxBytes)
      decreases value, 1
    {
      match value {
        case Str(text) =>
          segments := segments + [Segment(path, Truncated(text, maxBytes), ClassifyPath(path))];
        case Arr(items) =>
          for i := 0 to |items|
            invariant segments == old(segments) + WalkItems(path, items, i, maxBytes)
          {
            var below := WithIndex(path, i);
            Assoc(old(segments), WalkItems(path, items, i, maxBytes), WalkValue(below, items[i], maxBytes));
            VisitValue(below, items[i]);
          }
        case Obj(_) =>
          VisitFields(value, path);
        case Scalar =>
      }
    }
  }

  // ----- the allowlist scope -----

  predicate FieldScopeMatches(scope: Text, path: Text) {
    || scope == path
    || (scope <= path && |scope| < |path| && (path[|scope|] == '.' || path[|scope|] == '['))
  }

  lemma ScopeGrows(scope: Text, path: Text, more: Text)
    requires FieldScopeMatches(scope, path) && more != "" && (more[0] == '.' || more[0] == '[')
    ensures FieldScopeMatches(scope, path + more)
  {
  }

  /** Every segment found below a non-empty path is admitted by that path as a scope. */
  lemma {:induction false} SegmentsInScope(scope: Text, path: Text, value: Json, maxBytes: nat)
    requires scope != "" && FieldScopeMatches(scope, path)
    ensures forall s <- WalkValue(path, value, maxBytes) :: FieldScopeMatches(scope, s.path)
    decreases value, 0
  {
    match value
    case Str(_) =>
    case Scalar =>
    case Arr(items) => ItemsInScope(scope, path, items, |items|, maxBytes);
    case Obj(members) => MembersInScope(scope, path, members, |members|, maxBytes);
  }

  lemma {:induction false} ItemsInScope(scope: Text, path: Text, items: seq<Json>, n: nat, maxBytes: nat)
    requires scope != "" && FieldScopeMatches(scope, path) && n <= |items|
    ensures forall s <- WalkItems(path, items, n, maxBytes) :: FieldScopeMatches(scope, s.path)
    decreases items, n
  {
    if n > 0 {
      ItemsInScope(scope, path, items, n - 1, maxBytes);
      ScopeGrows(scope, path, "[" + (Decimal(n - 1) + "]"));
      assert WithIndex(path, n - 1) == path + ("[" + (Decimal(n - 1) + "]"));
      SegmentsInScope(scope, WithIndex(path, n - 1), items[n - 1], maxBytes);
    }
  }

  lemma {:induction false} MembersInScope(scope: Text, path: Text, members: seq<Member>, n: nat, maxBytes: nat)
    requires scope != "" && FieldScopeMatches(scope, path) && n <= |members|
    ensures forall s <- WalkMembers(path, members, n, maxBytes) :: FieldScopeMatches(scope, s.path)
    decreases members, n
  {
    if n > 0 {
      MembersInScope(scope, path, members, n - 1, maxBytes);
      var key := members[n - 1].key;
      ScopeGrows(scope, path, "." + key);
      assert WithKey(path, key) == path + ("." + key);
      SegmentsInScope(scope, WithKey(path, key), members[n - 1].value, maxBytes);
    }
  }

  // ----- addresses -----

  datatype Step = Key(key: Text) | Index(i: nat)

  type Address = seq<Step>

  predicate IsSeparator(c: char) {
    c == '.' || c == '['
  }

  /** A key that the printed path can be read back from. */
  predicate PlainKey(key: Text) {
    key != "" && forall c <- key :: !IsSeparator(c)
  }

  predicate Plain(a: Address) {
    forall s <- a :: s.Key? ==> PlainKey(s.key)
  }

  /** The path of an address, as the walk builds it: from the root down. */
  function Printed(a: Address): Text {
    if a == [] then ""
    else
      var up := Printed(a[..|a| - 1]);
      match a[|a| - 1]
      case Key(key) => WithKey(up, key)
      case Index(i) => WithIndex(up, i)
  }

  // ----- texts made of chunks that start at a separator -----

  predicate IsChunk(c: Text) {
    c != "" && IsSeparator(c[0]) && forall k | 0 < k < |c| :: !IsSeparator(c[k])
  }

  function Flat(chunks: seq<Text>): Text {
    if chunks == [] then "" else chunks[0] + Flat(chunks[1..])
  }

  lemma {:induction false} FlatConcat(a: seq<Text>, b: seq<Text>)
    ensures Flat(a + b) == Flat(a) + Flat(b)
  {
    if a == [] {
      assert a + b == b;
    } else {
      FlatConcat(a[1..], b);
      assert (a + b)[1..] == a[1..] + b;
      Assoc(a[0], Flat(a[1..]), Flat(b));
    }
  }

  lemma FlatStart(chunks: seq<Text>)
    requires forall c <- chunks :: IsChunk(c)
    ensures chunks != [] ==> Flat(chunks) != "" && IsSeparator(Flat(chunks)[0])
  {
    if chunks != [] {
      assert chunks[0] in chunks;
    }
  }

  /** The first separator at or after `i`, or the end. */
  function SeparatorFrom(t: Text, i: nat): (r: nat)
    requires i <= |t|
    ensures i <= r <= |t|
    ensures forall k | i <= k < r :: !IsSeparator(t[k])
    ensures r < |t| ==> IsSeparator(t[r])
    decreases |t| - i
  {
    if i == |t| || IsSeparator(t[i]) then i else SeparatorFrom(t, i + 1)
  }

  lemma ChunkEnds(a: Text, x: Text)
    requires IsChunk(a) && (x != "" ==> IsSeparator(x[0]))
    ensures SeparatorFrom(a + x, 1) == |a|
  {
    var t := a + x;
    assert forall k | 0 < k < |a| :: t[k] == a[k];
    assert x != "" ==> t[|a|] == x[0];
  }

  /** A chunk ends at the next separator or at the end: two readings of one text agree. */
  lemma SameFirstChunk(a: Text, x: Text, b: Text, y: Text)
    requires IsChunk(a) && IsChunk(b)
    requires (x != "" ==> IsSeparator(x[0])) && (y != "" ==> IsSeparator(y[0]))
    requires a + x == b + y
    ensures a == b && x == y
  {
    ChunkEnds(a, x);
    ChunkEnds(b, y);
    var all := a + x;
    assert a == all[..|a|] && b == all[..|b|] && x == all[|a|..] && y == all[|b|..];
  }

  /** When one text of chunks is another followed by nothing or by a separator, its chunks come first. */
  lemma {:induction false} PrefixOfFlat(a: seq<Text>, b: seq<Text>, more: Text)
    requires (forall c <- a :: IsChunk(c)) && (forall c <- b :: IsChunk(c))
    requires (more != "" ==> IsSeparator(more[0])) && Flat(b) == Flat(a) + more
    ensures a <= b
  {
    if a != [] {
      FlatStart(a);
      FlatStart(a[1..]);
      FlatStart(b[1..]);
      assert a[0] in a && b[0] in b;
      Assoc(a[0], Flat(a[1..]), more);
      SameFirstChunk(a[0], Flat(a[1..]) + more, b[0], Flat(b[1..]));
      PrefixOfFlat(a[1..], b[1..], more);
    }
  }

  // ----- printed addresses are such texts -----

  function Rendered(s: Step): Text {
    match s
    case Key(key) => "." + key
    case Index(i) => "[" + (Decimal(i) + "]")
  }

  function Chunks(a: Address): (chunks: seq<Text>)
    ensures |chunks| == |a|
  {
    seq(|a|, i requires 0 <= i < |a| => Rendered(a[i]))
  }

  lemma DecimalIsPlain(i: nat)
    ensures forall c <- Decimal(i) + "]" :: !IsSeparator(c)
  {
  }

  lemma RenderedIsChunk(s: Step)
    requires s.Key? ==> PlainKey(s.key)
    ensures IsChunk(Rendered(s))
  {
    if s.Index? {
      DecimalIsPlain(s.i);
    }
  }

  lemma ChunksAreChunks(a: Address)
    requires Plain(a)
    ensures forall c <- Chunks(a) :: IsChunk(c)
  {
    forall i | 0 <= i < |a|
      ensures IsChunk(Chunks(a)[i])
    {
      assert a[i] in a;
      RenderedIsChunk(a[i]);
    }
  }

  lemma {:induction false} DecimalInjective(m: nat, n: nat)
    requires Decimal(m) == Decimal(n)
    ensures m == n
  {
    var a, b := Decimal(m), Decimal(n);
    LastDigit(m);
    LastDigit(n);
    if m >= 10 && n >= 10 {
      assert a[..|a| - 1] == Decimal(m / 10) && b[..|b| - 1] == Decimal(n / 10);
      DecimalInjective(m / 10, n / 10);
    }
  }

  lemma LastDigit(n: nat)
    ensures Decimal(n)[|Decimal(n)| - 1] as int == '0' as int + n % 10
    ensures |Decimal(n)| == 1 <==> n < 10
  {
  }

  lemma RenderedInjective(s: Step, t: Step)
    requires Rendered(s) == Rendered(t)
    ensures s == t
  {
    assert Rendered(s)[0] == Rendered(t)[0];
    if s.Key? && t.Key? {
      assert s.key == Rendered(s)[1..] && t.key == Rendered(t)[1..];
    } else if s.Index? && t.Index? {
      var a, b := Rendered(s), Rendered(t);
      assert Decimal(s.i) == a[1..|a| - 1] && Decimal(t.i) == b[1..|b| - 1];
      DecimalInjective(s.i, t.i);
    }
  }

  lemma ChunksPrefix(a: Address, b: Address)
    ensures Chunks(a) <= Chunks(b) <==> a <= b
  {
    if Chunks(a) <= Chunks(b) {
      forall i | 0 <= i < |a|
        ensures a[i] == b[i]
      {
        assert Chunks(a)[i] == Chunks(b)[i];
        RenderedInjective(a[i], b[i]);
      }
    }
  }

  /** One step further down adds the step's text. */
  lemma PrintedBelow(up: Address, s: Step)
    requires Printed(up) != ""
    ensures Printed(up + [s]) == Printed(up) + Rendered(s)
  {
    assert (up + [s])[..|up|] == up;
    match s {
      case Key(key) => Assoc(Printed(up), ".", key);
      case Index(i) =>
        Assoc(Printed(up), "[", Decimal(i));
        Assoc(Printed(up), "[" + Decimal(i), "]");
        Assoc("[", Decimal(i), "]");
    }
  }

  /** An address that starts at a key prints as its chunks, without the first dot. */
  lemma {:induction false} PrintedIsFlat(a: Address)
    requires a != [] && a[0].Key? && Plain(a)
    ensures Printed(a) != "" && "." + Printed(a) == Flat(Chunks(a))
  {
    var up, s := a[..|a| - 1], a[|a| - 1];
    assert a == up + [s] && s in a;
    assert Chunks(a) == Chunks(up) + [Rendered(s)];
    FlatConcat(Chunks(up), [Rendered(s)]);
    assert Flat([Rendered(s)]) == Rendered(s) by {
      assert [Rendered(s)][1..] == [];
    }
    if up != [] {
      PrintedIsFlat(up);
      PrintedBelow(up, s);
      Assoc(".", Printed(up), Rendered(s));
    }
  }

  // ----- scopes are subtrees -----

  /** Scope matching in terms of what follows the scope, both texts after a first dot. */
  lemma ScopeByRemainder(p: Text, q: Text)
    ensures FieldScopeMatches(p, q) <==>
              "." + p <= "." + q && (|p| == |q| || IsSeparator(q[|p|]))
  {
    assert ("." + p)[1..] == p && ("." + q)[1..] == q;
    if "." + p <= "." + q {
      assert forall i | 0 <= i < |p| :: p[i] == ("." + p)[i + 1] == ("." + q)[i + 1] == q[i];
    }
  }

  /** A printed address, as a scope, admits exactly the printed addresses at or below it. */
  lemma ScopeIsSubtree(a: Address, b: Address)
    requires a != [] && a[0].Key? && Plain(a) && b != [] && b[0].Key? && Plain(b)
    ensures FieldScopeMatches(Printed(a), Printed(b)) <==> a <= b
  {
    PrintedIsFlat(a);
    PrintedIsFlat(b);
    ChunksAreChunks(a);
    ChunksAreChunks(b);
    ScopeByRemainder(Printed(a), Printed(b));
    ChunksPrefix(a, b);
    if a <= b {
      PrefixFollowed(Chunks(a), Chunks(b), Printed(a), Printed(b));
    }
    if FieldScopeMatches(Printed(a), Printed(b)) {
      FollowedPrefix(Chunks(a), Chunks(b), Printed(a), Printed(b));
    }
  }

  lemma PrefixFollowed(x: seq<Text>, y: seq<Text>, p: Text, q: Text)
    requires x <= y && "." + p == Flat(x) && "." + q == Flat(y) && forall c <- y :: IsChunk(c)
    ensures "." + p <= "." + q && (|p| == |q| || IsSeparator(q[|p|]))
  {
    var rest := y[|x|..];
    assert y == x + rest;
    FlatConcat(x, rest);
    FlatStart(rest);
    if rest != [] {
      assert q[|p|] == ("." + q)[|p| + 1] == Flat(rest)[0];
    }
  }

  lemma FollowedPrefix(x: seq<Text>, y: seq<Text>, p: Text, q: Text)
    requires (forall c <- x :: IsChunk(c)) && (forall c <- y :: IsChunk(c))
    requires "." + p == Flat(x) && "." + q == Flat(y)
    requires "." + p <= "." + q && (|p| == |q| || IsSeparator(q[|p|]))
    ensures x <= y
  {
    var more := ("." + q)[|p| + 1..];
    assert "." + q == ("." + p) + more;
    assert more != "" ==> more[0] == q[|p|];
    PrefixOfFlat(x, y, more);
  }

  /** Printing is injective. */
  lemma PrintingInjective(a: Address, b: Address)
    requires a != [] && a[0].Key? && Plain(a) && b != [] && b[0].Key? && Plain(b)
    requires Printed(a) == Printed(b)
    ensures a == b
  {
    ScopeIsSubtree(a, b);
    ScopeIsSubtree(b, a);
  }

  // ----- the segments of an issue, by address -----

  datatype Leaf = Leaf(addr: Address, text: Text)

  /** The text leaves at or below an address, in walking order. */
  function Leaves(addr: Address, value: Json): seq<Leaf>
    decreases value, 0
  {
    match value
    case Str(text) => [Leaf(addr, text)]
    case Arr(items) => ItemLeaves(addr, items, |items|)
    case Obj(members) => MemberLeaves(addr, members, |members|)
    case Scalar => []
  }

  function ItemLeaves(addr: Address, items: seq<Json>, n: nat): seq<Leaf>
    requires n <= |items|
    decreases items, n
  {
    if n == 0 then [] else ItemLeaves(addr, items, n - 1) + Leaves(addr + [Index(n - 1)], items[n - 1])
  }

  function MemberLeaves(addr: Address, members: seq<Member>, n: nat): seq<Leaf>
    requires n <= |members|
    decreases members, n
  {
    if n == 0 then []
    else MemberLeaves(addr, members, n - 1) + Leaves(addr + [Key(members[n - 1].key)], members[n - 1].value)
  }

  predicate PlainKeys(value: Json) {
    match value
    case Arr(items) => forall v <- items :: PlainKeys(v)
    case Obj(members) => forall m <- members :: PlainKey(m.key) && PlainKeys(m.value)
    case _ => true
  }

  /** One segment for one leaf: its printed address, its text cut to size. */
  ghost predicate IsSegmentOf(s: Segment, leaf: Leaf, maxBytes: nat) {
    && s == Segment(Printed(leaf.addr), Truncated(leaf.text, maxBytes), ClassifyPath(Printed(leaf.addr)))
  }

  ghost predicate Match(segments: seq<Segment>, leaves: seq<Leaf>, above: Address, maxBytes: nat) {
    && |segments| == |leaves|
    && forall i | 0 <= i < |leaves| ::
         IsSegmentOf(segments[i], leaves[i], maxBytes) && above <= leaves[i].addr && Plain(leaves[i].addr)
  }

  lemma PlainStep(addr: Address, s: Step)
    requires Plain(addr) && (s.Key? ==> PlainKey(s.key))
    ensures Plain(addr + [s]) && addr <= addr + [s]
    ensures Printed(addr + [s]) == if s.Key? then WithKey(Printed(addr), s.key) else WithIndex(Printed(addr), s.i)
  {
    assert (addr + [s])[..|addr|] == addr;
  }

  /** One more child's segments and leaves. */
  lemma MatchAppend(segments: seq<Segment>, leaves: seq<Leaf>, more: seq<Segment>, moreLeaves: seq<Leaf>,
                    above: Address, s: Step, maxBytes: nat)
    requires Match(segments, leaves, above, maxBytes)
    requires Match(more, moreLeaves, above + [s], maxBytes)
    ensures Match(segments + more, leaves + moreLeaves, above, maxBytes)
  {
    assert above <= above + [s];
  }

  /** The walk prints the leaves. */
  lemma {:induction false} WalkPrintsLeaves(addr: Address, value: Json, maxBytes: nat)
    requires Plain(addr) && PlainKeys(value)
    ensures Match(WalkValue(Printed(addr), value, maxBytes), Leaves(addr, value), addr, maxBytes)
    decreases value, 0
  {
    match value
    case Str(_) =>
    case Scalar =>
    case Arr(items) => WalkPrintsItems(addr, items, |items|, maxBytes);
    case Obj(members) => WalkPrintsMembers(addr, members, |members|, maxBytes);
  }

  lemma {:induction false} WalkPrintsItems(addr: Address, items: seq<Json>, n: nat, maxBytes: nat)
    requires Plain(addr) && n <= |items| && forall v <- items :: PlainKeys(v)
    ensures Match(WalkItems(Printed(addr), items, n, maxBytes), ItemLeaves(addr, items, n), addr, maxBytes)
    decreases items, n
  {
    if n > 0 {
      WalkPrintsItems(addr, items, n - 1, maxBytes);
      var s := Index(n - 1);
      PlainStep(addr, s);
      WalkPrintsLeaves(addr + [s], items[n - 1], maxBytes);
      MatchAppend(
        WalkItems(Printed(addr), items, n - 1, maxBytes), ItemLeaves(addr, items, n - 1),
        WalkValue(Printed(addr + [s]), items[n - 1], maxBytes), Leaves(addr + [s], items[n - 1]), addr, s, maxBytes);
    }
  }

  lemma {:induction false} WalkPrintsMembers(addr: Address, members: seq<Member>, n: nat, maxBytes: nat)
    requires Plain(addr) && n <= |members| && forall m <- members :: PlainKey(m.key) && PlainKeys(m.value)
    ensures Match(WalkMembers(Printed(addr), members, n, maxBytes), MemberLeaves(addr, members, n), addr, maxBytes)
    decreases members, n
  {
    if n > 0 {
      WalkPrintsMembers(addr, members, n - 1, maxBytes);
      var m := members[n - 1];
      var s := Key(m.key);
      PlainStep(addr, s);
      WalkPrintsLeaves(addr + [s], m.value, maxBytes);
      MatchAppend(
        WalkMembers(Printed(addr), members, n - 1, maxBytes), MemberLeaves(addr, members, n - 1),
        WalkValue(Printed(addr + [s]), m.value, maxBytes), Leaves(addr + [s], m.value), addr, s, maxBytes);
    }
  }

  lemma {:induction false} MemberLeavesStart(members: seq<Member>, n: nat, i: nat)
    requires n <= |members| && i < |MemberLeaves([], members, n)|
    requires forall m <- members :: PlainKey(m.key) && PlainKeys(m.value)
    ensures MemberLeaves([], members, n)[i].addr != [] && MemberLeaves([], members, n)[i].addr[0].Key?
    decreases n
  {
    var before := MemberLeaves([], members, n - 1);
    if i < |before| {
      MemberLeavesStart(members, n - 1, i);
    } else {
      var m := members[n - 1];
      assert Plain([Key(m.key)]);
      WalkPrintsLeaves([Key(m.key)], m.value, 0);
      assert [] + [Key(m.key)] == [Key(m.key)];
    }
  }

  /**
   * For an issue whose keys are plain: a node's printed address, as a scope, admits exactly the
   * segments of the text leaves at or below that node.
   */
  lemma ScopeSelectsSubtree(fields: Json, a: Address, i: nat, maxBytes: nat)
    requires fields.Obj? && PlainKeys(fields)
    requires a != [] && a[0].Key? && Plain(a)
    requires i < |MemberLeaves([], fields.members, |fields.members|)|
    ensures var leaves := MemberLeaves([], fields.members, |fields.members|);
            var segments := WalkMembers("", fields.members, |fields.members|, maxBytes);
            && |segments| == |leaves|
            && (FieldScopeMatches(Printed(a), segments[i].path) <==> a <= leaves[i].addr)
  {
    WalkPrintsMembers([], fields.members, |fields.members|, maxBytes);
    MemberLeavesStart(fields.members, |fields.members|, i);
    ScopeIsSubtree(a, MemberLeaves([], fields.members, |fields.members|)[i].addr);
  }

  /** The path given to a comment that was fetched on a later page. */
  function CommentPath(n: nat): Text {
    "comment.comments[" + Decimal(n) + "].body"
  }

  /** It is the path the comment at that place of the payload has: its body is walked to the same segments. */
  lemma FetchedLikePayload(n: nat, body: Json, maxBytes: nat)
    ensures var addr := [Key("comment"), Key("comments"), Index(n), Key("body")];
            WalkValue(CommentPath(n), body, maxBytes) == WalkValue(Printed(addr), body, maxBytes)
  {
    var a1, a2 := [Key("comment")], [Key("comment"), Key("comments")];
    var a3 := a2 + [Index(n)];
    var a4 := [Key("comment"), Key("comments"), Index(n), Key("body")];
    assert a1[..0] == [] && a2[..1] == a1 && a3[..2] == a2 && a4[..3] == a3;
    assert Printed(a1) == "comment";
    assert Printed(a2) == "comment.comments";
    assert Printed(a3) == "comment.comments" + "[" + Decimal(n) + "]";
    assert Printed(a4) == Printed(a3) + "." + "body";
    assert Printed(a4) == CommentPath(n);
  }

  /** Keys with separators break both: a dotted key prints like a nested one. */
  lemma DottedKeyCollides()
    ensures Printed([Key("a.b")]) == Printed([Key("a"), Key("b")])
    ensures FieldScopeMatches(Printed([Key("a")]), Printed([Key("a.b")]))
  {
    assert [Key("a.b")][..0] == [];
    assert [Key("a"), Key("b")][..1] == [Key("a")];
    assert [Key("a")][..0] == [];
    assert Printed([Key("a")]) == "a";
    assert Printed([Key("a"), Key("b")]) == "a.b";
    assert Printed([Key("a.b")]) == "a.b";
  }
}
