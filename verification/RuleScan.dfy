/**
 * The rules engine's scan loop (src/rules.rs) over an arbitrary regular-expression engine, and
 * the snippets it cuts (src/candidate.rs).
 */
module RuleScan {
  import opened Wrappers
  import opened Text
  import Redact

  const SNIPPET_RADIUS: nat := 50

  /** What the engine says about a text. */
  datatype Answer = NoMatch | Found(start: nat, end: nat) | EngineError

  /**
   * A compiled rule: the regular expression, its capture group (absent when the group did not
   * take part), and the rule's filters, which see the text and the value's span. The engine
   * sees only the text after the cursor, and its offsets are relative to it.
   */
  datatype Rule = Rule(
    ruleId: string,
    captureGroup: nat,
    find: Text -> Answer,
    group: Text -> Option<(nat, nat)>,
    passes: (Text, nat, nat) -> bool)

  predicate ValidSpan(t: Text, start: nat, end: nat) {
    start <= end <= |t| && IsBoundary(t, start) && IsBoundary(t, end)
  }

  /** The engine answers inside the text it was given, on character boundaries. */
  ghost predicate Sound(rule: Rule) {
    forall t: Text ::
      && (rule.find(t).Found? ==> ValidSpan(t, rule.find(t).start, rule.find(t).end))
      && (rule.group(t).Some? ==> ValidSpan(t, rule.group(t).value.0, rule.group(t).value.1))
  }

  datatype Hit = Hit(
    ruleId: string,
    matchedValue: Text,
    matchStart: nat,
    matchEnd: nat,
    snippet: Text,
    spanStart: nat,
    spanEnd: nat)

  /** The text around a span, on character boundaries; an out-of-range span gives the empty tail. */
  function ContextWindow(t: Text, start: nat, end: nat, radius: nat): Text {
    var s := FloorBoundary(t, if start < radius then 0 else if start - radius <= |t| then start - radius else |t|);
    var e := CeilBoundary(t, if end + radius <= |t| then end + radius else |t|);
    if e < s then t[s..s] else t[s..e]
  }

  /** A hit with the snippet cut as the scan cuts it. */
  function CutHit(ruleId: string, t: Text, matchStart: nat, matchEnd: nat, vs: nat, ve: nat): Hit
    requires ValidSpan(t, vs, ve)
  {
    var s := FloorBoundary(t, if vs < SNIPPET_RADIUS then 0 else vs - SNIPPET_RADIUS);
    var e := CeilBoundary(t, if ve + SNIPPET_RADIUS <= |t| then ve + SNIPPET_RADIUS else |t|);
    Hit(ruleId, t[vs..ve], matchStart, matchEnd, t[s..e], vs - s, ve - s)
  }

  // ----- one rule on one text, by position -----

  /** The match from a cursor and the value it reports, in positions of the whole text. */
  datatype Take = Take(start: nat, end: nat, valueStart: nat, valueEnd: nat, passes: bool)

  /** What each cursor position yields; `None` ends the rule (no match, or an engine error). */
  type Takes = nat -> Option<Take>

  /** Takes lie in the text, and their matches at or after the cursor. */
  ghost predicate Valid(takes: Takes, t: Text) {
    forall c: nat {:trigger takes(c)} :: c < |t| && IsBoundary(t, c) && takes(c).Some? ==>
      var k := takes(c).value;
      c <= k.start && ValidSpan(t, k.start, k.end) && ValidSpan(t, k.valueStart, k.valueEnd)
  }

  /** The rule's takes: the capture group's span if the rule names one and it took part, or the match. */
  function TakeAt(rule: Rule, t: Text, cursor: nat): Option<Take> {
    if cursor > |t| then None
    else
      var rest := t[cursor..];
      match rule.find(rest)
      case NoMatch => None
      case EngineError => None
      case Found(s, e) =>
        var g := rule.group(rest);
        var (vs, ve) := if rule.captureGroup > 0 && g.Some? then g.value else (s, e);
        Some(Take(cursor + s, cursor + e, cursor + vs, cursor + ve, rule.passes(t, cursor + vs, cursor + ve)))
  }

  function TakesOf(rule: Rule, t: Text): Takes {
    (cursor: nat) => TakeAt(rule, t, cursor)
  }

  lemma SuffixBoundary(t: Text, cursor: nat, i: nat)
    requires cursor <= |t| && IsBoundary(t, cursor) && i <= |t[cursor..]| && IsBoundary(t[cursor..], i)
    ensures IsBoundary(t, cursor + i)
  {
  }

  lemma SuffixSpan(t: Text, cursor: nat, s: nat, e: nat)
    requires cursor <= |t| && IsBoundary(t, cursor) && ValidSpan(t[cursor..], s, e)
    ensures ValidSpan(t, cursor + s, cursor + e)
  {
    SuffixBoundary(t, cursor, s);
    SuffixBoundary(t, cursor, e);
  }

  lemma TakesAreValid(rule: Rule, t: Text)
    requires Sound(rule)
    ensures Valid(TakesOf(rule, t), t)
  {
    forall c: nat | c < |t| && IsBoundary(t, c) && TakesOf(rule, t)(c).Some?
      ensures var k := TakesOf(rule, t)(c).value;
              c <= k.start && ValidSpan(t, k.start, k.end) && ValidSpan(t, k.valueStart, k.valueEnd)
    {
      var rest := t[c..];
      var m, g := rule.find(rest), rule.group(rest);
      SuffixSpan(t, c, m.start, m.end);
      if g.Some? {
        SuffixSpan(t, c, g.value.0, g.value.1);
      }
    }
  }

  /** What is found from `cursor` on, in order. */
  function RuleHits(ruleId: string, takes: Takes, t: Text, cursor: nat): seq<Hit>
    requires Valid(takes, t) && (cursor <= |t| ==> IsBoundary(t, cursor))
    decreases |t| - cursor
  {
    if cursor >= |t| || takes(cursor).None? then []
    else
      var k := takes(cursor).value;
      if k.end <= cursor then RuleHits(ruleId, takes, t, CeilBoundary(t, cursor + 1))
      else
        (if k.passes then [CutHit(ruleId, t, k.start, k.end, k.valueStart, k.valueEnd)] else [])
        + RuleHits(ruleId, takes, t, k.end)
  }

  function HitsOf(rule: Rule, t: Text): seq<Hit>
    requires Sound(rule)
  {
    TakesAreValid(rule, t);
    RuleHits(rule.ruleId, TakesOf(rule, t), t, 0)
  }

  function AllHits(rules: seq<Rule>, t: Text): seq<Hit>
    requires forall r <- rules :: Sound(r)
  {
    if rules == [] then [] else AllHits(rules[..|rules| - 1], t) + HitsOf(rules[|rules| - 1], t)
  }

  method Scan(rules: seq<Rule>, t: Text) returns (hits: seq<Hit>)
    requires forall r <- rules :: Sound(r)
    ensures hits == AllHits(rules, t)
  {
    hits := [];
    for i := 0 to |rules|
      invariant hits == AllHits(rules[..i], t)
    {
      assert rules[..i + 1][..i] == rules[..i];
      hits := ScanRule(rules[i], t, hits);
    }
    assert rules[..|rules|] == rules;
  }

  /** One look at the text after the cursor: the match, and the span whose value is reported. */
  method Look(rule: Rule, t: Text, cursor: nat) returns (k: Option<Take>)
    requires cursor <= |t|
    ensures k == TakesOf(rule, t)(cursor)
  {
    var rest := t[cursor..];
    var m := rule.find(rest);
    if !m.Found? {
      return None;
    }
    var matchStart, matchEnd := cursor + m.start, cursor + m.end;
    var vs, ve := matchStart, matchEnd;
    if rule.captureGroup > 0 {
      var g := rule.group(rest);
      if g.Some? {
        vs, ve := cursor + g.value.0, cursor + g.value.1;
      }
    }
    k := Some(Take(matchStart, matchEnd, vs, ve, rule.passes(t, vs, ve)));
  }

  /** The inner loop: a cursor that always moves forward. */
  method ScanRule(rule: Rule, t: Text, before: seq<Hit>) returns (hits: seq<Hit>)
    requires Sound(rule)
    ensures hits == before + HitsOf(rule, t)
  {
    hits := before;
    ghost var takes := TakesOf(rule, t);
    TakesAreValid(rule, t);
    var cursor := 0;
    while cursor < |t|
      invariant cursor <= |t| && IsBoundary(t, cursor)
      invariant hits + RuleHits(rule.ruleId, takes, t, cursor) == before + HitsOf(rule, t)
      decreases |t| - cursor
    {
      var look := Look(rule, t, cursor);
      if look.None? {
        assert hits + [] == hits;
        return;
      }
      var k := look.value;
      if k.end <= cursor {
        cursor := CeilBoundary(t, cursor + 1);
        continue;
      }
      if k.passes {
        var hit := CutHit(rule.ruleId, t, k.start, k.end, k.valueStart, k.valueEnd);
        Append(hits, hit, RuleHits(rule.ruleId, takes, t, k.end));
        hits := hits + [hit];
      } else {
        assert [] + RuleHits(rule.ruleId, takes, t, k.end) == RuleHits(rule.ruleId, takes, t, k.end);
      }
      cursor := k.end;
    }
    assert hits + [] == hits;
  }

  lemma Append(hits: seq<Hit>, hit: Hit, rest: seq<Hit>)
    ensures hits + ([hit] + rest) == (hits + [hit]) + rest
  {
  }

  // ----- what a hit is -----

  /**
   * The value is the text at `vs`, the snippet is the context window of that span, and the
   * value is where the hit says it is in the snippet.
   */
  ghost predicate WellCut(h: Hit, t: Text, vs: nat) {
    var ve := vs + |h.matchedValue|;
    && ValidSpan(t, vs, ve)
    && h.matchedValue == t[vs..ve]
    && h.snippet == ContextWindow(t, vs, ve, SNIPPET_RADIUS)
    && h.spanStart <= h.spanEnd <= |h.snippet|
    && h.snippet[h.spanStart..h.spanEnd] == h.matchedValue
  }

  lemma CutHitIsWellCut(ruleId: string, t: Text, ms: nat, me: nat, vs: nat, ve: nat)
    requires ValidSpan(t, vs, ve)
    ensures WellCut(CutHit(ruleId, t, ms, me, vs, ve), t, vs)
  {
    var s := FloorBoundary(t, if vs < SNIPPET_RADIUS then 0 else vs - SNIPPET_RADIUS);
    var e := CeilBoundary(t, if ve + SNIPPET_RADIUS <= |t| then ve + SNIPPET_RADIUS else |t|);
    assert ContextWindow(t, vs, ve, SNIPPET_RADIUS) == t[s..e];
    SliceOfSlice(t, s, e, vs, ve);
  }

  lemma SliceOfSlice(t: Text, s: nat, e: nat, i: nat, j: nat)
    requires s <= i <= j <= e <= |t|
    ensures t[s..e][i - s..j - s] == t[i..j]
  {
    var inner := t[s..e][i - s..j - s];
    assert forall x | 0 <= x < j - i :: inner[x] == t[i + x];
    assert inner == t[i..j];
  }

  /** A hit made from the take at `c`. */
  ghost predicate IsTake(h: Hit, ruleId: string, takes: Takes, t: Text, c: nat)
    requires Valid(takes, t)
  {
    && c < |t| && IsBoundary(t, c) && takes(c).Some? && takes(c).value.passes
    && var k := takes(c).value;
       h == CutHit(ruleId, t, k.start, k.end, k.valueStart, k.valueEnd)
  }

  /** Every hit is a take that passed the filters. */
  lemma {:induction false} HitOrigin(ruleId: string, takes: Takes, t: Text, cursor: nat, i: nat) returns (c: nat)
    requires Valid(takes, t) && (cursor <= |t| ==> IsBoundary(t, cursor)) && i < |RuleHits(ruleId, takes, t, cursor)|
    ensures IsTake(RuleHits(ruleId, takes, t, cursor)[i], ruleId, takes, t, c)
    decreases |t| - cursor
  {
    var k := takes(cursor).value;
    var hits := RuleHits(ruleId, takes, t, cursor);
    if k.end <= cursor {
      c := HitOrigin(ruleId, takes, t, CeilBoundary(t, cursor + 1), i);
    } else {
      var rest := RuleHits(ruleId, takes, t, k.end);
      if k.passes && i == 0 {
        c := cursor;
      } else {
        var j := if k.passes then i - 1 else i;
        assert hits[i] == rest[j];
        c := HitOrigin(ruleId, takes, t, k.end, j);
      }
    }
  }

  /** Every reported hit is well cut around the value's span. */
  lemma HitsAreWellCut(rule: Rule, t: Text, i: nat) returns (vs: nat)
    requires Sound(rule) && i < |HitsOf(rule, t)|
    ensures WellCut(HitsOf(rule, t)[i], t, vs) && HitsOf(rule, t)[i].ruleId == rule.ruleId
  {
    TakesAreValid(rule, t);
    var c := HitOrigin(rule.ruleId, TakesOf(rule, t), t, 0, i);
    var k := TakesOf(rule, t)(c).value;
    vs := k.valueStart;
    CutHitIsWellCut(rule.ruleId, t, k.start, k.end, k.valueStart, k.valueEnd);
  }

  /**
   * The span a hit stores for its match is the span of its value exactly when no capture group
   * took part, or the group spans the whole match.
   */
  lemma MatchSpanIsValueSpanIff(rule: Rule, t: Text, cursor: nat)
    requires Sound(rule) && cursor < |t| && IsBoundary(t, cursor) && TakeAt(rule, t, cursor).Some?
    ensures var k, g := TakeAt(rule, t, cursor).value, rule.group(t[cursor..]);
            (k.start, k.end) == (k.valueStart, k.valueEnd)
            <==> rule.captureGroup == 0 || g.None?
                 || g.value == (rule.find(t[cursor..]).start, rule.find(t[cursor..]).end)
  {
  }

  // ----- order -----

  /** Matches one after the other, from a position on. */
  ghost predicate InOrder(hits: seq<Hit>, from: nat, to: nat) {
    hits != [] ==> from <= hits[0].matchStart <= hits[0].matchEnd <= to && InOrder(hits[1..], hits[0].matchEnd, to)
  }

  lemma LaterStart(hits: seq<Hit>, earlier: nat, from: nat, to: nat)
    requires InOrder(hits, from, to) && earlier <= from
    ensures InOrder(hits, earlier, to)
  {
  }

  lemma {:induction false} RuleHitsInOrder(ruleId: string, takes: Takes, t: Text, cursor: nat)
    requires Valid(takes, t) && (cursor <= |t| ==> IsBoundary(t, cursor))
    ensures InOrder(RuleHits(ruleId, takes, t, cursor), cursor, |t|)
    decreases |t| - cursor
  {
    if cursor < |t| && takes(cursor).Some? {
      var k := takes(cursor).value;
      var next := if k.end <= cursor then CeilBoundary(t, cursor + 1) else k.end;
      var rest := RuleHits(ruleId, takes, t, next);
      RuleHitsInOrder(ruleId, takes, t, next);
      LaterStart(rest, cursor, next, |t|);
      if k.end > cursor && k.passes {
        var hit := CutHit(ruleId, t, k.start, k.end, k.valueStart, k.valueEnd);
        assert ([hit] + rest)[1..] == rest;
      } else {
        assert [] + rest == rest;
      }
    }
  }

  lemma {:induction false} StartsAfter(hits: seq<Hit>, from: nat, to: nat, j: nat)
    requires InOrder(hits, from, to) && j < |hits|
    ensures from <= hits[j].matchStart
    decreases j
  {
    if j > 0 {
      StartsAfter(hits[1..], hits[0].matchEnd, to, j - 1);
    }
  }

  lemma {:induction false} LaterAfterEarlier(hits: seq<Hit>, from: nat, to: nat, i: nat, j: nat)
    requires InOrder(hits, from, to) && i < j < |hits|
    ensures hits[i].matchEnd <= hits[j].matchStart
    decreases j
  {
    if i > 0 {
      LaterAfterEarlier(hits[1..], hits[0].matchEnd, to, i - 1, j - 1);
    } else {
      StartsAfter(hits[1..], hits[0].matchEnd, to, j - 1);
    }
  }

  /** Two matches of one rule never overlap, and are reported in text order. */
  lemma NoOverlap(rule: Rule, t: Text, i: nat, j: nat)
    requires Sound(rule) && i < j < |HitsOf(rule, t)|
    ensures HitsOf(rule, t)[i].matchEnd <= HitsOf(rule, t)[j].matchStart
  {
    TakesAreValid(rule, t);
    RuleHitsInOrder(rule.ruleId, TakesOf(rule, t), t, 0);
    LaterAfterEarlier(HitsOf(rule, t), 0, |t|, i, j);
  }

  // ----- which matches are taken -----

  /** The cursors at which the scan takes a match, reported or filtered out. */
  function Taken(takes: Takes, t: Text, cursor: nat): seq<nat>
    requires Valid(takes, t) && (cursor <= |t| ==> IsBoundary(t, cursor))
    decreases |t| - cursor
  {
    if cursor >= |t| || takes(cursor).None? then []
    else if takes(cursor).value.end <= cursor then Taken(takes, t, CeilBoundary(t, cursor + 1))
    else [cursor] + Taken(takes, t, takes(cursor).value.end)
  }

  /** The last cursor at or before `p` at which the engine is asked. */
  function LastLook(takes: Takes, t: Text, cursor: nat, p: nat): (c: nat)
    requires Valid(takes, t) && cursor <= p < |t| && IsBoundary(t, cursor)
    ensures cursor <= c <= p && IsBoundary(t, c)
    decreases |t| - cursor
  {
    if takes(cursor).None? then cursor
    else
      var next := if takes(cursor).value.end <= cursor then CeilBoundary(t, cursor + 1) else takes(cursor).value.end;
      if next <= p then LastLook(takes, t, next, p) else cursor
  }

  /** The match taken at cursor `c` reaches over `p`. */
  predicate Over(takes: Takes, c: nat, p: nat) {
    takes(c).Some? && takes(c).value.start <= p < takes(c).value.end
  }

  lemma {:induction false} TakenFrom(takes: Takes, t: Text, cursor: nat)
    requires Valid(takes, t) && (cursor <= |t| ==> IsBoundary(t, cursor))
    ensures forall c <- Taken(takes, t, cursor) :: cursor <= c < |t| && IsBoundary(t, c) && takes(c).Some?
    decreases |t| - cursor
  {
    if cursor < |t| && takes(cursor).Some? {
      var end := takes(cursor).value.end;
      TakenFrom(takes, t, if end <= cursor then CeilBoundary(t, cursor + 1) else end);
    }
  }

  /**
   * For any engine at all: a position lies inside a match the scan took if and only if the
   * answer at the last cursor before it reaches over it.
   */
  lemma {:induction false} TakenOverIff(takes: Takes, t: Text, cursor: nat, p: nat)
    requires Valid(takes, t) && cursor <= p < |t| && IsBoundary(t, cursor)
    ensures (exists c <- Taken(takes, t, cursor) :: Over(takes, c, p)) <==> Over(takes, LastLook(takes, t, cursor, p), p)
    decreases |t| - cursor
  {
    if takes(cursor).Some? {
      var end := takes(cursor).value.end;
      var next := if end <= cursor then CeilBoundary(t, cursor + 1) else end;
      TakenFrom(takes, t, next);
      if next <= p {
        TakenOverIff(takes, t, next, p);
        assert !Over(takes, cursor, p);
      } else {
        forall c <- Taken(takes, t, next)
          ensures !Over(takes, c, p)
        {
          assert next <= c <= takes(c).value.start;
        }
      }
      assert end > cursor ==> cursor in Taken(takes, t, cursor);
    }
  }

  /** The rule matches, not emptily, right at `p`. */
  predicate MatchesAt(takes: Takes, t: Text, p: nat) {
    p < |t| && IsBoundary(t, p) && takes(p).Some? && takes(p).value.start == p < takes(p).value.end
  }

  /** The engine finds leftmost matches: from an earlier position it answers with one that starts no later. */
  ghost predicate Leftmost(takes: Takes, t: Text) {
    forall c: nat, p: nat {:trigger takes(c), MatchesAt(takes, t, p)} | c <= p && IsBoundary(t, c) && MatchesAt(takes, t, p) ::
      takes(c).Some? && takes(c).value.start <= p
  }

  /** For such an engine every position where the rule matches lies inside a match the scan took. */
  lemma NothingSkipped(takes: Takes, t: Text, p: nat)
    requires Valid(takes, t) && Leftmost(takes, t) && MatchesAt(takes, t, p)
    ensures exists c <- Taken(takes, t, 0) :: Over(takes, c, p)
  {
    TakenOverIff(takes, t, 0, p);
    LookReachesMatch(takes, t, 0, p);
  }

  lemma {:induction false} LookReachesMatch(takes: Takes, t: Text, cursor: nat, p: nat)
    requires Valid(takes, t) && Leftmost(takes, t) && MatchesAt(takes, t, p) && cursor <= p && IsBoundary(t, cursor)
    ensures Over(takes, LastLook(takes, t, cursor, p), p)
    decreases |t| - cursor
  {
    var end := takes(cursor).value.end;
    var next := if end <= cursor then CeilBoundary(t, cursor + 1) else end;
    if next <= p {
      LookReachesMatch(takes, t, next, p);
    }
  }

  /** Of the matches taken, those that pass the filters, as hits. */
  function Reported(ruleId: string, takes: Takes, t: Text, cursors: seq<nat>): seq<Hit>
    requires Valid(takes, t)
    requires forall c <- cursors :: c < |t| && IsBoundary(t, c) && takes(c).Some?
  {
    if cursors == [] then []
    else
      assert cursors[0] in cursors;
      assert forall c <- cursors[1..] :: c in cursors;
      var k := takes(cursors[0]).value;
      (if k.passes then [CutHit(ruleId, t, k.start, k.end, k.valueStart, k.valueEnd)] else [])
      + Reported(ruleId, takes, t, cursors[1..])
  }

  /** Of the matches taken, exactly those that pass the filters are reported, in order. */
  lemma {:induction false} HitsArePassedTakes(ruleId: string, takes: Takes, t: Text, cursor: nat)
    requires Valid(takes, t) && (cursor <= |t| ==> IsBoundary(t, cursor))
    ensures forall c <- Taken(takes, t, cursor) :: c < |t| && IsBoundary(t, c) && takes(c).Some?
    ensures RuleHits(ruleId, takes, t, cursor) == Reported(ruleId, takes, t, Taken(takes, t, cursor))
    decreases |t| - cursor
  {
    if cursor < |t| && takes(cursor).Some? {
      var end := takes(cursor).value.end;
      if end <= cursor {
        HitsArePassedTakes(ruleId, takes, t, CeilBoundary(t, cursor + 1));
      } else {
        HitsArePassedTakes(ruleId, takes, t, end);
        assert Taken(takes, t, cursor)[1..] == Taken(takes, t, end);
      }
    }
  }

  // ----- empty matches and empty values -----

  /** The two spans of a hit: the whole match, and the value it reports. */
  datatype Part = TheMatch | TheValue

  predicate IsEmptyHit(part: Part, h: Hit) {
    match part
    case TheMatch => h.matchStart == h.matchEnd
    case TheValue => h.matchedValue == ""
  }

  predicate IsEmptyTake(part: Part, k: Take) {
    match part
    case TheMatch => k.start == k.end
    case TheValue => k.valueStart == k.valueEnd
  }

  /** A take with an empty part that passes the filters. */
  predicate TakesEmpty(part: Part, takes: Takes, c: nat) {
    takes(c).Some? && takes(c).value.passes && IsEmptyTake(part, takes(c).value)
  }

  ghost predicate AnyEmpty(part: Part, hits: seq<Hit>) {
    exists h <- hits :: IsEmptyHit(part, h)
  }

  ghost predicate AnyTakesEmpty(part: Part, takes: Takes, cursors: seq<nat>) {
    exists c <- cursors :: TakesEmpty(part, takes, c)
  }

  lemma AnyEmptyConcat(part: Part, a: seq<Hit>, b: seq<Hit>)
    ensures AnyEmpty(part, a + b) <==> AnyEmpty(part, a) || AnyEmpty(part, b)
  {
    assert forall h :: h in a + b <==> h in a || h in b;
  }

  lemma AnyTakesEmptyCons(part: Part, takes: Takes, c: nat, rest: seq<nat>)
    ensures AnyTakesEmpty(part, takes, [c] + rest) <==> TakesEmpty(part, takes, c) || AnyTakesEmpty(part, takes, rest)
  {
    assert forall x :: x in [c] + rest <==> x == c || x in rest;
  }

  lemma HitOfTake(part: Part, ruleId: string, t: Text, k: Take)
    requires ValidSpan(t, k.valueStart, k.valueEnd)
    ensures var first := if k.passes then [CutHit(ruleId, t, k.start, k.end, k.valueStart, k.valueEnd)] else [];
            AnyEmpty(part, first) <==> k.passes && IsEmptyTake(part, k)
  {
    var hit := CutHit(ruleId, t, k.start, k.end, k.valueStart, k.valueEnd);
    assert |hit.matchedValue| == k.valueEnd - k.valueStart;
    assert hit in [hit];
  }

  /**
   * Only an empty match at the cursor is skipped. Exactly when an empty match is reported, and
   * exactly when an empty value is: some cursor at which the scan takes a match carries one
   * whose match, or whose value, is empty and that passes the filters.
   */
  lemma {:induction false} EmptyReportedIff(part: Part, ruleId: string, takes: Takes, t: Text, cursor: nat)
    requires Valid(takes, t) && (cursor <= |t| ==> IsBoundary(t, cursor))
    ensures AnyEmpty(part, RuleHits(ruleId, takes, t, cursor)) <==> AnyTakesEmpty(part, takes, Taken(takes, t, cursor))
    decreases |t| - cursor
  {
    if cursor < |t| && takes(cursor).Some? {
      var k := takes(cursor).value;
      if k.end <= cursor {
        EmptyReportedIff(part, ruleId, takes, t, CeilBoundary(t, cursor + 1));
      } else {
        EmptyReportedIff(part, ruleId, takes, t, k.end);
        HitOfTake(part, ruleId, t, k);
        var first := if k.passes then [CutHit(ruleId, t, k.start, k.end, k.valueStart, k.valueEnd)] else [];
        AnyEmptyConcat(part, first, RuleHits(ruleId, takes, t, k.end));
        AnyTakesEmptyCons(part, takes, cursor, Taken(takes, t, k.end));
      }
    }
  }

  /** From `cursor` the expression finds a match that ends further on, passes, and has an empty part. */
  predicate EmptyPast(part: Part, rule: Rule, t: Text, cursor: nat) {
    cursor < |t| && TakesEmpty(part, TakesOf(rule, t), cursor) && TakeAt(rule, t, cursor).value.end > cursor
  }

  /** The filters look at nothing before the cursor. */
  ghost predicate FiltersLookForward(rule: Rule) {
    forall t: Text, c: nat, i: nat, j: nat | c <= |t| :: rule.passes(t, c + i, c + j) == rule.passes(t[c..], i, j)
  }

  /** What a text reports from a cursor on, the rest of the text reports when scanned alone. */
  lemma EmptyPastIsEmptyFirst(part: Part, rule: Rule, t: Text, c: nat)
    requires FiltersLookForward(rule) && EmptyPast(part, rule, t, c)
    ensures EmptyPast(part, rule, t[c..], 0)
  {
    var rest := t[c..];
    assert rest[0..] == rest;
    var m, g := rule.find(rest), rule.group(rest);
    var (i, j) := if rule.captureGroup > 0 && g.Some? then g.value else (m.start, m.end);
    assert rule.passes(t, c + i, c + j) == rule.passes(rest, i, j);
  }

  ghost predicate ReportsEmpty(part: Part, rule: Rule, t: Text)
    requires Sound(rule)
  {
    AnyEmpty(part, HitsOf(rule, t))
  }

  /** Whatever the filters look at, a first match with an empty part that ends past 0 is reported. */
  lemma FirstLookReportsEmpty(part: Part, rule: Rule, t: Text)
    requires Sound(rule) && EmptyPast(part, rule, t, 0)
    ensures ReportsEmpty(part, rule, t)
  {
    var takes := TakesOf(rule, t);
    TakesAreValid(rule, t);
    EmptyReportedIff(part, rule.ruleId, takes, t, 0);
    assert 0 in Taken(takes, t, 0) && TakesEmpty(part, takes, 0);
  }

  lemma ReportComesFrom(part: Part, rule: Rule, t: Text) returns (c: nat)
    requires Sound(rule) && ReportsEmpty(part, rule, t)
    ensures EmptyPast(part, rule, t, c)
  {
    var takes := TakesOf(rule, t);
    TakesAreValid(rule, t);
    EmptyReportedIff(part, rule.ruleId, takes, t, 0);
    TakenFrom(takes, t, 0);
    c :| c in Taken(takes, t, 0) && TakesEmpty(part, takes, c);
    TakenPastCursor(takes, t, 0, c);
  }

  /**
   * Whether a rule ever reports an empty match, or an empty value, can be read off its
   * expression: it does on some text if and only if on some non-empty text its first match ends
   * past position 0, passes, and is empty, or has an empty value.
   */
  lemma RuleReportsEmptyIff(part: Part, rule: Rule)
    requires Sound(rule) && FiltersLookForward(rule)
    ensures (exists t :: ReportsEmpty(part, rule, t)) <==> exists t :: EmptyPast(part, rule, t, 0)
  {
    if t :| ReportsEmpty(part, rule, t) {
      var c := ReportComesFrom(part, rule, t);
      EmptyPastIsEmptyFirst(part, rule, t, c);
    }
    if t :| EmptyPast(part, rule, t, 0) {
      FirstLookReportsEmpty(part, rule, t);
    }
  }

  lemma {:induction false} TakenPastCursor(takes: Takes, t: Text, cursor: nat, c: nat)
    requires Valid(takes, t) && (cursor <= |t| ==> IsBoundary(t, cursor)) && c in Taken(takes, t, cursor)
    ensures takes(c).Some? && c < takes(c).value.end
    decreases |t| - cursor
  {
    var end := takes(cursor).value.end;
    if end <= cursor {
      TakenPastCursor(takes, t, CeilBoundary(t, cursor + 1), c);
    } else if c != cursor {
      TakenPastCursor(takes, t, end, c);
    }
  }

  /** The end of the text, as a rule without filters. */
  function EndOfText(): Rule {
    Rule("end", 0, t => Found(|t|, |t|), t => None, (t, i, j) => true)
  }

  /** Such a rule and text: the empty match at the end is reported, as a secret with no characters. */
  lemma EmptyMatchExample(part: Part)
    ensures Sound(EndOfText()) && FiltersLookForward(EndOfText()) && ReportsEmpty(part, EndOfText(), "a")
  {
    assert "a"[0..] == "a";
    FirstLookReportsEmpty(part, EndOfText(), "a");
  }

  /** A sign with nothing after it: the group after the sign takes part and is empty. */
  function NothingAfterSign(): Rule {
    Rule("sign", 1, t => if t == "=" then Found(0, 1) else NoMatch, t => if t == "=" then Some((1, 1)) else None,
         (t, i, j) => true)
  }

  /** An end of text whose group is the character before it, as a look-behind reports it. */
  function EndAfterSign(): Rule {
    Rule("end", 1, t => if t == "=" then Found(1, 1) else NoMatch, t => if t == "=" then Some((0, 1)) else None,
         (t, i, j) => true)
  }

  lemma NeverReportsEmpty(part: Part, rule: Rule)
    requires Sound(rule) && FiltersLookForward(rule) && forall t :: !EmptyPast(part, rule, t, 0)
    ensures forall t :: !ReportsEmpty(part, rule, t)
  {
    RuleReportsEmptyIff(part, rule);
  }

  /** The two parts differ: an empty value of a match that is not empty ... */
  lemma EmptyValueExample()
    ensures Sound(NothingAfterSign())
    ensures ReportsEmpty(TheValue, NothingAfterSign(), "=")
    ensures forall t :: !ReportsEmpty(TheMatch, NothingAfterSign(), t)
  {
    var rule := NothingAfterSign();
    assert "="[0..] == "=";
    FirstLookReportsEmpty(TheValue, rule, "=");
    assert forall t: Text :: t[0..] == t;
    NeverReportsEmpty(TheMatch, rule);
  }

  /** ... and an empty match whose value is not empty. */
  lemma FullValueExample()
    ensures Sound(EndAfterSign())
    ensures ReportsEmpty(TheMatch, EndAfterSign(), "=")
    ensures forall t :: !ReportsEmpty(TheValue, EndAfterSign(), t)
  {
    var rule := EndAfterSign();
    assert "="[0..] == "=";
    FirstLookReportsEmpty(TheMatch, rule, "=");
    assert forall t: Text :: t[0..] == t;
    NeverReportsEmpty(TheValue, rule);
  }

  // ----- redaction of a hit -----

  function Secrets(hits: seq<Hit>): (secrets: seq<Redact.Secret>)
    ensures |secrets| == |hits|
  {
    seq(|hits|, i requires 0 <= i < |hits| => Redact.Secret(hits[i].matchedValue, hits[i].ruleId))
  }

  /** `RawHit::redacted_snippet`: the hit's own span first, then every sibling. */
  function RedactedSnippet(h: Hit, siblings: seq<Hit>): Text {
    Redact.RedactSnippetWith(h.snippet, Redact.Secret(h.matchedValue, h.ruleId), h.spanStart, h.spanEnd, Secrets(siblings))
  }

  /** Values without brackets that no rule's marker contains: no hit's value is left in any hit's snippet. */
  lemma NoSiblingLeaks(siblings: seq<Hit>, h: Hit, k: Hit)
    requires h in siblings && k in siblings && k.matchedValue != ""
    requires forall x <- siblings :: Redact.BracketFree(x.matchedValue)
    requires forall x <- siblings, y <- siblings | x.matchedValue != "" ::
               !Contains(Redact.RuleMarker(y.ruleId), x.matchedValue)
    ensures !Contains(RedactedSnippet(h, siblings), k.matchedValue)
  {
    var primary, others := Redact.Secret(h.matchedValue, h.ruleId), Secrets(siblings);
    var s := Redact.Secret(k.matchedValue, k.ruleId);
    var i :| 0 <= i < |siblings| && siblings[i] == k;
    assert others[i] == s;
    Redact.AllSecretsAbsent(h.snippet, primary, h.spanStart, h.spanEnd, others, s);
  }
}
