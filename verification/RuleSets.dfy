/** What scanning with a list of rules reports (src/rules.rs), rule by rule. */
module RuleSets {
  import opened RuleScan
  import opened Text
  import opened Wrappers

  ghost predicate AllSound(rules: seq<Rule>) {
    forall r <- rules :: Sound(r)
  }

  lemma OneMoreRule(rules: seq<Rule>, r: Rule, t: Text)
    requires AllSound(rules) && Sound(r)
    ensures AllHits(rules + [r], t) == AllHits(rules, t) + HitsOf(r, t)
  {
    assert (rules + [r])[..|rules|] == rules;
  }

  lemma OnlyRule(r: Rule, t: Text)
    requires Sound(r)
    ensures AllHits([r], t) == HitsOf(r, t)
  {
    OneMoreRule([], r, t);
    assert [] + [r] == [r] && [] + HitsOf(r, t) == HitsOf(r, t);
  }

  lemma Assoc<T>(a: seq<T>, b: seq<T>, c: seq<T>)
    ensures a + (b + c) == (a + b) + c
  {
  }

  lemma SoundSplit(rules: seq<Rule>)
    requires AllSound(rules) && rules != []
    ensures AllSound(rules[..|rules| - 1]) && Sound(rules[|rules| - 1])
  {
  }

  lemma SoundJoin(a: seq<Rule>, b: seq<Rule>)
    requires AllSound(a) && AllSound(b)
    ensures AllSound(a + b)
  {
  }

  lemma HitsConcatStep(a: seq<Rule>, init: seq<Rule>, r: Rule, t: Text)
    requires AllSound(a) && AllSound(init) && AllSound(a + init) && Sound(r)
    requires AllHits(a + init, t) == AllHits(a, t) + AllHits(init, t)
    ensures AllHits(a + (init + [r]), t) == AllHits(a, t) + AllHits(init + [r], t)
  {
    Assoc(a, init, [r]);
    OneMoreRule(init, r, t);
    OneMoreRule(a + init, r, t);
    Assoc(AllHits(a, t), AllHits(init, t), HitsOf(r, t));
  }

  /** Two lists of rules one after the other report what each reports, the first list's hits first. */
  lemma {:induction false} HitsConcat(a: seq<Rule>, b: seq<Rule>, t: Text)
    requires AllSound(a) && AllSound(b)
    ensures AllHits(a + b, t) == AllHits(a, t) + AllHits(b, t)
  {
    if b == [] {
      assert a + b == a;
    } else {
      var init, r := b[..|b| - 1], b[|b| - 1];
      SoundSplit(b);
      SoundJoin(a, init);
      HitsConcat(a, init, t);
      HitsConcatStep(a, init, r, t);
      assert b == init + [r];
    }
  }

  /** One rule alone reports its takes that pass, in text order. */
  lemma HitsOfOne(rule: Rule, t: Text)
    requires Sound(rule)
    ensures Valid(TakesOf(rule, t), t)
    ensures var cursors := Taken(TakesOf(rule, t), t, 0);
            && (forall c <- cursors :: c < |t| && IsBoundary(t, c) && TakesOf(rule, t)(c).Some?)
            && AllHits([rule], t) == Reported(rule.ruleId, TakesOf(rule, t), t, cursors)
  {
    TakesAreValid(rule, t);
    HitsArePassedTakes(rule.ruleId, TakesOf(rule, t), t, 0);
    OnlyRule(rule, t);
  }

  /** How often a hit is reported by the rules of a list, each on its own. */
  ghost function Count(rules: seq<Rule>, t: Text, h: Hit): nat
    requires AllSound(rules)
  {
    if rules == [] then 0
    else Count(rules[..|rules| - 1], t, h) + multiset(HitsOf(rules[|rules| - 1], t))[h]
  }

  ghost predicate SomeReports(rules: seq<Rule>, t: Text, h: Hit)
    requires AllSound(rules)
  {
    exists r <- rules :: h in HitsOf(r, t)
  }

  lemma SomeReportsAppend(rules: seq<Rule>, r: Rule, t: Text, h: Hit)
    requires AllSound(rules) && Sound(r)
    ensures SomeReports(rules + [r], t, h) <==> SomeReports(rules, t, h) || h in HitsOf(r, t)
  {
    assert forall x :: x in rules + [r] <==> x in rules || x == r;
  }

  /** Every rule is scanned with: a hit is reported as often as the rules report it, no rule left out or stopped by another. */
  lemma {:induction false} EveryRuleReports(rules: seq<Rule>, t: Text, h: Hit)
    requires AllSound(rules)
    ensures multiset(AllHits(rules, t))[h] == Count(rules, t, h)
    ensures h in AllHits(rules, t) <==> SomeReports(rules, t, h)
    decreases |rules|
  {
    if rules != [] {
      var init, r := rules[..|rules| - 1], rules[|rules| - 1];
      assert rules == init + [r];
      EveryRuleReports(init, t, h);
      OneMoreRule(init, r, t);
      SomeReportsAppend(init, r, t, h);
    }
  }

  // ----- the hits of one rule among all -----

  function WithId(hits: seq<Hit>, id: string): seq<Hit> {
    if hits == [] then []
    else WithId(hits[..|hits| - 1], id) + if hits[|hits| - 1].ruleId == id then [hits[|hits| - 1]] else []
  }

  lemma {:induction false} WithIdConcat(a: seq<Hit>, b: seq<Hit>, id: string)
    ensures WithId(a + b, id) == WithId(a, id) + WithId(b, id)
  {
    if b == [] {
      assert a + b == a;
    } else {
      WithIdConcat(a, b[..|b| - 1], id);
      assert (a + b)[..|a + b| - 1] == a + b[..|b| - 1];
    }
  }

  lemma {:induction false} WithIdAll(hits: seq<Hit>, own: string, id: string)
    requires forall h <- hits :: h.ruleId == own
    ensures WithId(hits, id) == if own == id then hits else []
  {
    if hits != [] {
      var n := |hits| - 1;
      WithIdAll(hits[..n], own, id);
      assert hits[n] in hits && hits == hits[..n] + [hits[n]];
    }
  }

  lemma OwnId(rule: Rule, t: Text)
    requires Sound(rule)
    ensures forall h <- HitsOf(rule, t) :: h.ruleId == rule.ruleId
  {
    forall h <- HitsOf(rule, t)
      ensures h.ruleId == rule.ruleId
    {
      var i :| 0 <= i < |HitsOf(rule, t)| && HitsOf(rule, t)[i] == h;
      var _ := HitsAreWellCut(rule, t, i);
    }
  }

  lemma {:induction false} NoSuchRule(rules: seq<Rule>, t: Text, id: string)
    requires AllSound(rules) && forall r <- rules :: r.ruleId != id
    ensures WithId(AllHits(rules, t), id) == []
  {
    if rules != [] {
      var n := |rules| - 1;
      assert rules[n] in rules;
      NoSuchRule(rules[..n], t, id);
      OwnId(rules[n], t);
      WithIdAll(HitsOf(rules[n], t), rules[n].ruleId, id);
      WithIdConcat(AllHits(rules[..n], t), HitsOf(rules[n], t), id);
    }
  }

  /** With distinct rule ids, the hits that carry a rule's id are exactly that rule's, in text order. */
  lemma HitsByRule(rules: seq<Rule>, t: Text, i: nat)
    requires AllSound(rules) && i < |rules|
    requires forall a, b | 0 <= a < b < |rules| :: rules[a].ruleId != rules[b].ruleId
    ensures WithId(AllHits(rules, t), rules[i].ruleId) == HitsOf(rules[i], t)
  {
    var before, rule, after := rules[..i], rules[i], rules[i + 1..];
    SplitRules(rules, i);
    HitsConcat(before + [rule], after, t);
    HitsConcat(before, [rule], t);
    OnlyRule(rule, t);
    NoSuchRule(before, t, rule.ruleId);
    NoSuchRule(after, t, rule.ruleId);
    OwnId(rule, t);
    WithIdAll(HitsOf(rule, t), rule.ruleId, rule.ruleId);
    WithIdConcat(AllHits(before, t), HitsOf(rule, t), rule.ruleId);
    WithIdConcat(AllHits(before, t) + HitsOf(rule, t), AllHits(after, t), rule.ruleId);
  }

  lemma SplitRules(rules: seq<Rule>, i: nat)
    requires i < |rules|
    ensures rules == rules[..i] + [rules[i]] + rules[i + 1..]
  {
  }

  // ----- what one hit says -----

  /**
   * A hit tells where the engine matched and what it captured: at some cursor the scan took, the
   * match's span, the value of the group if the rule names one that took part and of the match
   * otherwise, and the filters passed.
   */
  ghost predicate Tells(rule: Rule, t: Text, c: nat, h: Hit) {
    && c < |t| && rule.find(t[c..]).Found?
    && var m, g := rule.find(t[c..]), rule.group(t[c..]);
       var (i, j) := if rule.captureGroup > 0 && g.Some? then g.value else (m.start, m.end);
       && m.start <= m.end && i <= j <= |t[c..]|
       && h.matchStart == c + m.start && h.matchEnd == c + m.end
       && h.matchedValue == t[c + i..c + j]
       && rule.passes(t, c + i, c + j)
       && SnippetAround(h, t, c + i, c + j)
  }

  /** The snippet is the value with 50 bytes on each side, or up to the end of the text, widened to whole characters only. */
  ghost predicate SnippetAround(h: Hit, t: Text, vs: nat, ve: nat) {
    exists s: nat, e: nat :: SnippetIs(h, t, vs, ve, s, e)
  }

  ghost predicate SnippetIs(h: Hit, t: Text, vs: nat, ve: nat, s: nat, e: nat) {
    && s <= vs <= ve <= e <= |t| && h.snippet == t[s..e] && h.spanStart == vs - s && h.spanEnd == ve - s
    && IsBoundary(t, s) && IsBoundary(t, e)
    && (s == 0 || s + 50 <= vs) && (forall k | s < k && k + 50 <= vs :: !IsBoundary(t, k))
    && (e == |t| || ve + 50 <= e) && (forall k | ve + 50 <= k < e :: !IsBoundary(t, k))
  }

  lemma CutHitSnippet(ruleId: string, t: Text, ms: nat, me: nat, vs: nat, ve: nat)
    requires ValidSpan(t, vs, ve)
    ensures SnippetAround(CutHit(ruleId, t, ms, me, vs, ve), t, vs, ve)
  {
    var s := FloorBoundary(t, if vs < SNIPPET_RADIUS then 0 else vs - SNIPPET_RADIUS);
    var e := CeilBoundary(t, if ve + SNIPPET_RADIUS <= |t| then ve + SNIPPET_RADIUS else |t|);
    assert SnippetIs(CutHit(ruleId, t, ms, me, vs, ve), t, vs, ve, s, e);
  }

  lemma HitTells(rule: Rule, t: Text, i: nat) returns (c: nat)
    requires Sound(rule) && i < |HitsOf(rule, t)|
    ensures Tells(rule, t, c, HitsOf(rule, t)[i])
  {
    TakesAreValid(rule, t);
    c := HitOrigin(rule.ruleId, TakesOf(rule, t), t, 0, i);
    var k := TakesOf(rule, t)(c).value;
    CutHitSnippet(rule.ruleId, t, k.start, k.end, k.valueStart, k.valueEnd);
  }
}
