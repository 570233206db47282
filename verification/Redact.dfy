/** Masking secrets in snippets (src/redact.rs). */
module Redact {
  import opened Wrappers
  import opened Text

  /** The marker that names the rule. */
  function RuleMarker(ruleId: Text): Text {
    "[REDACTED:" + ruleId + "]"
  }

  const GENERIC_MARKER: Text := "[REDACTED]"

  /** The marker that replaces `value`: it falls back until it no longer contains the value. */
  function MarkerFor(ruleId: Text, value: Text): (m: Text)
    ensures value != "" ==> !Contains(m, value)
    ensures value == "" || !Contains("[REDACTED:" + ruleId + "]", value) ==> m == "[REDACTED:" + ruleId + "]"
    ensures m != "[REDACTED:" + ruleId + "]" && !Contains("[REDACTED]", value) ==> m == "[REDACTED]"
  {
    if value == "" || !Contains(RuleMarker(ruleId), value) then RuleMarker(ruleId)
    else if !Contains(GENERIC_MARKER, value) then GENERIC_MARKER
    else ""
  }

  function MaskAll(text: Text, value: Text, ruleId: Text): Text {
    if value == "" then text else Replace(text, value, MarkerFor(ruleId, value))
  }

  /** A usable span, widened to whole characters. */
  function ClampSpan(snippet: Text, start: nat, end: nat): (r: Option<(nat, nat)>)
    ensures r.Some? ==>
              && r.value.0 <= start && end <= r.value.1 <= |snippet|
              && r.value.0 < r.value.1
              && IsBoundary(snippet, r.value.0) && IsBoundary(snippet, r.value.1)
    ensures start < end <= |snippet| && IsBoundary(snippet, start) && IsBoundary(snippet, end) ==> r == Some((start, end))
    ensures r.None? <==> start > end || end > |snippet| || (start == end && IsBoundary(snippet, start))
    ensures r.Some? ==> forall k | r.value.0 < k <= start || end <= k < r.value.1 :: !IsBoundary(snippet, k)
  {
    if start > end || end > |snippet| then None
    else
      var s, e := FloorBoundary(snippet, start), CeilBoundary(snippet, end);
      if s >= e then None else Some((s, e))
  }

  function Splice(snippet: Text, s: nat, e: nat, replacement: Text): Text
    requires s <= e <= |snippet|
  {
    snippet[..s] + replacement + snippet[e..]
  }

  /** A secret value and the rule that found it. */
  datatype Secret = Secret(value: Text, ruleId: Text) {
    function Marker(): Text {
      MarkerFor(ruleId, value)
    }
  }

  /** The result of sweeping the secrets one after the other, each over what the previous left. */
  function Sweep(text: Text, secrets: seq<Secret>): Text {
    if secrets == [] then text
    else
      var s := secrets[|secrets| - 1];
      MaskAll(Sweep(text, secrets[..|secrets| - 1]), s.value, s.ruleId)
  }

  /** The snippet with the primary span replaced, before any sweep. */
  function MaskSpan(snippet: Text, primary: Secret, start: nat, end: nat): Text {
    match ClampSpan(snippet, start, end)
    case Some(r) => Splice(snippet, r.0, r.1, primary.Marker())
    case None => snippet
  }

  function RedactSnippet(snippet: Text, primary: Secret, start: nat, end: nat): Text {
    Sweep(MaskSpan(snippet, primary, start, end), [primary])
  }

  function WithoutPrimary(primary: Secret, others: seq<Secret>): seq<Secret> {
    if others == [] then []
    else
      var o := others[|others| - 1];
      WithoutPrimary(primary, others[..|others| - 1]) + if o.value == primary.value then [] else [o]
  }

  function RedactSnippetWith(snippet: Text, primary: Secret, start: nat, end: nat, others: seq<Secret>): Text {
    Sweep(Sweep(MaskSpan(snippet, primary, start, end), WithoutPrimary(primary, others)), [primary] + others)
  }

  lemma SweepStep(text: Text, secrets: seq<Secret>, s: Secret)
    ensures Sweep(text, secrets + [s]) == MaskAll(Sweep(text, secrets), s.value, s.ruleId)
  {
    assert (secrets + [s])[..|secrets|] == secrets;
  }

  // ----- the loops -----

  method EnforceAbsent(text: Text, secrets: seq<Secret>) returns (r: Text)
    ensures r == Sweep(text, secrets)
  {
    r := text;
    for i := 0 to |secrets|
      invariant r == Sweep(text, secrets[..i])
    {
      assert secrets[..i + 1][..i] == secrets[..i];
      var s := secrets[i];
      if s.value == "" || !Contains(r, s.value) {
        if s.value != "" {
          ReplaceAbsent(r, s.value, s.Marker());
        }
        continue;
      }
      r := MaskAll(r, s.value, s.ruleId);
    }
    assert secrets[..|secrets|] == secrets;
  }

  method RedactWith(snippet: Text, primary: Secret, start: nat, end: nat, others: seq<Secret>) returns (r: Text)
    ensures r == RedactSnippetWith(snippet, primary, start, end, others)
  {
    var text := snippet;
    var range := ClampSpan(snippet, start, end);
    if range.Some? {
      text := snippet[..range.value.0] + primary.Marker() + snippet[range.value.1..];
    }
    ghost var masked := text;
    for i := 0 to |others|
      invariant text == Sweep(masked, WithoutPrimary(primary, others[..i]))
    {
      assert others[..i + 1][..i] == others[..i];
      var o := others[i];
      ghost var kept := WithoutPrimary(primary, others[..i]);
      SweepStep(masked, kept, o);
      assert kept + [] == kept;
      if o.value == primary.value || o.value == "" {
        continue;
      }
      text := Replace(text, o.value, o.Marker());
    }
    assert others[..|others|] == others;
    r := EnforceAbsent(text, [primary] + others);
  }

  // ----- one secret: exactly when it stays absent -----

  predicate Compatible(a: Text, b: Text) {
    a <= b || b <= a
  }

  /** The end of `v` can be supplied by a marker that follows the beginning of `v`. */
  predicate RunsIntoMarker(v: Text, m: Text, k: nat) {
    0 < k < |v| && Compatible(v[k..], m)
  }

  /** The beginning of `v` can be supplied by the end of a marker. */
  predicate RunsOutOfMarker(v: Text, m: Text, k: nat) {
    0 < k < |v| && k <= |m| && m[|m| - k..] == v[..k]
  }

  /**
   * Replacing `v` by `m` can make `v` appear again: either the text before an occurrence,
   * which does not itself start an earlier occurrence, runs into the marker, or the end of
   * the marker runs into the text after it.
   */
  predicate CanReform(v: Text, m: Text) {
    || (exists k | 0 <= k < |v| :: RunsIntoMarker(v, m, k) && Find(v[..k] + v, v) == Some(k))
    || (exists k | 0 <= k < |v| :: RunsOutOfMarker(v, m, k))
  }

  /** An occurrence that starts before a replaced one and reaches into its marker. */
  lemma IntoMarker(t: Text, v: Text, m: Text, tail: Text, i: nat, p: nat)
    requires Find(t, v) == Some(i) && p < i < p + |v|
    requires OccursAt(t[..i] + (m + tail), v, p)
    ensures CanReform(v, m)
  {
    OccursAcross(t[..i], m + tail, v, p);
    assert RunsIntoMarker(v, m, i - p);
    assert t[..i][p..] == t[p..i];
    FirstInWindow(t, v, i, p);
  }

  lemma FirstInWindow(t: Text, v: Text, i: nat, p: nat)
    requires Find(t, v) == Some(i) && p < i < p + |v| && t[p..i] == v[..i - p]
    ensures Find(v[..i - p] + v, v) == Some(i - p)
  {
    var k := i - p;
    var w := t[p..p + (k + |v|)];
    assert w[..k] == t[p..i] && w[k..] == t[i..i + |v|] == v;
    assert w == v[..k] + v;
    assert w[k..k + |v|] == v;
    forall j | 0 <= j < k
      ensures !OccursAt(w, v, j)
    {
      OccursInWindow(t, v, p, k + |v|, j);
    }
    FindIs(w, v, k);
  }

  /** An occurrence that starts inside a marker and leaves it. */
  lemma OutOfMarker(v: Text, m: Text, tail: Text, p: nat)
    requires p < |m| < p + |v| && OccursAt(m + tail, v, p)
    ensures RunsOutOfMarker(v, m, |m| - p)
  {
    OccursAcross(m, tail, v, p);
  }

  lemma {:induction false} ReplaceRemoves(t: Text, v: Text, m: Text)
    requires v != "" && !Contains(m, v) && !CanReform(v, m)
    ensures !Contains(Replace(t, v, m), v)
    decreases |t|
  {
    if Find(t, v).Some? {
      var i := Find(t, v).value;
      var a, tail := t[..i], Replace(t[i + |v|..], v, m);
      ReplaceRemoves(t[i + |v|..], v, m);
      forall p | 0 <= p <= i
        ensures !OccursAt(a, v, p)
      {
        assert t == t[..i] + t[i..];
        if p + |v| <= i {
          OccursInPrefix(t[..i], t[i..], v, p);
        }
      }
      forall p | 0 <= p < |a| < p + |v|
        ensures !OccursAt(a + (m + tail), v, p)
      {
        if OccursAt(a + (m + tail), v, p) {
          IntoMarker(t, v, m, tail, i, p);
        }
      }
      forall p | 0 <= p < |m| < p + |v|
        ensures !OccursAt(m + tail, v, p)
      {
        if OccursAt(m + tail, v, p) {
          OutOfMarker(v, m, tail, p);
        }
      }
      ThreePieces(a, m, tail, v);
      assert a + m + tail == a + (m + tail);
    }
  }

  /** Text in which the end of a marker supplies the beginning of the value. */
  lemma ReformsAfterMarker(v: Text, m: Text, k: nat)
    requires RunsOutOfMarker(v, m, k)
    ensures Contains(Replace(v + v[k..], v, m), v)
  {
    ReplaceAtStart(v, v[k..], m);
    TooShort(v[k..], v, m);
    MarkerBegins(v, m, k);
  }

  lemma MarkerBegins(v: Text, m: Text, k: nat)
    requires RunsOutOfMarker(v, m, k)
    ensures Contains(m + v[k..], v)
  {
    var r := m + v[k..];
    assert r[|m| - k..|m| - k + |v|] == m[|m| - k..] + v[k..] == v;
    assert OccursAt(r, v, |m| - k);
  }

  /** Text in which a marker supplies the end of the value. */
  lemma ReformsBeforeMarker(v: Text, m: Text, k: nat, rest: Text)
    requires RunsIntoMarker(v, m, k) && Find(v[..k] + v, v) == Some(k)
    requires rest == if |v| - k > |m| then v[k + |m|..] else ""
    ensures Contains(Replace(v[..k] + v + rest, v, m), v)
  {
    var w := v[..k] + v;
    assert w[k..k + |v|] == v;
    forall j | 0 <= j <= k
      ensures OccursAt(w + rest, v, j) <==> OccursAt(w, v, j)
    {
      OccursInPrefix(w, rest, v, j);
    }
    FindIs(w + rest, v, k);
    ReplaceFirst(v[..k], v, rest, m);
    TooShort(rest, v, m);
    MarkerCompletes(v, m, k, rest);
  }

  lemma MarkerCompletes(v: Text, m: Text, k: nat, rest: Text)
    requires RunsIntoMarker(v, m, k)
    requires rest == if |v| - k > |m| then v[k + |m|..] else ""
    ensures Contains(v[..k] + m + rest, v)
  {
    var r := v[..k] + m + rest;
    if |v| - k > |m| {
      assert m == v[k..][..|m|];
      assert r == v;
      assert v[0..|v|] == v;
    } else {
      assert v[k..] == m[..|v| - k];
      assert r[0..|v|] == v[..k] + m[..|v| - k] == v;
    }
    assert OccursAt(r, v, 0);
  }

  /** When the value can re-form, there is a text in which it does. */
  lemma ReformingText(v: Text, m: Text) returns (t: Text)
    requires v != "" && CanReform(v, m)
    ensures Contains(Replace(t, v, m), v)
  {
    if k :| 0 <= k < |v| && RunsOutOfMarker(v, m, k) {
      t := v + v[k..];
      ReformsAfterMarker(v, m, k);
    } else {
      var k :| 0 <= k < |v| && RunsIntoMarker(v, m, k) && Find(v[..k] + v, v) == Some(k);
      var rest := if |v| - k > |m| then v[k + |m|..] else "";
      t := v[..k] + v + rest;
      ReformsBeforeMarker(v, m, k, rest);
    }
  }

  /**
   * The contract of the single-secret redaction, with its exact condition: no snippet and no
   * span make the value survive if and only if the value cannot re-form around its marker.
   */
  lemma SingleSecretAbsent(secret: Secret)
    requires secret.value != ""
    ensures (forall snippet, start, end :: !Contains(RedactSnippet(snippet, secret, start, end), secret.value))
            <==> !CanReform(secret.value, secret.Marker())
  {
    var v, m := secret.value, secret.Marker();
    if CanReform(v, m) {
      var t := ReformingText(v, m);
      assert ClampSpan(t, 1, 0).None?;
      assert Sweep(t, []) == t;
      assert RedactSnippet(t, secret, 1, 0) == Replace(t, v, m);
    } else {
      forall snippet, start, end
        ensures !Contains(RedactSnippet(snippet, secret, start, end), v)
      {
        var masked := MaskSpan(snippet, secret, start, end);
        assert Sweep(masked, []) == masked;
        ReplaceRemoves(masked, v, m);
      }
    }
  }

  predicate BracketFree(v: Text) {
    '[' !in v && ']' !in v
  }

  lemma MarkerEnds(secret: Secret)
    ensures secret.Marker() != "" ==>
              secret.Marker()[0] == '[' && secret.Marker()[|secret.Marker()| - 1] == ']'
  {
  }

  /** The word inside the generic marker has no two equal neighbours. */
  lemma RedactedWordHasNoDoubleLetter(v: Text, i: nat)
    requires |v| >= 2 && OccursAt(GENERIC_MARKER, v, i)
    ensures v[0] != v[1]
  {
    assert v[0] == GENERIC_MARKER[i] && v[1] == GENERIC_MARKER[i + 1];
  }

  /**
   * For a value without brackets the exception is one family: two or more consecutive
   * letters of the marker word itself, for which no marker is left and deletion can join
   * the neighbouring text into the value again.
   */
  lemma BracketFreeAbsent(secret: Secret)
    requires secret.value != "" && BracketFree(secret.value)
    ensures CanReform(secret.value, secret.Marker()) <==>
              |secret.value| >= 2 && Contains(GENERIC_MARKER, secret.value) && secret.Marker() == ""
  {
    var v, m := secret.value, secret.Marker();
    MarkerEnds(secret);
    if m == "" && |v| >= 2 {
      var i :| 0 <= i <= |GENERIC_MARKER| && OccursAt(GENERIC_MARKER, v, i);
      RedactedWordHasNoDoubleLetter(v, i);
      var w := v[..1] + v;
      assert w[0..|v|][1] == v[0];
      assert w[1..1 + |v|] == v;
      FindIs(w, v, 1);
      assert RunsIntoMarker(v, m, 1);
    }
    if m != "" {
      forall k | 0 <= k < |v|
        ensures !RunsIntoMarker(v, m, k) && !RunsOutOfMarker(v, m, k)
      {
        BracketsBlock(v, m, k);
      }
    }
  }

  lemma BracketsBlock(v: Text, m: Text, k: nat)
    requires BracketFree(v) && k < |v|
    requires m != "" && m[0] == '[' && m[|m| - 1] == ']'
    ensures !RunsIntoMarker(v, m, k) && !RunsOutOfMarker(v, m, k)
  {
    assert v[k..][0] == v[k] != '[';
    if 0 < k <= |m| {
      assert v[..k][k - 1] == v[k - 1];
      assert m[|m| - k..][k - 1] == m[|m| - 1];
    }
  }

  /** A text without the first element of a value does not contain the value. */
  lemma FirstElementMissing(t: Text, v: Text)
    requires v != "" && v[0] !in t
    ensures !Contains(t, v)
  {
    forall i | 0 <= i <= |t|
      ensures !OccursAt(t, v, i)
    {
      assert i + |v| <= |t| ==> t[i..i + |v|][0] == t[i];
    }
  }

  lemma MaskedExample(m: Text)
    ensures Splice("xxx[", 2, 4, m) == "xx" + m
  {
    assert "xxx["[..2] == "xx" && "xxx["[4..] == "";
  }

  /** One sweep over "xx" and a marker finds "x[" across the seam and leaves it there. */
  lemma SeamSurvives()
    ensures Replace("x" + "x[" + "REDACTED:r]", "x[", "[REDACTED:r]") == "x" + "[REDACTED:r]" + "REDACTED:r]"
    ensures Contains("x" + "[REDACTED:r]" + "REDACTED:r]", "x[")
  {
    var v, rest, m := "x[", "REDACTED:r]", "[REDACTED:r]";
    var t, r := "x" + v + rest, "x" + m + rest;
    assert t[0..2][1] == 'x' && t[1..3] == v;
    FindIs(t, v, 1);
    ReplaceFirst("x", v, rest, m);
    FirstElementMissing(rest, v);
    ReplaceAbsent(rest, v, m);
    assert r[0..2] == v && OccursAt(r, v, 0);
  }

  /** The value "x[" survives its own redaction in "xxx[" with the span of its last two bytes. */
  lemma ValueReformsAcrossMarker()
    ensures Contains(RedactSnippet("xxx[", Secret("x[", "r"), 2, 4), "x[")
  {
    var secret := Secret("x[", "r");
    var m := "[REDACTED:r]";
    assert RuleMarker("r") == m;
    FirstElementMissing(m, "x[");
    MaskedExample(m);
    var masked := MaskSpan("xxx[", secret, 2, 4);
    assert ClampSpan("xxx[", 2, 4) == Some((2, 4));
    assert masked == "xx" + m == "x" + "x[" + "REDACTED:r]";
    assert [] + [secret] == [secret];
    SweepStep(masked, [], secret);
    SeamSurvives();
  }

  // ----- several secrets -----

  /** `m` cannot hold `v`, begin inside it after its first element, or supply its beginning. */
  predicate Inert(v: Text, m: Text) {
    && !Contains(m, v)
    && (forall k | 0 <= k < |v| :: !RunsIntoMarker(v, m, k))
    && (forall k | 0 <= k < |v| :: !RunsOutOfMarker(v, m, k))
  }

  lemma PartsAbsent(a: Text, w: Text, b: Text, v: Text)
    requires !Contains(a + w + b, v)
    ensures !Contains(a, v) && !Contains(b, v)
  {
    assert "" + a + (w + b) == a + w + b;
    assert a + w + b + "" == a + w + b;
    if Contains(a, v) {
      ContainsPart("", a, w + b, v);
    }
    if Contains(b, v) {
      ContainsPart(a + w, b, "", v);
    }
  }

  lemma InertSeams(a: Text, m: Text, tail: Text, v: Text)
    requires !Contains(a, v) && Inert(v, m) && !Contains(tail, v)
    ensures !Contains(a + (m + tail), v)
  {
    forall p | 0 <= p < |a| < p + |v|
      ensures !OccursAt(a + (m + tail), v, p)
    {
      assert 0 < |a| - p < |v| ==> !RunsIntoMarker(v, m, |a| - p);
      if OccursAt(a + (m + tail), v, p) {
        OccursAcross(a, m + tail, v, p);
      }
    }
    forall p | 0 <= p < |m| < p + |v|
      ensures !OccursAt(m + tail, v, p)
    {
      if OccursAt(m + tail, v, p) {
        OutOfMarker(v, m, tail, p);
      }
    }
    ThreePieces(a, m, tail, v);
  }

  /** Masking another secret with an inert marker brings no absent value back. */
  lemma {:induction false} ReplaceKeepsAbsent(t: Text, w: Text, m: Text, v: Text)
    requires w != "" && v != "" && !Contains(t, v) && Inert(v, m)
    ensures !Contains(Replace(t, w, m), v)
    decreases |t|
  {
    if Find(t, w).Some? {
      var i := Find(t, w).value;
      var a, b := t[..i], t[i + |w|..];
      var tail := Replace(b, w, m);
      assert t == a + w + b;
      PartsAbsent(a, w, b, v);
      ReplaceKeepsAbsent(b, w, m, v);
      InertSeams(a, m, tail, v);
      assert a + m + tail == a + (m + tail);
    }
  }

  /** A sweep leaves every listed secret absent when each is inert to its own and all later markers. */
  lemma {:induction false} SweepRemoves(text: Text, secrets: seq<Secret>, i: nat)
    requires i < |secrets| && secrets[i].value != ""
    requires forall j | i <= j < |secrets| :: Inert(secrets[i].value, secrets[j].Marker())
    ensures !Contains(Sweep(text, secrets), secrets[i].value)
  {
    var n := |secrets| - 1;
    var before := Sweep(text, secrets[..n]);
    var s := secrets[n];
    if i < n {
      SweepRemoves(text, secrets[..n], i);
      if s.value != "" {
        ReplaceKeepsAbsent(before, s.value, s.Marker(), secrets[i].value);
      }
    } else {
      ReplaceRemoves(before, s.value, s.Marker());
    }
  }

  /** A value without brackets that no rule marker contains is inert to that marker. */
  lemma BracketFreeInert(v: Text, s: Secret)
    requires v != "" && BracketFree(v) && !Contains(RuleMarker(s.ruleId), v)
    requires s.value == "" || !Contains(RuleMarker(s.ruleId), s.value)
    ensures Inert(v, s.Marker())
  {
    var m := s.Marker();
    forall k | 0 <= k < |v|
      ensures !RunsIntoMarker(v, m, k) && !RunsOutOfMarker(v, m, k)
    {
      BracketsBlock(v, m, k);
    }
  }

  /**
   * Multi-secret absence: when no secret has a bracket and none occurs in the rule marker of
   * any secret of the call, the redacted snippet contains none of them, whatever the snippet
   * and the span.
   */
  lemma AllSecretsAbsent(snippet: Text, primary: Secret, start: nat, end: nat, others: seq<Secret>, s: Secret)
    requires forall x <- [primary] + others :: BracketFree(x.value)
    requires forall x <- [primary] + others :: x.value != "" ==>
               forall y <- [primary] + others :: !Contains(RuleMarker(y.ruleId), x.value)
    requires s in [primary] + others && s.value != ""
    ensures !Contains(RedactSnippetWith(snippet, primary, start, end, others), s.value)
  {
    var known := [primary] + others;
    var i :| 0 <= i < |known| && known[i] == s;
    forall j | i <= j < |known|
      ensures Inert(s.value, known[j].Marker())
    {
      assert known[j] in known;
      BracketFreeInert(s.value, known[j]);
    }
    SweepRemoves(Sweep(MaskSpan(snippet, primary, start, end), WithoutPrimary(primary, others)), known, i);
  }

  /** Replacing where only one place can match. */
  lemma ReplaceOnly(a: Text, v: Text, b: Text, m: Text)
    requires v != "" && v[0] !in a && v[0] !in b
    ensures Replace(a + v + b, v, m) == a + m + b
  {
    var t := a + v + b;
    assert t[|a|..|a| + |v|] == v;
    forall j | 0 <= j < |a|
      ensures !OccursAt(t, v, j)
    {
      assert t[j] == a[j];
    }
    FindIs(t, v, |a|);
    ReplaceFirst(a, v, b, m);
    FirstElementMissing(b, v);
    ReplaceAbsent(b, v, m);
  }

  /** What the entry point does with two secrets of different values, step by step. */
  lemma TwoSecrets(snippet: Text, a: Secret, start: nat, end: nat, b: Secret, once: Text, twice: Text, result: Text)
    requires a.value != b.value
    requires MaskAll(MaskSpan(snippet, a, start, end), b.value, b.ruleId) == once
    requires MaskAll(once, a.value, a.ruleId) == twice && MaskAll(twice, b.value, b.ruleId) == result
    ensures RedactSnippetWith(snippet, a, start, end, [b]) == result
  {
    assert WithoutPrimary(a, [b]) == [b] by {
      assert [b][..0] == [] && [] + [b] == [b];
    }
    SweepOne(MaskSpan(snippet, a, start, end), b);
    SweepTwo(once, a, b);
    TwoElements(a, b);
  }

  lemma ExampleMasked()
    ensures MaskSpan("r", Secret("aws", "r"), 0, 1) == "[REDACTED:r]"
  {
    MarkersOfExample();
    assert "r"[..0] + "[REDACTED:r]" + "r"[1..] == "[REDACTED:r]";
  }

  lemma ExampleJoins()
    ensures "[REDACTED:" + "r" + "]" == "[REDACTED:r]"
    ensures "[REDACTED:" + "[REDACTED:aws]" + "]" == "[REDACTED:[REDACTED:" + "aws" + "]]"
    ensures "[REDACTED:[REDACTED:" + "[REDACTED:r]" + "]]" == "[REDACTED:[REDACTED:[REDACTED:" + "r" + "]]]"
  {
  }

  lemma ExampleOnce()
    ensures MaskAll("[REDACTED:" + "r" + "]", "r", "aws") == "[REDACTED:" + "[REDACTED:aws]" + "]"
  {
    MarkersOfExample();
    ReplaceOnly("[REDACTED:", "r", "]", "[REDACTED:aws]");
  }

  lemma ExampleTwice()
    ensures MaskAll("[REDACTED:[REDACTED:" + "aws" + "]]", "aws", "r") == "[REDACTED:[REDACTED:" + "[REDACTED:r]" + "]]"
  {
    MarkersOfExample();
    ReplaceOnly("[REDACTED:[REDACTED:", "aws", "]]", "[REDACTED:r]");
  }

  lemma ExampleResult()
    ensures MaskAll("[REDACTED:[REDACTED:[REDACTED:" + "r" + "]]]", "r", "aws")
            == "[REDACTED:[REDACTED:[REDACTED:" + "[REDACTED:aws]" + "]]]"
  {
    MarkersOfExample();
    ReplaceOnly("[REDACTED:[REDACTED:[REDACTED:", "r", "]]]", "[REDACTED:aws]");
  }

  /**
   * The condition on markers is needed: with two secrets that are named in each other's rule
   * marker, masking the one prints the other, and the last sweep leaves it there.
   */
  lemma MarkerBringsSecretBack()
    ensures Contains(RedactSnippetWith("r", Secret("aws", "r"), 0, 1, [Secret("r", "aws")]), "aws")
  {
    var prefix := "[REDACTED:[REDACTED:[REDACTED:";
    ExampleMasked();
    ExampleJoins();
    ExampleOnce();
    ExampleTwice();
    ExampleResult();
    TwoSecrets("r", Secret("aws", "r"), 0, 1, Secret("r", "aws"), "[REDACTED:" + "[REDACTED:aws]" + "]",
               "[REDACTED:[REDACTED:" + "[REDACTED:r]" + "]]", prefix + "[REDACTED:aws]" + "]]]");
    MarkersOfExample();
    ContainsPart(prefix, "[REDACTED:aws]", "]]]", "aws");
  }

  lemma SweepOne(text: Text, s: Secret)
    ensures Sweep(text, [s]) == MaskAll(text, s.value, s.ruleId)
  {
    assert [] + [s] == [s];
    SweepStep(text, [], s);
  }

  lemma MarkersOfExample()
    ensures MarkerFor("r", "aws") == "[REDACTED:r]" && MarkerFor("aws", "r") == "[REDACTED:aws]"
    ensures Contains("[REDACTED:aws]", "aws")
  {
    assert RuleMarker("r") == "[REDACTED:r]" && RuleMarker("aws") == "[REDACTED:aws]";
    FirstElementMissing("[REDACTED:r]", "aws");
    FirstElementMissing("[REDACTED:aws]", "r");
    assert "[REDACTED:aws]"[10..13] == "aws" && OccursAt("[REDACTED:aws]", "aws", 10);
  }

  lemma SweepTwo(text: Text, a: Secret, b: Secret)
    ensures Sweep(text, [a, b]) == MaskAll(MaskAll(text, a.value, a.ruleId), b.value, b.ruleId)
  {
    TwoElements(a, b);
    SweepStep(text, [], a);
    SweepStep(text, [a], b);
  }

  lemma TwoElements<T>(a: T, b: T)
    ensures [a] == [] + [a] && [a, b] == [a] + [b]
  {
  }

  lemma WholeReplaced(v: Text, m: Text)
    requires v != ""
    ensures Replace(v, v, m) == m
  {
    assert v + "" == v && m + "" == m;
    ReplaceAtStart(v, "", m);
    TooShort("", v, m);
  }

  /** A span that covers the only occurrence keeps the text around it as it was. */
  lemma SpanKeepsContext(before: Text, after: Text, secret: Secret)
    requires secret.value != ""
    requires var t := before + secret.value + after;
             IsBoundary(t, |before|) && IsBoundary(t, |before| + |secret.value|)
    requires !Contains(before + secret.Marker() + after, secret.value)
    ensures RedactSnippet(before + secret.value + after, secret, |before|, |before| + |secret.value|)
            == before + secret.Marker() + after
  {
    var t := before + secret.value + after;
    var masked := MaskSpan(t, secret, |before|, |before| + |secret.value|);
    assert t[..|before|] == before && t[|before| + |secret.value|..] == after;
    assert Sweep(masked, []) == masked;
    ReplaceAbsent(masked, secret.value, secret.Marker());
  }

  // ----- what stays -----

  /** Sweeping secrets that are not in a text leaves it as it is, however many there are. */
  lemma {:induction false} SweepAbsent(text: Text, secrets: seq<Secret>)
    requires forall s <- secrets :: s.value == "" || !Contains(text, s.value)
    ensures Sweep(text, secrets) == text
  {
    if secrets != [] {
      var n := |secrets| - 1;
      assert secrets[n] in secrets;
      SweepAbsent(text, secrets[..n]);
      if secrets[n].value != "" {
        ReplaceAbsent(text, secrets[n].value, secrets[n].Marker());
      }
    }
  }

  lemma {:induction false} KeptAreOthers(primary: Secret, others: seq<Secret>)
    ensures forall s <- WithoutPrimary(primary, others) :: s in others
  {
    if others != [] {
      KeptAreOthers(primary, others[..|others| - 1]);
    }
  }

  /**
   * However many other secrets there are: when none of them, and not the value itself, is in the
   * text around an exact span with the marker in it, that text is returned, its context kept.
   */
  lemma ContextIsKept(before: Text, after: Text, primary: Secret, others: seq<Secret>)
    requires primary.value != ""
    requires var t := before + primary.value + after;
             IsBoundary(t, |before|) && IsBoundary(t, |before| + |primary.value|)
    requires forall s <- [primary] + others :: s.value == "" || !Contains(before + primary.Marker() + after, s.value)
    ensures RedactSnippetWith(before + primary.value + after, primary, |before|, |before| + |primary.value|, others)
            == before + primary.Marker() + after
  {
    var t := before + primary.value + after;
    var masked := MaskSpan(t, primary, |before|, |before| + |primary.value|);
    assert t[..|before|] == before && t[|before| + |primary.value|..] == after;
    assert masked == before + primary.Marker() + after;
    KeptAreOthers(primary, others);
    forall s <- WithoutPrimary(primary, others)
      ensures s.value == "" || !Contains(masked, s.value)
    {
      assert s in [primary] + others;
    }
    SweepAbsent(masked, WithoutPrimary(primary, others));
    SweepAbsent(masked, [primary] + others);
  }
}
