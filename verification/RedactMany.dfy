/**
 * Masking several secrets at once (src/redact.rs): one snippet decides whether any snippet can
 * leave a secret in the result.
 */
module RedactMany {
  import opened Wrappers
  import opened Text
  import opened Redact

  // ----- a text between its brackets -----

  predicate IsBracket(c: char) {
    c == '[' || c == ']'
  }

  function NextBracket(t: Text, i: nat): (p: nat)
    requires i <= |t|
    ensures i <= p <= |t|
    ensures forall k | i <= k < p :: !IsBracket(t[k])
    ensures p < |t| ==> IsBracket(t[p])
    decreases |t| - i
  {
    if i == |t| || IsBracket(t[i]) then i else NextBracket(t, i + 1)
  }

  /** The pieces of a text between brackets. */
  function Segments(t: Text): set<Text>
    decreases |t|
  {
    var p := NextBracket(t, 0);
    if p == |t| then {t} else {t[..p]} + Segments(t[p + 1..])
  }

  lemma NextIs(t: Text, p: nat)
    requires p <= |t| && (forall k | 0 <= k < p :: !IsBracket(t[k])) && (p < |t| ==> IsBracket(t[p]))
    ensures NextBracket(t, 0) == p
  {
    assert NextBracket(t, 0) >= p;
  }

  lemma NoBracketAt(x: Text)
    requires BracketFree(x)
    ensures forall k | 0 <= k < |x| :: !IsBracket(x[k])
  {
    assert forall k | 0 <= k < |x| :: x[k] in x;
  }

  lemma Whole(x: Text)
    requires BracketFree(x)
    ensures Segments(x) == {x}
  {
    NoBracketAt(x);
    NextIs(x, |x|);
  }

  lemma CutBefore(a: Text, c: char, b: Text, i: nat, n: nat)
    requires i + n <= |a|
    ensures (a + [c] + b)[..i] == a[..i] && (a + [c] + b)[i + n..] == a[i + n..] + [c] + b
  {
  }

  lemma CutAround(a: Text, c: char, b: Text)
    ensures (a + [c] + b)[..|a|] == a && (a + [c] + b)[|a| + 1..] == b
  {
  }

  lemma FirstBracket(a: Text, c: char, b: Text)
    requires IsBracket(c)
    ensures NextBracket(a + [c] + b, 0) == NextBracket(a, 0)
  {
    var t, p := a + [c] + b, NextBracket(a, 0);
    assert forall k | 0 <= k < |a| :: t[k] == a[k];
    assert t[|a|] == c;
    NextIs(t, p);
  }

  lemma {:induction false} SegmentsJoin(a: Text, c: char, b: Text)
    requires IsBracket(c)
    ensures Segments(a + [c] + b) == Segments(a) + Segments(b)
    decreases |a|
  {
    var p := NextBracket(a, 0);
    FirstBracket(a, c, b);
    if p == |a| {
      CutAround(a, c, b);
    } else {
      CutBefore(a, c, b, p, 0);
      CutBefore(a, c, b, p, 1);
      SegmentsJoin(a[p + 1..], c, b);
    }
  }

  lemma {:induction false} SegmentsAreParts(t: Text, x: Text)
    requires x in Segments(t)
    ensures BracketFree(x) && Contains(t, x)
    decreases |t|
  {
    var p := NextBracket(t, 0);
    if x == t[..p] {
      assert OccursAt(t, x, 0);
    } else {
      SegmentsAreParts(t[p + 1..], x);
      AfterContains(t, p + 1, x);
    }
  }

  lemma AfterContains(t: Text, n: nat, v: Text)
    requires n <= |t| && Contains(t[n..], v)
    ensures Contains(t, v)
  {
    var i :| 0 <= i <= |t[n..]| && OccursAt(t[n..], v, i);
    assert t[n..][i..i + |v|] == t[n + i..n + i + |v|];
    assert OccursAt(t, v, n + i);
  }

  lemma ContainsTransitive(t: Text, x: Text, v: Text)
    requires Contains(t, x) && Contains(x, v)
    ensures Contains(t, v)
  {
    var i :| 0 <= i <= |t| && OccursAt(t, x, i);
    var j :| 0 <= j <= |x| && OccursAt(x, v, j);
    OccursInWindow(t, v, i, |x|, j);
    assert OccursAt(t, v, i + j);
  }

  /** A text is one segment, or its first segment, a bracket and the rest. */
  lemma AtBracket(t: Text) returns (p: Text, c: char, rest: Text)
    requires Segments(t) != {t}
    ensures t == p + [c] + rest && IsBracket(c) && |rest| < |t|
    ensures Segments(t) == {p} + Segments(rest)
  {
    var n := NextBracket(t, 0);
    p, c, rest := t[..n], t[n], t[n + 1..];
  }

  // ----- replacing works segment by segment -----

  lemma Straddles(a: Text, c: char, b: Text, v: Text, j: nat)
    requires j <= |a| < j + |v| && OccursAt(a + [c] + b, v, j)
    ensures c in v
  {
    var t := a + [c] + b;
    assert v[|a| - j] == t[j..j + |v|][|a| - j] == t[|a|] == c;
  }

  /** A bracket-free value occurs before the bracket or after it, never across. */
  lemma NotAcross(a: Text, c: char, b: Text, v: Text, j: nat)
    requires v != "" && BracketFree(v) && IsBracket(c)
    ensures OccursAt(a + [c] + b, v, j) <==> OccursAt(a, v, j) || (j > |a| && OccursAt(b, v, j - |a| - 1))
  {
    if j + |v| <= |a| {
      assert a + [c] + b == a + ([c] + b);
      OccursInPrefix(a, [c] + b, v, j);
    } else if j > |a| {
      OccursInSuffix(a + [c], b, v, j);
    } else if OccursAt(a + [c] + b, v, j) {
      Straddles(a, c, b, v, j);
    }
  }

  lemma FoundBefore(a: Text, c: char, b: Text, v: Text, i: nat)
    requires v != "" && BracketFree(v) && IsBracket(c) && Find(a, v) == Some(i)
    ensures Find(a + [c] + b, v) == Some(i)
  {
    forall j | 0 <= j <= i {
      NotAcross(a, c, b, v, j);
    }
    FindIs(a + [c] + b, v, i);
  }

  lemma FoundAfter(a: Text, c: char, b: Text, v: Text, k: nat)
    requires v != "" && BracketFree(v) && IsBracket(c) && Find(a, v).None? && Find(b, v) == Some(k)
    ensures Find(a + [c] + b, v) == Some(|a| + 1 + k)
  {
    forall j | 0 <= j <= |a| + 1 + k {
      NotAcross(a, c, b, v, j);
    }
    FindIs(a + [c] + b, v, |a| + 1 + k);
  }

  lemma FoundNowhere(a: Text, c: char, b: Text, v: Text)
    requires v != "" && BracketFree(v) && IsBracket(c) && Find(a, v).None? && Find(b, v).None?
    ensures Find(a + [c] + b, v).None?
  {
    forall j: nat {
      NotAcross(a, c, b, v, j);
    }
  }

  /** A text at its first occurrence of a value: what is before it, what is after it, what becomes of it. */
  lemma AtFirst(t: Text, v: Text, m: Text) returns (p: Text, rest: Text)
    requires v != "" && Find(t, v).Some?
    ensures t == p + v + rest && |rest| < |t| && Find(t, v) == Some(|p|)
    ensures Replace(t, v, m) == p + m + Replace(rest, v, m)
    ensures Contains(t, p) && Contains(t, v) && Contains(t, rest) && !Contains(p, v)
    ensures BracketFree(t) ==> BracketFree(p) && BracketFree(rest)
  {
    var i := Find(t, v).value;
    p, rest := t[..i], t[i + |v|..];
    assert OccursAt(t, p, 0) && OccursAt(t, v, i) && OccursAt(t, rest, i + |v|);
    forall j | 0 <= j <= i
      ensures !OccursAt(p, v, j)
    {
      if j + |v| <= i {
        OccursInWindow(t, v, 0, i, j);
      }
    }
  }

  lemma Regroup(p: Text, m: Text, q: Text, c: Text, r: Text)
    ensures p + m + (q + c + r) == (p + m + q) + c + r
  {
  }

  lemma RegroupAfter(a: Text, c: Text, p: Text, m: Text, r: Text)
    ensures (a + c + p) + m + r == a + c + (p + m + r)
  {
  }

  lemma {:induction false} ReplaceAcross(a: Text, c: char, b: Text, v: Text, m: Text)
    requires v != "" && BracketFree(v) && IsBracket(c)
    ensures Replace(a + [c] + b, v, m) == Replace(a, v, m) + [c] + Replace(b, v, m)
    decreases |a|
  {
    match Find(a, v) {
      case Some(_) =>
        var p, rest := AtFirst(a, v, m);
        FoundBefore(a, c, b, v, |p|);
        Regroup(p, v, rest, [c], b);
        ReplaceFirst(p, v, rest + [c] + b, m);
        ReplaceAcross(rest, c, b, v, m);
        Regroup(p, m, Replace(rest, v, m), [c], Replace(b, v, m));
      case None =>
        match Find(b, v) {
          case Some(_) =>
            var p, rest := AtFirst(b, v, m);
            FoundAfter(a, c, b, v, |p|);
            RegroupAfter(a, [c], p, v, rest);
            ReplaceFirst(a + [c] + p, v, rest, m);
            RegroupAfter(a, [c], p, m, Replace(rest, v, m));
          case None =>
            FoundNowhere(a, c, b, v);
        }
    }
  }

  /** A bracket-free value is found inside one segment. */
  lemma {:induction false} SegmentWith(t: Text, v: Text) returns (x: Text)
    requires v != "" && BracketFree(v) && Contains(t, v)
    ensures x in Segments(t) && Contains(x, v)
    decreases |t|
  {
    if Segments(t) == {t} {
      return t;
    }
    var p, c, rest := AtBracket(t);
    var i :| 0 <= i <= |t| && OccursAt(t, v, i);
    NotAcross(p, c, rest, v, i);
    if OccursAt(p, v, i) {
      x := p;
    } else {
      assert OccursAt(rest, v, i - |p| - 1);
      x := SegmentWith(rest, v);
    }
  }

  /** The segments of the result are the segments of the replaced segments. */
  lemma {:induction false} SegmentsOfReplace(t: Text, v: Text, m: Text, y: Text)
    requires v != "" && BracketFree(v)
    ensures y in Segments(Replace(t, v, m)) <==> exists x <- Segments(t) :: y in Segments(Replace(x, v, m))
    decreases |t|
  {
    var p := NextBracket(t, 0);
    if p < |t| {
      var x, c, rest := t[..p], t[p], t[p + 1..];
      assert t == x + [c] + rest;
      ReplaceAcross(x, c, rest, v, m);
      SegmentsJoin(Replace(x, v, m), c, Replace(rest, v, m));
      SegmentsOfReplace(rest, v, m, y);
    }
  }

  predicate IsBracketed(m: Text) {
    |m| >= 2 && m[0] == '[' && m[|m| - 1] == ']'
  }

  lemma Bracketed(m: Text, a: Text, r: Text)
    requires IsBracketed(m)
    ensures a + m + r == a + ['['] + (m[1..|m| - 1] + [']'] + r)
  {
    var inner := m[1..|m| - 1];
    assert m == ['['] + inner + [']'];
  }

  lemma SegmentsOfBracketed(m: Text, a: Text, r: Text)
    requires IsBracketed(m)
    ensures Segments(a + m + r) == Segments(a) + (Segments(m[1..|m| - 1]) + Segments(r))
  {
    var inner := m[1..|m| - 1];
    Bracketed(m, a, r);
    SegmentsJoin(a, '[', inner + [']'] + r);
    SegmentsJoin(inner, ']', r);
  }

  lemma InnerSegments(m: Text, y: Text)
    requires IsBracketed(m) && y in Segments(m[1..|m| - 1])
    ensures y in Segments(m)
  {
    SegmentsOfBracketed(m, "", "");
    assert "" + m + "" == m;
  }

  /** Inside one segment: what is left of it without the value, or a piece of the marker. */
  lemma {:induction false} PieceOfReplace(x: Text, v: Text, m: Text, y: Text)
    requires BracketFree(x) && v != "" && IsBracketed(m) && y in Segments(Replace(x, v, m))
    ensures (Contains(x, y) && !Contains(y, v)) || (Contains(x, v) && y in Segments(m))
    decreases |x|
  {
    match Find(x, v) {
      case None =>
        Whole(x);
        assert OccursAt(x, x, 0);
      case Some(_) =>
        var p, rest := AtFirst(x, v, m);
        SegmentsOfBracketed(m, p, Replace(rest, v, m));
        Whole(p);
        if y in Segments(m[1..|m| - 1]) {
          InnerSegments(m, y);
        } else if y != p {
          PieceOfReplace(rest, v, m, y);
          if Contains(rest, y) {
            ContainsTransitive(x, rest, y);
          }
        }
    }
  }

  // ----- one text stands for another -----

  /**
   * Values are bracket-free, and each leaves a marker: it is no piece of both its rule's marker
   * and the word that every marker holds.
   */
  ghost predicate Ordinary(known: seq<Secret>) {
    forall s <- known | s.value != "" :: BracketFree(s.value) && s.Marker() != ""
  }

  /** Each segment of `t` is one of `c`, or all the values in it are. */
  ghost predicate StandsFor(c: Text, t: Text, known: seq<Secret>) {
    forall x <- Segments(t) :: x in Segments(c) || ValuesIn(c, x, known)
  }

  ghost predicate ValuesIn(c: Text, x: Text, known: seq<Secret>) {
    forall s <- known | s.value != "" && Contains(x, s.value) :: s.value in Segments(c)
  }

  lemma MaskedSegment(c: Text, x: Text, s: Secret, y: Text)
    requires s.value != "" && BracketFree(s.value)
    requires x in Segments(c) && y in Segments(Replace(x, s.value, s.Marker()))
    ensures y in Segments(MaskAll(c, s.value, s.ruleId))
  {
    SegmentsOfReplace(c, s.value, s.Marker(), y);
  }

  /** A value without `s` in it keeps its own segment when `s` is masked. */
  lemma ValueSurvives(c: Text, w: Text, s: Secret)
    requires s.value != "" && BracketFree(s.value) && BracketFree(w)
    requires w in Segments(c) && !Contains(w, s.value)
    ensures w in Segments(MaskAll(c, s.value, s.ruleId))
  {
    ReplaceAbsent(w, s.value, s.Marker());
    Whole(w);
    MaskedSegment(c, w, s, w);
  }

  lemma MarkerIsBracketed(s: Secret)
    requires s.Marker() != ""
    ensures IsBracketed(s.Marker())
  {
    MarkerEnds(s);
  }

  /** One segment of the masked text. */
  lemma MaskStep(c: Text, t: Text, known: seq<Secret>, s: Secret, y: Text)
    requires Ordinary(known) && s in known && s.value != "" && StandsFor(c, t, known)
    requires y in Segments(MaskAll(t, s.value, s.ruleId))
    ensures var after := MaskAll(c, s.value, s.ruleId);
            y in Segments(after) || ValuesIn(after, y, known)
  {
    SegmentsOfReplace(t, s.value, s.Marker(), y);
    var x :| x in Segments(t) && y in Segments(Replace(x, s.value, s.Marker()));
    if x in Segments(c) {
      MaskedSegment(c, x, s, y);
    } else {
      SegmentsAreParts(t, x);
      MarkerIsBracketed(s);
      PieceOfReplace(x, s.value, s.Marker(), y);
      if Contains(x, s.value) && y in Segments(s.Marker()) {
        WholeReplaced(s.value, s.Marker());
        MaskedSegment(c, s.value, s, y);
      } else {
        forall w <- known | w.value != "" && Contains(y, w.value)
          ensures w.value in Segments(MaskAll(c, s.value, s.ruleId))
        {
          ContainsTransitive(x, y, w.value);
          if Contains(w.value, s.value) {
            ContainsTransitive(y, w.value, s.value);
          }
          ValueSurvives(c, w.value, s);
        }
      }
    }
  }

  /** Masking the same secrets keeps the one text standing for the other. */
  lemma {:induction false} SweepKeeps(c: Text, t: Text, known: seq<Secret>, secrets: seq<Secret>)
    requires Ordinary(known) && StandsFor(c, t, known) && forall s <- secrets :: s in known
    ensures StandsFor(Sweep(c, secrets), Sweep(t, secrets), known)
  {
    if secrets != [] {
      var n := |secrets| - 1;
      var s := secrets[n];
      assert s in secrets;
      SweepKeeps(c, t, known, secrets[..n]);
      if s.value != "" {
        forall y <- Segments(Sweep(t, secrets))
          ensures y in Segments(Sweep(c, secrets)) || ValuesIn(Sweep(c, secrets), y, known)
        {
          MaskStep(Sweep(c, secrets[..n]), Sweep(t, secrets[..n]), known, s, y);
        }
      }
    }
  }

  lemma LeakIsShown(c: Text, t: Text, known: seq<Secret>, s: Secret)
    requires Ordinary(known) && StandsFor(c, t, known) && s in known && s.value != "" && Contains(t, s.value)
    ensures Contains(c, s.value)
  {
    var x := SegmentWith(t, s.value);
    if x in Segments(c) {
      SegmentsAreParts(c, x);
      ContainsTransitive(c, x, s.value);
    } else {
      SegmentsAreParts(c, s.value);
    }
  }

  // ----- the deciding snippet -----

  function Listed(known: seq<Secret>): Text {
    if known == [] then "" else known[0].value + "[" + Listed(known[1..])
  }

  /** Every value once, kept apart by brackets; its first character is the span to mask. */
  function Deciding(known: seq<Secret>): Text {
    "[" + "[" + Listed(known)
  }

  lemma {:induction false} ListedHas(known: seq<Secret>, s: Secret)
    requires s in known && BracketFree(s.value)
    ensures s.value in Segments(Listed(known))
  {
    SegmentsJoin(known[0].value, '[', Listed(known[1..]));
    if s == known[0] {
      Whole(s.value);
    } else {
      ListedHas(known[1..], s);
    }
  }

  lemma DecidingMasked(primary: Secret, known: seq<Secret>)
    ensures MaskSpan(Deciding(known), primary, 0, 1) == primary.Marker() + ['['] + Listed(known)
  {
    var t := Deciding(known);
    assert t[1] == '[' && IsBoundary(t, 1);
    assert ClampSpan(t, 0, 1) == Some((0, 1));
    assert t[..0] == "" && t[1..] == ['['] + Listed(known);
    JoinMarker(primary.Marker(), Listed(known));
  }

  lemma JoinMarker(m: Text, rest: Text)
    ensures "" + m + (['['] + rest) == m + ['['] + rest
  {
  }

  lemma DecidingStandsForAll(primary: Secret, known: seq<Secret>, t: Text)
    requires Ordinary(known)
    ensures StandsFor(MaskSpan(Deciding(known), primary, 0, 1), t, known)
  {
    var c := MaskSpan(Deciding(known), primary, 0, 1);
    DecidingMasked(primary, known);
    SegmentsJoin(primary.Marker(), '[', Listed(known));
    forall s <- known | s.value != ""
      ensures s.value in Segments(c)
    {
      ListedHas(known, s);
    }
  }

  lemma {:induction false} WithoutPrimaryIn(primary: Secret, others: seq<Secret>)
    ensures forall s <- WithoutPrimary(primary, others) :: s in others
  {
    if others != [] {
      WithoutPrimaryIn(primary, others[..|others| - 1]);
    }
  }

  /** A secret left in some snippet is left in the deciding one. */
  lemma LeakDecided(snippet: Text, primary: Secret, start: nat, end: nat, others: seq<Secret>, s: Secret)
    requires Ordinary([primary] + others) && s in [primary] + others && s.value != ""
    requires Contains(RedactSnippetWith(snippet, primary, start, end, others), s.value)
    ensures Contains(RedactSnippetWith(Deciding([primary] + others), primary, 0, 1, others), s.value)
  {
    var known, first := [primary] + others, WithoutPrimary(primary, others);
    var t, c := MaskSpan(snippet, primary, start, end), MaskSpan(Deciding(known), primary, 0, 1);
    DecidingStandsForAll(primary, known, t);
    WithoutPrimaryIn(primary, others);
    assert forall x <- others :: x in known;
    SweepKeeps(c, t, known, first);
    SweepKeeps(Sweep(c, first), Sweep(t, first), known, known);
    LeakIsShown(Sweep(Sweep(c, first), known), Sweep(Sweep(t, first), known), known, s);
  }

  /** Nothing of the given secrets is in a text. */
  ghost predicate NoneIn(t: Text, known: seq<Secret>) {
    forall s <- known | s.value != "" :: !Contains(t, s.value)
  }

  /**
   * Multi-secret absence, exactly: for secrets without brackets that leave a marker, no snippet
   * and no span ever leave one of them in the result if and only if masking the deciding
   * snippet leaves none, a single computation on the secrets alone.
   */
  lemma AllAbsentIff(primary: Secret, others: seq<Secret>)
    requires Ordinary([primary] + others)
    ensures (forall snippet, start, end :: NoneIn(RedactSnippetWith(snippet, primary, start, end, others), [primary] + others))
            <==> NoneIn(RedactSnippetWith(Deciding([primary] + others), primary, 0, 1, others), [primary] + others)
  {
    var known := [primary] + others;
    if NoneIn(RedactSnippetWith(Deciding(known), primary, 0, 1, others), known) {
      forall snippet, start, end
        ensures NoneIn(RedactSnippetWith(snippet, primary, start, end, others), known)
      {
        forall s <- known | s.value != ""
          ensures !Contains(RedactSnippetWith(snippet, primary, start, end, others), s.value)
        {
          if Contains(RedactSnippetWith(snippet, primary, start, end, others), s.value) {
            LeakDecided(snippet, primary, start, end, others, s);
          }
        }
      }
    }
  }
}
