/**
 * Rust text as its UTF-8 code units: one element per byte, so that byte offsets, character
 * boundaries and substring search mean what they mean in the program.
 */
module Text {
  import opened Wrappers

  /** A `str`: every element stands for one byte. */
  type Text = string

  /** A UTF-8 continuation byte: not the first byte of a character. */
  predicate IsContinuation(c: char) {
    0x80 <= c as int < 0xC0
  }

  predicate IsBoundary(t: Text, i: nat) {
    i == 0 || i == |t| || (i < |t| && !IsContinuation(t[i]))
  }

  /** The last character boundary at or before `i`. */
  function FloorBoundary(t: Text, i: nat): (b: nat)
    ensures b <= i && b <= |t| && IsBoundary(t, b)
    ensures forall j | b < j <= i && j <= |t| :: !IsBoundary(t, j)
  {
    if i >= |t| then |t| else if IsBoundary(t, i) then i else FloorBoundary(t, i - 1)
  }

  /** The first character boundary at or after `i`, or the end of the text. */
  function CeilBoundary(t: Text, i: nat): (b: nat)
    ensures b <= |t| && IsBoundary(t, b)
    ensures i <= |t| ==> i <= b
    ensures forall j | i <= j < b :: !IsBoundary(t, j)
    decreases |t| - i
  {
    if i >= |t| then |t| else if IsBoundary(t, i) then i else CeilBoundary(t, i + 1)
  }

  // ----- substring search -----

  predicate OccursAt(t: Text, v: Text, i: nat) {
    i + |v| <= |t| && t[i..i + |v|] == v
  }

  predicate Contains(t: Text, v: Text) {
    exists i | 0 <= i <= |t| :: OccursAt(t, v, i)
  }

  /** The leftmost occurrence. */
  function Find(t: Text, v: Text): (r: Option<nat>)
    ensures r.Some? ==> OccursAt(t, v, r.value) && forall j | 0 <= j < r.value :: !OccursAt(t, v, j)
    ensures r.None? ==> forall j: nat :: !OccursAt(t, v, j)
  {
    FindFrom(t, v, 0)
  }

  function FindFrom(t: Text, v: Text, from: nat): (r: Option<nat>)
    ensures r.Some? ==> from <= r.value && OccursAt(t, v, r.value) && forall j | from <= j < r.value :: !OccursAt(t, v, j)
    ensures r.None? ==> forall j: nat | from <= j :: !OccursAt(t, v, j)
    decreases |t| - from
  {
    if from + |v| > |t| then None
    else if OccursAt(t, v, from) then Some(from)
    else FindFrom(t, v, from + 1)
  }

  /** `str::replace`: every non-overlapping occurrence, from the left. */
  function Replace(t: Text, v: Text, m: Text): Text
    requires v != ""
  {
    match Find(t, v)
    case None => t
    case Some(i) => t[..i] + m + Replace(t[i + |v|..], v, m)
  }

  lemma ReplaceAbsent(t: Text, v: Text, m: Text)
    requires v != "" && !Contains(t, v)
    ensures Replace(t, v, m) == t
  {
    assert Find(t, v).None?;
  }

  lemma FindIs(t: Text, v: Text, i: nat)
    requires OccursAt(t, v, i) && forall j | 0 <= j < i :: !OccursAt(t, v, j)
    ensures Find(t, v) == Some(i)
  {
    assert Find(t, v).Some?;
  }

  lemma TooShort(t: Text, v: Text, m: Text)
    requires |t| < |v|
    ensures !Contains(t, v) && Replace(t, v, m) == t
  {
    ReplaceAbsent(t, v, m);
  }

  /** Replacing at a known first occurrence. */
  lemma ReplaceFirst(a: Text, v: Text, b: Text, m: Text)
    requires v != "" && Find(a + v + b, v) == Some(|a|)
    ensures Replace(a + v + b, v, m) == a + m + Replace(b, v, m)
  {
    var t := a + v + b;
    assert t[..|a|] == a && t[|a| + |v|..] == b;
  }

  /** Replacing at the very start. */
  lemma ReplaceAtStart(v: Text, b: Text, m: Text)
    requires v != ""
    ensures Replace(v + b, v, m) == m + Replace(b, v, m)
  {
    var t := v + b;
    assert t[0..|v|] == v;
    FindIs(t, v, 0);
    assert t[..0] + m == m;
    assert t[|v|..] == b;
  }

  // ----- occurrences in pieces -----

  lemma OccursInPrefix(a: Text, b: Text, v: Text, i: nat)
    requires i + |v| <= |a|
    ensures OccursAt(a + b, v, i) <==> OccursAt(a, v, i)
  {
    assert (a + b)[i..i + |v|] == a[i..i + |v|];
  }

  lemma OccursInSuffix(a: Text, b: Text, v: Text, i: nat)
    requires |a| <= i
    ensures OccursAt(a + b, v, i) <==> OccursAt(b, v, i - |a|)
  {
    if i + |v| <= |a + b| {
      assert (a + b)[i..i + |v|] == b[i - |a|..i - |a| + |v|];
    }
  }

  lemma OccursInWindow(t: Text, v: Text, p: nat, n: nat, j: nat)
    requires p + n <= |t| && j + |v| <= n
    ensures OccursAt(t[p..p + n], v, j) <==> OccursAt(t, v, p + j)
  {
    var inner, outer := t[p..p + n][j..j + |v|], t[p + j..p + j + |v|];
    assert forall x | 0 <= x < |v| :: inner[x] == t[p + j + x] == outer[x];
    assert inner == outer;
  }

  /** A text in three pieces contains nothing its pieces and its two seams exclude. */
  lemma ThreePieces(a: Text, m: Text, tail: Text, v: Text)
    requires !Contains(a, v) && !Contains(m, v) && !Contains(tail, v)
    requires forall p | 0 <= p < |a| < p + |v| :: !OccursAt(a + (m + tail), v, p)
    requires forall p | 0 <= p < |m| < p + |v| :: !OccursAt(m + tail, v, p)
    ensures !Contains(a + (m + tail), v)
  {
    forall p | 0 <= p <= |a + (m + tail)|
      ensures !OccursAt(a + (m + tail), v, p)
    {
      if p + |v| <= |a| {
        OccursInPrefix(a, m + tail, v, p);
      } else if p >= |a| {
        var q := p - |a|;
        OccursInSuffix(a, m + tail, v, p);
        if q + |v| <= |m| {
          OccursInPrefix(m, tail, v, q);
        } else if q >= |m| {
          OccursInSuffix(m, tail, v, q);
        }
      }
    }
  }

  lemma ContainsPart(a: Text, b: Text, c: Text, v: Text)
    requires Contains(b, v)
    ensures Contains(a + b + c, v)
  {
    var i :| 0 <= i <= |b| && OccursAt(b, v, i);
    assert (a + b + c)[|a| + i..|a| + i + |v|] == b[i..i + |v|];
    assert OccursAt(a + b + c, v, |a| + i);
  }

  /** Where an occurrence that straddles two pieces is cut, each side holds its share. */
  lemma OccursAcross(a: Text, b: Text, v: Text, i: nat)
    requires i < |a| < i + |v| && OccursAt(a + b, v, i)
    ensures var k := |a| - i;
            && 0 < k < |v|
            && a[i..] == v[..k]
            && v[k..] <= b
  {
    var k := |a| - i;
    assert v == (a + b)[i..i + |v|];
    assert v[..k] == a[i..];
    assert v[k..] == b[..|v| - k];
  }
}
