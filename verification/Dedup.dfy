/** Merging duplicate findings inside one scan (src/dedup.rs). */
module Dedup {
  import opened Findings
  import opened Sequences
  import opened Wrappers

  /** Append the locations that are not there yet, in order. */
  function AddLocations(known: seq<Location>, more: seq<Location>): seq<Location> {
    if more == [] then known
    else
      var locs := AddLocations(known, more[..|more| - 1]);
      var l := more[|more| - 1];
      if l in locs then locs else locs + [l]
  }

  function TextOf(f: Finding): string {
    MergeText(f.MergeIdentity())
  }

  /** Position of the finding filed under merge text `t`. */
  function IndexOf(fs: seq<Finding>, t: string): (r: Option<nat>)
    ensures r.Some? ==> r.value < |fs| && TextOf(fs[r.value]) == t
  {
    if fs == [] then None
    else if IndexOf(fs[..|fs| - 1], t).Some? then IndexOf(fs[..|fs| - 1], t)
    else if TextOf(fs[|fs| - 1]) == t then Some(|fs| - 1)
    else None
  }

  function Insert(fs: seq<Finding>, f: Finding): seq<Finding> {
    match IndexOf(fs, TextOf(f))
    case Some(i) =>
      fs[i := fs[i].(locations := AddLocations(fs[i].locations, f.locations))]
    case None => fs + [f]
  }

  function InsertAll(fs: seq<Finding>): seq<Finding> {
    if fs == [] then [] else Insert(InsertAll(fs[..|fs| - 1]), fs[|fs| - 1])
  }

  /** Some finding filed under merge text `t` carries location `l`. */
  ghost predicate Located(fs: seq<Finding>, t: string, l: Location) {
    exists i | 0 <= i < |fs| :: TextOf(fs[i]) == t && l in fs[i].locations
  }

  function Texts(fs: seq<Finding>): set<string> {
    if fs == [] then {} else Texts(fs[..|fs| - 1]) + {TextOf(fs[|fs| - 1])}
  }

  /** The finding without the part that merging changes. */
  function Body(f: Finding): Finding {
    f.(locations := [])
  }

  predicate DistinctTexts(fs: seq<Finding>) {
    forall i, j | 0 <= i < j < |fs| :: TextOf(fs[i]) != TextOf(fs[j])
  }

  // ----- one insertion -----

  lemma {:induction false} AddLocationsMeaning(known: seq<Location>, more: seq<Location>)
    ensures forall l :: l in AddLocations(known, more) <==> l in known || l in more
    ensures NoRepeats(known) ==> NoRepeats(AddLocations(known, more))
    ensures known <= AddLocations(known, more)
  {
    if more != [] {
      AddLocationsMeaning(known, more[..|more| - 1]);
      assert more == more[..|more| - 1] + [more[|more| - 1]];
    }
  }

  lemma {:induction false} IndexOfMeaning(fs: seq<Finding>, t: string)
    ensures var r := IndexOf(fs, t);
            && (r.Some? ==> r.value < |fs| && TextOf(fs[r.value]) == t
                            && forall j | 0 <= j < r.value :: TextOf(fs[j]) != t)
            && (r.None? ==> forall f <- fs :: TextOf(f) != t)
  {
    if fs != [] {
      IndexOfMeaning(fs[..|fs| - 1], t);
      assert fs == fs[..|fs| - 1] + [fs[|fs| - 1]];
    }
  }

  lemma {:induction false} TextsMeaning(fs: seq<Finding>, t: string)
    ensures t in Texts(fs) <==> exists i | 0 <= i < |fs| :: TextOf(fs[i]) == t
  {
    if fs != [] {
      var n := |fs| - 1;
      TextsMeaning(fs[..n], t);
      assert forall i | 0 <= i < n :: fs[..n][i] == fs[i];
    }
  }

  lemma InsertTexts(fs: seq<Finding>, f: Finding)
    requires DistinctTexts(fs)
    ensures DistinctTexts(Insert(fs, f))
    ensures Texts(Insert(fs, f)) == Texts(fs) + {TextOf(f)}
  {
    var r := Insert(fs, f);
    IndexOfMeaning(fs, TextOf(f));
    TextsMeaning(fs, TextOf(f));
    if IndexOf(fs, TextOf(f)).Some? {
      assert forall j | 0 <= j < |fs| :: TextOf(r[j]) == TextOf(fs[j]);
      SameTexts(r, fs);
    } else {
      assert r[..|fs|] == fs;
    }
  }

  lemma {:induction false} SameTexts(a: seq<Finding>, b: seq<Finding>)
    requires |a| == |b| && forall j | 0 <= j < |a| :: TextOf(a[j]) == TextOf(b[j])
    ensures Texts(a) == Texts(b)
  {
    if a != [] {
      SameTexts(a[..|a| - 1], b[..|b| - 1]);
    }
  }

  lemma InsertLocated(fs: seq<Finding>, f: Finding, t: string, l: Location)
    ensures Located(Insert(fs, f), t, l) <==> Located(fs, t, l) || (TextOf(f) == t && l in f.locations)
  {
    var r := Insert(fs, f);
    IndexOfMeaning(fs, TextOf(f));
    match IndexOf(fs, TextOf(f))
    case None =>
      assert r[|fs|] == f;
      assert forall j | 0 <= j < |fs| :: r[j] == fs[j];
    case Some(i) =>
      AddLocationsMeaning(fs[i].locations, f.locations);
      assert r[i].locations == AddLocations(fs[i].locations, f.locations) && TextOf(r[i]) == TextOf(f);
      assert forall j | 0 <= j < |fs| && j != i :: r[j] == fs[j];
  }

  // ----- a whole scan -----

  /** Deduplication keeps one finding per merge text, and loses or invents no merge text. */
  lemma {:induction false} InsertAllTexts(fs: seq<Finding>)
    ensures DistinctTexts(InsertAll(fs))
    ensures Texts(InsertAll(fs)) == Texts(fs)
  {
    if fs != [] {
      var n := |fs| - 1;
      InsertAllTexts(fs[..n]);
      InsertTexts(InsertAll(fs[..n]), fs[n]);
      assert fs == fs[..n] + [fs[n]];
    }
  }

  /** It keeps every location under its merge text, and adds none. */
  lemma {:induction false} InsertAllLocated(fs: seq<Finding>, t: string, l: Location)
    ensures Located(InsertAll(fs), t, l) <==> Located(fs, t, l)
  {
    if fs != [] {
      var n := |fs| - 1;
      InsertAllLocated(fs[..n], t, l);
      InsertLocated(InsertAll(fs[..n]), fs[n], t, l);
      LocatedLast(fs, t, l);
    }
  }

  lemma LocatedLast(fs: seq<Finding>, t: string, l: Location)
    requires fs != []
    ensures var n := |fs| - 1;
            Located(fs, t, l) <==> Located(fs[..n], t, l) || (TextOf(fs[n]) == t && l in fs[n].locations)
  {
    assert forall j | 0 <= j < |fs| - 1 :: fs[..|fs| - 1][j] == fs[j];
  }

  lemma SameMembers(a: seq<Finding>, b: seq<Finding>, t: string, l: Location)
    requires multiset(a) == multiset(b)
    requires Located(a, t, l)
    ensures Located(b, t, l)
  {
    var i :| 0 <= i < |a| && TextOf(a[i]) == t && l in a[i].locations;
    assert a[i] in multiset(a);
    assert a[i] in multiset(b);
    var j :| 0 <= j < |b| && b[j] == a[i];
  }

  lemma SameTextMembers(a: seq<Finding>, b: seq<Finding>)
    requires multiset(a) == multiset(b)
    ensures Texts(a) <= Texts(b)
  {
    forall t | t in Texts(a)
      ensures t in Texts(b)
    {
      TextsMeaning(a, t);
      TextsMeaning(b, t);
      var i :| 0 <= i < |a| && TextOf(a[i]) == t;
      assert a[i] in multiset(a);
      assert a[i] in multiset(b);
      var j :| 0 <= j < |b| && b[j] == a[i];
    }
  }

  /**
   * The merged view does not depend on the order in which findings arrive: any two orders of
   * the same findings give as many merged findings, the same merge texts, and under each
   * text the same locations.
   */
  lemma OrderIndependent(a: seq<Finding>, b: seq<Finding>, t: string, l: Location)
    requires multiset(a) == multiset(b)
    ensures |InsertAll(a)| == |InsertAll(b)|
    ensures Texts(InsertAll(a)) == Texts(InsertAll(b))
    ensures Located(InsertAll(a), t, l) <==> Located(InsertAll(b), t, l)
  {
    MergedView(a, t, l);
    MergedView(b, t, l);
    assert Texts(a) == Texts(b) by {
      SameTextMembers(a, b);
      SameTextMembers(b, a);
    }
    SameLocated(a, b, t, l);
  }

  lemma SameLocated(a: seq<Finding>, b: seq<Finding>, t: string, l: Location)
    requires multiset(a) == multiset(b)
    ensures Located(a, t, l) <==> Located(b, t, l)
  {
    if Located(a, t, l) {
      SameMembers(a, b, t, l);
    }
    if Located(b, t, l) {
      SameMembers(b, a, t, l);
    }
  }

  lemma MergedView(fs: seq<Finding>, t: string, l: Location)
    ensures |InsertAll(fs)| == |Texts(fs)|
    ensures Texts(InsertAll(fs)) == Texts(fs)
    ensures Located(InsertAll(fs), t, l) <==> Located(fs, t, l)
  {
    InsertAllTexts(fs);
    TextsCount(InsertAll(fs));
    InsertAllLocated(fs, t, l);
  }

  lemma {:induction false} TextsCount(fs: seq<Finding>)
    requires DistinctTexts(fs)
    ensures |Texts(fs)| == |fs|
  {
    if fs != [] {
      var n := |fs| - 1;
      TextsCount(fs[..n]);
      TextsMeaning(fs[..n], TextOf(fs[n]));
    }
  }

  /** `p` holds the finding `f`, with locations possibly added after its own. */
  predicate Extends(p: Finding, f: Finding) {
    Body(p) == Body(f) && f.locations <= p.locations
  }

  /** Merging leaves every finding in its place and only adds locations to it. */
  lemma InsertExtends(fs: seq<Finding>, f: Finding, i: nat, first: Finding)
    requires i < |fs| && Extends(fs[i], first)
    ensures i < |Insert(fs, f)| && Extends(Insert(fs, f)[i], first)
  {
    IndexOfMeaning(fs, TextOf(f));
    AddLocationsMeaning(fs[i].locations, f.locations);
  }

  /** Each merged finding is the first one that arrived under its merge text, extended by later locations. */
  lemma {:induction false} FirstArrivalKept(fs: seq<Finding>, i: nat) returns (p: nat)
    requires i < |fs|
    requires forall j | 0 <= j < i :: TextOf(fs[j]) != TextOf(fs[i])
    ensures p < |InsertAll(fs)| && Extends(InsertAll(fs)[p], fs[i])
  {
    var n := |fs| - 1;
    var before := InsertAll(fs[..n]);
    assert forall j | 0 <= j < n :: fs[..n][j] == fs[j];
    if i < n {
      p := FirstArrivalKept(fs[..n], i);
      InsertExtends(before, fs[n], p, fs[i]);
    } else {
      NewTextAppended(fs[..n], fs[n]);
      p := |before|;
    }
  }

  /** A finding whose merge text has not arrived before goes to the end. */
  lemma NewTextAppended(fs: seq<Finding>, f: Finding)
    requires forall j | 0 <= j < |fs| :: TextOf(fs[j]) != TextOf(f)
    ensures Insert(InsertAll(fs), f) == InsertAll(fs) + [f]
  {
    var before := InsertAll(fs);
    IndexOfMeaning(before, TextOf(f));
    InsertAllTexts(fs);
    TextsMeaning(before, TextOf(f));
    TextsMeaning(fs, TextOf(f));
    assert IndexOf(before, TextOf(f)).None?;
  }

  /** The map finds every finding by its merge text, and nothing else. */
  ghost predicate Indexed(seen: map<string, nat>, fs: seq<Finding>) {
    && DistinctTexts(fs)
    && (forall i | 0 <= i < |fs| :: TextOf(fs[i]) in seen && seen[TextOf(fs[i])] == i)
    && (forall t <- seen :: seen[t] < |fs| && TextOf(fs[seen[t]]) == t)
  }

  lemma InsertKnown(seen: map<string, nat>, fs: seq<Finding>, f: Finding)
    requires Indexed(seen, fs) && TextOf(f) in seen
    ensures var i := seen[TextOf(f)];
            Insert(fs, f) == fs[i := fs[i].(locations := AddLocations(fs[i].locations, f.locations))]
    ensures Indexed(seen, Insert(fs, f))
  {
    var i, t := seen[TextOf(f)], TextOf(f);
    IndexOfMeaning(fs, t);
    assert fs[i] in fs;
    var after := Insert(fs, f);
    assert forall j | 0 <= j < |fs| :: TextOf(after[j]) == TextOf(fs[j]);
  }

  lemma InsertUnknown(seen: map<string, nat>, fs: seq<Finding>, f: Finding)
    requires Indexed(seen, fs) && TextOf(f) !in seen
    ensures Insert(fs, f) == fs + [f]
    ensures Indexed(seen[TextOf(f) := |fs|], fs + [f])
  {
    IndexOfMeaning(fs, TextOf(f));
  }

  class Deduplicator {
    var seen: map<string, nat>
    var findings: seq<Finding>

    ghost predicate Valid()
      reads this
    {
      Indexed(seen, findings)
    }

    constructor ()
      ensures Valid() && findings == []
    {
      seen, findings := map[], [];
    }

    /** Push the locations that are not there yet. */
    static method MergedLocations(known: seq<Location>, more: seq<Location>) returns (existing: seq<Location>)
      ensures existing == AddLocations(known, more)
    {
      existing := known;
      for i := 0 to |more|
        invariant existing == AddLocations(known, more[..i])
      {
        assert more[..i + 1][..i] == more[..i];
        if more[i] !in existing {
          existing := existing + [more[i]];
        }
      }
      assert more[..|more|] == more;
    }

    /** File one finding and return its position. */
    method InsertFinding(finding: Finding) returns (idx: nat)
      requires Valid()
      modifies this
      ensures Valid()
      ensures findings == Insert(old(findings), finding)
      ensures idx < |findings| && TextOf(findings[idx]) == TextOf(finding)
    {
      var key := MergeText(finding.MergeIdentity());
      if key in seen {
        InsertKnown(seen, findings, finding);
        idx := seen[key];
        var existing := MergedLocations(findings[idx].locations, finding.locations);
        findings := findings[idx := findings[idx].(locations := existing)];
      } else {
        InsertUnknown(seen, findings, finding);
        idx := |findings|;
        seen := seen[key := idx];
        findings := findings + [finding];
      }
    }

    /** File every finding of a scan, in arrival order. */
    method InsertFindings(all: seq<Finding>)
      requires Valid() && findings == []
      modifies this
      ensures Valid()
      ensures findings == InsertAll(all)
    {
      for i := 0 to |all|
        invariant Valid()
        invariant findings == InsertAll(all[..i])
      {
        assert all[..i + 1][..i] == all[..i];
        var _ := InsertFinding(all[i]);
      }
      assert all[..|all|] == all;
    }
  }
}
