/** Where the markers of a redacted snippet stand (src/redact.rs): each secret's marker at its place, everything else as it was. */
module RedactPlaces {
  import opened Redact
  import opened RedactMany
  import opened Text
  import opened Wrappers

  /** A snippet in pieces: text that stays, and places of the other secrets. */
  datatype Piece = Plain(text: Text) | Place(i: nat)

  predicate PlacesOf(pieces: seq<Piece>, others: seq<Secret>) {
    forall p <- pieces :: p.Place? ==> p.i < |others|
  }

  function Shown(p: Piece, others: seq<Secret>, n: nat): Text
    requires p.Place? ==> p.i < |others|
  {
    match p
    case Plain(text) => text
    case Place(i) => if i < n then others[i].Marker() else others[i].value
  }

  /** The snippet with the first `n` other secrets masked. */
  function Written(pieces: seq<Piece>, others: seq<Secret>, n: nat): Text
    requires PlacesOf(pieces, others)
  {
    if pieces == [] then ""
    else
      assert pieces[0] in pieces;
      assert forall p <- pieces[1..] :: p in pieces;
      Shown(pieces[0], others, n) + Written(pieces[1..], others, n)
  }

  /** The first character of the value is nowhere but at the value's places. */
  ghost predicate Marked(c: char, v: Text, pieces: seq<Piece>, known: seq<Secret>) {
    && (forall p <- pieces :: p.Plain? ==> c !in p.text)
    && (forall s <- known :: c !in s.Marker() && (s.value != v ==> c !in s.value))
  }

  ghost predicate AllMarked(pieces: seq<Piece>, known: seq<Secret>) {
    && (forall s <- known :: s.value != "" && Marked(s.value[0], s.value, pieces, known))
    && (forall i, j | 0 <= i < j < |known| :: known[i].value != known[j].value)
  }

  // ----- replacing piece by piece -----

  lemma NotIn(x: Text, y: Text, v: Text, j: nat)
    requires v != "" && v[0] !in x && j < |x|
    ensures !OccursAt(x + y, v, j)
  {
    var t := x + y;
    assert t[j] == x[j];
    assert j + |v| <= |t| ==> t[j..j + |v|][0] == t[j];
  }

  /** A value is found past a text without its first character, where it is found after it. */
  lemma FoundPast(x: Text, y: Text, v: Text)
    requires v != "" && v[0] !in x
    ensures Find(y, v).None? ==> Find(x + y, v).None?
    ensures Find(y, v).Some? ==> Find(x + y, v) == Some(|x| + Find(y, v).value)
  {
    forall j: nat
      ensures OccursAt(x + y, v, j) <==> j >= |x| && OccursAt(y, v, j - |x|)
    {
      if j < |x| {
        NotIn(x, y, v, j);
      } else {
        OccursInSuffix(x, y, v, j);
      }
    }
    if Find(y, v).Some? {
      FindIs(x + y, v, |x| + Find(y, v).value);
    }
  }

  lemma Joined(x: Text, p: Text, v: Text, rest: Text)
    ensures x + (p + v + rest) == (x + p) + v + rest
  {
  }

  /** What comes before the first character of a value is kept. */
  lemma KeptBefore(x: Text, y: Text, v: Text, m: Text)
    requires v != "" && v[0] !in x
    ensures Replace(x + y, v, m) == x + Replace(y, v, m)
  {
    FoundPast(x, y, v);
    if Find(y, v).Some? {
      var p, rest := AtFirst(y, v, m);
      Joined(x, p, v, rest);
      ReplaceFirst(x + p, v, rest, m);
      Joined(x, p, m, Replace(rest, v, m));
    }
  }

  lemma {:induction false} ReplacePieces(pieces: seq<Piece>, others: seq<Secret>, n: nat)
    requires PlacesOf(pieces, others) && n < |others| && AllMarked(pieces, others)
    ensures Replace(Written(pieces, others, n), others[n].value, others[n].Marker()) == Written(pieces, others, n + 1)
    decreases |pieces|
  {
    var v, m := others[n].value, others[n].Marker();
    assert others[n] in others;
    if pieces == [] {
      TooShort("", v, m);
    } else {
      var p, rest := pieces[0], pieces[1..];
      assert p in pieces && forall q <- rest :: q in pieces;
      ReplacePieces(rest, others, n);
      if p == Place(n) {
        ReplaceAtStart(v, Written(rest, others, n), m);
      } else {
        assert p.Place? ==> others[p.i] in others && others[p.i].value != v;
        KeptBefore(Shown(p, others, n), Written(rest, others, n), v, m);
      }
    }
  }

  lemma {:induction false} SweepPieces(pieces: seq<Piece>, others: seq<Secret>, n: nat)
    requires PlacesOf(pieces, others) && n <= |others| && AllMarked(pieces, others)
    ensures Sweep(Written(pieces, others, 0), others[..n]) == Written(pieces, others, n)
  {
    if n > 0 {
      SweepPieces(pieces, others, n - 1);
      assert others[..n][..n - 1] == others[..n - 1] && others[..n][n - 1] == others[n - 1];
      assert others[n - 1] in others;
      ReplacePieces(pieces, others, n - 1);
    }
  }

  // ----- the whole call -----

  lemma WrittenCons(p: Piece, rest: seq<Piece>, others: seq<Secret>, n: nat)
    requires (p.Place? ==> p.i < |others|) && PlacesOf(rest, others)
    ensures PlacesOf([p] + rest, others)
    ensures Written([p] + rest, others, n) == Shown(p, others, n) + Written(rest, others, n)
  {
    assert ([p] + rest)[1..] == rest;
  }

  lemma Assoc(a: Text, b: Text, c: Text)
    ensures (a + b) + c == a + (b + c)
  {
  }

  lemma PlacesConcat(a: seq<Piece>, b: seq<Piece>, others: seq<Secret>)
    requires PlacesOf(a, others) && PlacesOf(b, others)
    ensures PlacesOf(a + b, others)
  {
  }

  lemma {:induction false} WrittenConcat(a: seq<Piece>, b: seq<Piece>, others: seq<Secret>, n: nat)
    requires PlacesOf(a, others) && PlacesOf(b, others) && PlacesOf(a + b, others)
    ensures Written(a + b, others, n) == Written(a, others, n) + Written(b, others, n)
    decreases |a|
  {
    if a == [] {
      assert a + b == b;
    } else {
      var p, rest := a[0], a[1..];
      assert a == [p] + rest && p in a && forall q <- rest :: q in a;
      PlacesConcat(rest, b, others);
      WrittenConcat(rest, b, others, n);
      ConsConcat(p, rest, b);
      WrittenCons(p, rest, others, n);
      WrittenCons(p, rest + b, others, n);
      Assoc(Shown(p, others, n), Written(rest, others, n), Written(b, others, n));
    }
  }

  lemma ConsConcat<T>(p: T, rest: seq<T>, b: seq<T>)
    ensures ([p] + rest) + b == [p] + (rest + b)
  {
  }

  lemma {:induction false} AbsentCharacter(pieces: seq<Piece>, others: seq<Secret>, c: char)
    requires PlacesOf(pieces, others)
    requires (forall p <- pieces :: p.Plain? ==> c !in p.text) && (forall s <- others :: c !in s.Marker())
    ensures c !in Written(pieces, others, |others|)
    decreases |pieces|
  {
    if pieces != [] {
      assert pieces[0] in pieces && forall p <- pieces[1..] :: p in pieces;
      AbsentCharacter(pieces[1..], others, c);
      assert pieces[0].Place? ==> others[pieces[0].i] in others;
    }
  }

  lemma {:induction false} NoneIsPrimary(primary: Secret, others: seq<Secret>)
    requires forall s <- others :: s.value != primary.value
    ensures WithoutPrimary(primary, others) == others
  {
    if others != [] {
      var n := |others| - 1;
      assert others[n] in others && others == others[..n] + [others[n]];
      assert forall s <- others[..n] :: s in others;
      NoneIsPrimary(primary, others[..n]);
    }
  }

  /** The snippet around the primary value. */
  function Around(before: seq<Piece>, middle: Text, after: seq<Piece>, others: seq<Secret>, n: nat): Text
    requires PlacesOf(before, others) && PlacesOf(after, others)
  {
    Written(before, others, n) + middle + Written(after, others, n)
  }

  lemma AroundIsWritten(before: seq<Piece>, middle: Text, after: seq<Piece>, others: seq<Secret>, n: nat)
    requires PlacesOf(before, others) && PlacesOf(after, others)
    ensures PlacesOf(before + [Plain(middle)] + after, others)
    ensures Around(before, middle, after, others, n) == Written(before + [Plain(middle)] + after, others, n)
  {
    assert PlacesOf([Plain(middle)], others);
    PlacesConcat(before, [Plain(middle)], others);
    PlacesConcat(before + [Plain(middle)], after, others);
    WrittenConcat(before, [Plain(middle)], others, n);
    WrittenConcat(before + [Plain(middle)], after, others, n);
    assert Written([Plain(middle)], others, n) == middle;
  }

  lemma MaskedAround(a: Text, b: Text, primary: Secret)
    requires primary.value != ""
    requires var t := a + primary.value + b; IsBoundary(t, |a|) && IsBoundary(t, |a| + |primary.value|)
    ensures MaskSpan(a + primary.value + b, primary, |a|, |a| + |primary.value|) == a + primary.Marker() + b
  {
    var t := a + primary.value + b;
    assert t[..|a|] == a && t[|a| + |primary.value|..] == b;
  }

  lemma MarkedForOthers(pieces: seq<Piece>, primary: Secret, others: seq<Secret>)
    requires AllMarked(pieces, [primary] + others)
    ensures AllMarked(pieces + [Plain(primary.Marker())], others)
    ensures forall s <- others :: s.value != primary.value
  {
    var known := [primary] + others;
    assert primary in known && forall s <- others :: s in known;
    forall s <- others
      ensures s.value != "" && Marked(s.value[0], s.value, pieces + [Plain(primary.Marker())], others)
      ensures s.value != primary.value
    {
      var i :| 0 <= i < |others| && others[i] == s;
      assert known[i + 1] == s && known[0] == primary;
    }
    forall i, j | 0 <= i < j < |others|
      ensures others[i].value != others[j].value
    {
      assert known[i + 1] == others[i] && known[j + 1] == others[j];
    }
  }

  lemma SamePieces(a: seq<Piece>, b: seq<Piece>, secrets: seq<Secret>)
    requires AllMarked(a, secrets) && forall p :: p in b ==> p in a
    ensures AllMarked(b, secrets)
  {
  }

  /**
   * Any number of secrets, each in its places: when the first character of every value is found
   * at that value's places only, the result is the snippet with the primary value replaced by its
   * marker, every place of another secret by that secret's marker, and everything else as it was.
   */
  lemma EveryPlaceMasked(before: seq<Piece>, after: seq<Piece>, primary: Secret, others: seq<Secret>)
    requires PlacesOf(before, others) && PlacesOf(after, others)
    requires AllMarked(before + after, [primary] + others)
    requires var t := Around(before, primary.value, after, others, 0);
             var s := |Written(before, others, 0)|;
             IsBoundary(t, s) && IsBoundary(t, s + |primary.value|)
    ensures var s := |Written(before, others, 0)|;
            RedactSnippetWith(Around(before, primary.value, after, others, 0), primary, s, s + |primary.value|, others)
            == Around(before, primary.Marker(), after, others, |others|)
  {
    PrimaryIsSomething(before + after, primary, others);
    OthersSwept(before, after, primary, others);
    NothingSwept(before, after, primary, others);
    MaskedAndSwept(Written(before, others, 0), Written(after, others, 0), primary, others,
                   Around(before, primary.Marker(), after, others, |others|));
  }

  lemma PrimaryIsSomething(pieces: seq<Piece>, primary: Secret, others: seq<Secret>)
    requires AllMarked(pieces, [primary] + others)
    ensures primary.value != ""
  {
    assert ([primary] + others)[0] == primary;
  }

  /** The call, with what its two sweeps come to. */
  lemma MaskedAndSwept(a: Text, b: Text, primary: Secret, others: seq<Secret>, result: Text)
    requires primary.value != ""
    requires var t := a + primary.value + b; IsBoundary(t, |a|) && IsBoundary(t, |a| + |primary.value|)
    requires Sweep(a + primary.Marker() + b, WithoutPrimary(primary, others)) == result
    requires Sweep(result, [primary] + others) == result
    ensures RedactSnippetWith(a + primary.value + b, primary, |a|, |a| + |primary.value|, others) == result
  {
    MaskedAround(a, b, primary);
  }

  /** The first sweep masks the places of the others. */
  lemma OthersSwept(before: seq<Piece>, after: seq<Piece>, primary: Secret, others: seq<Secret>)
    requires PlacesOf(before, others) && PlacesOf(after, others)
    requires AllMarked(before + after, [primary] + others)
    ensures Sweep(Around(before, primary.Marker(), after, others, 0), WithoutPrimary(primary, others))
            == Around(before, primary.Marker(), after, others, |others|)
  {
    var m := primary.Marker();
    var all := before + [Plain(m)] + after;
    AroundIsWritten(before, m, after, others, 0);
    AroundIsWritten(before, m, after, others, |others|);
    MarkedForOthers(before + after, primary, others);
    SamePieces(before + after + [Plain(m)], all, others);
    NoneIsPrimary(primary, others);
    SweepPieces(all, others, |others|);
    assert others[..|others|] == others;
  }

  /** The second finds nothing. */
  lemma NothingSwept(before: seq<Piece>, after: seq<Piece>, primary: Secret, others: seq<Secret>)
    requires PlacesOf(before, others) && PlacesOf(after, others)
    requires AllMarked(before + after, [primary] + others)
    ensures var text := Around(before, primary.Marker(), after, others, |others|);
            Sweep(text, [primary] + others) == text
  {
    AroundIsWritten(before, primary.Marker(), after, others, |others|);
    NothingLeft(before, after, primary, others);
    SweepAbsent(Around(before, primary.Marker(), after, others, |others|), [primary] + others);
  }

  /** Once every place is masked none of the values is left. */
  lemma NothingLeft(before: seq<Piece>, after: seq<Piece>, primary: Secret, others: seq<Secret>)
    requires PlacesOf(before + [Plain(primary.Marker())] + after, others)
    requires AllMarked(before + after, [primary] + others)
    ensures forall s <- [primary] + others :: !Contains(Written(before + [Plain(primary.Marker())] + after, others, |others|), s.value)
  {
    var known, all := [primary] + others, before + [Plain(primary.Marker())] + after;
    assert primary in known && forall o <- others :: o in known;
    forall s <- known
      ensures !Contains(Written(all, others, |others|), s.value)
    {
      assert Marked(s.value[0], s.value, before + after, known);
      forall p <- all
        ensures p.Plain? ==> s.value[0] !in p.text
      {
        assert p in before + after || p == Plain(primary.Marker());
      }
      AbsentCharacter(all, others, s.value[0]);
      FirstElementMissing(Written(all, others, |others|), s.value);
    }
  }
}
