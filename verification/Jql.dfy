/** JQL as text and as a query: normalisation and the incremental narrowing (src/checkpoint.rs). */
module Jql {
  import opened Wrappers
  import opened Chars

  // ----- words -----

  /** Where the word that starts at `i` ends. */
  function WordEnd(s: string, i: nat): (e: nat)
    requires i <= |s|
    ensures i <= e <= |s|
    ensures forall k | i <= k < e :: !IsWhitespace(s[k])
    ensures e < |s| ==> IsWhitespace(s[e])
    decreases |s| - i
  {
    if i < |s| && !IsWhitespace(s[i]) then WordEnd(s, i + 1) else i
  }

  /** The maximal runs of other characters, in order. */
  function Words(s: string): (words: seq<string>)
    decreases |s|
  {
    if s == "" then []
    else if IsWhitespace(s[0]) then Words(s[1..])
    else
      var e := WordEnd(s, 1);
      [s[..e]] + Words(s[e..])
  }

  predicate IsWord(w: string) {
    w != "" && forall c <- w :: !IsWhitespace(c)
  }

  function Joined(words: seq<string>): string {
    if words == [] then ""
    else if |words| == 1 then words[0]
    else words[0] + " " + Joined(words[1..])
  }

  /** The form in which two queries are compared. */
  function Normalized(jql: string): string {
    Joined(Words(jql))
  }

  lemma {:induction false} WordsAreWords(s: string)
    ensures forall w <- Words(s) :: IsWord(w)
    decreases |s|
  {
    if s != "" {
      if IsWhitespace(s[0]) {
        WordsAreWords(s[1..]);
      } else {
        var e := WordEnd(s, 1);
        WordsAreWords(s[e..]);
        assert IsWord(s[..e]);
      }
    }
  }

  /** Reading one word off the front. */
  lemma WordThenSpace(w: string, rest: string)
    requires IsWord(w)
    ensures Words(w) == [w]
    ensures Words(w + " " + rest) == [w] + Words(rest)
  {
    var s := w + " " + rest;
    assert s[|w|] == ' ' && forall k | 0 <= k < |w| :: s[k] == w[k];
    assert WordEnd(s, 1) == |w|;
    assert s[..|w|] == w && s[|w|..][1..] == rest;
    assert WordEnd(w, 1) == |w| && w[..|w|] == w && w[|w|..] == "";
  }

  lemma {:induction false} WordsOfJoined(words: seq<string>)
    requires forall w <- words :: IsWord(w)
    ensures Words(Joined(words)) == words
  {
    if |words| == 1 {
      WordThenSpace(words[0], "");
    } else if |words| > 1 {
      WordsOfJoined(words[1..]);
      WordThenSpace(words[0], Joined(words[1..]));
    }
  }

  /** The words of a text: whitespace before them is skipped, and any whitespace ends one. */
  lemma WordsAreRuns(w: string, space: char, rest: string)
    requires IsWhitespace(space)
    ensures Words([space] + rest) == Words(rest)
    ensures IsWord(w) ==> Words(w) == [w] && Words(w + ([space] + rest)) == [w] + Words(rest)
  {
    assert ([space] + rest)[1..] == rest;
    if IsWord(w) {
      var s := w + ([space] + rest);
      WordThenSpace(w, "");
      assert s[|w|] == space && forall k | 0 <= k < |w| :: s[k] == w[k];
      assert WordEnd(s, 1) == |w|;
      assert s[..|w|] == w && s[|w|..] == [space] + rest;
    }
  }

  /** Two queries are treated as the same exactly when they have the same words. */
  lemma SameQueryIffSameWords(a: string, b: string)
    ensures Normalized(a) == Normalized(b) <==> Words(a) == Words(b)
    ensures Normalized(Normalized(a)) == Normalized(a)
  {
    WordsAreWords(a);
    WordsAreWords(b);
    WordsOfJoined(Words(a));
    WordsOfJoined(Words(b));
  }

  /** A doubled space after a word changes nothing. */
  lemma DoubledSpace(w: string, rest: string)
    requires IsWord(w)
    ensures Normalized(w + " " + (" " + rest)) == Normalized(w + " " + rest)
  {
    WordThenSpace(w, " " + rest);
    WordThenSpace(w, rest);
    assert (" " + rest)[1..] == rest;
  }

  /** Spaces inside a quoted value are collapsed too, so two different queries can compare equal. */
  lemma QuotedSpacesCollide()
    ensures "t~'a  b'" != "t~'a b'" && Normalized("t~'a  b'") == Normalized("t~'a b'")
  {
    DoubledSpace("t~'a", "b'");
    assert "t~'a  b'" == "t~'a" + " " + (" " + "b'");
    assert "t~'a b'" == "t~'a" + " " + "b'";
  }

  // ----- the narrowed query -----

  /** A clause, and an order clause with everything after its keywords, are one token each. */
  datatype Token = Open | Close | And | Or | Not | Clause(id: nat) | OrderBy(id: nat)

  datatype Query = Is(id: nat) | Both(left: Query, right: Query) | Either(left: Query, right: Query) | Negated(inner: Query)

  /** Which issues match: an issue is the set of the clauses that hold of it. */
  predicate Matches(q: Query, issue: set<nat>) {
    match q
    case Is(id) => id in issue
    case Both(l, r) => Matches(l, issue) && Matches(r, issue)
    case Either(l, r) => Matches(l, issue) || Matches(r, issue)
    case Negated(n) => !Matches(n, issue)
  }

  datatype Parsed = Parsed(query: Query, rest: seq<Token>)

  /** JQL precedence: parentheses, then `NOT`, then `AND`, then `OR`. */
  function ParseOr(ts: seq<Token>): (p: Option<Parsed>)
    ensures p.Some? ==> |p.value.rest| < |ts|
    decreases |ts|, 2
  {
    match ParseAnd(ts)
    case None => None
    case Some(l) =>
      if l.rest == [] || l.rest[0] != Or then Some(l)
      else
        match ParseOr(l.rest[1..])
        case None => None
        case Some(r) => Some(Parsed(Either(l.query, r.query), r.rest))
  }

  function ParseAnd(ts: seq<Token>): (p: Option<Parsed>)
    ensures p.Some? ==> |p.value.rest| < |ts|
    decreases |ts|, 1
  {
    match ParseUnit(ts)
    case None => None
    case Some(l) =>
      if l.rest == [] || l.rest[0] != And then Some(l)
      else
        match ParseAnd(l.rest[1..])
        case None => None
        case Some(r) => Some(Parsed(Both(l.query, r.query), r.rest))
  }

  function ParseUnit(ts: seq<Token>): (p: Option<Parsed>)
    ensures p.Some? ==> |p.value.rest| < |ts|
    decreases |ts|, 0
  {
    if ts == [] then None
    else if ts[0].Clause? then Some(Parsed(Is(ts[0].id), ts[1..]))
    else if ts[0] == Not then
      match ParseUnit(ts[1..])
      case None => None
      case Some(p) => Some(Parsed(Negated(p.query), p.rest))
    else if ts[0] != Open then None
    else
      match ParseOr(ts[1..])
      case None => None
      case Some(p) => if p.rest == [] || p.rest[0] != Close then None else Some(Parsed(p.query, p.rest[1..]))
  }

  /** A whole query: what it filters by, nothing when it has no filter, and how it is ordered. */
  datatype Statement = Statement(filter: Option<Query>, order: Option<nat>) {
    predicate Selects(issue: set<nat>) {
      filter.Some? ==> Matches(filter.value, issue)
    }
  }

  /** A filter, an order clause at the very end, both, or neither. */
  function Meaning(ts: seq<Token>): Option<Statement> {
    if ts == [] then Some(Statement(None, None))
    else if |ts| == 1 && ts[0].OrderBy? then Some(Statement(None, Some(ts[0].id)))
    else
      match ParseOr(ts)
      case None => None
      case Some(p) =>
        if p.rest == [] then Some(Statement(Some(p.query), None))
        else if |p.rest| == 1 && p.rest[0].OrderBy? then Some(Statement(Some(p.query), Some(p.rest[0].id)))
        else None
  }

  /** `narrow_jql`: parentheses around the configured query, then the window clause. */
  function Narrowed(jql: seq<Token>, window: nat): seq<Token> {
    if jql == [] then [Clause(window)] else [Open] + jql + [Close, And, Clause(window)]
  }

  /** A token that cannot continue a condition. */
  predicate EndsCondition(tail: seq<Token>) {
    tail != [] && tail[0] != And && tail[0] != Or
  }

  /** What follows the end of a condition does not change what was read before it. */
  lemma {:induction false} ExtendOr(ts: seq<Token>, tail: seq<Token>)
    requires ParseOr(ts).Some? && EndsCondition(tail)
    ensures ParseOr(ts + tail) == Some(Parsed(ParseOr(ts).value.query, ParseOr(ts).value.rest + tail))
    decreases |ts|, 2
  {
    ExtendAnd(ts, tail);
    var l := ParseAnd(ts).value;
    if l.rest != [] && l.rest[0] == Or {
      ExtendOr(l.rest[1..], tail);
      assert (l.rest + tail)[1..] == l.rest[1..] + tail;
    }
  }

  lemma {:induction false} ExtendAnd(ts: seq<Token>, tail: seq<Token>)
    requires ParseAnd(ts).Some? && EndsCondition(tail)
    ensures ParseAnd(ts + tail) == Some(Parsed(ParseAnd(ts).value.query, ParseAnd(ts).value.rest + tail))
    decreases |ts|, 1
  {
    ExtendUnit(ts, tail);
    var l := ParseUnit(ts).value;
    if l.rest != [] && l.rest[0] == And {
      ExtendAnd(l.rest[1..], tail);
      assert (l.rest + tail)[1..] == l.rest[1..] + tail;
    }
  }

  lemma {:induction false} ExtendUnit(ts: seq<Token>, tail: seq<Token>)
    requires ParseUnit(ts).Some? && EndsCondition(tail)
    ensures ParseUnit(ts + tail) == Some(Parsed(ParseUnit(ts).value.query, ParseUnit(ts).value.rest + tail))
    decreases |ts|, 0
  {
    assert (ts + tail)[1..] == ts[1..] + tail;
    if ts[0] == Not {
      ExtendUnit(ts[1..], tail);
    } else if ts[0] == Open {
      ExtendOr(ts[1..], tail);
      var p := ParseOr(ts[1..]).value;
      assert (p.rest + tail)[1..] == p.rest[1..] + tail;
    }
  }

  /** What is left after reading a query's filter, before the end of the narrowed query. */
  function WindowTail(window: nat): seq<Token> {
    [Close, And, Clause(window)]
  }

  lemma LastClause(window: nat)
    ensures ParseAnd([Clause(window)]) == ParseOr([Clause(window)]) == Some(Parsed(Is(window), []))
    ensures WindowTail(window)[1..] == [And, Clause(window)] && [And, Clause(window)][1..] == [Clause(window)]
  {
    assert ParseUnit([Clause(window)]) == Some(Parsed(Is(window), []));
  }

  lemma AfterFirst<T>(x: T, s: seq<T>, tail: seq<T>)
    ensures ([x] + s + tail)[0] == x && ([x] + s + tail)[1..] == s + tail
    ensures [] + tail == tail
  {
  }

  lemma ParenthesizedUnit(jql: seq<Token>, window: nat, q: Query)
    requires jql != [] && ParseOr(jql) == Some(Parsed(q, []))
    ensures ParseUnit(Narrowed(jql, window)) == Some(Parsed(q, WindowTail(window)[1..]))
  {
    var tail := WindowTail(window);
    ExtendOr(jql, tail);
    AfterFirst(Open, jql, tail);
  }

  /** A parsed filter, then the window clause. */
  lemma JoinedWithWindow(all: seq<Token>, window: nat, q: Query)
    requires ParseUnit(all) == Some(Parsed(q, [And, Clause(window)]))
    ensures ParseOr(all) == Some(Parsed(Both(q, Is(window)), []))
  {
    LastClause(window);
    assert ParseAnd(all) == Some(Parsed(Both(q, Is(window)), []));
  }

  /** A filter without an order clause is read up to the closing parenthesis and joined with the window. */
  lemma NarrowedFilter(jql: seq<Token>, window: nat, q: Query)
    requires jql != [] && ParseOr(jql) == Some(Parsed(q, []))
    ensures Meaning(Narrowed(jql, window)) == Some(Statement(Some(Both(q, Is(window))), None))
  {
    LastClause(window);
    ParenthesizedUnit(jql, window, q);
    JoinedWithWindow(Narrowed(jql, window), window, q);
  }

  /** An order clause stops the reading inside the parentheses. */
  lemma NarrowedOrder(jql: seq<Token>, window: nat, q: Query, order: nat)
    requires ParseOr(jql) == Some(Parsed(q, [OrderBy(order)]))
    ensures Meaning(Narrowed(jql, window)).None?
  {
    var tail, all := WindowTail(window), Narrowed(jql, window);
    ExtendOr(jql, tail);
    assert all[1..] == jql + tail;
    assert ([OrderBy(order)] + tail)[0] == OrderBy(order);
    assert ParseUnit(all).None?;
    assert ParseAnd(all).None? && ParseOr(all).None?;
  }

  lemma NarrowedBareOrder(window: nat, order: nat)
    ensures Meaning(Narrowed([OrderBy(order)], window)).None?
  {
    var all := Narrowed([OrderBy(order)], window);
    assert all[1..] == [OrderBy(order)] + WindowTail(window);
    assert ParseUnit(all[1..]).None? && ParseAnd(all[1..]).None? && ParseOr(all[1..]).None?;
    assert ParseUnit(all).None? && ParseAnd(all).None? && ParseOr(all).None?;
  }

  /**
   * For every query that is JQL: narrowing it is JQL if and only if it has no order clause, and
   * then selects the issues the query selects that lie in the window.
   */
  lemma NarrowingMeans(jql: seq<Token>, window: nat)
    requires Meaning(jql).Some?
    ensures Meaning(Narrowed(jql, window)).Some? <==> Meaning(jql).value.order.None?
    ensures Meaning(jql).value.order.None? ==>
              forall issue: set<nat> ::
                Meaning(Narrowed(jql, window)).value.Selects(issue) <==> Meaning(jql).value.Selects(issue) && window in issue
  {
    if jql == [] {
      LastClause(window);
    } else if |jql| == 1 && jql[0].OrderBy? {
      NarrowedBareOrder(window, jql[0].id);
      assert jql == [OrderBy(jql[0].id)];
    } else {
      var p := ParseOr(jql).value;
      if p.rest == [] {
        NarrowedFilter(jql, window, p.query);
        forall issue: set<nat>
          ensures Matches(Both(p.query, Is(window)), issue) <==> Matches(p.query, issue) && window in issue
        {
        }
      } else {
        assert p.rest == [OrderBy(p.rest[0].id)];
        NarrowedOrder(jql, window, p.query, p.rest[0].id);
      }
    }
  }

  /** Without the parentheses an `OR` escapes the window: an old issue still matches. */
  lemma ParenthesesNeeded(a: nat, b: nat, window: nat)
    requires a != window
    ensures var bare := [Clause(a), Or, Clause(b), And, Clause(window)];
            && Meaning(bare) == Some(Statement(Some(Either(Is(a), Both(Is(b), Is(window)))), None))
            && Meaning(bare).value.Selects({a}) && window !in {a}
  {
    var bare := [Clause(a), Or, Clause(b), And, Clause(window)];
    var right := [Clause(b), And, Clause(window)];
    LastClause(window);
    assert right[1..] == [And, Clause(window)];
    assert ParseUnit(right) == Some(Parsed(Is(b), [And, Clause(window)]));
    assert ParseAnd(right) == Some(Parsed(Both(Is(b), Is(window)), []));
    assert ParseOr(right) == Some(Parsed(Both(Is(b), Is(window)), []));
    assert bare[1..] == [Or] + right && ([Or] + right)[1..] == right;
    assert ParseUnit(bare) == Some(Parsed(Is(a), [Or] + right));
    assert ParseAnd(bare) == Some(Parsed(Is(a), [Or] + right));
    assert ParseOr(bare) == Some(Parsed(Either(Is(a), Both(Is(b), Is(window))), []));
  }
}
