/**
 * The credential-pair detector (src/credpair.rs). The regular expressions, the JSON parser
 * and the placeholder dictionary are oracles; what they return is arbitrary.
 */
module CredPair {
  import opened Sequences
  import opened Text
  import opened Wrappers

  const PROXIMITY_WINDOW_BYTES: nat := 200
  const MAX_MATCHES_PER_PATTERN: nat := 4096
  const MAX_HITS_PER_SEGMENT: nat := 256
  const MAX_SCAN_BYTES: nat := 64 * 1024

  datatype Format = Json | UrlUserinfo | Proximity

  datatype Hit = Hit(username: string, password: string, format: Format)

  /** A captured value and the byte offset where it starts. */
  datatype Span = Span(pos: nat, value: string)

  /** The two groups of a URL match; a group may be missing. */
  datatype UrlMatch = UrlMatch(user: Option<string>, pass: Option<string>)

  /** A JSON member is a string or something else. */
  datatype JsonValue = JsonString(value: string) | JsonOther

  /** The patterns, if they compile, and what they and the other oracles find. */
  datatype Oracles = Oracles(
    compiled: bool,
    url: Text -> seq<UrlMatch>,
    users: Text -> seq<Span>,
    passwords: Text -> seq<Span>,
    parsed: Text -> Option<map<string, JsonValue>>,
    isPlaceholder: string -> bool)

  const JSON_USERNAME_KEYS: seq<string> := ["username", "user", "login", "email", "client_id", "clientId"]

  const JSON_PASSWORD_KEYS: seq<string> :=
    ["password", "pass", "passwd", "pwd", "secret", "client_secret", "clientSecret", "api_key", "apiKey"]

  // ----- the hits each phase would report without the cap -----

  function UrlHits(matches: seq<UrlMatch>, isPlaceholder: string -> bool): seq<Hit> {
    if matches == [] then []
    else
      var m := matches[|matches| - 1];
      UrlHits(matches[..|matches| - 1], isPlaceholder) + UrlHitsOf(m, isPlaceholder)
  }

  /** The hit of one match, when it names a user and a real password. */
  function UrlHitsOf(m: UrlMatch, isPlaceholder: string -> bool): seq<Hit> {
    if m.user.None? || m.pass.None? || isPlaceholder(m.pass.value) then []
    else [Hit(m.user.value, m.pass.value, UrlUserinfo)]
  }

  predicate Near(user: Span, password: Span) {
    password.pos - PROXIMITY_WINDOW_BYTES <= user.pos <= password.pos + PROXIMITY_WINDOW_BYTES
  }

  /** The nested filter, inner loop: every username within the window, in order. */
  function PairsFor(users: seq<Span>, password: Span): seq<Hit> {
    if users == [] then []
    else
      var u := users[|users| - 1];
      PairsFor(users[..|users| - 1], password)
      + if Near(u, password) then [Hit(u.value, password.value, Proximity)] else []
  }

  /** The nested filter, outer loop. */
  function ProximityHits(users: seq<Span>, passwords: seq<Span>, isPlaceholder: string -> bool): seq<Hit> {
    if passwords == [] then []
    else
      var p := passwords[|passwords| - 1];
      ProximityHits(users, passwords[..|passwords| - 1], isPlaceholder)
      + if isPlaceholder(p.value) then [] else PairsFor(users, p)
  }

  /** The value of a username alias, when it is a non-empty string. */
  function UserAt(obj: map<string, JsonValue>, key: string): Option<string> {
    if key in obj && obj[key].JsonString? && obj[key].value != "" then Some(obj[key].value) else None
  }

  function PasswordAt(obj: map<string, JsonValue>, key: string, isPlaceholder: string -> bool): Option<string> {
    if key in obj && obj[key].JsonString? && obj[key].value != "" && !isPlaceholder(obj[key].value)
    then Some(obj[key].value) else None
  }

  function AddPair(seen: seq<(string, string)>, user: string, pass: string): seq<(string, string)> {
    if (user, pass) in seen then seen else seen + [(user, pass)]
  }

  /** The distinct pairs after one username alias and some password aliases. */
  function PairsWithUser(obj: map<string, JsonValue>, user: string, keys: seq<string>, isPlaceholder: string -> bool,
                         seen: seq<(string, string)>): seq<(string, string)> {
    if keys == [] then seen
    else
      var before := PairsWithUser(obj, user, keys[..|keys| - 1], isPlaceholder, seen);
      match PasswordAt(obj, keys[|keys| - 1], isPlaceholder)
      case None => before
      case Some(pass) => AddPair(before, user, pass)
  }

  /** The distinct pairs of an object, in alias order. */
  function JsonPairs(obj: map<string, JsonValue>, userKeys: seq<string>, isPlaceholder: string -> bool): seq<(string, string)> {
    if userKeys == [] then []
    else
      var before := JsonPairs(obj, userKeys[..|userKeys| - 1], isPlaceholder);
      match UserAt(obj, userKeys[|userKeys| - 1])
      case None => before
      case Some(user) => PairsWithUser(obj, user, JSON_PASSWORD_KEYS, isPlaceholder, before)
  }

  function AsHits(pairs: seq<(string, string)>): (hits: seq<Hit>)
    ensures |hits| == |pairs|
  {
    seq(|pairs|, i requires 0 <= i < |pairs| => Hit(pairs[i].0, pairs[i].1, Json))
  }

  function JsonHits(parsed: Option<map<string, JsonValue>>, isPlaceholder: string -> bool): seq<Hit> {
    match parsed
    case None => []
    case Some(obj) => AsHits(JsonPairs(obj, JSON_USERNAME_KEYS, isPlaceholder))
  }

  // ----- the shared, bounded vector -----

  class HitList {
    var hits: seq<Hit>

    constructor ()
      ensures hits == []
    {
      hits := [];
    }

    /** Push one hit unless the budget is used up; false tells the caller to stop. */
    method PushHit(hit: Hit) returns (more: bool)
      modifies this
      ensures more <==> |old(hits)| < MAX_HITS_PER_SEGMENT
      ensures hits == if more then old(hits) + [hit] else old(hits)
    {
      if |hits| >= MAX_HITS_PER_SEGMENT {
        return false;
      }
      hits := hits + [hit];
      return true;
    }

    method DetectUrlUserinfo(matches: seq<UrlMatch>, isPlaceholder: string -> bool)
      requires |hits| <= MAX_HITS_PER_SEGMENT
      modifies this
      ensures hits == Take(old(hits) + UrlHits(Take(matches, MAX_MATCHES_PER_PATTERN), isPlaceholder), MAX_HITS_PER_SEGMENT)
    {
      var bounded := Take(matches, MAX_MATCHES_PER_PATTERN);
      for i := 0 to |bounded|
        invariant |hits| <= MAX_HITS_PER_SEGMENT
        invariant hits == old(hits) + UrlHits(bounded[..i], isPlaceholder)
      {
        var m := bounded[i];
        UrlStep(old(hits), bounded, i, isPlaceholder);
        if m.user.None? || m.pass.None? || isPlaceholder(m.pass.value) {
          continue;
        }
        var more := PushHit(Hit(m.user.value, m.pass.value, UrlUserinfo));
        if !more {
          return;
        }
      }
      assert bounded[..|bounded|] == bounded;
    }

    /**
     * The sliding window over position-sorted matches. `advances` counts the cursor steps.
     */
    method DetectProximity(users: seq<Span>, passwords: seq<Span>, isPlaceholder: string -> bool) returns (ghost advances: nat)
      requires |hits| <= MAX_HITS_PER_SEGMENT
      requires SortedByPos(users) && SortedByPos(passwords)
      modifies this
      ensures hits == Take(old(hits) + ProximityHits(users, passwords, isPlaceholder), MAX_HITS_PER_SEGMENT)
      ensures advances <= 2 * |users|
    {
      var lo, hi := 0, 0;
      advances := 0;
      for i := 0 to |passwords|
        invariant 0 <= lo <= |users| && 0 <= hi <= |users|
        invariant advances <= lo + hi
        invariant |hits| <= MAX_HITS_PER_SEGMENT
        invariant hits == old(hits) + ProximityHits(users, passwords[..i], isPlaceholder)
        invariant i < |passwords| ==> Behind(users, passwords[i], lo, hi)
      {
        var p := passwords[i];
        assert i + 1 < |passwords| ==> p.pos <= passwords[i + 1].pos;
        if isPlaceholder(p.value) {
          ProximityStep(old(hits), users, passwords, i, isPlaceholder);
          continue;
        }
        ghost var steps;
        lo, hi, steps := MoveCursors(users, p, lo, hi);
        advances := advances + steps;
        WindowIsFilter(users, p, lo, hi);
        var full := PushWindow(users[lo..hi], p);
        ProximityStep(old(hits), users, passwords, i, isPlaceholder);
        if full {
          return;
        }
      }
      assert passwords[..|passwords|] == passwords;
    }

    /** Push every username of the window; true when the budget ran out on the way. */
    method PushWindow(window: seq<Span>, p: Span) returns (full: bool)
      requires |hits| <= MAX_HITS_PER_SEGMENT
      modifies this
      ensures full <==> |old(hits)| + |window| > MAX_HITS_PER_SEGMENT
      ensures !full ==> hits == old(hits) + AllPairs(window, p)
      ensures full ==> hits == Take(old(hits) + AllPairs(window, p), MAX_HITS_PER_SEGMENT)
    {
      for j := 0 to |window|
        invariant |hits| <= MAX_HITS_PER_SEGMENT
        invariant hits == old(hits) + AllPairs(window[..j], p)
      {
        assert AllPairs(window[..j + 1], p) == AllPairs(window[..j], p) + [Hit(window[j].value, p.value, Proximity)];
        assert AllPairs(window[..j + 1], p) == AllPairs(window, p)[..j + 1];
        assert |AllPairs(window[..j], p)| == j;
        var more := PushHit(Hit(window[j].value, p.value, Proximity));
        if !more {
          return true;
        }
      }
      assert window[..|window|] == window;
      return false;
    }

    method DetectJson(parsed: Option<map<string, JsonValue>>, isPlaceholder: string -> bool)
      requires |hits| <= MAX_HITS_PER_SEGMENT
      modifies this
      ensures hits == Take(old(hits) + JsonHits(parsed, isPlaceholder), MAX_HITS_PER_SEGMENT)
    {
      if parsed.None? {
        return;
      }
      var obj := parsed.value;
      var seen: seq<(string, string)> := [];
      var done := false;
      var ui := 0;
      while ui < |JSON_USERNAME_KEYS| && !done
        invariant 0 <= ui <= |JSON_USERNAME_KEYS|
        invariant |hits| <= MAX_HITS_PER_SEGMENT
        invariant !done ==> seen == JsonPairs(obj, JSON_USERNAME_KEYS[..ui], isPlaceholder) && hits == old(hits) + AsHits(seen)
        invariant done ==> hits == Take(old(hits) + AsHits(JsonPairs(obj, JSON_USERNAME_KEYS, isPlaceholder)), MAX_HITS_PER_SEGMENT)
      {
        var user := UserAt(obj, JSON_USERNAME_KEYS[ui]);
        JsonStep(obj, JSON_USERNAME_KEYS, ui, isPlaceholder);
        if user.Some? {
          seen, done := PushUser(obj, user.value, isPlaceholder, seen, old(hits));
          if done {
            JsonPairsGrow(obj, JSON_USERNAME_KEYS, ui + 1, isPlaceholder);
            FullIsCut(hits, old(hits), JsonPairs(obj, JSON_USERNAME_KEYS[..ui + 1], isPlaceholder),
                      JsonPairs(obj, JSON_USERNAME_KEYS, isPlaceholder));
          }
        }
        ui := ui + 1;
      }
      assert JSON_USERNAME_KEYS[..|JSON_USERNAME_KEYS|] == JSON_USERNAME_KEYS;
    }

    /** The password aliases of one username. */
    method PushUser(obj: map<string, JsonValue>, user: string, isPlaceholder: string -> bool,
                    seenBefore: seq<(string, string)>, ghost start: seq<Hit>)
        returns (seen: seq<(string, string)>, full: bool)
      requires |hits| <= MAX_HITS_PER_SEGMENT && hits == start + AsHits(seenBefore)
      modifies this
      ensures |hits| <= MAX_HITS_PER_SEGMENT
      ensures var after := PairsWithUser(obj, user, JSON_PASSWORD_KEYS, isPlaceholder, seenBefore);
              && (!full ==> seen == after && hits == start + AsHits(after))
              && (full ==> |hits| == MAX_HITS_PER_SEGMENT && hits <= start + AsHits(after))
    {
      seen := seenBefore;
      for pi := 0 to |JSON_PASSWORD_KEYS|
        invariant |hits| <= MAX_HITS_PER_SEGMENT
        invariant seen == PairsWithUser(obj, user, JSON_PASSWORD_KEYS[..pi], isPlaceholder, seenBefore)
        invariant hits == start + AsHits(seen)
      {
        var pass := PasswordAt(obj, JSON_PASSWORD_KEYS[pi], isPlaceholder);
        assert JSON_PASSWORD_KEYS[..pi + 1][..pi] == JSON_PASSWORD_KEYS[..pi];
        if pass.None? || (user, pass.value) in seen {
          continue;
        }
        seen := seen + [(user, pass.value)];
        var more := PushHit(Hit(user, pass.value, Json));
        PairsGrow(obj, user, JSON_PASSWORD_KEYS, pi + 1, isPlaceholder, seenBefore);
        if !more {
          return seen, true;
        }
      }
      assert JSON_PASSWORD_KEYS[..|JSON_PASSWORD_KEYS|] == JSON_PASSWORD_KEYS;
      full := false;
    }
  }

  /** Every username before `lo` is before the window of `p`, and none before `hi` is after it. */
  predicate Behind(users: seq<Span>, p: Span, lo: nat, hi: nat)
    requires lo <= |users| && hi <= |users|
  {
    && (forall j | 0 <= j < lo :: users[j].pos < p.pos - PROXIMITY_WINDOW_BYTES)
    && (forall j | 0 <= j < hi :: users[j].pos <= p.pos + PROXIMITY_WINDOW_BYTES)
  }

  /** The pairs of one more password extend what came before, and past the cap the rest does not matter. */
  lemma ProximityStep(start: seq<Hit>, users: seq<Span>, passwords: seq<Span>, i: nat, isPlaceholder: string -> bool)
    requires i < |passwords|
    ensures var before := start + ProximityHits(users, passwords[..i], isPlaceholder);
            var after := start + ProximityHits(users, passwords[..i + 1], isPlaceholder);
            var all := start + ProximityHits(users, passwords, isPlaceholder);
            && after == (if isPlaceholder(passwords[i].value) then before else before + PairsFor(users, passwords[i]))
            && (|after| >= MAX_HITS_PER_SEGMENT ==> Take(after, MAX_HITS_PER_SEGMENT) == Take(all, MAX_HITS_PER_SEGMENT))
  {
    ProximityHitsGrow(users, passwords, i, isPlaceholder);
    Extend(start, ProximityHits(users, passwords[..i], isPlaceholder),
           if isPlaceholder(passwords[i].value) then [] else PairsFor(users, passwords[i]),
           ProximityHits(users, passwords, isPlaceholder));
  }

  lemma Extend(start: seq<Hit>, before: seq<Hit>, step: seq<Hit>, all: seq<Hit>)
    requires before + step <= all
    ensures start + (before + step) == start + before + step
    ensures step == [] ==> start + (before + step) == start + before
    ensures |start + (before + step)| >= MAX_HITS_PER_SEGMENT ==>
              Take(start + (before + step), MAX_HITS_PER_SEGMENT) == Take(start + all, MAX_HITS_PER_SEGMENT)
  {
  }

  /** Move both cursors forward to the window of `p`; neither ever moves back. */
  method MoveCursors(users: seq<Span>, p: Span, lo0: nat, hi0: nat) returns (lo: nat, hi: nat, ghost steps: nat)
    requires SortedByPos(users) && lo0 <= |users| && hi0 <= |users|
    requires Behind(users, p, lo0, hi0)
    ensures lo0 <= lo <= hi <= |users| && hi0 <= hi
    ensures steps == (lo - lo0) + (hi - hi0)
    ensures Behind(users, p, lo, hi)
    ensures forall j | lo <= j < hi :: Near(users[j], p)
    ensures forall j | hi <= j < |users| :: users[j].pos > p.pos + PROXIMITY_WINDOW_BYTES
  {
    lo, hi, steps := lo0, hi0, 0;
    var windowStart := if p.pos < PROXIMITY_WINDOW_BYTES then 0 else p.pos - PROXIMITY_WINDOW_BYTES;
    var windowEnd := p.pos + PROXIMITY_WINDOW_BYTES;
    while lo < |users| && users[lo].pos < windowStart
      invariant lo0 <= lo <= |users| && steps == lo - lo0
      invariant forall j | 0 <= j < lo :: users[j].pos < p.pos - PROXIMITY_WINDOW_BYTES
    {
      lo, steps := lo + 1, steps + 1;
    }
    if hi < lo {
      steps := steps + (lo - hi);
      hi := lo;
    }
    while hi < |users| && users[hi].pos <= windowEnd
      invariant lo <= hi <= |users| && hi0 <= hi && steps == (lo - lo0) + (hi - hi0)
      invariant forall j | 0 <= j < hi :: users[j].pos <= windowEnd
    {
      hi, steps := hi + 1, steps + 1;
    }
  }

  // ----- growth of the specifications -----

  lemma {:induction false} UrlHitsGrow(matches: seq<UrlMatch>, i: nat, isPlaceholder: string -> bool)
    requires i < |matches|
    ensures UrlHits(matches[..i + 1], isPlaceholder) <= UrlHits(matches, isPlaceholder)
    ensures var m := matches[i];
            UrlHits(matches[..i + 1], isPlaceholder)
            == UrlHits(matches[..i], isPlaceholder) + UrlHitsOf(m, isPlaceholder)
  {
    assert matches[..i + 1][..i] == matches[..i];
    if i + 1 < |matches| {
      UrlHitsGrow(matches[..|matches| - 1], i, isPlaceholder);
      assert matches[..|matches| - 1][..i + 1] == matches[..i + 1];
    } else {
      assert matches[..i + 1] == matches;
    }
  }

  /** The hit of one more match extends what came before, and past the cap the rest does not matter. */
  lemma UrlStep(start: seq<Hit>, matches: seq<UrlMatch>, i: nat, isPlaceholder: string -> bool)
    requires i < |matches|
    ensures var before := start + UrlHits(matches[..i], isPlaceholder);
            var after := start + UrlHits(matches[..i + 1], isPlaceholder);
            var all := start + UrlHits(matches, isPlaceholder);
            && after == (if UrlHitsOf(matches[i], isPlaceholder) == [] then before else before + UrlHitsOf(matches[i], isPlaceholder))
            && (|before| >= MAX_HITS_PER_SEGMENT ==> Take(before, MAX_HITS_PER_SEGMENT) == Take(all, MAX_HITS_PER_SEGMENT))
  {
    UrlHitsGrow(matches, i, isPlaceholder);
    var before, step, all := UrlHits(matches[..i], isPlaceholder), UrlHitsOf(matches[i], isPlaceholder), UrlHits(matches, isPlaceholder);
    Extend(start, before, step, all);
    assert before <= before + step <= all && before + [] == before;
    Extend(start, before, [], all);
  }

  lemma {:induction false} ProximityHitsGrow(users: seq<Span>, passwords: seq<Span>, i: nat, isPlaceholder: string -> bool)
    requires i < |passwords|
    ensures ProximityHits(users, passwords[..i + 1], isPlaceholder)
            == ProximityHits(users, passwords[..i], isPlaceholder)
               + if isPlaceholder(passwords[i].value) then [] else PairsFor(users, passwords[i])
    ensures ProximityHits(users, passwords[..i + 1], isPlaceholder) <= ProximityHits(users, passwords, isPlaceholder)
  {
    assert passwords[..i + 1][..i] == passwords[..i];
    if i + 1 < |passwords| {
      ProximityHitsGrow(users, passwords[..|passwords| - 1], i, isPlaceholder);
      assert passwords[..|passwords| - 1][..i + 1] == passwords[..i + 1];
    } else {
      assert passwords[..i + 1] == passwords;
    }
  }

  lemma {:induction false} PairsGrow(obj: map<string, JsonValue>, user: string, keys: seq<string>, i: nat,
                                     isPlaceholder: string -> bool, seen: seq<(string, string)>)
    requires i <= |keys|
    ensures PairsWithUser(obj, user, keys[..i], isPlaceholder, seen) <= PairsWithUser(obj, user, keys, isPlaceholder, seen)
  {
    if i < |keys| {
      PairsGrow(obj, user, keys[..|keys| - 1], i, isPlaceholder, seen);
      assert keys[..|keys| - 1][..i] == keys[..i];
    } else {
      assert keys[..i] == keys;
    }
  }

  /** One more username alias. */
  lemma JsonStep(obj: map<string, JsonValue>, keys: seq<string>, i: nat, isPlaceholder: string -> bool)
    requires i < |keys|
    ensures JsonPairs(obj, keys[..i + 1], isPlaceholder) ==
              match UserAt(obj, keys[i])
              case None => JsonPairs(obj, keys[..i], isPlaceholder)
              case Some(user) =>
                PairsWithUser(obj, user, JSON_PASSWORD_KEYS, isPlaceholder, JsonPairs(obj, keys[..i], isPlaceholder))
  {
    assert keys[..i + 1][..i] == keys[..i];
  }

  /** A full vector that agrees with the pairs so far is the cut of whatever extends them. */
  lemma FullIsCut(hits: seq<Hit>, start: seq<Hit>, some: seq<(string, string)>, all: seq<(string, string)>)
    requires |hits| == MAX_HITS_PER_SEGMENT && hits <= start + AsHits(some) && some <= all
    ensures hits == Take(start + AsHits(all), MAX_HITS_PER_SEGMENT)
  {
    assert start + AsHits(some) <= start + AsHits(all);
  }

  lemma {:induction false} JsonPairsGrow(obj: map<string, JsonValue>, keys: seq<string>, i: nat, isPlaceholder: string -> bool)
    requires i <= |keys|
    ensures JsonPairs(obj, keys[..i], isPlaceholder) <= JsonPairs(obj, keys, isPlaceholder)
  {
    if i < |keys| {
      var n := |keys| - 1;
      JsonPairsGrow(obj, keys[..n], i, isPlaceholder);
      assert keys[..n][..i] == keys[..i];
      match UserAt(obj, keys[n]) {
        case None =>
        case Some(user) =>
          PairsGrow(obj, user, JSON_PASSWORD_KEYS, 0, isPlaceholder, JsonPairs(obj, keys[..n], isPlaceholder));
      }
    } else {
      assert keys[..i] == keys;
    }
  }

  // ----- the window is the filter -----

  predicate SortedByPos(spans: seq<Span>) {
    forall i, j | 0 <= i < j < |spans| :: spans[i].pos <= spans[j].pos
  }

  function AllPairs(window: seq<Span>, p: Span): (hits: seq<Hit>)
    ensures |hits| == |window|
  {
    seq(|window|, i requires 0 <= i < |window| => Hit(window[i].value, p.value, Proximity))
  }

  lemma {:induction false} NoPairs(users: seq<Span>, p: Span)
    requires forall u <- users :: !Near(u, p)
    ensures PairsFor(users, p) == []
  {
    if users != [] {
      NoPairs(users[..|users| - 1], p);
    }
  }

  lemma AllPairsAppend(window: seq<Span>, u: Span, p: Span)
    ensures AllPairs(window + [u], p) == AllPairs(window, p) + [Hit(u.value, p.value, Proximity)]
  {
  }

  lemma NothingAppended(hits: seq<Hit>)
    ensures hits + [] == hits
  {
  }

  /** Two cursors that bracket the window select exactly what the filter selects. */
  lemma {:induction false} WindowIsFilter(users: seq<Span>, p: Span, lo: nat, hi: nat)
    requires lo <= hi <= |users|
    requires forall j | 0 <= j < lo :: users[j].pos < p.pos - PROXIMITY_WINDOW_BYTES
    requires forall j | lo <= j < hi :: Near(users[j], p)
    requires forall j | hi <= j < |users| :: users[j].pos > p.pos + PROXIMITY_WINDOW_BYTES
    ensures PairsFor(users, p) == AllPairs(users[lo..hi], p)
  {
    if lo == hi {
      NoPairs(users, p);
    } else {
      var n := |users| - 1;
      if hi <= n {
        WindowIsFilter(users[..n], p, lo, hi);
        assert users[..n][lo..hi] == users[lo..hi];
        NothingAppended(PairsFor(users[..n], p));
      } else {
        WindowIsFilter(users[..n], p, lo, n);
        assert users[..n][lo..n] == users[lo..n];
        assert users[lo..hi] == users[lo..n] + [users[n]];
        AllPairsAppend(users[lo..n], users[n], p);
      }
    }
  }

  // ----- the whole detector -----

  /** The first bytes of a text, backed off to a character boundary. */
  method Head(text: Text, maxBytes: nat) returns (head: Text)
    ensures head == text[..FloorBoundary(text, maxBytes)]
    ensures |head| <= maxBytes && (|text| <= maxBytes ==> head == text)
  {
    if |text| <= maxBytes {
      return text;
    }
    var end := maxBytes;
    while end > 0 && !IsBoundary(text, end)
      invariant end <= maxBytes
      invariant 0 <= end && FloorBoundary(text, end) == FloorBoundary(text, maxBytes)
    {
      end := end - 1;
    }
    return text[..end];
  }

  predicate SortedPermutation(spans: seq<Span>, of: seq<Span>) {
    SortedByPos(spans) && multiset(spans) == multiset(of)
  }

  function InsertByPos(sorted: seq<Span>, x: Span): seq<Span> {
    if sorted == [] || sorted[|sorted| - 1].pos <= x.pos then sorted + [x]
    else InsertByPos(sorted[..|sorted| - 1], x) + [sorted[|sorted| - 1]]
  }

  /** The standard library's sort by key, as far as its result is concerned. */
  function SortByPos(spans: seq<Span>): seq<Span> {
    if spans == [] then [] else InsertByPos(SortByPos(spans[..|spans| - 1]), spans[|spans| - 1])
  }

  lemma {:induction false} InsertMembers(sorted: seq<Span>, x: Span)
    ensures multiset(InsertByPos(sorted, x)) == multiset(sorted) + multiset{x}
  {
    if sorted != [] && sorted[|sorted| - 1].pos > x.pos {
      var n := |sorted| - 1;
      InsertMembers(sorted[..n], x);
      assert sorted == sorted[..n] + [sorted[n]];
    }
  }

  lemma {:induction false} InsertSorted(sorted: seq<Span>, x: Span, bound: nat)
    requires SortedByPos(sorted) && x.pos <= bound && forall s <- sorted :: s.pos <= bound
    ensures SortedByPos(InsertByPos(sorted, x)) && forall s <- InsertByPos(sorted, x) :: s.pos <= bound
  {
    if sorted != [] && sorted[|sorted| - 1].pos > x.pos {
      var n := |sorted| - 1;
      assert sorted[n] in sorted;
      InsertSorted(sorted[..n], x, sorted[n].pos);
    }
  }

  function MaxPos(spans: seq<Span>): (m: nat)
    ensures forall s <- spans :: s.pos <= m
  {
    if spans == [] then 0
    else
      var m := MaxPos(spans[..|spans| - 1]);
      if spans[|spans| - 1].pos > m then spans[|spans| - 1].pos else m
  }

  lemma {:induction false} SortSorts(spans: seq<Span>)
    ensures SortedPermutation(SortByPos(spans), spans)
  {
    if spans != [] {
      var n := |spans| - 1;
      SortSorts(spans[..n]);
      InsertMembers(SortByPos(spans[..n]), spans[n]);
      InsertSorted(SortByPos(spans[..n]), spans[n], MaxPos(SortByPos(spans[..n]) + [spans[n]]));
      assert spans == spans[..n] + [spans[n]];
    }
  }

  /** Everything a segment would report without the cap: three phases, one after the other. */
  function AllHits(oracles: Oracles, text: Text, users: seq<Span>, passwords: seq<Span>): seq<Hit> {
    UrlHits(Take(oracles.url(text), MAX_MATCHES_PER_PATTERN), oracles.isPlaceholder)
    + ProximityHits(users, passwords, oracles.isPlaceholder)
    + JsonHits(oracles.parsed(text), oracles.isPlaceholder)
  }

  /** A cap applied after each phase is the cap applied once to all of them. */
  lemma CapOnce(a: seq<Hit>, b: seq<Hit>, c: seq<Hit>, n: nat)
    ensures Take(Take(Take([] + a, n) + b, n) + c, n) == Take(a + b + c, n)
  {
    assert [] + a == a;
    assert Take(Take(a, n) + b, n) == Take(a + b, n);
  }

  /** The matches of one pattern, bounded and sorted by position. */
  function Matches(find: Text -> seq<Span>, head: Text): seq<Span> {
    SortByPos(Take(find(head), MAX_MATCHES_PER_PATTERN))
  }

  /**
   * Detect credential pairs in one segment: exactly the first 256 of all hits on the
   * inspected head, although each phase stops on its own.
   */
  method Detect(oracles: Oracles, text: Text) returns (hits: seq<Hit>)
    ensures !oracles.compiled ==> hits == []
    ensures var head := text[..FloorBoundary(text, MAX_SCAN_BYTES)];
            oracles.compiled ==>
              hits == Take(AllHits(oracles, head, Matches(oracles.users, head), Matches(oracles.passwords, head)),
                           MAX_HITS_PER_SEGMENT)
  {
    if !oracles.compiled {
      return [];
    }
    var head := Head(text, MAX_SCAN_BYTES);
    var list := new HitList();
    list.DetectUrlUserinfo(oracles.url(head), oracles.isPlaceholder);
    var users, passwords := Matches(oracles.users, head), Matches(oracles.passwords, head);
    SortSorts(Take(oracles.users(head), MAX_MATCHES_PER_PATTERN));
    SortSorts(Take(oracles.passwords(head), MAX_MATCHES_PER_PATTERN));
    var _ := list.DetectProximity(users, passwords, oracles.isPlaceholder);
    list.DetectJson(oracles.parsed(head), oracles.isPlaceholder);
    hits := list.hits;
    CapOnce(UrlHits(Take(oracles.url(head), MAX_MATCHES_PER_PATTERN), oracles.isPlaceholder),
            ProximityHits(users, passwords, oracles.isPlaceholder),
            JsonHits(oracles.parsed(head), oracles.isPlaceholder), MAX_HITS_PER_SEGMENT);
  }

  lemma SameLast(a: seq<Span>, b: seq<Span>)
    requires a != [] && b != [] && SortedByPos(a) && SortedByPos(b)
    requires a[|a| - 1] in b && b[|b| - 1] in a
    requires forall i, j | 0 <= i < j < |a| :: a[i].pos != a[j].pos
    ensures a[|a| - 1] == b[|b| - 1]
  {
    var i :| 0 <= i < |b| && b[i] == a[|a| - 1];
    var j :| 0 <= j < |a| && a[j] == b[|b| - 1];
  }

  lemma DropLast(a: seq<Span>, b: seq<Span>)
    requires a != [] && b != [] && multiset(a) == multiset(b) && a[|a| - 1] == b[|b| - 1]
    ensures multiset(a[..|a| - 1]) == multiset(b[..|b| - 1])
  {
    assert a == a[..|a| - 1] + [a[|a| - 1]] && b == b[..|b| - 1] + [b[|b| - 1]];
    assert multiset(a[..|a| - 1]) == multiset(a) - multiset{a[|a| - 1]};
    assert multiset(b[..|b| - 1]) == multiset(b) - multiset{a[|a| - 1]};
  }

  /** When match positions are distinct the sorted order is unique, so the report is determined. */
  lemma {:induction false} SortUnique(a: seq<Span>, b: seq<Span>)
    requires SortedByPos(a) && SortedByPos(b) && multiset(a) == multiset(b)
    requires forall i, j | 0 <= i < j < |a| :: a[i].pos != a[j].pos
    ensures a == b
  {
    assert |a| == |multiset(a)| == |multiset(b)| == |b|;
    if a != [] {
      var n := |a| - 1;
      assert a[n] in multiset(b) && b[n] in multiset(a);
      SameLast(a, b);
      DropLast(a, b);
      SortUnique(a[..n], b[..n]);
      assert a == a[..n] + [a[n]] && b == b[..n] + [b[n]];
    }
  }

  // ----- what the phases report -----

  /** A proximity hit comes from a real password and a username near it. */
  lemma {:induction false} ProximitySound(users: seq<Span>, passwords: seq<Span>, isPlaceholder: string -> bool, hit: Hit)
      returns (i: nat, j: nat)
    requires hit in ProximityHits(users, passwords, isPlaceholder)
    ensures i < |users| && j < |passwords|
    ensures Near(users[i], passwords[j]) && !isPlaceholder(passwords[j].value)
    ensures hit == Hit(users[i].value, passwords[j].value, Proximity)
  {
    var n := |passwords| - 1;
    if hit in ProximityHits(users, passwords[..n], isPlaceholder) {
      i, j := ProximitySound(users, passwords[..n], isPlaceholder, hit);
    } else {
      PairsMeaning(users, passwords[n], hit);
      j := n;
      i :| 0 <= i < |users| && Near(users[i], passwords[n]) && hit == Hit(users[i].value, passwords[n].value, Proximity);
    }
  }

  /** Every real password and every username near it give a proximity hit. */
  lemma ProximityComplete(users: seq<Span>, passwords: seq<Span>, isPlaceholder: string -> bool, i: nat, j: nat)
    requires i < |users| && j < |passwords|
    requires Near(users[i], passwords[j]) && !isPlaceholder(passwords[j].value)
    ensures Hit(users[i].value, passwords[j].value, Proximity) in ProximityHits(users, passwords, isPlaceholder)
  {
    var hit := Hit(users[i].value, passwords[j].value, Proximity);
    PairsMeaning(users, passwords[j], hit);
    ProximityHitsGrow(users, passwords, j, isPlaceholder);
    assert hit in ProximityHits(users, passwords[..j + 1], isPlaceholder);
  }

  lemma {:induction false} PairsMeaning(users: seq<Span>, p: Span, hit: Hit)
    ensures hit in PairsFor(users, p) <==>
              exists i | 0 <= i < |users| :: Near(users[i], p) && hit == Hit(users[i].value, p.value, Proximity)
  {
    if users != [] {
      var n := |users| - 1;
      PairsMeaning(users[..n], p, hit);
      assert forall i | 0 <= i < n :: users[..n][i] == users[i];
    }
  }

  lemma {:induction false} PairsWithUserMeaning(obj: map<string, JsonValue>, user: string, keys: seq<string>,
                                                isPlaceholder: string -> bool, seen: seq<(string, string)>, pair: (string, string))
    requires NoRepeats(seen)
    ensures NoRepeats(PairsWithUser(obj, user, keys, isPlaceholder, seen))
    ensures pair in PairsWithUser(obj, user, keys, isPlaceholder, seen) <==>
              pair in seen || (pair.0 == user && exists k <- keys :: PasswordAt(obj, k, isPlaceholder) == Some(pair.1))
  {
    if keys != [] {
      var n := |keys| - 1;
      PairsWithUserMeaning(obj, user, keys[..n], isPlaceholder, seen, pair);
      assert keys == keys[..n] + [keys[n]];
      assert keys[n] in keys;
    }
  }

  /** The JSON phase reports each pair of alias values once: the real ones, and no others. */
  lemma {:induction false} JsonPairsMeaning(obj: map<string, JsonValue>, userKeys: seq<string>, isPlaceholder: string -> bool,
                                            pair: (string, string))
    ensures NoRepeats(JsonPairs(obj, userKeys, isPlaceholder))
    ensures pair in JsonPairs(obj, userKeys, isPlaceholder) <==>
              && (exists k <- userKeys :: UserAt(obj, k) == Some(pair.0))
              && (exists k <- JSON_PASSWORD_KEYS :: PasswordAt(obj, k, isPlaceholder) == Some(pair.1))
  {
    if userKeys != [] {
      var n := |userKeys| - 1;
      JsonPairsMeaning(obj, userKeys[..n], isPlaceholder, pair);
      assert userKeys == userKeys[..n] + [userKeys[n]];
      assert userKeys[n] in userKeys;
      match UserAt(obj, userKeys[n]) {
        case None =>
        case Some(user) =>
          PairsWithUserMeaning(obj, user, JSON_PASSWORD_KEYS, isPlaceholder, JsonPairs(obj, userKeys[..n], isPlaceholder), pair);
      }
    }
  }
}
