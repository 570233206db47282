/** What the credential-pair detector reports (src/credpair.rs), without its phases and cursors. */
module CredPairReport {
  import opened CredPair
  import opened Sequences
  import opened Text
  import opened Wrappers

  predicate IsUsernameKey(key: string) {
    key in {"username", "user", "login", "email", "client_id", "clientId"}
  }

  predicate IsPasswordKey(key: string) {
    key in {"password", "pass", "passwd", "pwd", "secret", "client_secret", "clientSecret", "api_key", "apiKey"}
  }

  /** A URL that names the user and the password. */
  predicate InUrl(o: Oracles, head: Text, hit: Hit) {
    exists m <- Take(o.url(head), 4096) :: m == UrlMatch(Some(hit.username), Some(hit.password))
  }

  predicate Close(u: Span, p: Span) {
    -200 <= u.pos - p.pos <= 200
  }

  /** A username and a password at most 200 bytes apart. */
  ghost predicate InText(o: Oracles, head: Text, hit: Hit) {
    exists u, p | u in Take(o.users(head), 4096) && p in Take(o.passwords(head), 4096) ::
      Close(u, p) && u.value == hit.username && p.value == hit.password
  }

  predicate Holds(obj: map<string, JsonValue>, key: string, value: string) {
    key in obj && obj[key] == JsonString(value) && value != ""
  }

  /** A JSON object that has the user under a username key and the password under a password key. */
  ghost predicate InJson(o: Oracles, head: Text, hit: Hit) {
    && o.parsed(head).Some?
    && (exists k :: IsUsernameKey(k) && Holds(o.parsed(head).value, k, hit.username))
    && (exists k :: IsPasswordKey(k) && Holds(o.parsed(head).value, k, hit.password))
  }

  /** A pair the text holds, under the format it holds it in. */
  ghost predicate IsPair(o: Oracles, head: Text, hit: Hit) {
    && o.compiled && !o.isPlaceholder(hit.password)
    && match hit.format
       case UrlUserinfo => InUrl(o, head, hit)
       case Proximity => InText(o, head, hit)
       case Json => InJson(o, head, hit)
  }

  // ----- URLs -----

  lemma {:induction false} UrlHitsMeaning(matches: seq<UrlMatch>, isPlaceholder: string -> bool, hit: Hit)
    ensures hit in UrlHits(matches, isPlaceholder) <==>
              && hit.format == UrlUserinfo && !isPlaceholder(hit.password)
              && UrlMatch(Some(hit.username), Some(hit.password)) in matches
  {
    if matches != [] {
      var init, m := matches[..|matches| - 1], matches[|matches| - 1];
      assert matches == init + [m];
      UrlHitsMeaning(init, isPlaceholder, hit);
    }
  }

  // ----- proximity -----

  lemma ProximityMeaning(users: seq<Span>, passwords: seq<Span>, isPlaceholder: string -> bool, hit: Hit)
    ensures hit in ProximityHits(users, passwords, isPlaceholder) <==>
              && hit.format == Proximity && !isPlaceholder(hit.password)
              && exists u, p | u in users && p in passwords :: Close(u, p) && u.value == hit.username && p.value == hit.password
  {
    if hit in ProximityHits(users, passwords, isPlaceholder) {
      var i, j := ProximitySound(users, passwords, isPlaceholder, hit);
      assert users[i] in users && passwords[j] in passwords && Close(users[i], passwords[j]);
    }
    if hit.format == Proximity && !isPlaceholder(hit.password) {
      forall u, p | u in users && p in passwords && Close(u, p) && u.value == hit.username && p.value == hit.password
        ensures hit in ProximityHits(users, passwords, isPlaceholder)
      {
        var i :| 0 <= i < |users| && users[i] == u;
        var j :| 0 <= j < |passwords| && passwords[j] == p;
        ProximityComplete(users, passwords, isPlaceholder, i, j);
      }
    }
  }

  lemma SameMembers(find: Text -> seq<Span>, head: Text)
    ensures forall s :: s in Matches(find, head) <==> s in Take(find(head), 4096)
  {
    var all := Take(find(head), 4096);
    SortSorts(all);
    assert forall s :: s in Matches(find, head) <==> s in multiset(Matches(find, head));
    assert forall s :: s in all <==> s in multiset(all);
  }

  // ----- JSON -----

  lemma KeyLists(k: string)
    ensures k in JSON_USERNAME_KEYS <==> IsUsernameKey(k)
    ensures k in JSON_PASSWORD_KEYS <==> IsPasswordKey(k)
  {
  }

  lemma UserKeys(obj: map<string, JsonValue>, user: string)
    ensures (exists k <- JSON_USERNAME_KEYS :: UserAt(obj, k) == Some(user)) <==> exists k :: IsUsernameKey(k) && Holds(obj, k, user)
  {
    if k :| k in JSON_USERNAME_KEYS && UserAt(obj, k) == Some(user) {
      KeyLists(k);
      assert Holds(obj, k, user);
    }
    if k :| IsUsernameKey(k) && Holds(obj, k, user) {
      KeyLists(k);
      assert UserAt(obj, k) == Some(user);
    }
  }

  lemma PasswordKeys(obj: map<string, JsonValue>, pass: string, isPlaceholder: string -> bool)
    ensures (exists k <- JSON_PASSWORD_KEYS :: PasswordAt(obj, k, isPlaceholder) == Some(pass))
            <==> !isPlaceholder(pass) && exists k :: IsPasswordKey(k) && Holds(obj, k, pass)
  {
    if k :| k in JSON_PASSWORD_KEYS && PasswordAt(obj, k, isPlaceholder) == Some(pass) {
      KeyLists(k);
      assert Holds(obj, k, pass);
    }
    if k :| !isPlaceholder(pass) && IsPasswordKey(k) && Holds(obj, k, pass) {
      KeyLists(k);
      assert PasswordAt(obj, k, isPlaceholder) == Some(pass);
    }
  }

  lemma AsHitsMeaning(pairs: seq<(string, string)>, hit: Hit)
    ensures hit in AsHits(pairs) <==> hit.format == Json && (hit.username, hit.password) in pairs
  {
    if hit in AsHits(pairs) {
      var i :| 0 <= i < |pairs| && AsHits(pairs)[i] == hit;
      assert pairs[i] in pairs && pairs[i] == (pairs[i].0, pairs[i].1);
    }
    if hit.format == Json && (hit.username, hit.password) in pairs {
      var i :| 0 <= i < |pairs| && pairs[i] == (hit.username, hit.password);
      assert AsHits(pairs)[i] == hit;
    }
  }

  lemma JsonHitsMeaning(o: Oracles, head: Text, hit: Hit)
    ensures hit in JsonHits(o.parsed(head), o.isPlaceholder) <==>
              hit.format == Json && !o.isPlaceholder(hit.password) && InJson(o, head, hit)
  {
    if o.parsed(head).Some? {
      var obj := o.parsed(head).value;
      AsHitsMeaning(JsonPairs(obj, JSON_USERNAME_KEYS, o.isPlaceholder), hit);
      JsonPairsMeaning(obj, JSON_USERNAME_KEYS, o.isPlaceholder, (hit.username, hit.password));
      UserKeys(obj, hit.username);
      PasswordKeys(obj, hit.password, o.isPlaceholder);
    }
  }

  // ----- the report -----

  /** The inspected start of the text. */
  function HeadOf(text: Text): Text {
    text[..FloorBoundary(text, 65536)]
  }

  /** What the detector finds before the cap. */
  function Uncapped(o: Oracles, text: Text): seq<Hit> {
    if !o.compiled then [] else AllHits(o, HeadOf(text), Matches(o.users, HeadOf(text)), Matches(o.passwords, HeadOf(text)))
  }

  /** Before the cap exactly the pairs that the head of the text holds are found. */
  lemma UncappedIsPairs(o: Oracles, text: Text, hit: Hit)
    ensures hit in Uncapped(o, text) <==> IsPair(o, HeadOf(text), hit)
  {
    var head := HeadOf(text);
    UrlHitsMeaning(Take(o.url(head), 4096), o.isPlaceholder, hit);
    SameMembers(o.users, head);
    SameMembers(o.passwords, head);
    ProximityMeaning(Matches(o.users, head), Matches(o.passwords, head), o.isPlaceholder, hit);
    JsonHitsMeaning(o, head, hit);
  }

  predicate NotAfter(a: Format, b: Format) {
    a == UrlUserinfo || b == Json || a == b
  }

  /** URL hits come first, then proximity hits, then JSON hits. */
  lemma PhasesInOrder(o: Oracles, text: Text, i: nat, j: nat)
    requires i < j < |Uncapped(o, text)|
    ensures NotAfter(Uncapped(o, text)[i].format, Uncapped(o, text)[j].format)
  {
    var head := HeadOf(text);
    assert o.compiled;
    var users, passwords := Matches(o.users, head), Matches(o.passwords, head);
    var a := UrlHits(Take(o.url(head), 4096), o.isPlaceholder);
    var b := ProximityHits(users, passwords, o.isPlaceholder);
    var c := JsonHits(o.parsed(head), o.isPlaceholder);
    forall hit
      ensures hit in a ==> hit.format == UrlUserinfo
      ensures hit in b ==> hit.format == Proximity
      ensures hit in c ==> hit.format == Json
    {
      UrlHitsMeaning(Take(o.url(head), 4096), o.isPlaceholder, hit);
      ProximityMeaning(users, passwords, o.isPlaceholder, hit);
      JsonHitsMeaning(o, head, hit);
    }
    ThreeParts(a, b, c, i);
    ThreeParts(a, b, c, j);
  }

  lemma ThreeParts(a: seq<Hit>, b: seq<Hit>, c: seq<Hit>, i: nat)
    requires i < |a + b + c|
    ensures i < |a| ==> (a + b + c)[i] in a
    ensures |a| <= i < |a| + |b| ==> (a + b + c)[i] in b
    ensures |a| + |b| <= i ==> (a + b + c)[i] in c
  {
  }

  /**
   * What `Detect` returns, the first 256 hits: every one is a pair of the head, in the order of
   * the formats, and when there are no more than 256 every pair is among them.
   */
  lemma ReportIsPairs(o: Oracles, text: Text)
    ensures var hits := Take(Uncapped(o, text), MAX_HITS_PER_SEGMENT);
            && |hits| <= 256
            && (forall hit <- hits :: IsPair(o, HeadOf(text), hit))
            && (|Uncapped(o, text)| <= 256 ==> forall hit | IsPair(o, HeadOf(text), hit) :: hit in hits)
            && forall i, j | 0 <= i < j < |hits| :: NotAfter(hits[i].format, hits[j].format)
  {
    var hits := Take(Uncapped(o, text), MAX_HITS_PER_SEGMENT);
    forall hit
      ensures hit in Uncapped(o, text) <==> IsPair(o, HeadOf(text), hit)
    {
      UncappedIsPairs(o, text, hit);
    }
    forall i, j | 0 <= i < j < |hits|
      ensures NotAfter(hits[i].format, hits[j].format)
    {
      PhasesInOrder(o, text, i, j);
    }
  }
}
