/** Findings, their locations and their identities (src/finding.rs). */
module Findings {
  import opened Wrappers

  /** An instant. RFC 3339 strings are compared as text by the program; here they are ordered integers. */
  type Time = int

  datatype Severity = Info | Low | Medium | High | Critical

  datatype Confidence = LowConfidence | MediumConfidence | HighConfidence

  datatype SourceType = Description | Comment | Attachment | CustomField

  datatype FindingStatus = New | Recurring | Closed

  datatype Location = Location(issueKey: string, fieldPath: string, sourceType: SourceType)

  datatype ExternalValidation = ExternalValidation(valid: bool, source: string, checkedAt: Time)

  /** Everything about a finding that the store copies but never interprets. */
  datatype Evidence = Evidence(redactedSecret: string, snippet: string, references: seq<string>, username: Option<string>)

  datatype Finding = Finding(
    secretHash: string,
    ruleId: string,
    issueKey: string,
    issueUrl: string,
    fieldPath: string,
    sourceType: SourceType,
    severity: Severity,
    confidence: Confidence,
    evidence: Evidence,
    detectedAt: Time,
    locations: seq<Location>,
    status: FindingStatus,
    firstSeen: Option<Time>,
    timesSeen: Option<nat>,
    validation: Option<ExternalValidation>)
  {
    /** The locations that are persisted: the explicit ones, or the finding's own place when there are none. */
    function EffectiveLocations(): (locs: seq<Location>)
      ensures locs != []
      ensures locations != [] ==> locs == locations
      ensures locations == [] ==> forall l <- locs :: l.issueKey == issueKey
    {
      if locations == [] then [Location(issueKey, fieldPath, sourceType)] else locations
    }

    /** The store rows this finding owns, in location order and with repetitions. */
    function LocationKeys(): (keys: seq<FindingKey>)
      ensures |keys| == |EffectiveLocations()|
      ensures forall i | 0 <= i < |keys| ::
                keys[i] == FindingKey(secretHash, ruleId, EffectiveLocations()[i].issueKey)
    {
      var locs := EffectiveLocations();
      seq(|locs|, i requires 0 <= i < |locs| => FindingKey(secretHash, ruleId, locs[i].issueKey))
    }

    /** The identity duplicates are merged under. */
    function MergeIdentity(): MergeKey {
      MergeKey(secretHash, ruleId)
    }
  }

  /** Identity of one stored location: one secret, found by one rule, in one issue. */
  datatype FindingKey = FindingKey(secretHash: string, ruleId: string, issueKey: string)

  /** Identity used when merging duplicates inside one scan: the issue is left out. */
  datatype MergeKey = MergeKey(secretHash: string, ruleId: string)

  const UNIT_SEPARATOR: char := 0x1f as char

  /** The text whose SHA-256 is the primary key of a stored row. */
  function FingerprintInput(k: FindingKey): string {
    k.secretHash + [UNIT_SEPARATOR] + k.ruleId + [UNIT_SEPARATOR] + k.issueKey
  }

  /** The text the deduplicator uses as its map key. */
  function MergeText(k: MergeKey): string {
    k.secretHash + ":" + k.ruleId
  }

  /** A digest as `secret_hash` prints it: `sha256:` and 64 characters. */
  const SECRET_HASH_LENGTH: nat := 71

  /** Splitting at the first occurrence of a separator is unambiguous. */
  lemma FirstSeparatorUnique(a: string, x: string, b: string, y: string, sep: char)
    requires sep !in a && sep !in b
    requires a + [sep] + x == b + [sep] + y
    ensures a == b && x == y
  {
    var t := a + [sep] + x;
    assert t[|a|] == sep && t[|b|] == sep;
    assert forall i | 0 <= i < |a| :: t[i] == a[i] != sep;
    assert forall i | 0 <= i < |b| :: t[i] == b[i] != sep;
    assert |a| == |b|;
    assert t[..|a|] == a && t[..|b|] == b;
    assert t[|a| + 1..] == x && t[|b| + 1..] == y;
  }

  /**
   * Two keys share a fingerprint input only if they are the same key, provided the separator
   * occurs in neither hash and in neither rule id; issue keys need no restriction.
   */
  lemma FingerprintInputInjective(a: FindingKey, b: FindingKey)
    requires UNIT_SEPARATOR !in a.secretHash && UNIT_SEPARATOR !in b.secretHash
    requires UNIT_SEPARATOR !in a.ruleId && UNIT_SEPARATOR !in b.ruleId
    ensures FingerprintInput(a) == FingerprintInput(b) <==> a == b
  {
    if FingerprintInput(a) == FingerprintInput(b) {
      var s := [UNIT_SEPARATOR];
      assert FingerprintInput(a) == a.secretHash + s + (a.ruleId + s + a.issueKey);
      assert FingerprintInput(b) == b.secretHash + s + (b.ruleId + s + b.issueKey);
      FirstSeparatorUnique(a.secretHash, a.ruleId + s + a.issueKey, b.secretHash, b.ruleId + s + b.issueKey, UNIT_SEPARATOR);
      FirstSeparatorUnique(a.ruleId, a.issueKey, b.ruleId, b.issueKey, UNIT_SEPARATOR);
    }
  }

  /** The rule id `longer` reads as `shorter`, the separator, and the start of an issue key. */
  predicate Shadows(shorter: string, longer: string) {
    shorter + [UNIT_SEPARATOR] <= longer
  }

  /** What is hashed after the secret hash and its separator. */
  function Tail(ruleId: string, issueKey: string): string {
    ruleId + [UNIT_SEPARATOR] + issueKey
  }

  lemma InputIsHashAndTail(k: FindingKey)
    ensures FingerprintInput(k) == k.secretHash + ([UNIT_SEPARATOR] + Tail(k.ruleId, k.issueKey))
  {
    var s := [UNIT_SEPARATOR];
    assert k.secretHash + s + k.ruleId + s + k.issueKey == k.secretHash + (s + (k.ruleId + s + k.issueKey));
  }

  /** Inputs with hashes of one length are equal exactly when hashes and tails are. */
  lemma SameInputIff(a: FindingKey, b: FindingKey)
    requires |a.secretHash| == |b.secretHash|
    ensures FingerprintInput(a) == FingerprintInput(b) <==>
              a.secretHash == b.secretHash && Tail(a.ruleId, a.issueKey) == Tail(b.ruleId, b.issueKey)
  {
    InputIsHashAndTail(a);
    InputIsHashAndTail(b);
    var x, y := FingerprintInput(a), FingerprintInput(b);
    var n := |a.secretHash|;
    assert x[..n] == a.secretHash && y[..n] == b.secretHash;
    assert x[n + 1..] == Tail(a.ruleId, a.issueKey) && y[n + 1..] == Tail(b.ruleId, b.issueKey);
  }

  /** A shadowed rule id collides: some issue key of the shorter one absorbs the rest of the longer one. */
  lemma ShadowCollides(hash: string, shorter: string, longer: string, issueKey: string) returns (absorbing: string)
    requires Shadows(shorter, longer)
    ensures FingerprintInput(FindingKey(hash, shorter, absorbing)) == FingerprintInput(FindingKey(hash, longer, issueKey))
  {
    var s := [UNIT_SEPARATOR];
    var rest := longer[|shorter| + 1..];
    absorbing := rest + s + issueKey;
    assert longer == shorter + s + rest;
    assert Tail(shorter, absorbing) == Tail(longer, issueKey);
    InputIsHashAndTail(FindingKey(hash, shorter, absorbing));
    InputIsHashAndTail(FindingKey(hash, longer, issueKey));
  }

  lemma SameTailShadows(r1: string, k1: string, r2: string, k2: string)
    requires Tail(r1, k1) == Tail(r2, k2)
    ensures r1 == r2 || Shadows(r1, r2) || Shadows(r2, r1)
    ensures r1 == r2 ==> k1 == k2
  {
    var t := Tail(r1, k1);
    assert t[..|r1|] == r1 && t[..|r2|] == r2;
    assert t[..|r1| + 1] == r1 + [UNIT_SEPARATOR] && t[..|r2| + 1] == r2 + [UNIT_SEPARATOR];
    assert t[|r1| + 1..] == k1 && t[|r2| + 1..] == k2;
  }

  /**
   * Exactly when the fingerprint text tells the keys of a rule set apart: for digests, which all
   * have one length, no two keys share a text if and only if no rule id of the set starts with
   * another one and a separator.
   */
  lemma RuleSetIsSafeIff(ruleIds: set<string>)
    ensures (forall a: FindingKey, b: FindingKey |
               && a.ruleId in ruleIds && b.ruleId in ruleIds
               && |a.secretHash| == |b.secretHash| == SECRET_HASH_LENGTH :: FingerprintInput(a) == FingerprintInput(b) ==> a == b)
            <==> forall r1, r2 | r1 in ruleIds && r2 in ruleIds :: !Shadows(r1, r2)
  {
    if forall r1, r2 | r1 in ruleIds && r2 in ruleIds :: !Shadows(r1, r2) {
      forall a: FindingKey, b: FindingKey |
        && a.ruleId in ruleIds && b.ruleId in ruleIds
        && |a.secretHash| == |b.secretHash| == SECRET_HASH_LENGTH && FingerprintInput(a) == FingerprintInput(b)
        ensures a == b
      {
        SameInputIff(a, b);
        SameTailShadows(a.ruleId, a.issueKey, b.ruleId, b.issueKey);
      }
    }
    if r1, r2 :| r1 in ruleIds && r2 in ruleIds && Shadows(r1, r2) {
      var hash := seq(SECRET_HASH_LENGTH, _ => '0');
      var absorbing := ShadowCollides(hash, r1, r2, "SEC-1");
      assert FindingKey(hash, r1, absorbing).ruleId != FindingKey(hash, r2, "SEC-1").ruleId;
    }
  }

  /**
   * The colon in the merge text is also inside every hash, so only the fixed length of a
   * digest makes the text unambiguous.
   */
  lemma MergeTextInjective(a: MergeKey, b: MergeKey)
    requires |a.secretHash| == |b.secretHash|
    ensures MergeText(a) == MergeText(b) <==> a == b
  {
    if MergeText(a) == MergeText(b) {
      var n := |a.secretHash|;
      assert a.secretHash == MergeText(a)[..n] && b.secretHash == MergeText(b)[..n];
      assert a.ruleId == MergeText(a)[n + 1..] && b.ruleId == MergeText(b)[n + 1..];
    }
  }
}
