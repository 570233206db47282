/** Which allowlist record suppresses a finding (src/allowlist.rs). */
module Allowlist {
  import opened Wrappers
  import opened Text
  import opened Paths

  /** What searching a pattern comes to; exceeding the budget counts as no match. */
  datatype Search = Matched | Unmatched | BudgetExceeded

  datatype Entry = Entry(
    field: Option<Text>,
    value: Option<Text>,
    sha256: Option<Text>,
    pattern: Option<Text -> Search>,
    ruleId: Option<Text>,
    issueKey: Option<Text>,
    projectKey: Option<Text>,
    reason: Option<Text>)

  /** What a record is compared with: the secret and where it was found. */
  datatype Subject = Subject(value: Text, ruleId: Text, issueKey: Text, path: Text)

  /** The part of an issue key before its first dash; all of it when there is none. */
  function ProjectOf(issueKey: Text): (p: Text)
    ensures '-' !in p && p <= issueKey
    ensures |p| < |issueKey| ==> issueKey[|p|] == '-'
  {
    if issueKey == "" || issueKey[0] == '-' then "" else [issueKey[0]] + ProjectOf(issueKey[1..])
  }

  /** The documented contract: the scope admits the path, and some predicate names the finding. */
  ghost predicate Suppresses(e: Entry, s: Subject, digest: Text) {
    && (e.field.Some? ==> FieldScopeMatches(e.field.value, s.path))
    && (|| e.value == Some(s.value)
        || e.sha256 == Some(digest)
        || (e.pattern.Some? && e.pattern.value(s.value) == Matched)
        || e.ruleId == Some(s.ruleId)
        || e.issueKey == Some(s.issueKey)
        || e.projectKey == Some(ProjectOf(s.issueKey)))
  }

  /** `hash` is the digest of the value, or `None` when no record asks for one. */
  method Matches(e: Entry, s: Subject, hash: Option<Text>, ghost digest: Text) returns (r: bool)
    requires hash == Some(digest) || (hash == None && e.sha256 == None)
    ensures r <==> Suppresses(e, s, digest)
  {
    if e.field.Some? && !FieldScopeMatches(e.field.value, s.path) {
      return false;
    }
    if e.value == Some(s.value) {
      return true;
    }
    if e.sha256.Some? && hash.Some? && e.sha256.value == hash.value {
      return true;
    }
    if e.pattern.Some? {
      match e.pattern.value(s.value) {
        case Matched => return true;
        case Unmatched =>
        case BudgetExceeded =>
      }
    }
    if e.ruleId == Some(s.ruleId) {
      return true;
    }
    if e.issueKey == Some(s.issueKey) {
      return true;
    }
    r := e.projectKey == Some(ProjectOf(s.issueKey));
  }

  /** A loaded allowlist: whether any record matches by digest is known in advance. */
  datatype Filter = Filter(entries: seq<Entry>, hasHashes: bool) {
    ghost predicate Loaded() {
      hasHashes <==> exists e <- entries :: e.sha256.Some?
    }
  }

  /** The reason of the first record that suppresses the finding; the digest is computed only if some record needs it. */
  method Check(f: Filter, s: Subject, sha256: Text -> Text) returns (r: Option<Option<Text>>)
    requires f.Loaded()
    ensures r.None? <==> forall e <- f.entries :: !Suppresses(e, s, sha256(s.value))
    ensures r.Some? ==>
              exists i | 0 <= i < |f.entries| ::
                && Suppresses(f.entries[i], s, sha256(s.value)) && r.value == f.entries[i].reason
                && forall j | 0 <= j < i :: !Suppresses(f.entries[j], s, sha256(s.value))
  {
    var hash := if f.hasHashes then Some(sha256(s.value)) else None;
    for i := 0 to |f.entries|
      invariant forall j | 0 <= j < i :: !Suppresses(f.entries[j], s, sha256(s.value))
    {
      assert f.entries[i] in f.entries;
      var found := Matches(f.entries[i], s, hash, sha256(s.value));
      if found {
        return Some(f.entries[i].reason);
      }
    }
    r := None;
  }

  /** A record scoped to a node of an issue suppresses nothing outside that node's subtree. */
  lemma ScopedEntryStaysBelow(e: Entry, s: Subject, digest: Text, scope: Address, found: Address)
    requires scope != [] && scope[0].Key? && Plain(scope) && found != [] && found[0].Key? && Plain(found)
    requires e.field == Some(Printed(scope)) && s.path == Printed(found)
    requires Suppresses(e, s, digest)
    ensures scope <= found
  {
    ScopeIsSubtree(scope, found);
  }

  // ----- records by what they name -----

  /** A record that names nothing. */
  const BARE: Entry := Entry(None, None, None, None, None, None, None, None)

  lemma {:induction false} ProjectIs(issueKey: Text, project: Text)
    ensures ProjectOf(issueKey) == project <==> '-' !in project && (issueKey == project || project + "-" <= issueKey)
  {
    var p := ProjectOf(issueKey);
    if '-' !in project && (issueKey == project || project + "-" <= issueKey) {
      assert |project| < |issueKey| ==> issueKey[|project|] == (project + "-")[|project|];
      assert forall k | 0 <= k < |p| :: p[k] == issueKey[k] && p[k] in p;
      assert forall k | 0 <= k < |project| :: project[k] == issueKey[k] && project[k] in project;
      assert |p| == |project|;
      assert p == issueKey[..|p|] == project;
    }
    assert |p| < |issueKey| ==> issueKey[..|p| + 1] == p + "-";
  }

  /**
   * A record that names one thing suppresses exactly the findings that have it: the value, a
   * value with the digest, one the pattern matches within its budget, one of the rule, of the
   * issue, or of an issue whose key is the project's, up to a dash.
   */
  lemma NamingOneThing(s: Subject, digest: Text, x: Text, pattern: Text -> Search)
    ensures !Suppresses(BARE, s, digest)
    ensures Suppresses(BARE.(value := Some(x)), s, digest) <==> s.value == x
    ensures Suppresses(BARE.(sha256 := Some(x)), s, digest) <==> digest == x
    ensures Suppresses(BARE.(pattern := Some(pattern)), s, digest) <==> pattern(s.value).Matched?
    ensures Suppresses(BARE.(ruleId := Some(x)), s, digest) <==> s.ruleId == x
    ensures Suppresses(BARE.(issueKey := Some(x)), s, digest) <==> s.issueKey == x
    ensures Suppresses(BARE.(projectKey := Some(x)), s, digest)
            <==> '-' !in x && (s.issueKey == x || x + "-" <= s.issueKey)
  {
    ProjectIs(s.issueKey, x);
  }

  /** One of the things the record names, taken alone, suppresses the finding. */
  ghost predicate NamedAlone(e: Entry, s: Subject, digest: Text) {
    || Suppresses(BARE.(value := e.value), s, digest)
    || Suppresses(BARE.(sha256 := e.sha256), s, digest)
    || Suppresses(BARE.(pattern := e.pattern), s, digest)
    || Suppresses(BARE.(ruleId := e.ruleId), s, digest)
    || Suppresses(BARE.(issueKey := e.issueKey), s, digest)
    || Suppresses(BARE.(projectKey := e.projectKey), s, digest)
  }

  /** A record suppresses a finding exactly when something it names does alone, and its scope, if it has one, admits the path. */
  lemma NamingSeveral(e: Entry, s: Subject, digest: Text)
    ensures Suppresses(e, s, digest) <==>
              NamedAlone(e, s, digest) && (e.field == None || FieldScopeMatches(e.field.value, s.path))
  {
  }
}
