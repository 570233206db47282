/** Which source a path is classified as (src/extract.rs), by the keys of its address. */
module PathClasses {
  import opened Findings
  import opened Paths
  import opened Text

  /** Some key on the way starts with the word. */
  predicate SomeKeyStarts(a: Address, word: Text) {
    exists s <- a :: s.Key? && word <= s.key
  }

  predicate SomeChunkStarts(chunks: seq<Text>, v: Text) {
    exists c <- chunks :: v <= c
  }

  lemma SomeChunkCons(c: Text, rest: seq<Text>, v: Text)
    ensures SomeChunkStarts([c] + rest, v) <==> v <= c || SomeChunkStarts(rest, v)
  {
    assert c in [c] + rest;
    if x :| x in [c] + rest && v <= x {
      assert x == c || x in rest;
    }
    if x :| x in rest && v <= x {
      assert x in [c] + rest;
    }
  }

  /** A word that starts at a separator and holds no other occurs in a chunk only at its start. */
  lemma OnlyAtStart(c: Text, rest: Text, v: Text, i: nat)
    requires IsChunk(c) && IsChunk(v) && (rest != "" ==> IsSeparator(rest[0]))
    requires i < |c| && OccursAt(c + rest, v, i)
    ensures i == 0 && v <= c
  {
    var t := c + rest;
    assert forall k | 0 <= k < |v| :: t[i..i + |v|][k] == t[i + k] == v[k];
    assert forall k | 0 <= k < |c| :: t[k] == c[k];
    assert t[i + 0] == v[0];
    assert rest != "" ==> t[|c|] == rest[0];
    if |v| <= |c| {
      assert t[..|v|] == c[..|v|];
    }
  }

  /** Such a word occurs in a text of chunks exactly when some chunk starts with it. */
  lemma {:induction false} OccursInChunks(chunks: seq<Text>, v: Text)
    requires IsChunk(v) && forall c <- chunks :: IsChunk(c)
    ensures Contains(Flat(chunks), v) <==> SomeChunkStarts(chunks, v)
  {
    if chunks == [] {
      assert !Contains("", v);
    } else {
      var c, rest := chunks[0], chunks[1..];
      assert chunks == [c] + rest && c in chunks;
      assert forall x <- rest :: x in chunks;
      OccursInChunks(rest, v);
      SomeChunkCons(c, rest, v);
      FlatStart(rest);
      FrontOrRest(c, Flat(rest), v);
    }
  }

  lemma FrontOrRest(c: Text, rest: Text, v: Text)
    requires IsChunk(c) && IsChunk(v) && (rest != "" ==> IsSeparator(rest[0]))
    ensures Contains(c + rest, v) <==> v <= c || Contains(rest, v)
  {
    if i :| 0 <= i <= |c + rest| && OccursAt(c + rest, v, i) {
      if i < |c| {
        OnlyAtStart(c, rest, v, i);
      } else {
        OccursInSuffix(c, rest, v, i);
        assert OccursAt(rest, v, i - |c|);
      }
    }
    if v <= c {
      assert (c + rest)[0..|v|] == v;
      assert OccursAt(c + rest, v, 0);
    }
    if j :| 0 <= j <= |rest| && OccursAt(rest, v, j) {
      OccursInSuffix(c, rest, v, |c| + j);
      assert OccursAt(c + rest, v, |c| + j);
    }
  }

  /** At the start, or after a dot: the same as anywhere in the path with a dot before it. */
  lemma StartOrAfterDot(path: Text, word: Text)
    requires word != ""
    ensures StartsWith(path, word) || Contains(path, "." + word) <==> Contains("." + path, "." + word)
  {
    var v := "." + word;
    if StartsWith(path, word) {
      assert ("." + path)[0..|v|] == "." + path[..|word|] == v;
      assert OccursAt("." + path, v, 0);
    }
    if i :| 0 <= i <= |path| && OccursAt(path, v, i) {
      OccursInSuffix(".", path, v, i + 1);
      assert OccursAt("." + path, v, i + 1);
    }
    if i :| 0 <= i <= |"." + path| && OccursAt("." + path, v, i) {
      if i == 0 {
        assert ("." + path)[..|v|] == v;
        assert path[..|word|] == ("." + path)[1..|v|] == v[1..] == word;
      } else {
        OccursInSuffix(".", path, v, i);
        assert OccursAt(path, v, i - 1);
      }
    }
  }

  lemma DotWord(word: Text, s: Step)
    requires word != "" && (s.Key? ==> PlainKey(s.key))
    ensures "." + word <= Rendered(s) <==> s.Key? && word <= s.key
  {
    if s.Key? {
      assert ("." + word)[1..] == word && ("." + s.key)[1..] == s.key;
      if "." + word <= "." + s.key {
        assert ("." + s.key)[1..|word| + 1] == ("." + word)[1..];
        assert s.key[..|word|] == word;
      }
    } else {
      assert Rendered(s)[0] == '[';
    }
  }

  lemma ChunksStartLikeKeys(a: Address, word: Text)
    requires word != "" && Plain(a)
    ensures SomeChunkStarts(Chunks(a), "." + word) <==> SomeKeyStarts(a, word)
  {
    if c :| c in Chunks(a) && "." + word <= c {
      var i :| 0 <= i < |a| && Chunks(a)[i] == c;
      assert a[i] in a;
      DotWord(word, a[i]);
    }
    if s :| s in a && s.Key? && word <= s.key {
      var i :| 0 <= i < |a| && a[i] == s;
      DotWord(word, s);
      assert Chunks(a)[i] in Chunks(a);
    }
  }

  /** The printed address has the word at its start or after a dot exactly when some key starts with it. */
  lemma WordInPath(a: Address, word: Text)
    requires a != [] && a[0].Key? && Plain(a) && word != "" && forall c <- word :: !IsSeparator(c)
    ensures StartsWith(Printed(a), word) || Contains(Printed(a), "." + word) <==> SomeKeyStarts(a, word)
  {
    var v := "." + word;
    assert forall k | 0 < k < |v| :: v[k] == word[k - 1] && word[k - 1] in word;
    assert IsChunk(v);
    StartOrAfterDot(Printed(a), word);
    PrintedIsFlat(a);
    ChunksAreChunks(a);
    OccursInChunks(Chunks(a), v);
    ChunksStartLikeKeys(a, word);
  }

  lemma FirstKey(a: Address, word: Text)
    requires a != [] && a[0].Key? && Plain(a) && word != "" && forall c <- word :: !IsSeparator(c)
    ensures StartsWith(Printed(a), word) <==> word <= a[0].key
  {
    PrintedIsFlat(a);
    var more := Flat(Chunks(a)[1..]);
    var path := Printed(a);
    assert Chunks(a)[0] == "." + a[0].key;
    assert "." + path == ("." + a[0].key) + more;
    Assoc(".", a[0].key, more);
    assert path == ("." + path)[1..] == (("." + (a[0].key + more)))[1..] == a[0].key + more;
    ChunksAreChunks(a);
    assert forall c <- Chunks(a)[1..] :: c in Chunks(a);
    FlatStart(Chunks(a)[1..]);
    EndsBeforeSeparator(a[0].key, more, word);
  }

  lemma EndsBeforeSeparator(key: Text, more: Text, word: Text)
    requires (more != "" ==> IsSeparator(more[0])) && forall c <- word :: !IsSeparator(c)
    ensures word <= key + more <==> word <= key
  {
    var t := key + more;
    assert forall k | 0 <= k < |word| :: word[k] in word;
    assert more != "" ==> t[|key|] == more[0];
    assert forall k | 0 <= k < |key| :: t[k] == key[k];
  }

  /**
   * A path is a comment's when some key on the way starts with `comment`; otherwise an
   * attachment's when some key starts with `attachment`; otherwise a description's when the first
   * key starts with `description`; otherwise a custom field's.
   */
  lemma ClassByKeys(a: Address)
    requires a != [] && a[0].Key? && Plain(a)
    ensures ClassifyPath(Printed(a)) ==
              if SomeKeyStarts(a, "comment") then Comment
              else if SomeKeyStarts(a, "attachment") then Attachment
              else if "description" <= a[0].key then Description
              else CustomField
  {
    assert "." + "comment" == ".comment" && "." + "attachment" == ".attachment";
    WordInPath(a, "comment");
    WordInPath(a, "attachment");
    FirstKey(a, "description");
  }
}
