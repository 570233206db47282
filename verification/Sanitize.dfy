/**
 * Stripping terminal control sequences from reported text (src/sanitize.rs). Text here is a
 * sequence of characters, as the program iterates over it.
 */
module Sanitize {
  import opened Wrappers
  import opened Chars

  const MAX_CSI_BODY_CHARS: nat := 64
  const MAX_STRING_BODY_CHARS: nat := 8192

  const BEL: char := 0x07 as char
  const ESC: char := 0x1b as char
  const CSI: char := 0x9b as char

  // ----- character classes -----

  predicate InRange(c: char, lo: int, hi: int) {
    lo <= c as int <= hi
  }

  predicate IsControl(c: char) {
    c as int < 0x20 || c as int == 0x7f || InRange(c, 0x80, 0x9f)
  }

  /** The 8-bit introducers of string-type sequences. */
  predicate IsStringIntroducer(c: char) {
    c as int == 0x90 || c as int == 0x98 || InRange(c, 0x9d, 0x9f)
  }

  /** After an ESC, the characters that open a string-type sequence. */
  predicate OpensString(c: char) {
    c == ']' || c == 'P' || c == '^' || c == '_' || c == 'X'
  }

  /** Newline and tab survive only in terminal mode. */
  predicate KeptChar(c: char, keepNewlines: bool) {
    !IsControl(c) || (keepNewlines && (c == '\n' || c == '\t'))
  }

  // ----- how much each sequence consumes -----

  /** Length of a CSI body at the start of `s`, up to and including its final byte. */
  function CsiLength(s: string, budget: nat): (n: nat)
    ensures n <= |s|
    decreases |s|
  {
    if budget == 0 || s == "" then 0
    else if InRange(s[0], 0x40, 0x7e) then 1
    else if IsControl(s[0]) then 0
    else 1 + CsiLength(s[1..], budget - 1)
  }

  /** Length of an OSC-style payload at the start of `s`, with its terminator. */
  function StringLength(s: string, budget: nat): (n: nat)
    ensures n <= |s|
    decreases |s|
  {
    if budget == 0 || s == "" then 0
    else if s[0] == BEL then 1
    else if s[0] == ESC then (if |s| > 1 && s[1] == '\\' then 2 else 1)
    else if s[0] == '\n' then 0
    else 1 + StringLength(s[1..], budget - 1)
  }

  function IntermediateLength(s: string, budget: nat): (n: nat)
    ensures n <= |s|
    decreases |s|
  {
    if budget == 0 || s == "" || !InRange(s[0], 0x20, 0x2f) then 0
    else 1 + IntermediateLength(s[1..], budget - 1)
  }

  /** What follows an ESC. */
  function SequenceLength(s: string): (n: nat)
    ensures n <= |s|
  {
    if s == "" then 0
    else if s[0] == '[' then 1 + CsiLength(s[1..], MAX_CSI_BODY_CHARS)
    else if OpensString(s[0]) then 1 + StringLength(s[1..], MAX_STRING_BODY_CHARS)
    else
      var n := IntermediateLength(s, MAX_CSI_BODY_CHARS);
      if n < |s| && InRange(s[n], 0x30, 0x7e) then n + 1 else n
  }

  /** How much one round of the main loop consumes. */
  function RoundLength(s: string): (n: nat)
    requires s != ""
    ensures 1 <= n <= |s|
  {
    if s[0] == ESC then 1 + SequenceLength(s[1..])
    else if s[0] == CSI then 1 + CsiLength(s[1..], MAX_CSI_BODY_CHARS)
    else if IsStringIntroducer(s[0]) then 1 + StringLength(s[1..], MAX_STRING_BODY_CHARS)
    else 1
  }

  /** The eager specification: keep the kept characters, skip everything else. */
  function Strip(s: string, keepNewlines: bool): (r: string)
    ensures |r| <= |s|
    decreases |s|
  {
    if s == "" then ""
    else (if KeptChar(s[0], keepNewlines) then [s[0]] else "") + Strip(s[RoundLength(s)..], keepNewlines)
  }

  function Terminal(s: string): string {
    Strip(s, true)
  }

  // ----- the character stream and the loops over it -----

  class CharStream {
    const text: string
    var pos: nat

    ghost predicate Valid()
      reads this
    {
      pos <= |text|
    }

    constructor (text: string)
      ensures Valid() && this.text == text && pos == 0
    {
      this.text := text;
      pos := 0;
    }

    function Rest(): string
      requires Valid()
      reads this
    {
      text[pos..]
    }

    function Peek(): Option<char>
      requires Valid()
      reads this
    {
      if pos < |text| then Some(text[pos]) else None
    }

    method Next() returns (c: Option<char>)
      requires Valid()
      modifies this
      ensures Valid() && c == old(Peek())
      ensures pos == old(pos) + if c.Some? then 1 else 0
    {
      c := Peek();
      if c.Some? {
        pos := pos + 1;
      }
    }

    method SkipCsiBody()
      requires Valid()
      modifies this
      ensures Valid() && pos == old(pos) + CsiLength(old(Rest()), MAX_CSI_BODY_CHARS)
    {
      for i := 0 to MAX_CSI_BODY_CHARS
        invariant Valid() && pos >= old(pos)
        invariant pos + CsiLength(Rest(), MAX_CSI_BODY_CHARS - i) == old(pos) + CsiLength(old(Rest()), MAX_CSI_BODY_CHARS)
      {
        match Peek() {
          case Some(c) =>
            if InRange(c, 0x40, 0x7e) {
              var _ := Next();
              return;
            }
            if IsControl(c) {
              return;
            }
            assert Rest()[1..] == text[pos + 1..];
            var _ := Next();
          case None =>
            return;
        }
      }
    }

    method SkipStringBody()
      requires Valid()
      modifies this
      ensures Valid() && pos == old(pos) + StringLength(old(Rest()), MAX_STRING_BODY_CHARS)
    {
      for i := 0 to MAX_STRING_BODY_CHARS
        invariant Valid() && pos >= old(pos)
        invariant pos + StringLength(Rest(), MAX_STRING_BODY_CHARS - i)
                  == old(pos) + StringLength(old(Rest()), MAX_STRING_BODY_CHARS)
      {
        match Peek() {
          case Some(c) =>
            if c == BEL {
              var _ := Next();
              return;
            } else if c == ESC {
              var _ := Next();
              if Peek() == Some('\\') {
                var _ := Next();
              }
              return;
            } else if c == '\n' {
              return;
            }
            assert Rest()[1..] == text[pos + 1..];
            var _ := Next();
          case None =>
            return;
        }
      }
    }

    method SkipSequence()
      requires Valid()
      modifies this
      ensures Valid() && pos == old(pos) + SequenceLength(old(Rest()))
    {
      match Peek() {
        case None =>
        case Some(c) =>
          if c == '[' {
            var _ := Next();
            assert Rest() == old(Rest())[1..];
            SkipCsiBody();
          } else if OpensString(c) {
            var _ := Next();
            assert Rest() == old(Rest())[1..];
            SkipStringBody();
          } else {
            SkipIntermediates();
            if Peek().Some? && InRange(Peek().value, 0x30, 0x7e) {
              var _ := Next();
            }
          }
      }
    }

    /** Take one character and whatever sequence it introduces. */
    method NextRound() returns (ch: char)
      requires Valid() && pos < |text|
      modifies this
      ensures Valid() && ch == text[old(pos)]
      ensures pos == old(pos) + RoundLength(old(Rest()))
    {
      ch := text[pos];
      var _ := Next();
      assert Rest() == old(Rest())[1..];
      if ch == ESC {
        SkipSequence();
      } else if ch == CSI {
        SkipCsiBody();
      } else if IsStringIntroducer(ch) {
        SkipStringBody();
      }
    }

    method SkipIntermediates()
      requires Valid()
      modifies this
      ensures Valid() && pos == old(pos) + IntermediateLength(old(Rest()), MAX_CSI_BODY_CHARS)
    {
      var guard := 0;
      while Peek().Some? && InRange(Peek().value, 0x20, 0x2f) && guard < MAX_CSI_BODY_CHARS
        invariant Valid() && pos >= old(pos) && guard <= MAX_CSI_BODY_CHARS
        invariant pos + IntermediateLength(Rest(), MAX_CSI_BODY_CHARS - guard)
                  == old(pos) + IntermediateLength(old(Rest()), MAX_CSI_BODY_CHARS)
        decreases |text| - pos
      {
        assert Rest()[1..] == text[pos + 1..];
        var _ := Next();
        guard := guard + 1;
      }
    }
  }

  /** Text that is either returned as it was or copied because something was dropped. */
  datatype Cow = Borrowed | Owned(text: string) {
    function Text(original: string): string {
      match this
      case Borrowed => original
      case Owned(t) => t
    }
  }

  /** One round moves one kept character, or none, from the rest to what is kept so far. */
  lemma StripRound(before: string, rest: string, keepNewlines: bool)
    requires rest != ""
    ensures before + Strip(rest, keepNewlines)
            == (if KeptChar(rest[0], keepNewlines) then before + [rest[0]] else before)
               + Strip(rest[RoundLength(rest)..], keepNewlines)
  {
    var tail := Strip(rest[RoundLength(rest)..], keepNewlines);
    if KeptChar(rest[0], keepNewlines) {
      MoveOne(before, rest[0], tail);
    } else {
      assert "" + tail == tail;
    }
  }

  lemma MoveOne(before: string, c: char, tail: string)
    ensures before + ([c] + tail) == (before + [c]) + tail
  {
  }

  /** The lazy loop: the buffer starts at the first dropped character. */
  method Sanitized(text: string, keepNewlines: bool) returns (r: Cow)
    ensures r.Text(text) == Strip(text, keepNewlines)
    ensures r.Borrowed? <==> Strip(text, keepNewlines) == text
  {
    var out: Option<string> := None;
    var chars := new CharStream(text);
    assert chars.Rest() == text;
    ghost var kept := "";
    while chars.pos < |text|
      invariant fresh(chars) && chars.Valid() && chars.text == text
      invariant Strip(text, keepNewlines) == kept + Strip(chars.Rest(), keepNewlines)
      invariant kept == match out case None => text[..chars.pos] case Some(t) => t
      invariant out.Some? ==> |out.value| < chars.pos
      decreases |text| - chars.pos
    {
      StripRound(kept, chars.Rest(), keepNewlines);
      var ch;
      out, ch, kept := SanitizeRound(chars, out, kept, keepNewlines);
    }
    assert chars.Rest() == "" && text[..chars.pos] == text;
    assert kept + "" == kept;
    r := match out case Some(t) => Owned(t) case None => Borrowed;
  }

  /** One turn of the loop: take a round, start the buffer if something is dropped, append what is kept. */
  method SanitizeRound(chars: CharStream, out: Option<string>, ghost kept: string, keepNewlines: bool)
      returns (next: Option<string>, ch: char, ghost keptNext: string)
    requires chars.Valid() && chars.pos < |chars.text|
    requires kept == match out case None => chars.text[..chars.pos] case Some(t) => t
    requires out.Some? ==> |out.value| < chars.pos
    modifies chars
    ensures chars.Valid() && chars.pos > old(chars.pos)
    ensures ch == chars.text[old(chars.pos)]
    ensures chars.Rest() == old(chars.Rest())[RoundLength(old(chars.Rest()))..]
    ensures keptNext == if KeptChar(ch, keepNewlines) then kept + [ch] else kept
    ensures keptNext == match next case None => chars.text[..chars.pos] case Some(t) => t
    ensures next.Some? ==> |next.value| < chars.pos
  {
    var idx := chars.pos;
    ch := chars.NextRound();
    next := out;
    keptNext := kept;
    if KeptChar(ch, keepNewlines) {
      keptNext := kept + [ch];
      if out.Some? {
        next := Some(out.value + [ch]);
      }
    } else if out.None? {
      next := Some(chars.text[..idx]);
    }
  }

  // ----- lines -----

  lemma {:induction false} CsiStopsAtNewline(a: string, b: string, budget: nat)
    ensures CsiLength(a + "\n" + b, budget) == CsiLength(a, budget)
    decreases |a|
  {
    if a != "" && budget != 0 {
      CsiStopsAtNewline(a[1..], b, budget - 1);
      assert (a + "\n" + b)[1..] == a[1..] + "\n" + b;
    }
  }

  lemma {:induction false} StringStopsAtNewline(a: string, b: string, budget: nat)
    ensures StringLength(a + "\n" + b, budget) == StringLength(a, budget)
    decreases |a|
  {
    if a != "" && budget != 0 {
      StringStopsAtNewline(a[1..], b, budget - 1);
      assert (a + "\n" + b)[1..] == a[1..] + "\n" + b;
    }
  }

  lemma {:induction false} IntermediatesStopAtNewline(a: string, b: string, budget: nat)
    ensures IntermediateLength(a + "\n" + b, budget) == IntermediateLength(a, budget)
    decreases |a|
  {
    if a != "" && budget != 0 {
      IntermediatesStopAtNewline(a[1..], b, budget - 1);
      assert (a + "\n" + b)[1..] == a[1..] + "\n" + b;
    }
  }

  /** No sequence, terminated or not, reaches across a line break. */
  lemma RoundStopsAtNewline(a: string, b: string)
    requires a != ""
    ensures RoundLength(a + "\n" + b) == RoundLength(a)
  {
    var s, t := a[1..], (a + "\n" + b)[1..];
    assert t == s + "\n" + b;
    CsiStopsAtNewline(s, b, MAX_CSI_BODY_CHARS);
    StringStopsAtNewline(s, b, MAX_STRING_BODY_CHARS);
    IntermediatesStopAtNewline(s, b, MAX_CSI_BODY_CHARS);
    if s != "" {
      assert t[1..] == s[1..] + "\n" + b;
      CsiStopsAtNewline(s[1..], b, MAX_CSI_BODY_CHARS);
      StringStopsAtNewline(s[1..], b, MAX_STRING_BODY_CHARS);
    }
  }

  function LineBreak(keepNewlines: bool): string {
    if keepNewlines then "\n" else ""
  }

  /** The same line break seen with any text already produced before it. */
  lemma {:induction false} LineByLineAfter(before: string, a: string, b: string, keepNewlines: bool)
    ensures before + Strip(a + "\n" + b, keepNewlines)
            == before + Strip(a, keepNewlines) + LineBreak(keepNewlines) + Strip(b, keepNewlines)
    decreases |a|
  {
    var t := a + "\n" + b;
    if a == "" {
      assert t[1..] == b;
      StripRound(before, t, keepNewlines);
      assert before + "" == before;
    } else {
      var n := RoundLength(a);
      var next := if KeptChar(a[0], keepNewlines) then before + [a[0]] else before;
      RoundStopsAtNewline(a, b);
      assert t[n..] == a[n..] + "\n" + b && t[0] == a[0];
      LineByLineAfter(next, a[n..], b, keepNewlines);
      StripRound(before, t, keepNewlines);
      StripRound(before, a, keepNewlines);
    }
  }

  /**
   * Line homomorphism: stripping works line by line, for all texts, however sequences are
   * opened, cut short or over-long. In CSV mode the line break itself is dropped.
   */
  lemma LineByLine(a: string, b: string, keepNewlines: bool)
    ensures Strip(a + "\n" + b, keepNewlines)
            == Strip(a, keepNewlines) + LineBreak(keepNewlines) + Strip(b, keepNewlines)
  {
    LineByLineAfter("", a, b, keepNewlines);
    assert "" + Strip(a + "\n" + b, keepNewlines) == Strip(a + "\n" + b, keepNewlines);
    assert "" + Strip(a, keepNewlines) == Strip(a, keepNewlines);
  }

  function Newlines(s: string): nat {
    if s == "" then 0 else (if s[0] == '\n' then 1 else 0) + Newlines(s[1..])
  }

  lemma {:induction false} NewlinesConcat(a: string, b: string)
    ensures Newlines(a + b) == Newlines(a) + Newlines(b)
  {
    if a == "" {
      assert a + b == b;
    } else {
      NewlinesConcat(a[1..], b);
      assert (a + b)[1..] == a[1..] + b;
    }
  }

  lemma {:induction false} FirstLine(s: string) returns (a: string, b: string)
    requires '\n' in s
    ensures s == a + "\n" + b && '\n' !in a
  {
    if s[0] == '\n' {
      a, b := "", s[1..];
    } else {
      a, b := FirstLine(s[1..]);
      a := [s[0]] + a;
    }
  }

  lemma {:induction false} NoNewlines(s: string)
    requires '\n' !in s
    ensures Newlines(s) == 0
  {
    if s != "" {
      NoNewlines(s[1..]);
    }
  }

  /** Terminal mode keeps every line break of the text. */
  lemma {:induction false} NewlinesConserved(s: string)
    ensures Newlines(Terminal(s)) == Newlines(s)
    decreases |s|
  {
    if '\n' in s {
      var a, b := FirstLine(s);
      NewlinesConserved(a);
      NewlinesConserved(b);
      LineByLine(a, b, true);
      NewlinesConcat(a + "\n", b);
      NewlinesConcat(a, "\n");
      NewlinesConcat(Terminal(a) + "\n", Terminal(b));
      NewlinesConcat(Terminal(a), "\n");
    } else {
      Subsequent(s, true);
      if '\n' in Terminal(s) {
        SubsequenceMembers(Terminal(s), s, '\n');
      }
      NoNewlines(Terminal(s));
      NoNewlines(s);
    }
  }

  // ----- what survives -----

  predicate IsSubsequence(a: string, b: string) {
    if a == "" then true
    else if b == "" then false
    else if a[0] == b[0] && IsSubsequence(a[1..], b[1..]) then true
    else IsSubsequence(a, b[1..])
  }

  lemma {:induction false} SkipPrefix(a: string, b: string, n: nat)
    requires n <= |b| && IsSubsequence(a, b[n..])
    ensures IsSubsequence(a, b)
  {
    if n > 0 {
      assert b[n..] == b[1..][n - 1..];
      SkipPrefix(a, b[1..], n - 1);
    }
  }

  lemma {:induction false} SubsequenceMembers(a: string, b: string, c: char)
    requires IsSubsequence(a, b) && c in a
    ensures c in b
  {
    if a[0] == b[0] && IsSubsequence(a[1..], b[1..]) {
      if c != a[0] {
        SubsequenceMembers(a[1..], b[1..], c);
      }
    } else {
      SubsequenceMembers(a, b[1..], c);
    }
  }

  /** Nothing is invented or reordered: the output is a subsequence of the input. */
  lemma {:induction false} Subsequent(s: string, keepNewlines: bool)
    ensures IsSubsequence(Strip(s, keepNewlines), s)
    decreases |s|
  {
    if s != "" {
      var n := RoundLength(s);
      Subsequent(s[n..], keepNewlines);
      if KeptChar(s[0], keepNewlines) {
        assert n == 1;
        assert Strip(s, keepNewlines)[1..] == Strip(s[1..], keepNewlines);
      } else {
        assert Strip(s, keepNewlines) == Strip(s[n..], keepNewlines);
        SkipPrefix(Strip(s, keepNewlines), s, n);
      }
    }
  }

  /** No control character survives, except newline and tab in terminal mode. */
  lemma {:induction false} OnlyKeptSurvives(s: string, keepNewlines: bool)
    ensures forall c <- Strip(s, keepNewlines) :: KeptChar(c, keepNewlines)
    decreases |s|
  {
    if s != "" {
      OnlyKeptSurvives(s[RoundLength(s)..], keepNewlines);
    }
  }

  lemma {:induction false} CleanUnchanged(s: string, keepNewlines: bool)
    requires forall c <- s :: KeptChar(c, keepNewlines)
    ensures Strip(s, keepNewlines) == s
  {
    if s != "" {
      assert s[0] in s;
      CleanUnchanged(s[1..], keepNewlines);
    }
  }

  lemma Idempotent(s: string, keepNewlines: bool)
    ensures Strip(Strip(s, keepNewlines), keepNewlines) == Strip(s, keepNewlines)
  {
    OnlyKeptSurvives(s, keepNewlines);
    CleanUnchanged(Strip(s, keepNewlines), keepNewlines);
  }

  function WithoutWhitespace(s: string): string {
    if s == "" then ""
    else (if s[0] == '\n' || s[0] == '\t' then "" else [s[0]]) + WithoutWhitespace(s[1..])
  }

  /** The two modes skip the same sequences: CSV text is terminal text without newlines and tabs. */
  lemma {:induction false} CsvIsTerminalWithoutWhitespace(s: string)
    ensures Strip(s, false) == WithoutWhitespace(Strip(s, true))
    decreases |s|
  {
    if s != "" {
      CsvIsTerminalWithoutWhitespace(s[RoundLength(s)..]);
      if KeptChar(s[0], true) {
        assert Strip(s, true)[1..] == Strip(s[1..], true);
      } else {
        assert Strip(s, true) == Strip(s[RoundLength(s)..], true);
      }
    }
  }

  /**
   * A string-type payload without terminators is dropped as long as it fits the budget; of a
   * longer one exactly the part past the budget is looked at again.
   */
  lemma {:induction false} PayloadDropped(payload: string, rest: string, budget: nat)
    requires BEL !in payload && ESC !in payload && '\n' !in payload
    ensures StringLength(payload + rest, budget)
            == if |payload| >= budget then budget else |payload| + StringLength(rest, budget - |payload|)
    decreases |payload|
  {
    if payload == "" {
      assert payload + rest == rest;
    } else if budget > 0 {
      PayloadDropped(payload[1..], rest, budget - 1);
      assert (payload + rest)[1..] == payload[1..] + rest;
    }
  }

  /** A round that starts with a dropped character leaves what follows it. */
  lemma RoundDropped(s: string, rest: string, keepNewlines: bool)
    requires s != "" && !KeptChar(s[0], keepNewlines) && s[RoundLength(s)..] == rest
    ensures Strip(s, keepNewlines) == Strip(rest, keepNewlines)
  {
  }

  // ----- CSV cells -----

  function TrimStart(s: string): string {
    if s != "" && IsWhitespace(s[0]) then TrimStart(s[1..]) else s
  }

  predicate StartsWithFormulaSigil(s: string) {
    var t := TrimStart(s);
    t != "" && (t[0] == '=' || t[0] == '+' || t[0] == '-' || t[0] == '@')
  }

  function CsvField(s: string): string {
    var t := Strip(s, false);
    if StartsWithFormulaSigil(t) then "'" + t else t
  }

  /** A cell never starts a formula, holds no control character, and is stable. */
  lemma CsvFieldSafe(s: string)
    ensures !StartsWithFormulaSigil(CsvField(s))
    ensures forall c <- CsvField(s) :: !IsControl(c)
    ensures CsvField(CsvField(s)) == CsvField(s)
  {
    OnlyKeptSurvives(s, false);
    CleanUnchanged(CsvField(s), false);
  }
}
