/**
 * What stripping does to each kind of control sequence (ECMA-48), in terms of the text alone:
 * the character classes are written out, and no part of the stripper is named but `Strip`.
 */
module SanitizeGrammar {
  import opened Chars
  import opened Sanitize

  predicate Between(c: char, lo: int, hi: int) {
    lo <= c as int <= hi
  }

  predicate Control(c: char) {
    Between(c, 0, 0x1f) || Between(c, 0x7f, 0x9f)
  }

  /** Kept wherever it stands: no control character, or a newline or tab in terminal mode. */
  predicate Shows(c: char, keepNewlines: bool) {
    !Control(c) || (keepNewlines && (c as int == 0x0a || c as int == 0x09))
  }

  /** Introduces nothing: not ESC, not the 8-bit CSI, DCS, SOS, OSC, PM or APC. */
  predicate Alone(c: char) {
    c as int !in {0x1b, 0x9b, 0x90, 0x98, 0x9d, 0x9e, 0x9f}
  }

  predicate IsCsi(intro: string) {
    intro == [0x1b as char, '['] || intro == [0x9b as char]
  }

  /** The introducers of DCS, SOS, OSC, PM and APC, two characters or one. */
  predicate IsStringIntro(intro: string) {
    || intro == [0x1b as char, 'P'] || intro == [0x1b as char, 'X'] || intro == [0x1b as char, ']']
    || intro == [0x1b as char, '^'] || intro == [0x1b as char, '_']
    || intro == [0x90 as char] || intro == [0x98 as char] || intro == [0x9d as char]
    || intro == [0x9e as char] || intro == [0x9f as char]
  }

  /** A parameter or intermediate character of a CSI sequence, or any other that neither ends nor breaks it. */
  predicate InCsiBody(c: char) {
    !Control(c) && !Between(c, 0x40, 0x7e)
  }

  predicate CsiBody(params: string) {
    forall c <- params :: InCsiBody(c)
  }

  /** A payload character: not BEL, not ESC, not a newline. */
  predicate Payload(payload: string) {
    forall c <- payload :: c as int != 0x07 && c as int != 0x1b && c as int != 0x0a
  }

  predicate Intermediates(text: string) {
    forall c <- text :: Between(c, 0x20, 0x2f)
  }

  // ----- one sequence at the front of a text -----

  lemma Front(a: string, b: string)
    requires a != ""
    ensures (a + b)[0] == a[0] && (a + b)[1..] == a[1..] + b
  {
  }

  lemma FrontTwo(a: string, b: string)
    requires |a| == 2
    ensures (a + b)[0] == a[0] && (a + b)[1..] != "" && (a + b)[1..][0] == a[1] && (a + b)[1..][1..] == b
  {
  }

  lemma AfterTwo(a: string, b: string, rest: string)
    ensures (a + (b + rest))[|a| + |b|..] == rest
  {
  }

  lemma {:induction false} CsiBodyLength(params: string, rest: string, budget: nat)
    requires CsiBody(params)
    ensures CsiLength(params + rest, budget)
            == if |params| >= budget then budget else |params| + CsiLength(rest, budget - |params|)
    decreases |params|
  {
    if params == "" {
      assert params + rest == rest;
    } else if budget > 0 {
      assert params[0] in params && InCsiBody(params[0]);
      CsiBodyLength(params[1..], rest, budget - 1);
      Front(params, rest);
    }
  }

  lemma CsiRound(intro: string, body: string)
    requires IsCsi(intro)
    ensures RoundLength(intro + body) == |intro| + CsiLength(body, MAX_CSI_BODY_CHARS)
    ensures !KeptChar((intro + body)[0], true) && !KeptChar((intro + body)[0], false)
  {
    if |intro| == 2 {
      FrontTwo(intro, body);
    } else {
      Front(intro, body);
      assert intro[1..] + body == body;
    }
  }

  lemma StringRound(intro: string, body: string)
    requires IsStringIntro(intro)
    ensures RoundLength(intro + body) == |intro| + StringLength(body, MAX_STRING_BODY_CHARS)
    ensures !KeptChar((intro + body)[0], true) && !KeptChar((intro + body)[0], false)
  {
    if |intro| == 2 {
      FrontTwo(intro, body);
    } else {
      Front(intro, body);
      assert intro[1..] + body == body;
    }
  }

  /** A sequence that takes `taken` of the body with it leaves the rest of the body. */
  lemma CsiTakes(intro: string, taken: string, rest: string, keepNewlines: bool)
    requires IsCsi(intro) && CsiLength(taken + rest, MAX_CSI_BODY_CHARS) == |taken|
    ensures Strip(intro + (taken + rest), keepNewlines) == Strip(rest, keepNewlines)
  {
    CsiRound(intro, taken + rest);
    AfterTwo(intro, taken, rest);
    RoundDropped(intro + (taken + rest), rest, keepNewlines);
  }

  lemma StringTakes(intro: string, taken: string, rest: string, keepNewlines: bool)
    requires IsStringIntro(intro) && StringLength(taken + rest, MAX_STRING_BODY_CHARS) == |taken|
    ensures Strip(intro + (taken + rest), keepNewlines) == Strip(rest, keepNewlines)
  {
    StringRound(intro, taken + rest);
    AfterTwo(intro, taken, rest);
    RoundDropped(intro + (taken + rest), rest, keepNewlines);
  }

  lemma Assoc3(a: string, b: string, c: string)
    ensures (a + b) + c == a + (b + c)
  {
  }

  /** A CSI sequence of fewer than 64 body characters disappears up to and with its final character. */
  lemma CsiRemoved(intro: string, params: string, final: char, rest: string, keepNewlines: bool)
    requires IsCsi(intro) && CsiBody(params) && |params| < 64 && Between(final, 0x40, 0x7e)
    ensures Strip(intro + (params + ([final] + rest)), keepNewlines) == Strip(rest, keepNewlines)
  {
    CsiBodyLength(params, [final] + rest, MAX_CSI_BODY_CHARS);
    Assoc3(params, [final], rest);
    CsiTakes(intro, params + [final], rest, keepNewlines);
  }

  /** One that a control character breaks off loses its body, and the control character is looked at again. */
  lemma CsiBroken(intro: string, params: string, c: char, rest: string, keepNewlines: bool)
    requires IsCsi(intro) && CsiBody(params) && |params| < 64 && Control(c)
    ensures Strip(intro + (params + ([c] + rest)), keepNewlines) == Strip([c] + rest, keepNewlines)
  {
    CsiBodyLength(params, [c] + rest, MAX_CSI_BODY_CHARS);
    CsiTakes(intro, params, [c] + rest, keepNewlines);
  }

  /** An over-long one loses its first 64 body characters, and what follows them stays. */
  lemma CsiOverlong(intro: string, params: string, rest: string, keepNewlines: bool)
    requires IsCsi(intro) && CsiBody(params) && |params| == 64
    ensures Strip(intro + (params + rest), keepNewlines) == Strip(rest, keepNewlines)
  {
    CsiBodyLength(params, rest, MAX_CSI_BODY_CHARS);
    CsiTakes(intro, params, rest, keepNewlines);
  }

  /** One that the text ends in disappears. */
  lemma CsiUnfinished(intro: string, params: string, keepNewlines: bool)
    requires IsCsi(intro) && CsiBody(params) && |params| <= 64
    ensures Strip(intro + params, keepNewlines) == ""
  {
    CsiBodyLength(params, "", MAX_CSI_BODY_CHARS);
    assert params + "" == params;
    CsiTakes(intro, params, "", keepNewlines);
  }

  lemma PayloadLength(payload: string, rest: string)
    requires Payload(payload)
    ensures StringLength(payload + rest, MAX_STRING_BODY_CHARS)
            == if |payload| >= MAX_STRING_BODY_CHARS then MAX_STRING_BODY_CHARS
               else |payload| + StringLength(rest, MAX_STRING_BODY_CHARS - |payload|)
  {
    PayloadDropped(payload, rest, MAX_STRING_BODY_CHARS);
  }

  /** A string-type sequence of fewer than 8192 payload characters disappears up to and with BEL. */
  lemma StringEndsAtBell(intro: string, payload: string, rest: string, keepNewlines: bool)
    requires IsStringIntro(intro) && Payload(payload) && |payload| < 8192
    ensures Strip(intro + (payload + ([0x07 as char] + rest)), keepNewlines) == Strip(rest, keepNewlines)
  {
    PayloadLength(payload, [0x07 as char] + rest);
    Assoc3(payload, [0x07 as char], rest);
    StringTakes(intro, payload + [0x07 as char], rest, keepNewlines);
  }

  /** ... and with `ESC \`; any other ESC ends it alone, and what follows that ESC is looked at again. */
  lemma StringEndsAtEsc(intro: string, payload: string, rest: string, keepNewlines: bool)
    requires IsStringIntro(intro) && Payload(payload) && |payload| < 8192
    ensures Strip(intro + (payload + ([0x1b as char] + rest)), keepNewlines)
            == Strip(if rest != "" && rest[0] == '\\' then rest[1..] else rest, keepNewlines)
  {
    var end := [0x1b as char] + rest;
    PayloadLength(payload, end);
    if rest != "" && rest[0] == '\\' {
      var st := [0x1b as char, '\\'];
      assert end == st + rest[1..];
      Assoc3(payload, st, rest[1..]);
      StringTakes(intro, payload + st, rest[1..], keepNewlines);
    } else {
      Assoc3(payload, [0x1b as char], rest);
      StringTakes(intro, payload + [0x1b as char], rest, keepNewlines);
    }
  }

  /** A line break ends one without a terminator, and the line break is looked at again. */
  lemma StringEndsAtNewline(intro: string, payload: string, rest: string, keepNewlines: bool)
    requires IsStringIntro(intro) && Payload(payload) && |payload| < 8192
    ensures Strip(intro + (payload + ("\n" + rest)), keepNewlines) == Strip("\n" + rest, keepNewlines)
  {
    PayloadLength(payload, "\n" + rest);
    StringTakes(intro, payload, "\n" + rest, keepNewlines);
  }

  /** An over-long one loses its first 8192 payload characters, and what follows them stays. */
  lemma StringOverlong(intro: string, payload: string, rest: string, keepNewlines: bool)
    requires IsStringIntro(intro) && Payload(payload) && |payload| == 8192
    ensures Strip(intro + (payload + rest), keepNewlines) == Strip(rest, keepNewlines)
  {
    PayloadLength(payload, rest);
    StringTakes(intro, payload, rest, keepNewlines);
  }

  lemma StringUnfinished(intro: string, payload: string, keepNewlines: bool)
    requires IsStringIntro(intro) && Payload(payload) && |payload| <= 8192
    ensures Strip(intro + payload, keepNewlines) == ""
  {
    PayloadLength(payload, "");
    assert payload + "" == payload;
    StringTakes(intro, payload, "", keepNewlines);
  }

  // ----- other escape sequences -----

  lemma {:induction false} IntermediatesLength(text: string, rest: string, budget: nat)
    requires Intermediates(text)
    ensures IntermediateLength(text + rest, budget)
            == if |text| >= budget then budget else |text| + IntermediateLength(rest, budget - |text|)
    decreases |text|
  {
    if text == "" {
      assert text + rest == rest;
    } else if budget > 0 {
      assert text[0] in text;
      IntermediatesLength(text[1..], rest, budget - 1);
      Front(text, rest);
    }
  }

  /** After ESC, what is neither `[` nor the opener of a string: it takes `taken` with it. */
  lemma EscTakes(taken: string, rest: string, keepNewlines: bool)
    requires taken + rest != "" ==> (taken + rest)[0] !in {'[', ']', 'P', 'X', '^', '_'}
    requires SequenceLength(taken + rest) == |taken|
    ensures Strip([0x1b as char] + (taken + rest), keepNewlines) == Strip(rest, keepNewlines)
  {
    var s := [0x1b as char] + (taken + rest);
    assert s[1..] == taken + rest;
    assert RoundLength(s) == 1 + |taken|;
    AfterTwo([0x1b as char], taken, rest);
    RoundDropped(s, rest, keepNewlines);
  }

  lemma AtIndex(a: string, b: string)
    requires b != ""
    ensures |a| < |a + b| && (a + b)[|a|] == b[0]
    ensures a != "" ==> (a + b)[0] == a[0]
  {
  }

  /** ESC, up to 64 intermediates and a final character disappear. */
  lemma EscapeRemoved(between: string, final: char, rest: string, keepNewlines: bool)
    requires Intermediates(between) && |between| <= 64 && Between(final, 0x30, 0x7e)
    requires between == "" ==> final !in {'[', ']', 'P', 'X', '^', '_'}
    ensures Strip([0x1b as char] + (between + ([final] + rest)), keepNewlines) == Strip(rest, keepNewlines)
  {
    var end := [final] + rest;
    IntermediatesLength(between, end, MAX_CSI_BODY_CHARS);
    AtIndex(between, end);
    assert between != "" ==> between[0] in between;
    Assoc3(between, [final], rest);
    EscTakes(between + [final], rest, keepNewlines);
  }

  /** ESC and intermediates that no final character ends disappear, and what follows them is looked at again. */
  lemma EscapeBroken(between: string, rest: string, keepNewlines: bool)
    requires Intermediates(between) && |between| <= 64
    requires rest != "" ==> !Between(rest[0], 0x30, 0x7e) && (|between| == 64 || !Between(rest[0], 0x20, 0x2f))
    ensures Strip([0x1b as char] + (between + rest), keepNewlines) == Strip(rest, keepNewlines)
  {
    IntermediatesLength(between, rest, MAX_CSI_BODY_CHARS);
    if rest != "" {
      AtIndex(between, rest);
    } else {
      assert between + rest == between;
    }
    assert between != "" ==> between[0] in between;
    EscTakes(between, rest, keepNewlines);
  }

  // ----- characters on their own -----

  /** A character that introduces nothing is kept or dropped by its class, whatever follows it. */
  lemma CharacterAlone(c: char, rest: string, keepNewlines: bool)
    requires Alone(c)
    ensures Strip([c] + rest, keepNewlines) == (if Shows(c, keepNewlines) then [c] else "") + Strip(rest, keepNewlines)
  {
    var s := [c] + rest;
    assert s[1..] == rest;
    assert RoundLength(s) == 1;
  }

  // ----- whole texts -----

  /** A text read as characters and complete sequences. */
  datatype Item =
    | Char(c: char)
    | ControlSequence(intro: string, params: string, final: char)
    | ControlString(intro: string, payload: string, bell: bool)
    | Escape(between: string, final: char)
  {
    predicate Complete() {
      match this
      case Char(c) => Alone(c)
      case ControlSequence(intro, params, final) =>
        IsCsi(intro) && CsiBody(params) && |params| < 64 && Between(final, 0x40, 0x7e)
      case ControlString(intro, payload, _) => IsStringIntro(intro) && Payload(payload) && |payload| < 8192
      case Escape(between, final) =>
        && Intermediates(between) && |between| <= 64 && Between(final, 0x30, 0x7e)
        && (between == "" ==> final !in {'[', ']', 'P', 'X', '^', '_'})
    }

    function Written(): string {
      match this
      case Char(c) => [c]
      case ControlSequence(intro, params, final) => intro + (params + [final])
      case ControlString(intro, payload, bell) =>
        intro + (payload + if bell then [0x07 as char] else [0x1b as char, '\\'])
      case Escape(between, final) => [0x1b as char] + (between + [final])
    }

    function Shown(keepNewlines: bool): string {
      if Char? && Shows(c, keepNewlines) then [c] else ""
    }
  }

  function WrittenAll(items: seq<Item>): string {
    if items == [] then "" else items[0].Written() + WrittenAll(items[1..])
  }

  function ShownAll(items: seq<Item>, keepNewlines: bool): string {
    if items == [] then "" else items[0].Shown(keepNewlines) + ShownAll(items[1..], keepNewlines)
  }

  lemma Regroup(a: string, b: string, c: string, d: string)
    ensures (a + (b + c)) + d == a + (b + (c + d))
  {
  }

  lemma OneItem(item: Item, rest: string, keepNewlines: bool)
    requires item.Complete()
    ensures Strip(item.Written() + rest, keepNewlines) == item.Shown(keepNewlines) + Strip(rest, keepNewlines)
  {
    assert "" + Strip(rest, keepNewlines) == Strip(rest, keepNewlines);
    match item {
      case Char(c) =>
        CharacterAlone(c, rest, keepNewlines);
      case ControlSequence(intro, params, final) =>
        Regroup(intro, params, [final], rest);
        CsiRemoved(intro, params, final, rest, keepNewlines);
      case ControlString(intro, payload, bell) =>
        StringItem(intro, payload, bell, rest, keepNewlines);
      case Escape(between, final) =>
        Regroup([0x1b as char], between, [final], rest);
        EscapeRemoved(between, final, rest, keepNewlines);
    }
  }

  lemma StringItem(intro: string, payload: string, bell: bool, rest: string, keepNewlines: bool)
    requires IsStringIntro(intro) && Payload(payload) && |payload| < 8192
    ensures Strip(ControlString(intro, payload, bell).Written() + rest, keepNewlines) == Strip(rest, keepNewlines)
  {
    if bell {
      Regroup(intro, payload, [0x07 as char], rest);
      StringEndsAtBell(intro, payload, rest, keepNewlines);
    } else {
      var st := [0x1b as char, '\\'];
      Regroup(intro, payload, st, rest);
      assert st + rest == [0x1b as char] + ("\\" + rest);
      assert ("\\" + rest)[1..] == rest;
      StringEndsAtEsc(intro, payload, "\\" + rest, keepNewlines);
    }
  }

  /** Of a text made of characters and complete sequences exactly the kept characters are left, in order. */
  lemma {:induction false} StripReadsItems(items: seq<Item>, keepNewlines: bool)
    requires forall i <- items :: i.Complete()
    ensures Strip(WrittenAll(items), keepNewlines) == ShownAll(items, keepNewlines)
    decreases |items|
  {
    if items != [] {
      assert items[0] in items;
      assert forall i <- items[1..] :: i in items;
      OneItem(items[0], WrittenAll(items[1..]), keepNewlines);
      StripReadsItems(items[1..], keepNewlines);
    }
  }

  // ----- cells -----

  lemma {:induction false} TrimAfter(spaces: string, c: char, rest: string)
    requires (forall w <- spaces :: IsWhitespace(w)) && !IsWhitespace(c)
    ensures TrimStart(spaces + ([c] + rest)) == [c] + rest
  {
    var s := spaces + ([c] + rest);
    if spaces == "" {
      assert s == [c] + rest;
    } else {
      assert spaces[0] in spaces;
      assert s[1..] == spaces[1..] + ([c] + rest);
      TrimAfter(spaces[1..], c, rest);
    }
  }

  /** A cell is the stripped text, behind an apostrophe exactly when its first character that is no whitespace is `=`, `+`, `-` or `@`. */
  lemma CellIsQuotedIff(s: string, spaces: string, c: char, rest: string)
    requires Strip(s, false) == spaces + ([c] + rest)
    requires (forall w <- spaces :: IsWhitespace(w)) && !IsWhitespace(c)
    ensures CsvField(s) == (if c in {'=', '+', '-', '@'} then "'" else "") + Strip(s, false)
  {
    TrimAfter(spaces, c, rest);
    assert "" + Strip(s, false) == Strip(s, false);
  }
}
