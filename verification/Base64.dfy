/**
 * The base64 encoder of the Jira client (src/jira/client.rs) against a strict decoder for
 * section 4 of RFC 4648: the decoder accepts exactly the encoder's outputs and inverts it.
 *
 * The encoder packs three bytes into 24 bits with shifts and cuts sextets out with shifts and
 * masks; the fields do not overlap, so the model writes them as sums, quotients and remainders.
 */
module Base64 {
  import opened Wrappers

  type Byte = b: int | 0 <= b < 256
  type Sextet = v: int | 0 <= v < 64

  // ----- the alphabet -----

  function Symbol(v: Sextet): (c: char)
    ensures c != '='
  {
    if v < 26 then 'A' + v as char
    else if v < 52 then 'a' + (v - 26) as char
    else if v < 62 then '0' + (v - 52) as char
    else if v == 62 then '+'
    else '/'
  }

  function Value(c: char): Option<Sextet> {
    if 'A' <= c <= 'Z' then Some(c as int - 'A' as int)
    else if 'a' <= c <= 'z' then Some(c as int - 'a' as int + 26)
    else if '0' <= c <= '9' then Some(c as int - '0' as int + 52)
    else if c == '+' then Some(62)
    else if c == '/' then Some(63)
    else None
  }

  lemma ValueOfSymbol(v: Sextet)
    ensures Value(Symbol(v)) == Some(v)
  {
  }

  lemma SymbolOfValue(c: char)
    ensures Value(c).Some? ==> Symbol(Value(c).value) == c
  {
  }

  // ----- one group: four sextets that carry one to three bytes -----

  datatype Group = Group(s0: Sextet, s1: Sextet, s2: Sextet, s3: Sextet, bytes: nat) {
    /** Bits that carry no byte are zero. */
    predicate Canonical() {
      && 1 <= bytes <= 3
      && (bytes == 1 ==> s1 % 16 == 0 && s2 == 0)
      && (bytes <= 2 ==> s2 % 4 == 0 && s3 == 0)
    }
  }

  /** The sextets of up to three bytes, missing bytes counting as zero. */
  function GroupOf(chunk: seq<Byte>): Group
    requires 1 <= |chunk| <= 3
  {
    var b0: int := chunk[0];
    var b1: int := if |chunk| > 1 then chunk[1] else 0;
    var b2: int := if |chunk| > 2 then chunk[2] else 0;
    Group(b0 / 4, b0 % 4 * 16 + b1 / 16, b1 % 16 * 4 + b2 / 64, b2 % 64, |chunk|)
  }

  function BytesOf(g: Group): (chunk: seq<Byte>)
    requires 1 <= g.bytes <= 3
    ensures |chunk| == g.bytes
  {
    [g.s0 * 4 + g.s1 / 16, g.s1 % 16 * 16 + g.s2 / 4, g.s2 % 4 * 64 + g.s3][..g.bytes]
  }

  /** The text of a group: sextets without data show as `=`. */
  function Symbols(g: Group): (text: string)
    ensures |text| == 4
  {
    [ Symbol(g.s0),
      Symbol(g.s1),
      if g.bytes > 1 then Symbol(g.s2) else '=',
      if g.bytes > 2 then Symbol(g.s3) else '=' ]
  }

  // ----- encoding -----

  function EncodeChunk(chunk: seq<Byte>): (text: string)
    requires 1 <= |chunk| <= 3
    ensures |text| == 4
  {
    Symbols(GroupOf(chunk))
  }

  function Encoded(bytes: seq<Byte>): string {
    if bytes == [] then ""
    else if |bytes| <= 3 then EncodeChunk(bytes)
    else EncodeChunk(bytes[..3]) + Encoded(bytes[3..])
  }

  method Encode(bytes: seq<Byte>) returns (out: string)
    ensures out == Encoded(bytes)
  {
    out := "";
    var i := 0;
    while i < |bytes|
      invariant 0 <= i <= |bytes|
      invariant Encoded(bytes) == out + Encoded(bytes[i..])
    {
      var end := if i + 3 < |bytes| then i + 3 else |bytes|;
      var text := EncodeTriple(bytes[i..end]);
      EncodedStep(bytes, i, end);
      out := out + text;
      i := end;
    }
  }

  /** The loop body: the bytes packed into one number, the sextets cut out of it. */
  method EncodeTriple(chunk: seq<Byte>) returns (text: string)
    requires 1 <= |chunk| <= 3
    ensures text == EncodeChunk(chunk)
  {
    var b0: int := chunk[0];
    var b1: int := if |chunk| > 1 then chunk[1] else 0;
    var b2: int := if |chunk| > 2 then chunk[2] else 0;
    var triple := b0 * 0x1_0000 + b1 * 0x100 + b2;
    Sextets(b0, b1, b2);
    text := [Symbol(triple / 0x4_0000 % 0x40)];
    text := text + [Symbol(triple / 0x1000 % 0x40)];
    text := text + [if |chunk| > 1 then Symbol(triple / 0x40 % 0x40) else '='];
    text := text + [if |chunk| > 2 then Symbol(triple % 0x40) else '='];
  }

  lemma EncodedStep(bytes: seq<Byte>, i: nat, end: nat)
    requires i < |bytes| && end == if i + 3 < |bytes| then i + 3 else |bytes|
    ensures Encoded(bytes[i..]) == EncodeChunk(bytes[i..end]) + Encoded(bytes[end..])
  {
    var rest := bytes[i..];
    assert bytes[i..end] == rest[..end - i] && bytes[end..] == rest[end - i..];
    if end == |bytes| {
      assert rest[..end - i] == rest;
    }
  }

  // ----- the arithmetic of a group -----

  lemma Split4(h: nat, l: nat)
    requires l < 4
    ensures (h * 4 + l) / 4 == h && (h * 4 + l) % 4 == l
  {
  }

  lemma Split16(h: nat, l: nat)
    requires l < 16
    ensures (h * 16 + l) / 16 == h && (h * 16 + l) % 16 == l
  {
  }

  lemma Split64(h: nat, l: nat)
    requires l < 64
    ensures (h * 64 + l) / 64 == h && (h * 64 + l) % 64 == l
  {
  }

  lemma Split4096(h: nat, l: nat)
    requires l < 0x1000
    ensures (h * 0x1000 + l) / 0x1000 == h
  {
  }

  lemma Split18Bits(h: nat, l: nat)
    requires l < 0x4_0000
    ensures (h * 0x4_0000 + l) / 0x4_0000 == h
  {
  }

  lemma Sextets(a: Byte, b: Byte, c: Byte)
    ensures var t := a * 0x1_0000 + b * 0x100 + c;
            && t / 0x4_0000 % 0x40 == a / 4
            && t / 0x1000 % 0x40 == a % 4 * 16 + b / 16
            && t / 0x40 % 0x40 == b % 16 * 4 + c / 64
            && t % 0x40 == c % 64
  {
    HighSextets(a / 4, a % 4, b / 16, b % 16 * 0x100 + c);
    LowSextets(a * 16 + b / 16, b % 16, c / 64, c % 64);
  }

  lemma HighSextets(q: nat, r: nat, h: nat, low: nat)
    requires q < 64 && r < 4 && h < 16 && low < 0x1000
    ensures var t := q * 0x4_0000 + r * 0x1_0000 + h * 0x1000 + low;
            t / 0x4_0000 % 0x40 == q && t / 0x1000 % 0x40 == r * 16 + h
  {
    Split18Bits(q, r * 0x1_0000 + h * 0x1000 + low);
    Split4096(q * 64 + r * 16 + h, low);
    Split64(0, q);
    Split64(q, r * 16 + h);
  }

  lemma LowSextets(high: nat, l: nat, q: nat, r: nat)
    requires l < 16 && q < 4 && r < 64
    ensures var t := high * 0x1000 + l * 0x100 + q * 64 + r;
            t / 0x40 % 0x40 == l * 4 + q && t % 0x40 == r
  {
    Split64(high * 64 + l * 4 + q, r);
    Split64(high, l * 4 + q);
  }

  lemma BytesOfGroup(chunk: seq<Byte>)
    requires 1 <= |chunk| <= 3
    ensures GroupOf(chunk).Canonical() && BytesOf(GroupOf(chunk)) == chunk
  {
    var b0: int := chunk[0];
    var b1: int := if |chunk| > 1 then chunk[1] else 0;
    var b2: int := if |chunk| > 2 then chunk[2] else 0;
    Split16(b0 % 4, b1 / 16);
    Split4(b1 % 16, b2 / 64);
    assert chunk == [b0, b1, b2][..|chunk|];
  }

  lemma GroupOfBytes(g: Group)
    requires g.Canonical()
    ensures GroupOf(BytesOf(g)) == g
  {
    Split4(g.s0, g.s1 / 16);
    Split16(g.s1 % 16, g.s2 / 4);
    Split64(g.s2 % 4, g.s3);
  }

  // ----- decoding, section 4 of RFC 4648 -----

  /** Four characters as a group: `=` only at the end, and the bits it leaves over must be zero. */
  function Parse(text: string): (r: Option<Group>)
    requires |text| == 4
    ensures r.Some? ==> r.value.Canonical()
  {
    var v0, v1, v2, v3 := Value(text[0]), Value(text[1]), Value(text[2]), Value(text[3]);
    if v0.None? || v1.None? then None
    else if text[2] == '=' && text[3] == '=' && v1.value % 16 == 0 then Some(Group(v0.value, v1.value, 0, 0, 1))
    else if v2.None? then None
    else if text[3] == '=' && v2.value % 4 == 0 then Some(Group(v0.value, v1.value, v2.value, 0, 2))
    else if v3.None? then None
    else Some(Group(v0.value, v1.value, v2.value, v3.value, 3))
  }

  /** Groups of four; only the last may be padded, and nothing may follow it. */
  function Decoded(s: string): Option<seq<Byte>> {
    if s == "" then Some([])
    else if |s| < 4 then None
    else
      match Parse(s[..4])
      case None => None
      case Some(g) =>
        if |s| == 4 then Some(BytesOf(g))
        else if g.bytes < 3 then None
        else
          match Decoded(s[4..])
          case None => None
          case Some(rest) => Some(BytesOf(g) + rest)
  }

  lemma ParseSymbols(g: Group)
    requires g.Canonical()
    ensures Parse(Symbols(g)) == Some(g)
  {
    ValueOfSymbol(g.s0);
    ValueOfSymbol(g.s1);
    ValueOfSymbol(g.s2);
    ValueOfSymbol(g.s3);
  }

  lemma SymbolsParse(text: string)
    requires |text| == 4 && Parse(text).Some?
    ensures Symbols(Parse(text).value) == text
  {
    SymbolOfValue(text[0]);
    SymbolOfValue(text[1]);
    SymbolOfValue(text[2]);
    SymbolOfValue(text[3]);
  }

  lemma DecodedStep(g: Group, tail: string)
    requires g.Canonical() && g.bytes == 3 && tail != "" && Decoded(tail).Some?
    ensures Decoded(Symbols(g) + tail) == Some(BytesOf(g) + Decoded(tail).value)
  {
    ParseSymbols(g);
    assert (Symbols(g) + tail)[..4] == Symbols(g) && (Symbols(g) + tail)[4..] == tail;
  }

  lemma EncodedCons(head: seq<Byte>, rest: seq<Byte>)
    requires |head| == 3
    ensures Encoded(head + rest) == EncodeChunk(head) + Encoded(rest)
  {
    var all := head + rest;
    assert all[..3] == head && all[3..] == rest;
    if rest == [] {
      assert all == head;
    }
  }

  /** Decoding inverts encoding, for every byte string. */
  lemma {:induction false} RoundTrip(bytes: seq<Byte>)
    ensures Decoded(Encoded(bytes)) == Some(bytes)
  {
    if 0 < |bytes| <= 3 {
      BytesOfGroup(bytes);
      ParseSymbols(GroupOf(bytes));
      assert Encoded(bytes)[..4] == Encoded(bytes);
    } else if |bytes| > 3 {
      RoundTrip(bytes[3..]);
      BytesOfGroup(bytes[..3]);
      DecodedStep(GroupOf(bytes[..3]), Encoded(bytes[3..]));
      assert bytes[..3] + bytes[3..] == bytes;
    }
  }

  /** The decoder accepts nothing but encodings: each byte string has one accepted text. */
  lemma {:induction false} OnlyEncodingsDecode(s: string)
    requires Decoded(s).Some?
    ensures Encoded(Decoded(s).value) == s
  {
    if s != "" {
      var g := Parse(s[..4]).value;
      SymbolsParse(s[..4]);
      GroupOfBytes(g);
      if |s| > 4 {
        OnlyEncodingsDecode(s[4..]);
        EncodedCons(BytesOf(g), Decoded(s[4..]).value);
      } else {
        assert s[..4] == s;
      }
    }
  }

  /** How many `=` end the encoding of `n` bytes. */
  function Padding(n: nat): (p: nat)
    ensures p <= 2 && (n + p) % 3 == 0
  {
    (3 - n % 3) % 3
  }

  /** Four characters for every three bytes begun, and `=` exactly in the last `Padding` places. */
  ghost predicate ShapedFor(out: string, n: nat) {
    && |out| == (n + 2) / 3 * 4
    && forall k | 0 <= k < |out| :: out[k] == '=' <==> |out| - Padding(n) <= k
  }

  lemma GroupShape(g: Group)
    requires g.Canonical()
    ensures ShapedFor(Symbols(g), g.bytes)
  {
    assert Padding(1) == 2 && Padding(2) == 1 && Padding(3) == 0;
  }

  lemma ShapeStep(head: string, tail: string, n: nat)
    requires ShapedFor(head, 3) && ShapedFor(tail, n)
    ensures ShapedFor(head + tail, n + 3)
  {
    assert |head| == 4 && (n + 3 + 2) / 3 == 1 + (n + 2) / 3;
    assert Padding(n + 3) == Padding(n) && Padding(3) == 0;
  }

  lemma {:induction false} Shape(bytes: seq<Byte>)
    ensures ShapedFor(Encoded(bytes), |bytes|)
  {
    if 0 < |bytes| <= 3 {
      BytesOfGroup(bytes);
      GroupShape(GroupOf(bytes));
    } else if |bytes| > 3 {
      BytesOfGroup(bytes[..3]);
      GroupShape(GroupOf(bytes[..3]));
      Shape(bytes[3..]);
      ShapeStep(EncodeChunk(bytes[..3]), Encoded(bytes[3..]), |bytes| - 3);
    }
  }

  // ----- the text read as a number -----

  /** Bytes as digits in base 256, missing ones counting as zero. */
  function ByteNumber(chunk: seq<Byte>): nat
    requires 1 <= |chunk| <= 3
  {
    var b0: int := chunk[0];
    var b1: int := if |chunk| > 1 then chunk[1] else 0;
    var b2: int := if |chunk| > 2 then chunk[2] else 0;
    0x1_0000 * b0 + 0x100 * b1 + b2
  }

  /** A symbol as a digit in base 64; padding counts as zero. */
  function DigitOf(c: char): nat {
    if Value(c).Some? then Value(c).value else 0
  }

  /** The four symbols of a chunk, read in base 64, are its bytes, read in base 256. */
  lemma ChunkIsItsNumber(chunk: seq<Byte>)
    requires 1 <= |chunk| <= 3
    ensures var t := EncodeChunk(chunk);
            0x4_0000 * DigitOf(t[0]) + 0x1000 * DigitOf(t[1]) + 0x40 * DigitOf(t[2]) + DigitOf(t[3]) == ByteNumber(chunk)
  {
    var g := GroupOf(chunk);
    ValueOfSymbol(g.s0);
    ValueOfSymbol(g.s1);
    ValueOfSymbol(g.s2);
    ValueOfSymbol(g.s3);
  }

  /** Examples of RFC 4648, section 10 ... */
  lemma Examples()
    ensures Encoded([0x66]) == "Zg==" && Encoded([0x66, 0x6f]) == "Zm8=" && Encoded([0x66, 0x6f, 0x6f]) == "Zm9v"
    ensures Encoded([0x62, 0x61, 0x72]) == "YmFy"
  {
  }

  /** ... the two symbols that are no letters or digits, and a text of two groups. */
  lemma MoreExamples()
    ensures Encoded([0xfb, 0xef, 0xff]) == "++//"
    ensures Encoded([0x66, 0x6f, 0x6f, 0x62, 0x61, 0x72]) == "Zm9vYmFy"
  {
    Examples();
    var text := [0x66, 0x6f, 0x6f, 0x62, 0x61, 0x72];
    assert text[..3] == [0x66, 0x6f, 0x6f] && text[3..] == [0x62, 0x61, 0x72];
    assert "Zm9v" + "YmFy" == "Zm9vYmFy";
  }
}
