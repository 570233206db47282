/** The checksum of classic GitHub tokens (src/validators.rs). */
module GithubToken {
  import opened Crc32
  import opened Wrappers

  // ----- base 62 -----

  /** The code of an ASCII character. */
  type Ascii = o: int | 0 <= o < 128

  /** The alphabet 0-9, A-Z, a-z. */
  function Digit(d: nat): Ascii
    requires d < 62
  {
    if d < 10 then 48 + d else if d < 36 then 55 + d else 61 + d
  }

  function Pow62(n: nat): (p: nat)
    ensures p >= 1
  {
    if n == 0 then 1 else 62 * Pow62(n - 1)
  }

  /** Exactly `width` digits of `value`, the highest first. */
  function FixedDigits(value: nat, width: nat): (ds: seq<Ascii>)
    ensures |ds| == width
    decreases value, width
  {
    if width == 0 then [] else FixedDigits(value / 62, width - 1) + [Digit(value % 62)]
  }

  /** The digits of `value`, the lowest first; zero has one digit. */
  function LowFirst(value: nat): (ds: seq<Ascii>)
    ensures ds != []
  {
    if value < 62 then [Digit(value)] else [Digit(value % 62)] + LowFirst(value / 62)
  }

  function Reverse<T>(s: seq<T>): (r: seq<T>)
    ensures |r| == |s|
  {
    if s == [] then [] else Reverse(s[1..]) + [s[0]]
  }

  function Zeros(n: nat): (z: seq<Ascii>)
    ensures |z| == n
  {
    if n == 0 then [] else [Digit(0)] + Zeros(n - 1)
  }

  function PadTo(ds: seq<Ascii>, width: nat): seq<Ascii> {
    if |ds| >= width then ds else ds + Zeros(width - |ds|)
  }

  method ToBase62Padded(value: nat, width: nat) returns (digits: seq<Ascii>)
    ensures digits == Reverse(PadTo(LowFirst(value), width))
    ensures 0 < width && value < Pow62(width) ==> digits == FixedDigits(value, width)
  {
    var out: seq<Ascii> := [];
    var v := value;
    var more := true;
    while more
      invariant more ==> LowFirst(value) == out + LowFirst(v)
      invariant !more ==> LowFirst(value) == out
      decreases more, v
    {
      out := out + [Digit(v % 62)];
      more := v / 62 != 0;
      v := v / 62;
    }
    while |out| < width
      invariant PadTo(out, width) == PadTo(LowFirst(value), width)
      decreases width - |out|
    {
      assert out + Zeros(width - |out|) == (out + [Digit(0)]) + Zeros(width - |out| - 1);
      out := out + [Digit(0)];
      assert out + Zeros(0) == out;
    }
    digits := Reverse(out);
    if 0 < width && value < Pow62(width) {
      PaddedIsFixed(value, width);
    }
  }

  lemma {:induction false} ZerosAreFixed(width: nat)
    ensures Reverse(Zeros(width)) == FixedDigits(0, width)
  {
    if width > 0 {
      ZerosAreFixed(width - 1);
      assert Zeros(width)[1..] == Zeros(width - 1);
    }
  }

  /** A value below 62^width has at most `width` digits, and padding makes it exactly that many. */
  lemma {:induction false} PaddedIsFixed(value: nat, width: nat)
    requires 0 < width && value < Pow62(width)
    ensures Reverse(PadTo(LowFirst(value), width)) == FixedDigits(value, width)
  {
    if value < 62 {
      ZerosAreFixed(width - 1);
      var padded := [Digit(value)] + Zeros(width - 1);
      assert padded[1..] == Zeros(width - 1);
    } else {
      QuotientFits(value, Pow62(width - 1));
      PaddedIsFixed(value / 62, width - 1);
      PadAfterFirst(Digit(value % 62), LowFirst(value / 62), width);
    }
  }

  lemma QuotientFits(value: nat, p: nat)
    requires value < 62 * p
    ensures value / 62 < p
    ensures value >= 62 ==> p > 1
  {
  }

  lemma PadAfterFirst(first: Ascii, rest: seq<Ascii>, width: nat)
    requires 0 < width
    ensures Reverse(PadTo([first] + rest, width)) == Reverse(PadTo(rest, width - 1)) + [first]
  {
    var padded := PadTo([first] + rest, width);
    assert padded == [first] + PadTo(rest, width - 1);
    assert padded[1..] == PadTo(rest, width - 1);
  }

  /** At a fixed width, different values have different digits. */
  lemma {:induction false} FixedDigitsInjective(a: nat, b: nat, width: nat)
    requires a < Pow62(width) && b < Pow62(width) && FixedDigits(a, width) == FixedDigits(b, width)
    ensures a == b
  {
    if width > 0 {
      var x, y := FixedDigits(a, width), FixedDigits(b, width);
      assert x[..width - 1] == FixedDigits(a / 62, width - 1);
      assert y[..width - 1] == FixedDigits(b / 62, width - 1);
      assert x[width - 1] == y[width - 1];
      FixedDigitsInjective(a / 62, b / 62, width - 1);
    }
  }

  /** The value of a digit, `0` to `9`, then `A` to `Z`, then `a` to `z`, by its ASCII code. */
  function DigitValue(code: int): Option<nat> {
    if '0' as int <= code <= '9' as int then Some(code - '0' as int)
    else if 'A' as int <= code <= 'Z' as int then Some(code - 'A' as int + 10)
    else if 'a' as int <= code <= 'z' as int then Some(code - 'a' as int + 36)
    else None
  }

  /** Digits read as a number in base 62, the highest first. */
  function ValueOf(digits: seq<int>): Option<nat> {
    if digits == [] then Some(0)
    else
      match (ValueOf(digits[..|digits| - 1]), DigitValue(digits[|digits| - 1]))
      case (Some(high), Some(low)) => Some(62 * high + low)
      case _ => None
  }

  /** Reading the digits back gives the value. */
  lemma {:induction false} DigitsReadBack(value: nat, width: nat)
    requires value < Pow62(width)
    ensures ValueOf(FixedDigits(value, width)) == Some(value)
  {
    if width > 0 {
      var digits := FixedDigits(value, width);
      assert digits[..width - 1] == FixedDigits(value / 62, width - 1) && digits[width - 1] == Digit(value % 62);
      QuotientFits(value, Pow62(width - 1));
      DigitsReadBack(value / 62, width - 1);
    }
  }

  /** ... and no other digits of that number read as the value. */
  lemma {:induction false} OnlyTheseDigits(digits: seq<int>, value: nat)
    requires ValueOf(digits) == Some(value)
    ensures digits == FixedDigits(value, |digits|)
    ensures forall d <- digits :: 0 <= d < 128
  {
    if digits != [] {
      var n := |digits| - 1;
      var high, low := ValueOf(digits[..n]).value, DigitValue(digits[n]).value;
      OnlyTheseDigits(digits[..n], high);
      LastDigit(high, low);
      assert Digit(low) == digits[n];
      assert digits == digits[..n] + [digits[n]];
    }
  }

  lemma LastDigit(high: nat, low: nat)
    requires low < 62
    ensures (62 * high + low) / 62 == high && (62 * high + low) % 62 == low
  {
  }

  // ----- the token -----

  const CHECKSUM_LENGTH: nat := 6

  /** Byte values as numbers: digits are arithmetic, only the checksum needs bits. */
  function Codes(text: seq<Byte>): (codes: seq<int>)
    ensures |codes| == |text|
  {
    seq(|text|, i requires 0 <= i < |text| => text[i] as int)
  }

  /** `ghp_`, `gho_`, `ghu_`, `ghs_`, `ghr_`, `ghw_` in ASCII. */
  predicate IsPrefix(p: seq<Byte>) {
    && |p| == 4 && p[0] == 0x67 && p[1] == 0x68 && p[3] == 0x5f
    && (p[2] == 0x70 || p[2] == 0x6f || p[2] == 0x75 || p[2] == 0x73 || p[2] == 0x72 || p[2] == 0x77)
  }

  /** A UTF-8 continuation byte, at which a string must not be cut. */
  predicate IsContinuation(code: int) {
    0x80 <= code < 0xC0
  }

  /** The checksum of a body as a number of the register's width. */
  function Number(body: seq<Byte>): (n: nat)
    ensures n < 0x1_0000_0000
  {
    NumberRoundTrip(Crc(body));
    Crc(body) as int
  }

  function Checksum(body: seq<Byte>): (c: seq<Ascii>)
    ensures |c| == CHECKSUM_LENGTH
  {
    FixedDigits(Number(body), CHECKSUM_LENGTH)
  }

  /** The program panics when the checksum would start inside a multi-byte character. */
  datatype Verdict = Accepted | Rejected | Panicked

  method ValidateGithubToken(value: seq<Byte>) returns (verdict: Verdict)
    ensures verdict == Judge(value)
  {
    if |value| < 4 || !IsPrefix(value[..4]) {
      return Rejected;
    }
    var rest := value[4..];
    if |rest| < 7 {
      return Rejected;
    }
    var baseLen := |rest| - 6;
    if IsContinuation(rest[baseLen] as int) {
      return Panicked;
    }
    var body := rest[..baseLen];
    var crc := ComputeCrc32(body);
    NumberRoundTrip(crc);
    NumberFits();
    var expected := ToBase62Padded(crc as int, 6);
    assert body == value[4..|value| - 6] && rest[baseLen..] == value[|value| - 6..];
    verdict := if Codes(rest[baseLen..]) == expected then Accepted else Rejected;
  }

  function Judge(value: seq<Byte>): Verdict {
    if |value| < 11 || !IsPrefix(value[..4]) then Rejected
    else if IsContinuation(value[|value| - 6] as int) then Panicked
    else if Codes(value[|value| - 6..]) == Checksum(value[4..|value| - 6]) then Accepted
    else Rejected
  }

  /** Every 32-bit number has at most six base-62 digits. */
  lemma NumberFits()
    ensures 0x1_0000_0000 < Pow62(CHECKSUM_LENGTH)
  {
    assert Pow62(1) == 62;
    assert Pow62(2) == 3844;
    assert Pow62(3) == 238328;
    assert Pow62(4) == 14776336;
    assert Pow62(5) == 916132832;
  }

  /** The checksum text determines the checksum. */
  lemma ChecksumInjective(a: seq<Byte>, b: seq<Byte>)
    ensures Checksum(a) == Checksum(b) <==> Crc(a) == Crc(b)
  {
    if Checksum(a) == Checksum(b) {
      NumberFits();
      FixedDigitsInjective(Number(a), Number(b), CHECKSUM_LENGTH);
      NumberRoundTrip(Crc(a));
      NumberRoundTrip(Crc(b));
    }
  }

  /** A token in its parts: what the verdict depends on. */
  lemma Parts(p: seq<Byte>, body: seq<Byte>, c: seq<Byte>)
    requires |p| == 4 && |c| == CHECKSUM_LENGTH
    ensures Judge(p + body + c) ==
              if !IsPrefix(p) || body == [] then Rejected
              else if IsContinuation(c[0] as int) then Panicked
              else if Codes(c) == Checksum(body) then Accepted
              else Rejected
  {
    var value := p + body + c;
    assert value[..4] == p && value[4..|value| - 6] == body && value[|value| - 6..] == c;
  }

  /** A text is a prefix, a non-empty body, and the checksum of that body. */
  ghost predicate Spells(value: seq<Byte>, p: seq<Byte>, body: seq<Byte>, c: seq<Byte>) {
    value == p + body + c && IsPrefix(p) && body != [] && Codes(c) == Checksum(body)
  }

  lemma AcceptedSpells(value: seq<Byte>) returns (p: seq<Byte>, body: seq<Byte>, c: seq<Byte>)
    requires Judge(value) == Accepted
    ensures Spells(value, p, body, c)
  {
    var n := |value|;
    p, body, c := value[..4], value[4..n - 6], value[n - 6..];
    InThree(value, 4, n - 6);
  }

  lemma InThree<T>(s: seq<T>, i: nat, j: nat)
    requires i <= j <= |s|
    ensures s == s[..i] + s[i..j] + s[j..]
  {
  }

  lemma SpelledIsAccepted(p: seq<Byte>, body: seq<Byte>, c: seq<Byte>)
    requires IsPrefix(p) && body != [] && Codes(c) == Checksum(body)
    ensures Judge(p + body + c) == Accepted
  {
    Parts(p, body, c);
    assert c[0] as int == Codes(c)[0];
  }

  /** Accepted tokens are exactly a prefix, a non-empty body, and the checksum of that body. */
  lemma AcceptsExactly(value: seq<Byte>)
    ensures Judge(value) == Accepted <==> exists p, body, c :: Spells(value, p, body, c)
  {
    if Judge(value) == Accepted {
      var p, body, c := AcceptedSpells(value);
    }
    if p, body, c :| Spells(value, p, body, c) {
      SpelledIsAccepted(p, body, c);
    }
  }

  /** The four bytes of a prefix: `gh`, one of the letters p, o, u, s, r, w, and an underscore. */
  predicate NamesAToken(p: seq<Byte>) {
    && |p| == 4 && p[0] as int == 'g' as int && p[1] as int == 'h' as int && p[3] as int == '_' as int
    && p[2] as int in {'p' as int, 'o' as int, 'u' as int, 's' as int, 'r' as int, 'w' as int}
  }

  /** A text that names a token, then a body, then six digits that read as the CRC-32 of the body. */
  ghost predicate IsToken(value: seq<Byte>) {
    && |value| > 10 && NamesAToken(value[..4])
    && ValueOf(Codes(value[|value| - 6..])) == Some(Crc(value[4..|value| - 6]) as int)
  }

  lemma PrefixNames(p: seq<Byte>)
    ensures IsPrefix(p) <==> NamesAToken(p)
  {
    if |p| == 4 {
      ByteCodes(p[0]);
      ByteCodes(p[1]);
      ByteCodes(p[2]);
      ByteCodes(p[3]);
    }
  }

  lemma ByteCodes(b: Byte)
    ensures b == 0x67 <==> b as int == 'g' as int
    ensures b == 0x68 <==> b as int == 'h' as int
    ensures b == 0x5f <==> b as int == '_' as int
    ensures b == 0x70 <==> b as int == 'p' as int
    ensures b == 0x6f <==> b as int == 'o' as int
    ensures b == 0x75 <==> b as int == 'u' as int
    ensures b == 0x73 <==> b as int == 's' as int
    ensures b == 0x72 <==> b as int == 'r' as int
    ensures b == 0x77 <==> b as int == 'w' as int
  {
  }

  lemma CrcAsNumber(body: seq<Byte>)
    ensures Number(body) == Crc(body) as int && Number(body) < Pow62(CHECKSUM_LENGTH)
  {
    NumberFits();
    NumberRoundTrip(Crc(body));
  }

  /** Accepted exactly when the checksum reads as the checksum of the body, in the alphabet written out. */
  lemma AcceptedIffToken(value: seq<Byte>)
    ensures Judge(value) == Accepted <==> IsToken(value)
  {
    if |value| > 10 {
      var n := |value|;
      var body, c := value[4..n - 6], value[n - 6..];
      PrefixNames(value[..4]);
      CrcAsNumber(body);
      DigitsReadBack(Number(body), CHECKSUM_LENGTH);
      if ValueOf(Codes(c)) == Some(Number(body)) {
        OnlyTheseDigits(Codes(c), Number(body));
        assert c[0] as int == Codes(c)[0];
      }
    }
  }

  /**
   * Changing an accepted token inside a window of at most four consecutive body bytes, a
   * single byte in particular, makes it rejected.
   */
  lemma ChangedBodyRejected(p: seq<Byte>, before: seq<Byte>, x: seq<Byte>, y: seq<Byte>, after: seq<Byte>, c: seq<Byte>)
    requires |p| == 4 && |c| == CHECKSUM_LENGTH && |x| == |y| <= 4 && x != y
    requires Judge(p + (before + x + after) + c) == Accepted
    ensures Judge(p + (before + y + after) + c) == Rejected
  {
    Parts(p, before + x + after, c);
    Parts(p, before + y + after, c);
    BurstDetected(before, x, y, after);
    ChecksumInjective(before + x + after, before + y + after);
  }

  /** A different checksum text after an accepted body is never accepted. */
  lemma ChecksumTextUnique(p: seq<Byte>, body: seq<Byte>, c: seq<Byte>, d: seq<Byte>)
    requires |p| == 4 && |c| == |d| == CHECKSUM_LENGTH
    requires Judge(p + body + c) == Judge(p + body + d) == Accepted
    ensures c == d
  {
    Parts(p, body, c);
    Parts(p, body, d);
    forall i | 0 <= i < |c|
      ensures c[i] == d[i]
    {
      assert c[i] as int == Codes(c)[i] == Codes(d)[i] == d[i] as int;
      ByteRoundTrip(c[i]);
      ByteRoundTrip(d[i]);
    }
  }
}
