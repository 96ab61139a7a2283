/** Positional arithmetic: what a sequence of bytes or of hex digits denotes as a number. */
module Positional {

  type byte = b: int | 0 <= b < 256

  function Pow16(n: nat): (p: nat)
    ensures p > 0
  {
    if n == 0 then 1 else 16 * Pow16(n - 1)
  }

  function Pow256(n: nat): (p: nat)
    ensures p > 0
  {
    if n == 0 then 1 else 256 * Pow256(n - 1)
  }

  /** The number whose most significant byte comes first. */
  function ValueBE(b: seq<byte>): nat {
    if b == [] then 0 else 256 * ValueBE(b[..|b| - 1]) + b[|b| - 1]
  }

  /** The number whose least significant byte comes first. */
  function ValueLE(b: seq<byte>): nat {
    if b == [] then 0 else b[0] + 256 * ValueLE(b[1..])
  }

  function Value(b: seq<byte>, littleEndian: bool): nat {
    if littleEndian then ValueLE(b) else ValueBE(b)
  }

  lemma AppendRegroups<T>(a: seq<T>, b: seq<T>, c: seq<T>)
    ensures a + b + c == a + (b + c)
  {
  }

  function Reverse<T>(s: seq<T>): (r: seq<T>)
    ensures |r| == |s|
  {
    if s == [] then [] else Reverse(s[1..]) + [s[0]]
  }

  lemma {:induction false} ReverseSnoc<T>(s: seq<T>, x: T)
    ensures Reverse(s + [x]) == [x] + Reverse(s)
  {
    if s == [] {
    } else {
      assert (s + [x])[1..] == s[1..] + [x];
      ReverseSnoc(s[1..], x);
    }
  }

  lemma {:induction false} ReversedAt<T>(s: seq<T>, i: nat)
    requires i < |s|
    ensures Reverse(s)[i] == s[|s| - 1 - i]
  {
    if i < |s| - 1 {
      ReversedAt(s[1..], i);
    }
  }

  lemma {:induction false} ReverseTwice<T>(s: seq<T>)
    ensures Reverse(Reverse(s)) == s
  {
    if s != [] {
      ReverseSnoc(Reverse(s[1..]), s[0]);
      ReverseTwice(s[1..]);
    }
  }

  /** Reversing the bytes exchanges the two readings. */
  lemma {:induction false} ValueOfReverse(b: seq<byte>)
    ensures ValueBE(Reverse(b)) == ValueLE(b)
    ensures ValueLE(Reverse(b)) == ValueBE(b)
  {
    ReversedReading(b);
    ReversedReading(Reverse(b));
    ReverseTwice(b);
  }

  lemma {:induction false} ReversedReading(b: seq<byte>)
    ensures ValueBE(Reverse(b)) == ValueLE(b)
  {
    if b != [] {
      ReversedReading(b[1..]);
      assert Reverse(b)[..|b| - 1] == Reverse(b[1..]);
    }
  }

  lemma {:induction false} ValueBEBound(b: seq<byte>)
    ensures ValueBE(b) < Pow256(|b|)
  {
    if b != [] {
      ValueBEBound(b[..|b| - 1]);
    }
  }

  /** Leading zeros do not count. */
  lemma {:induction false} ValueBELeadingZeros(zeros: seq<byte>, b: seq<byte>)
    requires forall i :: 0 <= i < |zeros| ==> zeros[i] == 0
    ensures ValueBE(zeros + b) == ValueBE(b)
  {
    if b != [] {
      assert (zeros + b)[..|zeros + b| - 1] == zeros + b[..|b| - 1];
      ValueBELeadingZeros(zeros, b[..|b| - 1]);
    } else if zeros != [] {
      assert zeros + b == zeros;
      var init := zeros[..|zeros| - 1];
      assert init + b == init;
      ValueBELeadingZeros(init, b);
    }
  }

  /** Byte strings of one length are determined by the number they denote. */
  lemma {:induction false} ValueBEInjective(a: seq<byte>, b: seq<byte>)
    requires |a| == |b| && ValueBE(a) == ValueBE(b)
    ensures a == b
  {
    if a != [] {
      var n := |a| - 1;
      assert a[n] == b[n] && ValueBE(a[..n]) == ValueBE(b[..n]);
      ValueBEInjective(a[..n], b[..n]);
      assert a == a[..n] + [a[n]] && b == b[..n] + [b[n]];
    }
  }

  lemma {:induction false} ValueLEInjective(a: seq<byte>, b: seq<byte>)
    requires |a| == |b| && ValueLE(a) == ValueLE(b)
    ensures a == b
  {
    if a != [] {
      ValueLEInjective(a[1..], b[1..]);
      assert a == [a[0]] + a[1..] && b == [b[0]] + b[1..];
    }
  }

  /** The n lowest bytes of v, least significant first. */
  function LittleEndian(v: nat, n: nat): (b: seq<byte>)
    ensures |b| == n
  {
    if n == 0 then [] else [v % 256] + LittleEndian(v / 256, n - 1)
  }

  lemma {:induction false} ValueOfLittleEndian(v: nat, n: nat)
    requires v < Pow256(n)
    ensures ValueLE(LittleEndian(v, n)) == v
  {
    if n > 0 {
      ValueOfLittleEndian(v / 256, n - 1);
      assert LittleEndian(v, n)[1..] == LittleEndian(v / 256, n - 1);
    }
  }

  lemma DivideBelow(d: nat, v: nat, p: nat)
    requires d < 256 && p > 0
    ensures (d + 256 * v) / (256 * p) == v / p
  {
    var q, r := v / p, v % p;
    assert v == q * p + r;
    assert 256 * (q * p) == q * (256 * p);
    DivModUnique(d + 256 * v, 256 * p, q, 256 * r + d);
  }

  /** Byte i is digit i of the number, in base 256. */
  lemma {:induction false} ValueLEDigit(b: seq<byte>, i: nat)
    requires i < |b|
    ensures b[i] == ValueLE(b) / Pow256(i) % 256
  {
    if i > 0 {
      ValueLEDigit(b[1..], i - 1);
      DivideBelow(b[0], ValueLE(b[1..]), Pow256(i - 1));
    }
  }

  lemma {:induction false} Pow16Doubles(n: nat)
    ensures Pow16(2 * n) == Pow256(n)
  {
    if n > 0 {
      assert Pow16(2 * n) == 16 * Pow16(2 * n - 1) == 16 * (16 * Pow16(2 * n - 2));
      Pow16Doubles(n - 1);
    }
  }

  lemma {:induction false} Pow16Monotone(m: nat, n: nat)
    requires m <= n
    ensures Pow16(m) <= Pow16(n)
  {
    if m < n {
      Pow16Monotone(m, n - 1);
    }
  }

  lemma Pow256Of8()
    ensures Pow256(8) == 0x1_0000_0000_0000_0000
    ensures Pow16(8) == 0x1_0000_0000
  {
    Pow16Doubles(4);
    assert Pow256(4) == 0x1_0000_0000 by {
      assert Pow256(1) == 256;
      assert Pow256(2) == 0x1_0000;
      assert Pow256(3) == 0x100_0000;
    }
    assert Pow256(5) == 0x100_0000_0000;
    assert Pow256(6) == 0x1_0000_0000_0000;
    assert Pow256(7) == 0x100_0000_0000_0000;
  }

  lemma MultipleAtLeast(k: int, m: int)
    requires k > 0 && m > 0
    ensures k * m >= m
  {
    assert (k - 1) * m >= 0;
  }

  lemma DivModUnique(n: int, m: int, q: int, r: int)
    requires m > 0 && n == q * m + r && 0 <= r < m
    ensures n / m == q && n % m == r
  {
    var k := q - n / m;
    assert k * m == n % m - r by {
      assert n == (n / m) * m + n % m;
      assert k * m == q * m - (n / m) * m;
    }
    if k > 0 {
      MultipleAtLeast(k, m);
    } else if k < 0 {
      MultipleAtLeast(-k, m);
    }
  }
}

/**
 * Byte, hex and number conversions (packages/common/src/bytes.ts). Numbers go through
 * hexadecimal text; the lemmas say that this path agrees with positional arithmetic.
 */
module Bytes {
  import opened Wrappers
  import opened Positional

  datatype Error =
    | Negative
    | DoesNotFit
    | LongerThanU64
    | Overflow

  /** What JavaScript's parseInt gives: a number, or NaN for the empty string. */
  datatype Parsed = Number(value: nat) | NaN

  const MAX_SAFE_INTEGER: nat := 0x1F_FFFF_FFFF_FFFF

  // ---------------------------------------------------------------------------
  // Hexadecimal text
  // ---------------------------------------------------------------------------

  predicate IsHexDigit(c: char) {
    '0' <= c <= '9' || 'a' <= c <= 'f' || 'A' <= c <= 'F'
  }

  predicate IsHex(s: string) {
    forall i :: 0 <= i < |s| ==> IsHexDigit(s[i])
  }

  function HexVal(c: char): (v: nat)
    requires IsHexDigit(c)
    ensures v < 16
  {
    if '0' <= c <= '9' then c as int - '0' as int
    else if 'a' <= c <= 'f' then c as int - 'a' as int + 10
    else c as int - 'A' as int + 10
  }

  function HexChar(v: nat): (c: char)
    requires v < 16
    ensures IsHexDigit(c) && HexVal(c) == v
  {
    "0123456789abcdef"[v]
  }

  /** parseInt(s, 16) on hex digits. */
  function HexNat(s: string): nat
    requires IsHex(s)
  {
    if s == "" then 0 else 16 * HexNat(s[..|s| - 1]) + HexVal(s[|s| - 1])
  }

  /** n.toString(16). */
  function HexDigits(n: nat): (s: string)
    ensures IsHex(s) && |s| > 0
  {
    if n < 16 then [HexChar(n)] else HexDigits(n / 16) + [HexChar(n % 16)]
  }

  function Zeros(n: nat): (s: string)
    ensures |s| == n && forall i :: 0 <= i < n ==> s[i] == '0'
  {
    seq(n, _ => '0')
  }

  /** One byte as two hex digits: toString(16).padStart(2, '0'). */
  function HexPair(b: byte): (s: string)
    ensures |s| == 2 && IsHex(s)
  {
    var digits := HexDigits(b);
    assert |digits| <= 2 by {
      if b >= 16 {
        assert HexDigits(b / 16) == [HexChar(b / 16)];
      }
    }
    Zeros(2 - |digits|) + digits
  }

  function HexBody(b: seq<byte>): (s: string)
    ensures |s| == 2 * |b| && IsHex(s)
  {
    if b == [] then "" else HexBody(b[..|b| - 1]) + HexPair(b[|b| - 1])
  }

  function ToHex(keybytes: seq<byte>): string {
    "0x" + HexBody(keybytes)
  }

  function StripPrefix(s: string): string {
    if "0x" <= s then s[2..] else s
  }

  /** match(/.{2}/g) and parseInt of each pair, on text of even length. */
  function Pairs(s: string): (b: seq<byte>)
    requires IsHex(s) && |s| % 2 == 0
    ensures |b| == |s| / 2
  {
    if s == "" then []
    else Pairs(s[..|s| - 2]) + [16 * HexVal(s[|s| - 2]) + HexVal(s[|s| - 1])]
  }

  /** An odd number of digits gets a leading zero, which keeps the number. */
  function EvenDigits(s: string): (r: string)
    requires IsHex(s)
    ensures IsHex(r) && |r| % 2 == 0 && |r| / 2 == (|s| + 1) / 2
  {
    if |s| % 2 == 1 then "0" + s else s
  }

  function ParseHex(keystring: string, littleEndian: bool := false): seq<byte>
    requires IsHex(StripPrefix(keystring))
  {
    var key := Pairs(EvenDigits(StripPrefix(keystring)));
    if littleEndian then Reverse(key) else key
  }

  // ---------------------------------------------------------------------------
  // Hexadecimal text denotes the same number as the bytes
  // ---------------------------------------------------------------------------

  lemma {:induction false} HexNatOfDigits(n: nat)
    ensures HexNat(HexDigits(n)) == n
  {
    if n >= 16 {
      var s := HexDigits(n);
      HexNatOfDigits(n / 16);
      assert s[..|s| - 1] == HexDigits(n / 16);
    } else {
      assert HexDigits(n)[..0] == "";
    }
  }

  /** n.toString(16) has at most k digits exactly when n < 16^k (k > 0). */
  lemma {:induction false} HexDigitsLength(n: nat, k: nat)
    requires k > 0
    ensures |HexDigits(n)| <= k <==> n < Pow16(k)
  {
    if n < 16 {
      Pow16Monotone(1, k);
    } else if k == 1 {
      assert Pow16(1) == 16;
    } else {
      HexDigitsLength(n / 16, k - 1);
    }
  }

  lemma {:induction false} HexNatLeadingZeros(k: nat, s: string)
    requires IsHex(s)
    ensures IsHex(Zeros(k) + s) && HexNat(Zeros(k) + s) == HexNat(s)
  {
    var z := Zeros(k);
    if s != "" {
      assert (z + s)[..|z + s| - 1] == z + s[..|s| - 1];
      HexNatLeadingZeros(k, s[..|s| - 1]);
    } else if k > 0 {
      assert z + s == z;
      assert z[..k - 1] == Zeros(k - 1) == Zeros(k - 1) + s;
      HexNatLeadingZeros(k - 1, s);
    } else {
      assert z + s == s;
    }
  }

  lemma {:induction false} HexNatPair(s: string, pair: string)
    requires IsHex(s) && IsHex(pair) && |pair| == 2
    ensures HexNat(s + pair) == 256 * HexNat(s) + HexNat(pair)
    ensures HexNat(pair) == 16 * HexVal(pair[0]) + HexVal(pair[1])
  {
    assert (s + pair)[..|s| + 1] == s + [pair[0]];
    assert (s + [pair[0]])[..|s|] == s;
    assert pair[..1][..0] == "";
    assert HexNat(pair[..1]) == HexVal(pair[0]);
  }

  lemma HexPairValue(b: byte)
    ensures HexNat(HexPair(b)) == b
  {
    var digits := HexDigits(b);
    HexNatOfDigits(b);
    HexDigitsLength(b, 2);
    assert Pow16(2) == 256 by { assert Pow16(1) == 16; }
    HexNatLeadingZeros(2 - |digits|, digits);
  }

  lemma {:induction false} HexBodyValue(b: seq<byte>)
    ensures HexNat(HexBody(b)) == ValueBE(b)
  {
    if b != [] {
      HexBodyValue(b[..|b| - 1]);
      HexPairValue(b[|b| - 1]);
      HexNatPair(HexBody(b[..|b| - 1]), HexPair(b[|b| - 1]));
    }
  }

  lemma {:induction false} PairsValue(s: string)
    requires IsHex(s) && |s| % 2 == 0
    ensures ValueBE(Pairs(s)) == HexNat(s)
  {
    if s != "" {
      var init, pair := s[..|s| - 2], s[|s| - 2..];
      PairsValue(init);
      assert s == init + pair;
      HexNatPair(init, pair);
      assert Pairs(s) == Pairs(init) + [16 * HexVal(pair[0]) + HexVal(pair[1])];
      assert Pairs(s)[..|Pairs(s)| - 1] == Pairs(init);
    }
  }

  lemma HexHasNoPrefix(s: string)
    requires IsHex(s)
    ensures StripPrefix(s) == s
  {
    if |s| > 1 {
      assert IsHexDigit(s[1]);
    }
  }

  lemma {:induction false} EvenDigitsValue(s: string)
    requires IsHex(s)
    ensures HexNat(EvenDigits(s)) == HexNat(s)
  {
    if |s| % 2 == 1 {
      assert Zeros(1) == "0";
      HexNatLeadingZeros(1, s);
    }
  }

  /** parseHex on any hex text: the length, odd digit counts included, and the number denoted. */
  lemma {:induction false} ParseHexValue(s: string, le: bool)
    requires IsHex(s)
    ensures StripPrefix(s) == s
    ensures |ParseHex(s, le)| == (|s| + 1) / 2
    ensures Value(ParseHex(s, le), le) == HexNat(s)
  {
    HexHasNoPrefix(s);
    EvenDigitsValue(s);
    PairsValue(EvenDigits(s));
    ValueOfReverse(Pairs(EvenDigits(s)));
  }

  /** Reading the hex form back gives the bytes, or their mirror image for little endian. */
  lemma {:induction false} HexRoundTrip(b: seq<byte>)
    ensures IsHex(StripPrefix(ToHex(b)))
    ensures ParseHex(ToHex(b)) == b
    ensures ParseHex(ToHex(b), true) == Reverse(b)
  {
    var s := HexBody(b);
    assert ToHex(b)[2..] == s;
    assert |s| % 2 == 0;
    HexBodyValue(b);
    PairsValue(s);
    ValueBEInjective(Pairs(s), b);
  }

  /** The hex form: "0x" and two lower case digits a byte. */
  lemma {:induction false} HexSpelled(b: seq<byte>, i: nat)
    requires i < |b|
    ensures |ToHex(b)| == 2 + 2 * |b| && ToHex(b)[..2] == "0x"
    ensures ToHex(b)[2 + 2 * i] == "0123456789abcdef"[b[i] / 16]
    ensures ToHex(b)[3 + 2 * i] == "0123456789abcdef"[b[i] % 16]
  {
    var n := |b| - 1;
    HexPairSpelled(b[n]);
    assert HexBody(b) == HexBody(b[..n]) + HexPair(b[n]);
    if i < n {
      HexSpelled(b[..n], i);
    }
  }

  lemma HexPairSpelled(b: byte)
    ensures HexPair(b) == ["0123456789abcdef"[b / 16], "0123456789abcdef"[b % 16]]
  {
    if b >= 16 {
      assert HexDigits(b / 16) == [HexChar(b / 16)];
    } else {
      assert HexDigits(b) == [HexChar(b)];
    }
  }

  /** A hex digit in lower or upper case. */
  function DigitChar(v: nat, upper: bool): (c: char)
    requires v < 16
    ensures IsHexDigit(c) && HexVal(c) == v
  {
    if upper then "0123456789ABCDEF"[v] else "0123456789abcdef"[v]
  }

  /** Bytes as hex text in either case. */
  function HexText(b: seq<byte>, upper: bool): (text: string)
    ensures |text| == 2 * |b| && IsHex(text)
  {
    if b == [] then ""
    else
      var n := |b| - 1;
      HexText(b[..n], upper) + [DigitChar(b[n] / 16, upper), DigitChar(b[n] % 16, upper)]
  }

  lemma {:induction false} HexTextValue(b: seq<byte>, upper: bool)
    ensures HexNat(HexText(b, upper)) == ValueBE(b)
  {
    if b != [] {
      var n := |b| - 1;
      HexTextValue(b[..n], upper);
      HexNatPair(HexText(b[..n], upper), [DigitChar(b[n] / 16, upper), DigitChar(b[n] % 16, upper)]);
    }
  }

  lemma PrefixIsOptional(s: string)
    requires IsHex(s)
    ensures StripPrefix("0x" + s) == StripPrefix(s) == s
    ensures ParseHex("0x" + s) == ParseHex(s) == Pairs(EvenDigits(s))
  {
    HexHasNoPrefix(s);
    assert ("0x" + s)[2..] == s;
  }

  /** Text with or without the prefix, in either case of letters, gives the bytes it spells. */
  lemma {:induction false} HexTextGivesBytes(b: seq<byte>, upper: bool)
    ensures var text := HexText(b, upper);
      && StripPrefix("0x" + text) == StripPrefix(text) == text
      && ParseHex(text) == ParseHex("0x" + text) == b
  {
    var text := HexText(b, upper);
    PrefixIsOptional(text);
    HexTextValue(b, upper);
    ParsedBytes(text, b);
  }

  lemma {:induction false} ParsedBytes(text: string, b: seq<byte>)
    requires IsHex(text) && |text| == 2 * |b| && HexNat(text) == ValueBE(b)
    ensures EvenDigits(text) == text && Pairs(text) == b
  {
    assert |text| % 2 == 0 && |text| / 2 == |b|;
    PairsValue(text);
    ValueBEInjective(Pairs(text), b);
  }

  // ---------------------------------------------------------------------------
  // Numbers
  // ---------------------------------------------------------------------------

  /** The digits of num padded to numBytes pairs. */
  function Padded(num: nat, numBytes: nat): (s: string)
    requires |HexDigits(num)| <= numBytes
    ensures IsHex(s) && |s| == 2 * numBytes
  {
    Zeros(numBytes * 2 - |HexDigits(num)|) + HexDigits(num)
  }

  function ParseNumber(num: int, numBytes: nat, littleEndian: bool := false): (r: Result<seq<byte>, Error>)
  {
    if num < 0 then Err(Negative)
    else if |HexDigits(num)| > numBytes then Err(DoesNotFit)
    else
      HexHasNoPrefix(Padded(num, numBytes));
      Ok(ParseHex(Padded(num, numBytes), littleEndian))
  }

  /** match(/../g).reverse().join(''): the digit pairs in opposite order. */
  function ReversePairs(s: string): (r: string)
    ensures |s| % 2 == 0 ==> |r| == |s|
    ensures IsHex(s) ==> IsHex(r)
  {
    if |s| < 2 then "" else ReversePairs(s[2..]) + s[..2]
  }

  function ToNumber(bytes: seq<byte>, le: bool := false): Result<Parsed, Error> {
    if |bytes| > 8 then Err(LongerThanU64)
    else
      var b := HexBody(bytes);
      var b := if le && |b| >= 2 then ReversePairs(b) else b;
      if b == "" then Ok(NaN)
      else
        var result := HexNat(b);
        if result >= MAX_SAFE_INTEGER then Err(Overflow) else Ok(Number(result))
  }

  lemma {:induction false} ReversePairsAppend(s: string, pair: string)
    requires |s| % 2 == 0 && |pair| == 2
    ensures ReversePairs(s + pair) == pair + ReversePairs(s)
  {
    if s == "" {
      assert s + pair == pair && pair[2..] == "" && pair[..2] == pair;
      assert ReversePairs(pair) == ReversePairs("") + pair;
    } else {
      assert (s + pair)[2..] == s[2..] + pair && (s + pair)[..2] == s[..2];
      ReversePairsAppend(s[2..], pair);
      AppendRegroups(pair, ReversePairs(s[2..]), s[..2]);
    }
  }

  lemma {:induction false} HexBodyCons(x: byte, b: seq<byte>)
    ensures HexBody([x] + b) == HexPair(x) + HexBody(b)
  {
    if b == [] {
      assert [x] + b == [x] && [x][..0] == [];
      assert HexBody([]) == "";
    } else {
      var init := b[..|b| - 1];
      assert ([x] + b)[..|b|] == [x] + init;
      HexBodyCons(x, init);
      AppendRegroups(HexPair(x), HexBody(init), HexPair(b[|b| - 1]));
    }
  }

  lemma {:induction false} HexBodyReversed(b: seq<byte>)
    ensures ReversePairs(HexBody(b)) == HexBody(Reverse(b))
  {
    if b != [] {
      var init, last := b[..|b| - 1], b[|b| - 1];
      assert b == init + [last];
      ReversePairsAppend(HexBody(init), HexPair(last));
      HexBodyReversed(init);
      ReverseSnoc(init, last);
      HexBodyCons(last, Reverse(init));
    }
  }

  /** toNumber is the positional value for 1 to 8 bytes, and rejects values of 2^53-1 and more. */
  lemma ToNumberIsValue(b: seq<byte>, le: bool)
    ensures |b| > 8 ==> ToNumber(b, le) == Err(LongerThanU64)
    ensures b == [] ==> ToNumber(b, le) == Ok(NaN)
    ensures 1 <= |b| <= 8 ==>
      ToNumber(b, le) == if Value(b, le) < 9007199254740991 then Ok(Number(Value(b, le))) else Err(Overflow)
  {
    HexBodyReversed(b);
    HexBodyValue(b);
    HexBodyValue(Reverse(b));
    ValueOfReverse(b);
  }

  lemma {:induction false} ParsePadded(num: nat, numBytes: nat, le: bool)
    requires |HexDigits(num)| <= numBytes
    ensures StripPrefix(Padded(num, numBytes)) == Padded(num, numBytes)
    ensures |ParseHex(Padded(num, numBytes), le)| == numBytes
    ensures Value(ParseHex(Padded(num, numBytes), le), le) == num
  {
    HexNatOfDigits(num);
    HexNatLeadingZeros(numBytes * 2 - |HexDigits(num)|, HexDigits(num));
    ParseHexValue(Padded(num, numBytes), le);
  }

  /**
   * parseNumber succeeds exactly on 0 <= num < 16^numBytes, and then gives numBytes bytes that
   * denote num.
   */
  lemma {:induction false} ParseNumberIsValue(num: int, numBytes: nat, le: bool)
    ensures ParseNumber(num, numBytes, le).Ok? <==> 0 <= num < Pow16(numBytes) && numBytes > 0
    ensures num < 0 ==> ParseNumber(num, numBytes, le) == Err(Negative)
    ensures num >= 0 && ParseNumber(num, numBytes, le).Err? ==> ParseNumber(num, numBytes, le) == Err(DoesNotFit)
    ensures ParseNumber(num, numBytes, le).Ok? ==>
      var b := ParseNumber(num, numBytes, le).value;
      |b| == numBytes && Value(b, le) == num
  {
    if num >= 0 && numBytes > 0 {
      HexDigitsLength(num, numBytes);
      if |HexDigits(num)| <= numBytes {
        ParsePadded(num, numBytes, le);
      }
    }
  }

  /** toNumber undoes parseNumber, in both byte orders. */
  lemma {:induction false} NumberRoundTrip(num: nat, numBytes: nat, le: bool)
    requires 1 <= numBytes <= 8
    requires num < Pow16(numBytes)
    ensures ParseNumber(num, numBytes, le).Ok?
    ensures ToNumber(ParseNumber(num, numBytes, le).value, le) == Ok(Number(num))
  {
    ParseNumberIsValue(num, numBytes, le);
    ToNumberIsValue(ParseNumber(num, numBytes, le).value, le);
    Pow16Monotone(numBytes, 8);
    Pow256Of8();
  }

  /**
   * The documentation lets parseNumber fail only when the array would be longer than numBytes.
   * The code counts hex digits instead: 256 fits into two bytes and is refused.
   */
  lemma ParseNumberRefusesWhatFits()
    ensures 256 < Pow256(2)
    ensures ParseNumber(256, 2) == Err(DoesNotFit)
  {
    assert Pow256(1) == 256;
    assert HexDigits(256) == "100" by {
      assert HexDigits(16) == HexDigits(1) + [HexChar(0)];
    }
  }

  // ---------------------------------------------------------------------------
  // Buffers
  // ---------------------------------------------------------------------------

  /** target.set(source, offset): a typed array copy. */
  method SetBytes(target: array<byte>, source: seq<byte>, offset: nat)
    requires offset + |source| <= target.Length
    modifies target
    ensures target[..] == old(target[..offset]) + source + old(target[offset + |source|..])
  {
    forall i | 0 <= i < |source| {
      target[offset + i] := source[i];
    }
  }

  /** target.set(source) for a source of the target's own length. */
  method FillBytes(target: array<byte>, source: seq<byte>)
    requires |source| == target.Length
    modifies target
    ensures target[..] == source
  {
    SetBytes(target, source, 0);
  }

  function Flatten(arrays: seq<seq<byte>>): seq<byte> {
    if arrays == [] then [] else Flatten(arrays[..|arrays| - 1]) + arrays[|arrays| - 1]
  }

  lemma {:induction false} FlattenPrefix(arrays: seq<seq<byte>>, k: nat)
    requires k <= |arrays|
    ensures |Flatten(arrays[..k])| <= |Flatten(arrays)|
    decreases |arrays| - k
  {
    if k == |arrays| {
      assert arrays[..k] == arrays;
    } else {
      assert arrays[..k + 1][..k] == arrays[..k];
      FlattenPrefix(arrays, k + 1);
    }
  }

  lemma {:induction false} FlattenSnoc(arrays: seq<seq<byte>>, last: seq<byte>)
    ensures Flatten(arrays + [last]) == Flatten(arrays) + last
  {
    assert (arrays + [last])[..|arrays|] == arrays;
  }

  method Concat(arrays: seq<seq<byte>>) returns (concatenated: array<byte>)
    ensures fresh(concatenated)
    ensures concatenated[..] == Flatten(arrays)
  {
    var size := 0;
    for i := 0 to |arrays|
      invariant size == |Flatten(arrays[..i])|
    {
      assert arrays[..i + 1][..i] == arrays[..i];
      size := size + |arrays[i]|;
    }
    assert arrays[..|arrays|] == arrays;

    concatenated := new byte[size];
    var start := 0;
    for i := 0 to |arrays|
      invariant start == |Flatten(arrays[..i])| <= size == concatenated.Length
      invariant concatenated[..start] == Flatten(arrays[..i])
    {
      assert arrays[..i + 1][..i] == arrays[..i];
      FlattenPrefix(arrays, i + 1);
      SetBytes(concatenated, arrays[i], start);
      start := start + |arrays[i]|;
    }
  }
}
