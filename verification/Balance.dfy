/** The 16-byte account balance (packages/common/src/index.ts). */
module Balances {
  import opened Wrappers
  import opened Positional
  import Bytes

  const SIZE: nat := 16

  /** A bigint or integral number, a hex string, or the bytes themselves. */
  datatype Repr = Integer(n: int) | Hex(text: string) | Raw(bytes: seq<byte>)

  datatype Error = TooManyDigits | InvalidLength

  /** The strings a caller may pass: hex digits, with or without 0x. */
  predicate WellFormed(repr: Repr) {
    repr.Hex? ==> Bytes.IsHex(Bytes.StripPrefix(repr.text))
  }

  function ZeroBytes(n: nat): (b: seq<byte>)
    ensures |b| == n && forall i :: 0 <= i < n ==> b[i] == 0
  {
    seq(n, _ => 0)
  }

  function BalanceBytes(repr: Repr): Result<seq<byte>, Error>
    requires WellFormed(repr)
  {
    match repr
    case Integer(n) => Ok(Reverse(LittleEndian(n % Pow256(SIZE), SIZE)))
    case Hex(text) =>
      var parsed := Bytes.ParseHex(text);
      if |parsed| > SIZE then Err(TooManyDigits) else Ok(ZeroBytes(SIZE - |parsed|) + parsed)
    case Raw(bytes) => if |bytes| == SIZE then Ok(bytes) else Err(InvalidLength)
  }

  lemma Pow256OfSize()
    ensures Pow256(SIZE) == 0x1_0000_0000_0000_0000_0000_0000_0000_0000
  {
    Pow256Of8();
    assert Pow256(16) == 0x1_0000_0000_0000_0000_0000_0000_0000_0000 by {
      assert Pow256(9) == 0x100_0000_0000_0000_0000;
      assert Pow256(10) == 0x1_0000_0000_0000_0000_0000;
      assert Pow256(11) == 0x100_0000_0000_0000_0000_0000;
      assert Pow256(12) == 0x1_0000_0000_0000_0000_0000_0000;
      assert Pow256(13) == 0x100_0000_0000_0000_0000_0000_0000;
      assert Pow256(14) == 0x1_0000_0000_0000_0000_0000_0000_0000;
      assert Pow256(15) == 0x100_0000_0000_0000_0000_0000_0000_0000;
    }
  }

  /** Every integer, negative ones included, is stored as its residue modulo 2^128, big endian. */
  lemma IntegerBalance(n: int)
    ensures Pow256(SIZE) == 0x1_0000_0000_0000_0000_0000_0000_0000_0000
    ensures BalanceBytes(Integer(n)).Ok?
    ensures |BalanceBytes(Integer(n)).value| == 16
    ensures ValueBE(BalanceBytes(Integer(n)).value) == n % 0x1_0000_0000_0000_0000_0000_0000_0000_0000
  {
    Pow256OfSize();
    var v := n % Pow256(SIZE);
    ValueOfLittleEndian(v, SIZE);
    ValueOfReverse(LittleEndian(v, SIZE));
  }

  lemma {:induction false} PaddedValue(parsed: seq<byte>, k: nat)
    requires |parsed| <= k
    ensures ValueBE(ZeroBytes(k - |parsed|) + parsed) == ValueBE(parsed) < Pow256(k)
  {
    ValueBELeadingZeros(ZeroBytes(k - |parsed|), parsed);
    ValueBEBound(ZeroBytes(k - |parsed|) + parsed);
  }

  lemma SmallResidue(n: nat, m: nat)
    requires n < m
    ensures n % m == n
  {
  }

  lemma {:induction false} StoredInteger(n: nat, stored: seq<byte>)
    requires |stored| == SIZE && n < Pow256(SIZE) && ValueBE(stored) == n
    ensures BalanceBytes(Integer(n)) == Ok(stored)
  {
    IntegerBalance(n);
    SmallResidue(n, Pow256(SIZE));
    var b := BalanceBytes(Integer(n)).value;
    assert ValueBE(b) == n;
    ValueBEInjective(stored, b);
  }

  /**
   * A hex string of at most 32 digits gives the balance of the integer it denotes, whatever its
   * digit count; a longer one is refused.
   */
  lemma HexBalance(text: string)
    requires Bytes.IsHex(Bytes.StripPrefix(text))
    ensures var digits := Bytes.StripPrefix(text);
      BalanceBytes(Hex(text)) ==
        if |digits| <= 32 then BalanceBytes(Integer(Bytes.HexNat(digits))) else Err(TooManyDigits)
  {
    var digits := Bytes.StripPrefix(text);
    Bytes.ParseHexValue(digits, false);
    assert Bytes.ParseHex(text) == Bytes.ParseHex(digits);
    if |digits| <= 32 {
      var parsed := Bytes.ParseHex(digits);
      PaddedValue(parsed, SIZE);
      StoredInteger(Bytes.HexNat(digits), ZeroBytes(SIZE - |parsed|) + parsed);
    }
  }

  /** The balance of n is the balance of n written in hex, for all n that fit into 128 bits. */
  lemma {:induction false} IntegerAndHexAgree(n: nat)
    requires n < 0x1_0000_0000_0000_0000_0000_0000_0000_0000
    ensures var text := "0x" + Bytes.HexDigits(n);
      Bytes.IsHex(Bytes.StripPrefix(text)) && BalanceBytes(Hex(text)) == BalanceBytes(Integer(n))
  {
    var digits := Bytes.HexDigits(n);
    assert Bytes.StripPrefix("0x" + digits) == digits;
    Bytes.HexNatOfDigits(n);
    Bytes.HexDigitsLength(n, 32);
    Pow16Doubles(16);
    IntegerBalance(n);
    HexBalance("0x" + digits);
  }

  /** Bytes are taken as they are, if there are 16 of them. */
  lemma RawBalance(bytes: seq<byte>)
    ensures |bytes| == 16 ==> BalanceBytes(Raw(bytes)) == Ok(bytes)
    ensures |bytes| != 16 ==> BalanceBytes(Raw(bytes)) == Err(InvalidLength)
  {
  }

  /** The three ways to write a balance agree: bytes, their hex text in either case, and their number. */
  lemma {:induction false} WaysAgree(bytes: seq<byte>, upper: bool)
    requires |bytes| == 16
    ensures var text := Bytes.HexText(bytes, upper);
      && Bytes.IsHex(Bytes.StripPrefix("0x" + text))
      && BalanceBytes(Raw(bytes)) == BalanceBytes(Hex("0x" + text)) == BalanceBytes(Integer(ValueBE(bytes)))
  {
    var text := Bytes.HexText(bytes, upper);
    Bytes.HexTextGivesBytes(bytes, upper);
    Bytes.HexTextValue(bytes, upper);
    HexBalance("0x" + text);
    ValueBEBound(bytes);
    StoredInteger(ValueBE(bytes), bytes);
  }

  // ---------------------------------------------------------------------------
  // The constructor
  // ---------------------------------------------------------------------------

  lemma Distribute(x: int, y: int, p: int)
    ensures (x + y) * p == x * p + y * p
  {
  }

  lemma Regroup(x: int, p: int)
    ensures (256 * x) * p == x * (256 * p)
  {
  }

  lemma DigitBound(d: int, p: int)
    requires 0 <= d < 256 && p > 0
    ensures 0 <= d * p <= 255 * p
  {
    assert (255 - d) * p >= 0;
    Distribute(255 - d, d, p);
  }

  /** Splitting q * p + r further by q = 256 * (q / 256) + q % 256. */
  lemma SplitDigit(q: int, p: int, r: int)
    requires 0 <= r < p
    ensures q * p + r == (q / 256) * (256 * p) + ((q % 256) * p + r)
    ensures 0 <= (q % 256) * p + r < 256 * p
  {
    assert q == 256 * (q / 256) + q % 256;
    Distribute(256 * (q / 256), q % 256, p);
    Regroup(q / 256, p);
    DigitBound(q % 256, p);
  }

  /** One more byte of a number: its residue modulo 256^(i+1). */
  lemma NextResidue(n: int, i: nat)
    ensures n % Pow256(i + 1) == (n / Pow256(i)) % 256 * Pow256(i) + n % Pow256(i)
  {
    var p := Pow256(i);
    var q, r := n / p, n % p;
    assert n == q * p + r;
    SplitDigit(q, p, r);
    DivModUnique(n, 256 * p, q / 256, (q % 256) * p + r);
  }

  lemma {:induction false} PrependByte(x: byte, b: seq<byte>)
    ensures ValueBE([x] + b) == x * Pow256(|b|) + ValueBE(b)
  {
    if b == [] {
      assert [x] + b == [x] && [x][..0] == [];
    } else {
      assert ([x] + b)[..|b|] == [x] + b[..|b| - 1];
      PrependByte(x, b[..|b| - 1]);
    }
  }

  /** The wrapper object: its bytes, and their hex form once asked for. */
  class Balance {
    const bytes: seq<byte>
    var hex: Option<string>

    ghost predicate Valid()
      reads this
    {
      |bytes| == SIZE && (hex.Some? ==> hex.value == Bytes.ToHex(bytes))
    }

    constructor (bytes: seq<byte>)
      requires |bytes| == SIZE
      ensures Valid() && this.bytes == bytes && hex == None
    {
      this.bytes := bytes;
      hex := None;
    }

    method Hex() returns (h: string)
      requires Valid()
      modifies this
      ensures Valid()
      ensures h == Bytes.ToHex(bytes) && hex == Some(h)
    {
      if hex.None? {
        hex := Some(Bytes.ToHex(bytes));
      }
      h := hex.value;
    }
  }

  /** The loop over the 16 bytes of a bigint, from the least significant one. */
  method BigintBytes(n: int) returns (balanceBytes: array<byte>)
    ensures fresh(balanceBytes) && balanceBytes.Length == SIZE
    ensures ValueBE(balanceBytes[..]) == n % Pow256(SIZE)
  {
    balanceBytes := new byte[SIZE];
    for i := 0 to balanceBytes.Length
      invariant ValueBE(balanceBytes[SIZE - i..]) == n % Pow256(i)
    {
      ghost var done := balanceBytes[SIZE - i..];
      var digit: byte := (n / Pow256(i)) % 256;
      balanceBytes[balanceBytes.Length - i - 1] := digit;
      assert balanceBytes[SIZE - i - 1..] == [digit] + done;
      PrependByte(digit, done);
      NextResidue(n, i);
    }
    assert balanceBytes[0..] == balanceBytes[..];
  }

  method MakeBalance(repr: Repr) returns (r: Result<Balance, Error>)
    requires WellFormed(repr)
    ensures r.Ok? <==> BalanceBytes(repr).Ok?
    ensures r.Ok? ==> fresh(r.value) && r.value.Valid() && Ok(r.value.bytes) == BalanceBytes(repr)
    ensures r.Err? ==> r.error == BalanceBytes(repr).error
  {
    var content: seq<byte>;
    match repr {
      case Integer(n) =>
        var filled := BigintBytes(n);
        content := filled[..];
        assert content == BalanceBytes(repr).value by {
          IntegerBalance(n);
          ValueBEInjective(content, BalanceBytes(repr).value);
        }
      case Hex(text) =>
        var parsed := Bytes.ParseHex(text);
        if |parsed| > SIZE {
          return Err(TooManyDigits);
        }
        var filled := new byte[SIZE](_ => 0);
        Bytes.SetBytes(filled, parsed, filled.Length - |parsed|);
        content := filled[..];
        assert content == BalanceBytes(repr).value;
      case Raw(bytes) =>
        content := bytes;
    }
    if |content| != SIZE {
      return Err(InvalidLength);
    }
    var balance := new Balance(content);
    r := Ok(balance);
  }
}
