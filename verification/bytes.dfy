/** Bytes, fixed-width fields and the text forms the scanner derives from them. */
module Bytes {

  type byte = b: int | 0 <= b < 256

  datatype Option<+T> = None | Some(value: T)

  /** uint16(lo) | uint16(hi)<<8 */
  function LE16(lo: byte, hi: byte): (v: nat)
    ensures v < 0x1_0000
  {
    lo + 256 * hi
  }

  /** int(int8(b)) */
  function Signed8(b: byte): (r: int)
    ensures -128 <= r < 128 && r % 256 == b
  {
    if b < 128 then b else b - 256
  }

  /** byte(v), the low eight bits */
  function Low(v: nat): byte {
    v % 256
  }

  /** byte(v >> 8) */
  function High(v: nat): byte {
    (v / 256) % 256
  }

  /** A 16-bit field is sent low byte first and read back whole. */
  lemma WordComesBack(v: nat)
    requires v < 0x1_0000
    ensures LE16(Low(v), High(v)) == v
    ensures forall lo: byte, hi: byte | LE16(lo, hi) == v :: lo == Low(v) && hi == High(v)
  {
  }

  function HexDigit(n: nat): (c: char)
    requires n < 16
    ensures c == "0123456789ABCDEF"[n]
  {
    if n < 10 then ('0' as int + n) as char else ('A' as int + n - 10) as char
  }

  /** %02X */
  function Hex2(b: byte): (s: string)
    ensures |s| == 2
  {
    [HexDigit(b / 16), HexDigit(b % 16)]
  }

  /** Upper-case hexadecimal pairs separated by colons, last byte first. */
  function HexPairs(a: seq<byte>): (s: string)
    requires |a| > 0
    ensures |s| == 3 * |a| - 1
  {
    var k := |a| - 1;
    if k == 0 then Hex2(a[0]) else Hex2(a[k]) + ":" + HexPairs(a[..k])
  }

  /** The textual address of six little-endian address bytes, such as "C8:8A:AB:3D:7B:E8". */
  function AddrText(a: seq<byte>): (s: string)
    requires |a| == 6
    ensures |s| == 17
  {
    HexPairs(a)
  }

  /** The text written out: all six pairs, the last byte of the address first. */
  lemma AddrTextLayout(a: seq<byte>)
    requires |a| == 6
    ensures AddrText(a) == Hex2(a[5]) + ":" + (Hex2(a[4]) + ":" + (Hex2(a[3]) + ":" +
                           (Hex2(a[2]) + ":" + (Hex2(a[1]) + ":" + Hex2(a[0])))))
  {
    hide Hex2;
    assert forall k: nat | 1 <= k <= 6 :: a[..k][..k - 1] == a[..k - 1] && a[..k][k - 1] == a[k - 1];
    assert a[..6] == a;
    forall k: nat | 2 <= k <= 6
      ensures HexPairs(a[..k]) == Hex2(a[k - 1]) + ":" + HexPairs(a[..k - 1])
    {
    }
    assert HexPairs(a[..1]) == Hex2(a[0]);
  }

  predicate NoLowerCase(s: string) {
    forall c | c in s :: !('a' <= c <= 'z')
  }

  lemma {:induction false} HexPairsUpperCase(a: seq<byte>)
    requires |a| > 0
    ensures NoLowerCase(HexPairs(a))
  {
    var k := |a| - 1;
    assert NoLowerCase(Hex2(a[k]));
    if k > 0 {
      HexPairsUpperCase(a[..k]);
    }
  }

  function Digit(k: nat): char
    requires k < 10
  {
    ('0' as int + k) as char
  }

  /** %d of a byte */
  function Decimal(n: byte): string {
    if n < 10 then [Digit(n)]
    else if n < 100 then [Digit(n / 10), Digit(n % 10)]
    else [Digit(n / 100), Digit(n / 10 % 10), Digit(n % 10)]
  }

  /** The reassembly key "%s/%d" of an address text and an advertising set. */
  function StreamKey(addr: string, sid: byte): string {
    addr + "/" + Decimal(sid)
  }

  lemma Hex2Injective(a: byte, b: byte)
    requires Hex2(a) == Hex2(b)
    ensures a == b
  {
    assert Hex2(a)[0] as int == Hex2(b)[0] as int && Hex2(a)[1] as int == Hex2(b)[1] as int;
  }

  /** The number a decimal text stands for. */
  function Value(s: string): int {
    if s == "" then 0 else Value(s[..|s| - 1]) * 10 + (s[|s| - 1] as int - '0' as int)
  }

  lemma OneDigit(a: nat)
    requires a < 10
    ensures Value([Digit(a)]) == a
  {
    assert [Digit(a)][..0] == "";
  }

  lemma TwoDigits(a: nat, b: nat)
    requires a < 10 && b < 10
    ensures Value([Digit(a), Digit(b)]) == a * 10 + b
  {
    OneDigit(a);
    assert [Digit(a), Digit(b)][..1] == [Digit(a)];
  }

  lemma ThreeDigits(a: nat, b: nat, c: nat)
    requires a < 10 && b < 10 && c < 10
    ensures Value([Digit(a), Digit(b), Digit(c)]) == a * 100 + b * 10 + c
  {
    TwoDigits(a, b);
    assert [Digit(a), Digit(b), Digit(c)][..2] == [Digit(a), Digit(b)];
  }

  /** A printed number reads back. */
  lemma DecimalValue(n: byte)
    ensures Value(Decimal(n)) == n
  {
    hide Value, Digit;
    if n < 10 {
      OneDigit(n);
    } else if n < 100 {
      TwoDigits(n / 10, n % 10);
    } else {
      ThreeDigits(n / 100, n / 10 % 10, n % 10);
    }
  }

  lemma DecimalInjective(a: byte, b: byte)
    requires Decimal(a) == Decimal(b)
    ensures a == b
  {
    hide Decimal;
    DecimalValue(a);
    DecimalValue(b);
  }

  lemma {:induction false} HexPairsInjective(a: seq<byte>, b: seq<byte>)
    requires |a| == |b| > 0
    requires HexPairs(a) == HexPairs(b)
    ensures a == b
  {
    hide Hex2;
    var k := |a| - 1;
    if k == 0 {
      Hex2Injective(a[0], b[0]);
    } else {
      assert HexPairs(a)[..2] == Hex2(a[k]) && HexPairs(b)[..2] == Hex2(b[k]);
      Hex2Injective(a[k], b[k]);
      assert HexPairs(a)[3..] == HexPairs(a[..k]) && HexPairs(b)[3..] == HexPairs(b[..k]);
      HexPairsInjective(a[..k], b[..k]);
      assert a == a[..k] + [a[k]] && b == b[..k] + [b[k]];
    }
  }

  /** Two reports share a reassembly key exactly when their six address bytes and their set id agree. */
  lemma StreamKeyExact(a: seq<byte>, x: byte, b: seq<byte>, y: byte)
    requires |a| == |b| == 6
    ensures StreamKey(AddrText(a), x) == StreamKey(AddrText(b), y) <==> a == b && x == y
  {
    if StreamKey(AddrText(a), x) == StreamKey(AddrText(b), y) {
      assert StreamKey(AddrText(a), x)[..17] == AddrText(a);
      assert StreamKey(AddrText(b), y)[..17] == AddrText(b);
      HexPairsInjective(a, b);
      assert StreamKey(AddrText(a), x)[18..] == Decimal(x);
      assert StreamKey(AddrText(b), y)[18..] == Decimal(y);
      DecimalInjective(x, y);
    }
  }
}
