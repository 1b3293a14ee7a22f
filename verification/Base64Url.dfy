/**
  The base64url alphabet of section 5 of RFC 4648 without padding characters, with the strictness
  that section 3.5 allows a decoder: unused trailing bits must be zero.
 */
module Base64Url {
  import opened Decimal

  type Byte = b: int | 0 <= b < 256
  type Sextet = v: int | 0 <= v < 64

  function Symbol(v: Sextet): char {
    if v < 26 then (v + 'A' as int) as char
    else if v < 52 then (v - 26 + 'a' as int) as char
    else if v < 62 then (v - 52 + '0' as int) as char
    else if v == 62 then '-'
    else '_'
  }

  predicate IsSymbol(c: char) {
    'A' <= c <= 'Z' || 'a' <= c <= 'z' || '0' <= c <= '9' || c == '-' || c == '_'
  }

  function SextetOf(c: char): (v: Sextet)
    requires IsSymbol(c)
    ensures Symbol(v) == c
  {
    if 'A' <= c <= 'Z' then c as int - 'A' as int
    else if 'a' <= c <= 'z' then c as int - 'a' as int + 26
    else if '0' <= c <= '9' then c as int - '0' as int + 52
    else if c == '-' then 62
    else 63
  }

  lemma SymbolRoundTrip(v: Sextet)
    ensures IsSymbol(Symbol(v)) && SextetOf(Symbol(v)) == v
  {
  }

  function Symbols(v: seq<Sextet>): (s: string)
    ensures |s| == |v|
  {
    seq(|v|, i requires 0 <= i < |v| => Symbol(v[i]))
  }

  predicate AllSymbols(s: string) {
    forall i :: 0 <= i < |s| ==> IsSymbol(s[i])
  }

  function Sextets(s: string): (v: seq<Sextet>)
    requires AllSymbols(s)
    ensures |v| == |s|
  {
    seq(|s|, i requires 0 <= i < |s| => SextetOf(s[i]))
  }

  /** Three bytes become four 6-bit groups. */
  function PackGroup(x: int, y: int, z: int): (v: seq<Sextet>)
    requires 0 <= x < 256 && 0 <= y < 256 && 0 <= z < 256
    ensures |v| == 4
  {
    [x / 4, x % 4 * 16 + y / 16, y % 16 * 4 + z / 64, z % 64]
  }

  function UnpackGroup(w: int, x: int, y: int, z: int): (b: seq<Byte>)
    requires 0 <= w < 64 && 0 <= x < 64 && 0 <= y < 64 && 0 <= z < 64
    ensures |b| == 3
  {
    [w * 4 + x / 16, x % 16 * 16 + y / 4, y % 4 * 64 + z]
  }

  /** A short last group is filled up with zero bits, and its zero symbols are not written. */
  function Pack(b: seq<Byte>): seq<Sextet> {
    if |b| == 0 then []
    else if |b| == 1 then PackGroup(b[0], 0, 0)[..2]
    else if |b| == 2 then PackGroup(b[0], b[1], 0)[..3]
    else PackGroup(b[0], b[1], b[2]) + Pack(b[3..])
  }

  function Unpack(v: seq<Sextet>): Option<seq<Byte>> {
    if |v| == 0 then Some([])
    else if |v| == 1 then None
    else if |v| == 2 then
      if v[1] % 16 == 0 then Some(UnpackGroup(v[0], v[1], 0, 0)[..1]) else None
    else if |v| == 3 then
      if v[2] % 4 == 0 then Some(UnpackGroup(v[0], v[1], v[2], 0)[..2]) else None
    else
      match Unpack(v[4..])
      case None => None
      case Some(rest) => Some(UnpackGroup(v[0], v[1], v[2], v[3]) + rest)
  }

  lemma UnpackOfPackGroup(x: int, y: int, z: int)
    requires 0 <= x < 256 && 0 <= y < 256 && 0 <= z < 256
    ensures var v := PackGroup(x, y, z);
            UnpackGroup(v[0], v[1], v[2], v[3]) == [x, y, z]
  {
  }

  lemma PackOfUnpackGroup(w: int, x: int, y: int, z: int)
    requires 0 <= w < 64 && 0 <= x < 64 && 0 <= y < 64 && 0 <= z < 64
    ensures var b := UnpackGroup(w, x, y, z);
            PackGroup(b[0], b[1], b[2]) == [w, x, y, z]
  {
    var b0: int, b1: int, b2: int := w * 4 + x / 16, x % 16 * 16 + y / 4, y % 4 * 64 + z;
    assert b0 / 4 == w && b0 % 4 == x / 16;
    assert b1 / 16 == x % 16 && b1 % 16 == y / 4;
    assert b2 / 64 == y % 4 && b2 % 64 == z;
  }

  function Encode(b: seq<Byte>): string {
    Symbols(Pack(b))
  }

  function Decode(s: string): Option<seq<Byte>> {
    if AllSymbols(s) then Unpack(Sextets(s)) else None
  }

  lemma UnpackOfPackOne(b: seq<Byte>)
    requires |b| == 1
    ensures Unpack(Pack(b)) == Some(b)
  {
    var v := PackGroup(b[0], 0, 0);
    UnpackOfPackGroup(b[0], 0, 0);
    assert v[2] == 0 && v[3] == 0 && v[1] % 16 == 0;
    assert Pack(b) == [v[0], v[1]];
    assert UnpackGroup(v[0], v[1], 0, 0)[..1] == b;
  }

  lemma UnpackOfPackTwo(b: seq<Byte>)
    requires |b| == 2
    ensures Unpack(Pack(b)) == Some(b)
  {
    var v := PackGroup(b[0], b[1], 0);
    UnpackOfPackGroup(b[0], b[1], 0);
    assert v[3] == 0 && v[2] % 4 == 0;
    assert Pack(b) == [v[0], v[1], v[2]];
    assert UnpackGroup(v[0], v[1], v[2], 0)[..2] == b;
  }

  lemma {:induction false} UnpackOfPack(b: seq<Byte>)
    ensures Unpack(Pack(b)) == Some(b)
  {
    if |b| == 1 {
      UnpackOfPackOne(b);
    } else if |b| == 2 {
      UnpackOfPackTwo(b);
    } else if |b| >= 3 {
      UnpackOfPackGroup(b[0], b[1], b[2]);
      assert Pack(b)[4..] == Pack(b[3..]);
      UnpackOfPack(b[3..]);
      assert b == [b[0], b[1], b[2]] + b[3..];
    }
  }

  lemma {:induction false} PackOfUnpack(v: seq<Sextet>)
    ensures Unpack(v).Some? ==> Pack(Unpack(v).value) == v
  {
    if |v| == 2 {
      PackOfUnpackGroup(v[0], v[1], 0, 0);
    } else if |v| == 3 {
      PackOfUnpackGroup(v[0], v[1], v[2], 0);
    } else if |v| >= 4 && Unpack(v).Some? {
      PackOfUnpackGroup(v[0], v[1], v[2], v[3]);
      assert Unpack(v).value[3..] == Unpack(v[4..]).value;
      PackOfUnpack(v[4..]);
    }
  }

  /** Every byte string, of any length modulo three, decodes from its encoding. */
  lemma DecodeOfEncode(b: seq<Byte>)
    ensures Decode(Encode(b)) == Some(b)
  {
    var v := Pack(b);
    forall i | 0 <= i < |v| ensures IsSymbol(Encode(b)[i]) && SextetOf(Encode(b)[i]) == v[i] {
      SymbolRoundTrip(v[i]);
    }
    assert Sextets(Encode(b)) == v;
    UnpackOfPack(b);
  }

  /** The decoder is strict: each byte string has exactly one accepted text. */
  lemma EncodeOfDecode(s: string)
    ensures Decode(s).Some? ==> Encode(Decode(s).value) == s
  {
    if AllSymbols(s) {
      PackOfUnpack(Sextets(s));
      assert Symbols(Sextets(s)) == s;
    }
  }

  // ----- Which text an encoding is

  const UPPER := "ABCDEFGHIJKLMNOPQRSTUVWXYZ"
  const LOWER := "abcdefghijklmnopqrstuvwxyz"
  const DIGITS := "0123456789"

  /** Table 2 of RFC 4648. */
  const ALPHABET := UPPER + LOWER + DIGITS + "-_"

  lemma UpperIsInOrder(i: int)
    requires 0 <= i < 26
    ensures |UPPER| == 26 && UPPER[i] as int == i + 65
  {
  }

  lemma LowerIsInOrder(i: int)
    requires 0 <= i < 26
    ensures |LOWER| == 26 && LOWER[i] as int == i + 97
  {
  }

  lemma SymbolsAreAlphabet(v: Sextet)
    ensures |ALPHABET| == 64 && Symbol(v) == ALPHABET[v]
  {
    assert |UPPER| == 26 && |LOWER| == 26 && |DIGITS| == 10;
    if v < 26 {
      UpperIsInOrder(v);
    } else if v < 52 {
      LowerIsInOrder(v as int - 26);
    } else if v < 62 {
      assert DIGITS[v as int - 52] as int == v as int - 52 + 48;
    }
  }

  function Number(x: Byte, y: Byte, z: Byte): (n: nat)
    ensures n < 0x100_0000
  {
    65_536 * x as int + 256 * y as int + z as int
  }

  /** A number below 2^24 as four digits of the alphabet. */
  function FourDigits(n: nat): (s: string)
    requires n < 0x100_0000
    ensures |s| == 4
  {
    var symbol := (v: int) requires 0 <= v < 64 => (SymbolsAreAlphabet(v); ALPHABET[v]);
    [symbol(n / 262_144), symbol(n / 4096 % 64), symbol(n / 64 % 64), symbol(n % 64)]
  }

  lemma DigitsOf(n: int, w: int, x: int, y: int, z: int)
    requires 0 <= w < 64 && 0 <= x < 64 && 0 <= y < 64 && 0 <= z < 64
    requires n == 262_144 * w + 4096 * x + 64 * y + z
    ensures n / 262_144 == w && n / 4096 % 64 == x && n / 64 % 64 == y && n % 64 == z
  {
    assert n / 4096 == 64 * w + x;
    assert n / 64 == 4096 * w + 64 * x + y;
  }

  lemma GroupIsFourDigits(x: Byte, y: Byte, z: Byte)
    ensures Symbols(PackGroup(x, y, z)) == FourDigits(Number(x, y, z))
  {
    var v := PackGroup(x, y, z);
    DigitsOf(Number(x, y, z), v[0], v[1], v[2], v[3]);
    SymbolsAreAlphabet(v[0]);
    SymbolsAreAlphabet(v[1]);
    SymbolsAreAlphabet(v[2]);
    SymbolsAreAlphabet(v[3]);
  }

  /**
    Section 4 of RFC 4648: each three bytes are written as one number of four digits. What is left over is
    filled up with zero bits, and digits that hold none of its bits are not written.
   */
  ghost function TextOf(b: seq<Byte>): string {
    if |b| == 0 then ""
    else if |b| == 1 then FourDigits(Number(b[0], 0, 0))[..2]
    else if |b| == 2 then FourDigits(Number(b[0], b[1], 0))[..3]
    else FourDigits(Number(b[0], b[1], b[2])) + TextOf(b[3..])
  }

  lemma SymbolsConcat(v: seq<Sextet>, w: seq<Sextet>)
    ensures Symbols(v + w) == Symbols(v) + Symbols(w)
  {
  }

  lemma SymbolsPrefix(v: seq<Sextet>, n: nat)
    requires n <= |v|
    ensures Symbols(v[..n]) == Symbols(v)[..n]
  {
  }

  lemma {:induction false} EncodingIsTextOf(b: seq<Byte>)
    ensures Encode(b) == TextOf(b)
  {
    if |b| == 1 {
      GroupIsFourDigits(b[0], 0, 0);
      SymbolsPrefix(PackGroup(b[0], 0, 0), 2);
    } else if |b| == 2 {
      GroupIsFourDigits(b[0], b[1], 0);
      SymbolsPrefix(PackGroup(b[0], b[1], 0), 3);
    } else if |b| >= 3 {
      EncodingIsTextOf(b[3..]);
      GroupIsFourDigits(b[0], b[1], b[2]);
      SymbolsConcat(PackGroup(b[0], b[1], b[2]), Pack(b[3..]));
    }
  }
}
