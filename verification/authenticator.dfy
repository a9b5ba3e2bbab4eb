/** The static helpers of `Authenticator`: the SHA-1 hex digest the server
    expects, the salt generator and the hex-to-octets decoder. SHA-1 itself
    and the random 64-bit draw are inputs: `sha1` maps a message to its
    20-byte digest, `draw` is the value the generator produced. */
module Authenticator {
  import opened Wire
  import opened Strings

  /** The octets of a byte sequence, one char per byte. */
  function Octets(d: seq<Byte>): (s: seq<char>)
    ensures |s| == |d| && forall k :: 0 <= k < |d| ==> s[k] as int == d[k]
  {
    seq(|d|, k requires 0 <= k < |d| => d[k] as char)
  }

  /** `computeHash`: SHA-1 of `salt + password`, every digest byte as two
      zero-padded hex digits, then upper-cased. */
  function ComputeHash(salt: string, password: string, sha1: string -> Digest): (h: string)
    ensures |h| == 40
    ensures forall k :: 0 <= k < 40 ==> IsUpperHexDigit(h[k])
  {
    var d := sha1(salt + password);
    var r := ToUpper(RenderHex(d));
    assert forall k :: 0 <= k < 40 ==> IsUpperHexDigit(r[k]) by {
      forall k | 0 <= k < 40 ensures IsUpperHexDigit(r[k]) {
        RenderHexAt(d, k / 2);
        UpperHexDigitOf(d[k / 2] / 16);
        UpperHexDigitOf(d[k / 2] % 16);
      }
    }
    r
  }

  /** Digit pair `k` of the hash is byte `k` of the digest of `salt + password`. */
  lemma ComputeHashDigits(salt: string, password: string, sha1: string -> Digest, k: nat)
    requires k < 20
    ensures var h := ComputeHash(salt, password, sha1);
      IsHexDigit(h[2 * k]) && IsHexDigit(h[2 * k + 1]) &&
      16 * HexDigitValue(h[2 * k]) + HexDigitValue(h[2 * k + 1]) == sha1(salt + password)[k]
  {
    var d := sha1(salt + password);
    RenderHexAt(d, k);
    UpperHexDigitOf(d[k] / 16);
    UpperHexDigitOf(d[k] % 16);
  }

  /** The hash depends on the salt and the password only through their
      concatenation. */
  lemma ComputeHashOfConcatenation(s: string, p: string, s': string, p': string, sha1: string -> Digest)
    requires s + p == s' + p'
    ensures ComputeHash(s, p, sha1) == ComputeHash(s', p', sha1)
  {
  }

  function Pow16(w: nat): (r: nat)
    ensures r >= 1
  {
    if w == 0 then 1 else 16 * Pow16(w - 1)
  }

  lemma Pow16Sixteen()
    ensures Pow16(16) == 0x1_0000_0000_0000_0000
  {
    assert Pow16(4) == 0x1_0000;
    assert Pow16(8) == 0x1_0000_0000 by { assert Pow16(8) == Pow16(4) * Pow16(4) by { Pow16Add(4, 4); } }
    assert Pow16(16) == Pow16(8) * Pow16(8) by { Pow16Add(8, 8); }
  }

  lemma {:induction false} Pow16Add(a: nat, b: nat)
    ensures Pow16(a + b) == Pow16(a) * Pow16(b)
  {
    if a > 0 {
      Pow16Add(a - 1, b);
    }
  }

  /** `std::hex << std::setw(w) << std::setfill('0') << n` for an `n` that fits
      in `w` digits. */
  function PaddedHex(n: nat, w: nat): (r: string)
    requires n < Pow16(w)
    ensures |r| == w
  {
    if w == 0 then [] else PaddedHex(n / 16, w - 1) + [LowerHexDigit(n % 16)]
  }

  /** Reads a string of hex digits (either case) as a base-16 number. */
  function HexValue(s: string): nat
    requires forall k :: 0 <= k < |s| ==> IsHexDigit(s[k])
  {
    if s == [] then 0 else 16 * HexValue(s[..|s| - 1]) + HexDigitValue(s[|s| - 1])
  }

  /** `generateSalt`: the 64-bit draw as 16 hex digits, left-padded with '0',
      then upper-cased. */
  function GenerateSalt(draw: nat): (salt: string)
    requires draw < 0x1_0000_0000_0000_0000
    ensures |salt| == 16
  {
    Pow16Sixteen();
    ToUpper(PaddedHex(draw, 16))
  }

  lemma {:induction false} UpperPaddedHex(n: nat, w: nat)
    requires n < Pow16(w)
    ensures var s := ToUpper(PaddedHex(n, w));
      (forall k :: 0 <= k < w ==> IsUpperHexDigit(s[k]) && IsHexDigit(s[k])) && HexValue(s) == n
  {
    if w > 0 {
      var s := ToUpper(PaddedHex(n, w));
      var t := ToUpper(PaddedHex(n / 16, w - 1));
      UpperPaddedHex(n / 16, w - 1);
      UpperHexDigitOf(n % 16);
      assert s == t + [ToUpperChar(LowerHexDigit(n % 16))];
      assert s[..w - 1] == t;
    }
  }

  /** The salt consists of 16 characters of `0-9A-F`, and reading them back in
      base 16 gives the drawn value. */
  lemma GenerateSaltReadsBack(draw: nat)
    requires draw < 0x1_0000_0000_0000_0000
    ensures var salt := GenerateSalt(draw);
      (forall k :: 0 <= k < 16 ==> IsUpperHexDigit(salt[k]) && IsHexDigit(salt[k])) && HexValue(salt) == draw
  {
    Pow16Sixteen();
    UpperPaddedHex(draw, 16);
  }

  /** The value of `c` as a hex digit, 0 when it is not one. */
  function DigitOrZero(c: char): (v: nat)
    ensures v < 16
  {
    if IsHexDigit(c) then HexDigitValue(c) else 0
  }

  /** `strtol(piece, nullptr, 16)` for the one- or two-character pieces that
      `hexToString` cuts: `strtol` skips leading white space, takes an optional
      sign and reads the hex digits that follow; with no digit it returns 0. In
      a piece this short a "0x" prefix is followed by nothing, so it reads as
      the digit run "0". */
  function StrtolHex(piece: string): (v: int)
    requires 1 <= |piece| <= 2
    ensures -15 <= v <= 255
  {
    var c := piece[0];
    if |piece| == 1 then DigitOrZero(c)
    else if IsSpace(c) || c == '+' then DigitOrZero(piece[1])
    else if c == '-' then -(DigitOrZero(piece[1]) as int)
    else if !IsHexDigit(c) then 0
    else if IsHexDigit(piece[1]) then 16 * HexDigitValue(c) + HexDigitValue(piece[1])
    else HexDigitValue(c)
  }

  /** `static_cast<char>` of an `int`: the low eight bits, as an octet. */
  function OctetOf(v: int): (c: char)
    ensures c as int == v % 256
  {
    (v % 256) as char
  }

  /** Piece `k` of `hex`: characters `2k` and `2k+1`, or the last character
      alone when the length is odd (`hex.substr(2 * k, 2)`). */
  function PieceAt(hex: string, k: nat): (piece: string)
    requires k < (|hex| + 1) / 2
    ensures 1 <= |piece| <= 2
  {
    if 2 * k + 2 <= |hex| then hex[2 * k..2 * k + 2] else hex[2 * k..]
  }

  /** What `hexToString` returns: one octet per piece, decoded by `strtol`. */
  function DecodeHex(hex: string): (r: string)
  {
    seq((|hex| + 1) / 2, k requires 0 <= k < (|hex| + 1) / 2 => OctetOf(StrtolHex(PieceAt(hex, k))))
  }

  /** `hexToString`, with its accumulating loop. */
  method HexToString(hex: string) returns (result: string)
    ensures |result| == (|hex| + 1) / 2
    ensures result == DecodeHex(hex)
  {
    result := [];
    var i := 0;
    while i < |hex|
      invariant i % 2 == 0 && i <= |hex| + 1 && |result| == i / 2
      invariant forall k :: 0 <= k < |result| ==> result[k] == OctetOf(StrtolHex(PieceAt(hex, k)))
      decreases |hex| - i
    {
      var piece := if i + 2 <= |hex| then hex[i..i + 2] else hex[i..];
      assert piece == PieceAt(hex, i / 2);
      result := result + [OctetOf(StrtolHex(piece))];
      i := i + 2;
    }
  }

  /** A piece of two hex digits decodes to the octet of their value. */
  lemma DecodeHexPairAt(hex: string, k: nat)
    requires 2 * k + 1 < |hex| && IsHexDigit(hex[2 * k]) && IsHexDigit(hex[2 * k + 1])
    ensures DecodeHex(hex)[k] == OctetOf(16 * HexDigitValue(hex[2 * k]) + HexDigitValue(hex[2 * k + 1]))
  {
    var piece := PieceAt(hex, k);
    assert piece[0] == hex[2 * k] && piece[1] == hex[2 * k + 1];
  }

  /** A pair `std::hex` printed for byte `b` decodes to `b`, before and
      after upper-casing. */
  lemma DecodePrintedPair(h: string, k: nat, b: Byte)
    requires 2 * k + 1 < |h|
    requires h[2 * k] == LowerHexDigit(b / 16) && h[2 * k + 1] == LowerHexDigit(b % 16)
    ensures DecodeHex(h)[k] == b as char
    ensures DecodeHex(ToUpper(h))[k] == b as char
  {
    DecodeHexPairAt(h, k);
    var u := ToUpper(h);
    assert u[2 * k] == ToUpperChar(h[2 * k]) && u[2 * k + 1] == ToUpperChar(h[2 * k + 1]);
    DecodeHexPairAt(u, k);
    PairValue(b);
  }

  lemma PairValue(b: Byte)
    ensures var hi, lo := LowerHexDigit(b / 16), LowerHexDigit(b % 16);
      && OctetOf(16 * HexDigitValue(hi) + HexDigitValue(lo)) == b as char
      && OctetOf(16 * HexDigitValue(ToUpperChar(hi)) + HexDigitValue(ToUpperChar(lo))) == b as char
  {
    UpperHexDigitOf(b / 16);
    UpperHexDigitOf(b % 16);
    assert 16 * (b / 16) + b % 16 == b;
  }

  /** Pair `k` of the rendering, in either case, decodes to byte `k`. */
  lemma DecodeRenderedAt(d: seq<Byte>, k: nat)
    requires k < |d|
    ensures DecodeHex(RenderHex(d))[k] == d[k] as char
    ensures DecodeHex(ToUpper(RenderHex(d)))[k] == d[k] as char
  {
    RenderHexAt(d, k);
    DecodePrintedPair(RenderHex(d), k, d[k]);
  }

  /** Round trip: `hexToString` of the rendering `computeHash` uses (before or
      after upper-casing) returns the bytes. */
  lemma DecodeRenderedHex(d: seq<Byte>)
    ensures DecodeHex(RenderHex(d)) == Octets(d)
    ensures DecodeHex(ToUpper(RenderHex(d))) == Octets(d)
  {
    forall k | 0 <= k < |d|
      ensures DecodeHex(RenderHex(d))[k] == Octets(d)[k]
      ensures DecodeHex(ToUpper(RenderHex(d)))[k] == Octets(d)[k]
    {
      DecodeRenderedAt(d, k);
    }
  }

  /** The hash decodes to the digest of `salt + password`. */
  lemma DecodeComputeHash(salt: string, password: string, sha1: string -> Digest)
    ensures DecodeHex(ComputeHash(salt, password, sha1)) == Octets(sha1(salt + password))
  {
    DecodeRenderedHex(sha1(salt + password));
  }

  /** Decoding works pair by pair: a prefix of even length decodes on its
      own. */
  lemma DecodeHexConcat(a: string, b: string)
    requires |a| % 2 == 0
    ensures DecodeHex(a + b) == DecodeHex(a) + DecodeHex(b)
  {
    var h := a + b;
    var r, l, u := DecodeHex(h), DecodeHex(a), DecodeHex(b);
    assert |r| == |l| + |u|;
    forall k | 0 <= k < |r|
      ensures r[k] == (l + u)[k]
    {
      if k < |l| {
        PieceOfPrefix(a, b, k);
      } else {
        PieceOfSuffix(a, b, k - |l|);
      }
    }
  }

  lemma PieceOfPrefix(a: string, b: string, k: nat)
    requires |a| % 2 == 0 && k < |a| / 2
    ensures PieceAt(a + b, k) == PieceAt(a, k)
  {
    assert (a + b)[2 * k..2 * k + 2] == a[2 * k..2 * k + 2];
  }

  lemma PieceOfSuffix(a: string, b: string, j: nat)
    requires |a| % 2 == 0 && j < (|b| + 1) / 2
    ensures PieceAt(a + b, |a| / 2 + j) == PieceAt(b, j)
  {
    var h, k := a + b, |a| / 2 + j;
    if 2 * j + 2 <= |b| {
      assert h[2 * k..2 * k + 2] == b[2 * j..2 * j + 2];
    } else {
      assert h[2 * k..] == b[2 * j..];
    }
  }

  /** The worked examples: "48656C6C6F" decodes to "Hello", "" to "". */
  lemma DecodeHexExamples()
    ensures DecodeHex("48656C6C6F") == "Hello"
    ensures DecodeHex("") == ""
  {
    assert "48656C6C6F" == "48" + ("65" + ("6C" + ("6C" + "6F")));
    DecodeHexConcat("6C", "6F");
    DecodeHexConcat("6C", "6C" + "6F");
    DecodeHexConcat("65", "6C" + ("6C" + "6F"));
    DecodeHexConcat("48", "65" + ("6C" + ("6C" + "6F")));
    HelloPairs();
  }

  lemma HelloPairs()
    ensures DecodeHex("48") == "H" && DecodeHex("65") == "e"
    ensures DecodeHex("6C") == "l" && DecodeHex("6F") == "o"
  {
    DecodeHexPairAt("48", 0);
    DecodeHexPairAt("65", 0);
    DecodeHexPairAt("6C", 0);
    DecodeHexPairAt("6F", 0);
  }
}
