/** Character classes and string helpers of the C++ standard library as the
    client uses them in the "C" locale: `isspace`, `toupper`, hexadecimal and
    decimal rendering through `std::hex`/`std::setw`/`std::setfill`, trimming
    with `find_first_not_of`/`find_last_not_of`, and `>>` word extraction. */
module Strings {
  import opened Wire

  /** The characters both credential readers trim: space, tab, CR and LF. */
  const Blank: set<char> := {' ', '\t', '\r', '\n'}

  /** `isspace` in the "C" locale. */
  predicate IsSpace(c: char)
  {
    c == ' ' || c == '\t' || c == '\n' || c == '\U{B}' || c == '\U{C}' || c == '\r'
  }

  predicate IsHexDigit(c: char)
  {
    '0' <= c <= '9' || 'a' <= c <= 'f' || 'A' <= c <= 'F'
  }

  /** Digits 0-9 and capital letters A-F only. */
  predicate IsUpperHexDigit(c: char)
  {
    '0' <= c <= '9' || 'A' <= c <= 'F'
  }

  function HexDigitValue(c: char): (d: nat)
    requires IsHexDigit(c)
    ensures d < 16
  {
    if c <= '9' then c as int - '0' as int
    else if c <= 'F' then c as int - 'A' as int + 10
    else c as int - 'a' as int + 10
  }

  /** The digit `std::hex` prints for `d`: lower-case letters. */
  function LowerHexDigit(d: nat): (c: char)
    requires d < 16
    ensures IsHexDigit(c) && HexDigitValue(c) == d
    ensures !('A' <= c <= 'Z')
  {
    if d < 10 then ('0' as int + d) as char else ('a' as int + d - 10) as char
  }

  /** `std::toupper` in the "C" locale. */
  function ToUpperChar(c: char): char
  {
    if 'a' <= c <= 'z' then (c as int - 32) as char else c
  }

  /** `std::transform(..., std::toupper)` over a whole string. */
  function ToUpper(s: string): (r: string)
    ensures |r| == |s|
  {
    seq(|s|, i requires 0 <= i < |s| => ToUpperChar(s[i]))
  }

  /** Upper-casing a digit `std::hex` printed gives a digit of `0-9A-F` with
      the same value. */
  lemma UpperHexDigitOf(d: nat)
    requires d < 16
    ensures IsUpperHexDigit(ToUpperChar(LowerHexDigit(d)))
    ensures IsHexDigit(ToUpperChar(LowerHexDigit(d)))
    ensures HexDigitValue(ToUpperChar(LowerHexDigit(d))) == d
  {
  }

  /** One byte as `std::hex << std::setw(2) << std::setfill('0')` prints it. */
  function HexByte(b: Byte): (r: string)
    ensures |r| == 2
  {
    [LowerHexDigit(b / 16), LowerHexDigit(b % 16)]
  }

  /** Every byte as two lower-case hex digits, in order. */
  function RenderHex(d: seq<Byte>): (r: string)
    ensures |r| == 2 * |d|
  {
    if d == [] then [] else RenderHex(d[..|d| - 1]) + HexByte(d[|d| - 1])
  }

  lemma {:induction false} RenderHexAt(d: seq<Byte>, i: nat)
    requires i < |d|
    ensures RenderHex(d)[2 * i] == LowerHexDigit(d[i] / 16)
    ensures RenderHex(d)[2 * i + 1] == LowerHexDigit(d[i] % 16)
    decreases |d|
  {
    if i < |d| - 1 {
      RenderHexAt(d[..|d| - 1], i);
    }
  }

  /** A SHA-1 digest: 20 bytes. */
  type Digest = d: seq<Byte> | |d| == 20 witness seq(20, _ => 0)

  /** Drops leading characters of `cs`. */
  function TrimLeft(s: string, cs: set<char>): (r: string)
    ensures |r| <= |s| && r == s[|s| - |r|..]
    ensures forall k :: 0 <= k < |s| - |r| ==> s[k] in cs
    ensures r == [] || r[0] !in cs
  {
    if s != [] && s[0] in cs then TrimLeft(s[1..], cs) else s
  }

  /** Drops trailing characters of `cs`. */
  function TrimRight(s: string, cs: set<char>): (r: string)
    ensures |r| <= |s| && r == s[..|r|]
    ensures forall k :: |r| <= k < |s| ==> s[k] in cs
    ensures r == [] || r[|r| - 1] !in cs
  {
    if s != [] && s[|s| - 1] in cs then TrimRight(s[..|s| - 1], cs) else s
  }

  /** Drops characters of `cs` at both ends: the slice between the first and the
      last character not in `cs`, or the empty string when there is none. */
  function Trim(s: string, cs: set<char>): (r: string)
    ensures |r| <= |s|
    ensures r == [] || (r[0] !in cs && r[|r| - 1] !in cs)
  {
    TrimRight(TrimLeft(s, cs), cs)
  }

  /** `Trim` removes only characters of `cs`: the result is the slice of `s`
      between a front and a tail made of characters of `cs`. */
  lemma TrimSlice(s: string, cs: set<char>)
    ensures var i := |s| - |TrimLeft(s, cs)|;
      var r := Trim(s, cs);
      && i + |r| <= |s| && r == s[i..i + |r|]
      && (forall k :: 0 <= k < i ==> s[k] in cs)
      && (forall k :: i + |r| <= k < |s| ==> s[k] in cs)
  {
    var l := TrimLeft(s, cs);
    TailIn(s, |s| - |l|, l, TrimRight(l, cs), cs);
  }

  /** `Trim` leaves nothing exactly when every character is in `cs`. */
  lemma TrimEmpty(s: string, cs: set<char>)
    ensures Trim(s, cs) == [] <==> forall k :: 0 <= k < |s| ==> s[k] in cs
  {
    var l := TrimLeft(s, cs);
    var r := TrimRight(l, cs);
    var i := |s| - |l|;
    if r == [] {
      assert i == |s|;
    } else {
      assert r[0] == l[0] == s[i];
    }
  }

  /** A prefix `r` of the suffix `l` of `s` from `i` is the slice of `s` at
      `i`; what `l` has after `r` is what `s` has after that slice. */
  lemma TailIn(s: string, i: nat, l: string, r: string, cs: set<char>)
    requires i <= |s| && l == s[i..] && |r| <= |l| && r == l[..|r|]
    requires forall k :: |r| <= k < |l| ==> l[k] in cs
    ensures i + |r| <= |s| && r == s[i..i + |r|]
    ensures forall k :: i + |r| <= k < |s| ==> s[k] in cs
  {
    forall k | i + |r| <= k < |s|
      ensures s[k] in cs
    {
      assert s[k] == l[k - i];
    }
  }

  /** The part of `s` before the first `c`; all of `s` when there is none. */
  function CutAt(s: string, c: char): (r: string)
    ensures r <= s
    ensures c !in r
    ensures |r| < |s| ==> s[|r|] == c
  {
    if s == [] || s[0] == c then [] else [s[0]] + CutAt(s[1..], c)
  }

  function DecimalDigit(d: nat): (c: char)
    requires d < 10
  {
    ('0' as int + d) as char
  }

  /** `operator<<` of an unsigned integer: its decimal digits, no leading zero. */
  function Decimal(n: nat): (r: string)
    ensures |r| >= 1 && forall k :: 0 <= k < |r| ==> '0' <= r[k] <= '9'
    ensures (r[0] == '0') == (n == 0)
  {
    if n < 10 then [DecimalDigit(n)] else Decimal(n / 10) + [DecimalDigit(n % 10)]
  }

  /** Reads a string of decimal digits back as a number. */
  function DecimalValue(s: string): nat
    requires forall k :: 0 <= k < |s| ==> '0' <= s[k] <= '9'
  {
    if s == [] then 0 else 10 * DecimalValue(s[..|s| - 1]) + (s[|s| - 1] as int - '0' as int)
  }

  lemma {:induction false} DecimalRoundTrip(n: nat)
    ensures DecimalValue(Decimal(n)) == n
  {
    if n >= 10 {
      DecimalRoundTrip(n / 10);
      var r := Decimal(n);
      assert r[..|r| - 1] == Decimal(n / 10);
    }
  }

  /** The longest prefix of `s` without white space. */
  function WordAt(s: string): (w: string)
    ensures w <= s
    ensures forall k :: 0 <= k < |w| ==> !IsSpace(w[k])
    ensures s != [] && !IsSpace(s[0]) ==> |w| >= 1
  {
    if s == [] || IsSpace(s[0]) then [] else [s[0]] + WordAt(s[1..])
  }

  /** The words successive `>>` extractions see: maximal runs of
      non-space characters, in order. */
  function Words(s: string): (ws: seq<string>)
    ensures forall k :: 0 <= k < |ws| ==> |ws[k]| >= 1
    decreases |s|
  {
    if s == [] then []
    else if IsSpace(s[0]) then Words(s[1..])
    else
      var w := WordAt(s);
      [w] + Words(s[|w|..])
  }

  /** Words do not run across a boundary that has white space on one side. */
  lemma {:induction false} WordsAppend(a: string, b: string)
    requires a == [] || b == [] || IsSpace(a[|a| - 1]) || IsSpace(b[0])
    ensures Words(a + b) == Words(a) + Words(b)
    decreases |a|
  {
    if a == [] {
      assert a + b == b;
    } else if IsSpace(a[0]) {
      assert (a + b)[1..] == a[1..] + b;
      WordsAppend(a[1..], b);
    } else {
      var w := WordAt(a);
      WordAtAppend(a, b);
      assert (a + b)[|w|..] == a[|w|..] + b;
      WordsAppend(a[|w|..], b);
      assert [w] + Words(a[|w|..]) + Words(b) == [w] + (Words(a[|w|..]) + Words(b));
    }
  }

  lemma {:induction false} WordAtAppend(a: string, b: string)
    requires a != [] && (b == [] || IsSpace(a[|a| - 1]) || IsSpace(b[0]))
    ensures WordAt(a + b) == WordAt(a)
    decreases |a|
  {
    if !IsSpace(a[0]) {
      assert (a + b)[1..] == a[1..] + b;
      if a[1..] == [] {
        assert a[1..] + b == b;
      } else {
        WordAtAppend(a[1..], b);
      }
    }
  }

  /** The lines successive `std::getline` calls yield: the text between
      newlines, without the final empty piece after a closing newline. */
  function Lines(s: string): seq<string>
    decreases |s|
  {
    if s == [] then []
    else
      var line := CutAt(s, '\n');
      if |line| == |s| then [line] else [line] + Lines(s[|line| + 1..])
  }
}
