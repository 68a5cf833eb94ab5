/**
 * The pieces of the Java platform the scanner leans on, stated exactly enough for the model:
 * fixed-width integers and their two's-complement patterns, Integer.parseInt / Long.parseLong,
 * ASCII case folding, String.split on a one-character pattern, and String.getBytes(UTF_8).
 */
module JavaLang {
  import opened Results

  const TWO_32: nat := 0x1_0000_0000

  /** Java `int` and `long`. */
  type Int32 = x: int | -0x8000_0000 <= x < 0x8000_0000
  type Int64 = x: int | -0x8000_0000_0000_0000 <= x < 0x8000_0000_0000_0000

  /** The 32 bits of an `int` read as an unsigned number. */
  type Uint32 = x: int | 0 <= x < 0x1_0000_0000

  /** An octet on the wire. */
  type Byte = b: int | 0 <= b < 256

  /** Java `char`: one UTF-16 code unit. */
  type CodeUnit = u: int | 0 <= u < 0x1_0000

  /** The two's-complement bit pattern of `v`, read as unsigned (what `>>>` shifts). */
  function Unsigned(v: Int32): (u: Uint32)
    ensures (u < 0x8000_0000) == (v >= 0)
    ensures (u - v) % TWO_32 == 0
  {
    if v < 0 then v + TWO_32 else v
  }

  /** The `int` whose bit pattern is `u`. */
  function Signed(u: Uint32): (v: Int32)
    ensures Unsigned(v) == u
  {
    if u < 0x8000_0000 then u else u - TWO_32
  }

  /** Java's narrowing cast `(int) x` from `long`: keeps the low 32 bits. */
  function NarrowToInt(x: Int64): (r: Int32)
    ensures (r - x) % TWO_32 == 0
    ensures -0x8000_0000 <= x < 0x8000_0000 ==> r == x
  {
    Signed(x % TWO_32)
  }

  /** Multiplication by a natural number is monotone. */
  lemma MulMono(a: nat, b: nat, w: nat)
    requires a >= b
    ensures a * w >= b * w
  {
  }

  // ---------------------------------------------------------------------------------------
  // Integer.parseInt and Long.parseLong (radix 10)
  // ---------------------------------------------------------------------------------------

  predicate IsDigit(c: char) {
    '0' <= c <= '9'
  }

  predicate AllDigits(s: string) {
    forall i :: 0 <= i < |s| ==> IsDigit(s[i])
  }

  /** The value of a string of decimal digits, most significant first. */
  function DigitsValue(s: string): nat
    requires AllDigits(s)
  {
    if s == [] then 0 else 10 * DigitsValue(s[..|s| - 1]) + (s[|s| - 1] as int - '0' as int)
  }

  /**
   * The number a decimal literal denotes, before the range check: an optional leading
   * '-' or '+', then at least one digit, nothing else. `None` is a NumberFormatException.
   */
  function ParseDecimal(s: string): (r: Option<int>)
    ensures r.Some? ==> |s| >= 1
    ensures r.Some? && s[0] != '-' ==> r.value >= 0
  {
    if |s| == 0 then None
    else
      var digits := if s[0] == '-' || s[0] == '+' then s[1..] else s;
      if |digits| == 0 || !AllDigits(digits) then None
      else
        var magnitude: int := DigitsValue(digits);
        Some(if s[0] == '-' then -magnitude else magnitude)
  }

  /** Integer.parseInt(s): a decimal literal whose value fits an `int`. */
  function ParseInt(s: string): (r: Option<Int32>)
    ensures r.Some? <==> ParseDecimal(s).Some? && -0x8000_0000 <= ParseDecimal(s).value < 0x8000_0000
    ensures r.Some? ==> r.value == ParseDecimal(s).value
  {
    match ParseDecimal(s)
    case Some(n) => if -0x8000_0000 <= n < 0x8000_0000 then Some(n) else None
    case None => None
  }

  /** Long.parseLong(s): a decimal literal whose value fits a `long`. */
  function ParseLong(s: string): (r: Option<Int64>)
    ensures r.Some? <==> ParseDecimal(s).Some? && -0x8000_0000_0000_0000 <= ParseDecimal(s).value < 0x8000_0000_0000_0000
    ensures r.Some? ==> r.value == ParseDecimal(s).value
  {
    match ParseDecimal(s)
    case Some(n) => if -0x8000_0000_0000_0000 <= n < 0x8000_0000_0000_0000 then Some(n) else None
    case None => None
  }

  // ---------------------------------------------------------------------------------------
  // Case folding (ASCII letters; see README for the non-ASCII mappings left out)
  // ---------------------------------------------------------------------------------------

  function LowerAscii(c: char): (l: char)
    ensures !('A' <= l <= 'Z')
    ensures 'a' <= c <= 'z' || !('A' <= c <= 'Z') ==> l == c
  {
    if 'A' <= c <= 'Z' then (c as int + 32) as char else c
  }

  /** String.toLowerCase on ASCII letters. */
  function ToLowerCase(s: string): (r: string)
    ensures |r| == |s|
    ensures forall i :: 0 <= i < |s| ==> r[i] == LowerAscii(s[i])
  {
    if s == [] then [] else [LowerAscii(s[0])] + ToLowerCase(s[1..])
  }

  /** String.equalsIgnoreCase on ASCII letters. */
  predicate EqualsIgnoreCase(a: string, b: string) {
    ToLowerCase(a) == ToLowerCase(b)
  }

  // ---------------------------------------------------------------------------------------
  // String.split with a pattern that matches exactly one character
  // ---------------------------------------------------------------------------------------

  /** The pieces between the separators, keeping every empty piece. */
  function SplitAll(s: string, sep: char): (parts: seq<string>)
    ensures |parts| >= 1
    ensures forall i :: 0 <= i < |parts| ==> sep !in parts[i]
    ensures sep !in s ==> parts == [s]
  {
    if s == [] then [[]]
    else
      var rest := SplitAll(s[1..], sep);
      assert s == [s[0]] + s[1..];
      if s[0] == sep then [[]] + rest else [[s[0]] + rest[0]] + rest[1..]
  }

  /** The pieces glued back together with the separator between them. */
  function Join(parts: seq<string>, sep: char): string
    requires |parts| >= 1
  {
    if |parts| == 1 then parts[0] else parts[0] + [sep] + Join(parts[1..], sep)
  }

  function DropTrailingEmpty(parts: seq<string>): (r: seq<string>)
    ensures |r| <= |parts| && r == parts[..|r|]
    ensures r == [] || r[|r| - 1] != []
    ensures forall i :: |r| <= i < |parts| ==> parts[i] == []
  {
    if parts == [] || parts[|parts| - 1] != [] then parts else DropTrailingEmpty(parts[..|parts| - 1])
  }

  /**
   * Java's `s.split(p)` (limit 0) for a pattern matching the one character `sep`: with no
   * match the result is `[s]`, even for the empty string; otherwise the pieces between the
   * matches with every trailing empty piece removed.
   */
  function JavaSplit(s: string, sep: char): (r: seq<string>)
    ensures sep !in s ==> r == [s]
    ensures sep in s ==> r == [] || r[|r| - 1] != []
    ensures forall i :: 0 <= i < |r| ==> sep !in r[i]
  {
    if sep !in s then [s] else DropTrailingEmpty(SplitAll(s, sep))
  }

  /** Splitting a joined string gives back its pieces, when none of them holds the separator. */
  lemma {:induction false} SplitAllJoin(parts: seq<string>, sep: char)
    requires |parts| >= 1
    requires forall i :: 0 <= i < |parts| ==> sep !in parts[i]
    ensures SplitAll(Join(parts, sep), sep) == parts
  {
    if |parts| > 1 {
      SplitAllJoin(parts[1..], sep);
      SplitAllPrefix(parts[0], Join(parts[1..], sep), sep);
    }
  }

  /** Splitting `p + [sep] + t` when `p` holds no separator. */
  lemma {:induction false} SplitAllPrefix(p: string, t: string, sep: char)
    requires sep !in p
    ensures SplitAll(p + [sep] + t, sep) == [p] + SplitAll(t, sep)
  {
    if p == [] {
      assert p + [sep] + t == [sep] + t;
      assert ([sep] + t)[1..] == t;
    } else {
      assert (p + [sep] + t)[1..] == p[1..] + [sep] + t;
      SplitAllPrefix(p[1..], t, sep);
      assert [p[0]] + p[1..] == p;
    }
  }

  lemma {:induction false} JoinContainsSep(parts: seq<string>, sep: char)
    requires |parts| >= 2
    ensures sep in Join(parts, sep)
  {
    assert Join(parts, sep)[|parts[0]|] == sep;
  }

  /**
   * Java's split on the separator recovers fields joined by it, provided no field holds the
   * separator, there are at least two fields and the last one is not empty (a trailing empty
   * field would be dropped).
   */
  lemma JavaSplitJoin(parts: seq<string>, sep: char)
    requires |parts| >= 2
    requires forall i :: 0 <= i < |parts| ==> sep !in parts[i]
    requires parts[|parts| - 1] != []
    ensures JavaSplit(Join(parts, sep), sep) == parts
  {
    JoinContainsSep(parts, sep);
    SplitAllJoin(parts, sep);
  }

  /** String.indexOf(c): the first index holding `c`, -1 when there is none. */
  function IndexOf(s: string, c: char): (r: int)
    ensures r == -1 <==> c !in s
    ensures r != -1 ==> 0 <= r < |s| && s[r] == c && c !in s[..r]
  {
    if s == [] then -1
    else if s[0] == c then 0
    else
      var r := IndexOf(s[1..], c);
      assert s == [s[0]] + s[1..];
      if r == -1 then -1
      else
        assert s[..r + 1] == [s[0]] + s[1..][..r];
        r + 1
  }

  /** s.split(""): one string per character; the empty string gives one empty string. */
  function SplitChars(s: string): (r: seq<string>)
    ensures s == [] ==> r == [""]
    ensures s != [] ==> |r| == |s| && forall i :: 0 <= i < |s| ==> r[i] == [s[i]]
  {
    if s == [] then [""] else seq(|s|, i requires 0 <= i < |s| => [s[i]])
  }

  // ---------------------------------------------------------------------------------------
  // String.getBytes(StandardCharsets.UTF_8)
  // ---------------------------------------------------------------------------------------

  /** The number of bytes UTF-8 spends on a character. */
  function Utf8Width(c: char): (w: nat)
    ensures 1 <= w <= 4
    ensures w == 1 <==> c as int < 0x80
  {
    var n := c as int;
    if n < 0x80 then 1 else if n < 0x800 then 2 else if n < 0x1_0000 then 3 else 4
  }

  /** A UTF-8 continuation byte, 10xxxxxx. */
  predicate Continuation(b: Byte) {
    0x80 <= b < 0xC0
  }

  /**
   * The bytes UTF-8 gives a character: the character itself below 0x80, otherwise a lead
   * byte 110xxxxx, 1110xxxx or 11110xxx carrying the high bits, then continuation bytes
   * carrying six bits each (the value is pinned down by `Utf8CharDecodes`).
   */
  function Utf8Char(c: char): (bs: seq<Byte>)
    ensures |bs| == Utf8Width(c)
    ensures |bs| == 1 ==> bs[0] == c as int
    ensures |bs| == 2 ==> 0xC0 <= bs[0] < 0xE0
    ensures |bs| == 3 ==> 0xE0 <= bs[0] < 0xF0
    ensures |bs| == 4 ==> 0xF0 <= bs[0] < 0xF8
    ensures forall i :: 1 <= i < |bs| ==> Continuation(bs[i])
  {
    var n := c as int;
    if n < 0x80 then [n]
    else if n < 0x800 then [0xC0 + n / 0x40, 0x80 + n % 0x40]
    else if n < 0x1_0000 then [0xE0 + n / 0x1000, 0x80 + n / 0x40 % 0x40, 0x80 + n % 0x40]
    else [0xF0 + n / 0x4_0000, 0x80 + n / 0x1000 % 0x40, 0x80 + n / 0x40 % 0x40, 0x80 + n % 0x40]
  }

  /** String.getBytes(UTF_8): the characters' encodings laid end to end. */
  function Utf8(s: string): (bs: seq<Byte>)
    ensures |s| <= |bs| <= 4 * |s|
  {
    if s == [] then [] else Utf8Char(s[0]) + Utf8(s[1..])
  }

  /** The width a lead byte announces; 0 for a byte no character starts with. */
  function LeadWidth(b: Byte): nat {
    if b < 0x80 then 1
    else if b < 0xC0 then 0
    else if b < 0xE0 then 2
    else if b < 0xF0 then 3
    else if b < 0xF8 then 4
    else 0
  }

  /**
   * The first character of `bs` and the number of bytes it takes; `None` when the lead byte,
   * a continuation byte or the value (a surrogate, or beyond U+10FFFF) is malformed.
   */
  function DecodeUtf8Char(bs: seq<Byte>): (r: Option<(char, nat)>)
    ensures r.Some? ==> 1 <= r.value.1 <= |bs| && r.value.1 == LeadWidth(bs[0])
  {
    if bs == [] then None
    else
      var w := LeadWidth(bs[0]);
      if w == 0 || |bs| < w || !(forall i :: 1 <= i < w ==> Continuation(bs[i])) then None
      else
        var v :=
          if w == 1 then bs[0]
          else if w == 2 then (bs[0] as int - 0xC0) * 0x40 + (bs[1] as int - 0x80)
          else if w == 3 then (bs[0] as int - 0xE0) * 0x1000 + (bs[1] as int - 0x80) * 0x40 + (bs[2] as int - 0x80)
          else (bs[0] as int - 0xF0) * 0x4_0000 + (bs[1] as int - 0x80) * 0x1000 + (bs[2] as int - 0x80) * 0x40 + (bs[3] as int - 0x80);
        if 0xD800 <= v < 0xE000 || v >= 0x11_0000 then None else Some((v as char, w))
  }

  /** A UTF-8 decoder that rejects malformed input: the partner of `Utf8`. */
  function Utf8Decode(bs: seq<Byte>): (r: Option<string>)
    ensures r.Some? ==> |r.value| <= |bs|
    decreases |bs|
  {
    if bs == [] then Some([])
    else
      match DecodeUtf8Char(bs)
      case None => None
      case Some((c, w)) =>
        match Utf8Decode(bs[w..])
        case None => None
        case Some(rest) => Some([c] + rest)
  }

  /** The encoding of a character decodes back to it, whatever bytes follow. */
  lemma Utf8CharDecodes(c: char, rest: seq<Byte>)
    ensures DecodeUtf8Char(Utf8Char(c) + rest) == Some((c, |Utf8Char(c)|))
  {
    var n := c as int;
    if n < 0x80 {
    } else if n < 0x800 {
      TwoBytesDecode(c, rest);
    } else if n < 0x1_0000 {
      ThreeBytesDecode(c, rest);
    } else {
      FourBytesDecode(c, rest);
    }
  }

  lemma TwoBytesDecode(c: char, rest: seq<Byte>)
    requires 0x80 <= c as int < 0x800
    ensures DecodeUtf8Char(Utf8Char(c) + rest) == Some((c, 2))
  {
    var n := c as int;
    var bs := Utf8Char(c) + rest;
    assert bs[0] == 0xC0 + n / 0x40 && bs[1] == 0x80 + n % 0x40;
    assert (bs[0] as int - 0xC0) * 0x40 + (bs[1] as int - 0x80) == n;
  }

  lemma ThreeBytesDecode(c: char, rest: seq<Byte>)
    requires 0x800 <= c as int < 0x1_0000
    ensures DecodeUtf8Char(Utf8Char(c) + rest) == Some((c, 3))
  {
    var n := c as int;
    var bs := Utf8Char(c) + rest;
    assert bs[0] == 0xE0 + n / 0x1000 && bs[1] == 0x80 + n / 0x40 % 0x40 && bs[2] == 0x80 + n % 0x40;
    SixBits(n, 0x40);
    assert (bs[0] as int - 0xE0) * 0x1000 + (bs[1] as int - 0x80) * 0x40 + (bs[2] as int - 0x80) == n;
  }

  lemma FourBytesDecode(c: char, rest: seq<Byte>)
    requires 0x1_0000 <= c as int
    ensures DecodeUtf8Char(Utf8Char(c) + rest) == Some((c, 4))
  {
    var n := c as int;
    var bs := Utf8Char(c) + rest;
    assert bs[0] == 0xF0 + n / 0x4_0000 && bs[1] == 0x80 + n / 0x1000 % 0x40 &&
           bs[2] == 0x80 + n / 0x40 % 0x40 && bs[3] == 0x80 + n % 0x40;
    SixBits(n, 0x40);
    SixBits(n, 0x1000);
    assert (bs[0] as int - 0xF0) * 0x4_0000 + (bs[1] as int - 0x80) * 0x1000 + (bs[2] as int - 0x80) * 0x40
         + (bs[3] as int - 0x80) == n;
  }

  /** Dropping six more low bits: n / d splits into n / (64 d) and the six bits between. */
  lemma SixBits(n: nat, d: nat)
    requires d == 0x40 || d == 0x1000
    ensures n / d == n / (d * 0x40) * 0x40 + n / d % 0x40
  {
  }

  /** Decoding what getBytes(UTF_8) wrote gives the string back. */
  lemma {:induction false} Utf8RoundTrip(s: string)
    ensures Utf8Decode(Utf8(s)) == Some(s)
  {
    if s != [] {
      var head := Utf8Char(s[0]);
      Utf8CharDecodes(s[0], Utf8(s[1..]));
      assert Utf8(s)[|head|..] == Utf8(s[1..]);
      Utf8RoundTrip(s[1..]);
      assert s == [s[0]] + s[1..];
    }
  }

  /** Two strings have the same UTF-8 bytes only when they are equal. */
  lemma Utf8Injective(s: string, t: string)
    ensures Utf8(s) == Utf8(t) <==> s == t
  {
    Utf8RoundTrip(s);
    Utf8RoundTrip(t);
  }
}
