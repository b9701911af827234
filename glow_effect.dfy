/**
 * `Color(hex:)`: turning a string such as "#FF6778" into red, green and blue
 * channels. A `Scanner` skips an optional "#", scans a hexadecimal `UInt64`
 * (left at 0 when there is nothing to scan), and the three channels are cut out
 * of it with masks and shifts. The channels are kept as the integers 0 ... 255;
 * the final division by 255 into floating point is not modelled.
 */
module HexColor {

  import opened Foundation

  // ---------------------------------------------------------------------------
  // Bit operations on unsigned integers
  // ---------------------------------------------------------------------------

  function Pow2(k: nat): nat {
    if k == 0 then 1 else 2 * Pow2(k - 1)
  }

  /** The powers of two the colour masks use. */
  lemma Pow2Values()
    ensures Pow2(8) == 0x100 && Pow2(16) == 0x10000
  {
    assert Pow2(2) == 4;
    assert Pow2(4) == 16;
    assert Pow2(6) == 64;
    assert Pow2(8) == 0x100;
    assert Pow2(10) == 0x400;
    assert Pow2(12) == 0x1000;
    assert Pow2(14) == 0x4000;
  }

  /** Bitwise `&` of two unsigned integers, one bit at a time from the bottom. */
  function BitAnd(a: nat, b: nat): (r: nat)
    ensures r <= a && r <= b
    decreases a
  {
    if a == 0 || b == 0 then 0
    else 2 * BitAnd(a / 2, b / 2) + (if a % 2 == 1 && b % 2 == 1 then 1 else 0)
  }

  /** `x >> k` on an unsigned integer: k halvings. */
  function ShiftRight(x: nat, k: nat): (r: nat)
    ensures r <= x
  {
    if k == 0 then x else ShiftRight(x / 2, k - 1)
  }

  // The lemmas below about naturals carry `{:induction false}`, including the
  // ones that do not call themselves: it switches off automatic induction,
  // which otherwise makes these lemmas needlessly expensive to verify.

  /** The lowest bit of `a & b` and the rest, also when an operand is 0. */
  lemma {:induction false} BitAndStep(a: nat, b: nat)
    ensures BitAnd(a, b) == 2 * BitAnd(a / 2, b / 2) + (if a % 2 == 1 && b % 2 == 1 then 1 else 0)
  {
    if a == 0 || b == 0 {
      assert a / 2 == 0 || b / 2 == 0;
    }
  }

  /** An odd mask keeps the lowest bit of `a`. */
  lemma {:induction false} OddMask(a: nat, m: nat)
    ensures BitAnd(a, 2 * m + 1) == 2 * BitAnd(a / 2, m) + a % 2
  {
    BitAndStep(a, 2 * m + 1);
    assert (2 * m + 1) / 2 == m && (2 * m + 1) % 2 == 1;
  }

  lemma {:induction false} Mod4(x: nat)
    ensures x % 4 == x % 2 + 2 * (x / 2 % 2)
  {
  }

  lemma {:induction false} Mod8(x: nat)
    ensures x % 8 == x % 2 + 2 * (x / 2 % 4)
  {
  }

  lemma {:induction false} Mod16(x: nat)
    ensures x % 16 == x % 2 + 2 * (x / 2 % 8)
  {
  }

  lemma {:induction false} Mod256(x: nat)
    ensures x % 256 == 16 * (x / 16 % 16) + x % 16
  {
  }

  /** The four low bits of `x`, one at a time. */
  lemma {:induction false} NibbleDigits(x: nat)
    ensures x % 16 == x % 2 + 2 * (x / 2 % 2) + 4 * (x / 4 % 2) + 8 * (x / 8 % 2)
  {
    Mod16(x);
    Mod8(x / 2);
    Mod4(x / 4);
    assert x / 2 / 2 == x / 4 && x / 4 / 2 == x / 8;
  }

  /** `x & 0xf` is `x` modulo 16. */
  lemma {:induction false} LowNibble(x: nat)
    ensures BitAnd(x, 0xf) == x % 16
  {
    OddMask(x, 7);
    OddMask(x / 2, 3);
    OddMask(x / 4, 1);
    OddMask(x / 8, 0);
    assert x / 2 / 2 == x / 4 && x / 4 / 2 == x / 8 && x / 8 / 2 == x / 16;
    assert BitAnd(x / 16, 0) == 0;
    NibbleDigits(x);
  }

  /** `a & 0xff` splits into `(a >> 4) & 0xf` above the four low bits. */
  lemma {:induction false} ByteOfNibbles(a: nat)
    ensures BitAnd(a, 0xff) == 16 * BitAnd(a / 16, 0xf) + a % 16
  {
    OddMask(a, 127);
    OddMask(a / 2, 63);
    OddMask(a / 4, 31);
    OddMask(a / 8, 15);
    assert a / 2 / 2 == a / 4 && a / 4 / 2 == a / 8 && a / 8 / 2 == a / 16;
    NibbleDigits(a);
  }

  /** `a & 0xff` is `a` modulo 256. */
  lemma {:induction false} LowByte(a: nat)
    ensures BitAnd(a, 0xff) == a % 256
  {
    ByteOfNibbles(a);
    LowNibble(a / 16);
    Mod256(a);
  }

  /**
   * `(a & (0xff << k)) >> k` is the byte of `a` that starts at bit k: the mask
   * keeps bits k ... k+7, and the shift brings them down.
   */
  lemma {:induction false} MaskShiftIsByte(a: nat, k: nat)
    ensures ShiftRight(BitAnd(a, 255 * Pow2(k)), k) == ShiftRight(a, k) % 256
  {
    if k == 0 {
      LowByte(a);
    } else {
      var m := 255 * Pow2(k);
      assert m == 2 * (255 * Pow2(k - 1));
      BitAndStep(a, m);
      assert BitAnd(a, m) / 2 == BitAnd(a / 2, 255 * Pow2(k - 1));
      MaskShiftIsByte(a / 2, k - 1);
    }
  }

  /** One more shift is one more halving. */
  lemma {:induction false} ShiftRightOnce(x: nat, j: nat)
    ensures ShiftRight(x, j + 1) == ShiftRight(x, j) / 2
  {
    if j > 0 {
      ShiftRightOnce(x / 2, j - 1);
    }
  }

  /** Four more shifts divide by 16. */
  lemma {:induction false} ShiftRightNibble(x: nat, j: nat)
    ensures ShiftRight(x, j + 4) == ShiftRight(x, j) / 16
  {
    ShiftRightOnce(x, j);
    ShiftRightOnce(x, j + 1);
    ShiftRightOnce(x, j + 2);
    ShiftRightOnce(x, j + 3);
  }

  /** `x >> 8` is `x / 256` and `x >> 16` is `x / 65536`. */
  lemma {:induction false} ShiftRightDivides(x: nat)
    ensures ShiftRight(x, 8) == x / 0x100 && ShiftRight(x, 16) == x / 0x10000
  {
    ShiftRightNibble(x, 0);
    ShiftRightNibble(x, 4);
    assert ShiftRight(x, 8) == x / 0x100;
    ShiftRightNibble(x, 8);
    ShiftRightNibble(x, 12);
  }

  lemma MulAtLeast(m: int, d: int)
    requires m > 0 && d >= 1
    ensures m * d >= m
  {
  }

  /** Euclidean division is determined by quotient and remainder. */
  lemma DivModUnique(a: int, m: int, q: int, r: int)
    requires m > 0 && a == m * q + r && 0 <= r < m
    ensures a / m == q && a % m == r
  {
    var q', r' := a / m, a % m;
    assert a == m * q' + r' && 0 <= r' < m;
    if q' < q {
      var d := q - q';
      assert m * q == m * q' + m * d;
      MulAtLeast(m, d);
    } else if q' > q {
      var d := q' - q;
      assert m * q' == m * q + m * d;
      MulAtLeast(m, d);
    }
  }

  // ---------------------------------------------------------------------------
  // Scanner
  // ---------------------------------------------------------------------------

  /** A scanned value is a `UInt64`. */
  const UInt64Max: nat := 0xFFFF_FFFF_FFFF_FFFF
  type UInt64 = n: nat | n <= UInt64Max

  /**
   * The characters a `Scanner` skips before each scan by default
   * (`.whitespacesAndNewlines`), restricted to ASCII: space, tab, line feed,
   * vertical tab, form feed and carriage return.
   */
  predicate IsSkipped(c: char) {
    c == ' ' || '\t' <= c <= '\r'
  }

  function SkipWhitespace(s: string): (r: string)
    ensures |r| <= |s| && r == s[|s| - |r|..]
    ensures forall i :: 0 <= i < |s| - |r| ==> IsSkipped(s[i])
    ensures r == [] || !IsSkipped(r[0])
  {
    if s != [] && IsSkipped(s[0]) then SkipWhitespace(s[1..]) else s
  }

  /**
   * `scanString(prefix)`: consumes skipped characters and `prefix` when
   * `prefix` comes next, and otherwise consumes nothing.
   */
  function ScanString(s: string, prefix: string): (rest: string)
    ensures |rest| <= |s| && rest == s[|s| - |rest|..]
    ensures rest != s ==>
              var k := |s| - |rest| - |prefix|;
              && 0 <= k
              && (forall i :: 0 <= i < k ==> IsSkipped(s[i]))
              && s[k..|s| - |rest|] == prefix
    ensures prefix != [] && prefix <= SkipWhitespace(s) ==> rest != s
    ensures !(prefix <= SkipWhitespace(s)) ==> rest == s
  {
    var t := SkipWhitespace(s);
    if prefix <= t then
      PrefixOfSuffix(s, t, prefix);
      t[|prefix|..]
    else s
  }

  /**
   * Where `prefix` and what follows it sit in `s`, when `t` is what is left of
   * `s` after skipped characters and `t` starts with `prefix`.
   */
  lemma PrefixOfSuffix(s: string, t: string, prefix: string)
    requires |t| <= |s| && t == s[|s| - |t|..] && prefix <= t
    requires forall i :: 0 <= i < |s| - |t| ==> IsSkipped(s[i])
    ensures var rest, k := t[|prefix|..], |s| - |t|;
            && |rest| <= |s| && rest == s[|s| - |rest|..]
            && k == |s| - |rest| - |prefix|
            && (forall i :: 0 <= i < k ==> IsSkipped(s[i]))
            && s[k..|s| - |rest|] == prefix
            && (prefix != [] ==> rest != s)
  {
    var n := |s| - |t|;
    assert forall i :: 0 <= i < |prefix| ==> s[n..n + |prefix|][i] == t[i];
  }

  predicate IsHexDigit(c: char) {
    '0' <= c <= '9' || 'a' <= c <= 'f' || 'A' <= c <= 'F'
  }

  function HexDigitValue(c: char): (d: nat)
    requires IsHexDigit(c)
    ensures d < 16
  {
    if '0' <= c <= '9' then c as int - '0' as int
    else if 'a' <= c <= 'f' then c as int - 'a' as int + 10
    else c as int - 'A' as int + 10
  }

  /** The number of hexadecimal digits at the front of `s`. */
  function HexRun(s: string): (n: nat)
    ensures n <= |s|
    ensures forall i :: 0 <= i < n ==> IsHexDigit(s[i])
    ensures n == |s| || !IsHexDigit(s[n])
  {
    if s != [] && IsHexDigit(s[0]) then 1 + HexRun(s[1..]) else 0
  }

  /** The value of a string of hexadecimal digits, most significant first. */
  function HexValue(ds: string): (v: nat)
    requires forall i :: 0 <= i < |ds| ==> IsHexDigit(ds[i])
  {
    if ds == [] then 0 else 16 * HexValue(ds[..|ds| - 1]) + HexDigitValue(ds[|ds| - 1])
  }

  /** Drops a "0x" or "0X" in front of a hexadecimal number. */
  function DropHexPrefix(s: string): string {
    if |s| >= 2 && s[0] == '0' && (s[1] == 'x' || s[1] == 'X') then s[2..] else s
  }

  /**
   * `scanHexInt64`: after the skipped characters and an optional "0x", the
   * longest run of hexadecimal digits, saturated at `UInt64.max` on overflow;
   * `None` when no digit follows. (A bare "0x" may count as a scanned "0";
   * the number is 0 either way.)
   */
  function ScanHexInt64(s: string): (r: Option<UInt64>)
    ensures var digits := DropHexPrefix(SkipWhitespace(s));
            r.None? <==> digits == [] || !IsHexDigit(digits[0])
  {
    var t := SkipWhitespace(s);
    var digits := DropHexPrefix(t);
    var n := HexRun(digits);
    if n == 0 then None
    else
      var v := HexValue(digits[..n]);
      Some(if v <= UInt64Max then v else UInt64Max)
  }

  /** The `UInt64` the initializer works on: 0 unless the scan succeeds. */
  function HexNumber(hex: string): (h: UInt64)
    ensures var digits := DropHexPrefix(SkipWhitespace(ScanString(hex, "#")));
            digits == [] || !IsHexDigit(digits[0]) ==> h == 0
  {
    match ScanHexInt64(ScanString(hex, "#"))
    case Some(v) => v
    case None => 0
  }

  // ---------------------------------------------------------------------------
  // Color(hex:)
  // ---------------------------------------------------------------------------

  /** The three channels of a colour, each before the division by 255. */
  datatype Rgb = Rgb(red: int, green: int, blue: int)

  /** The byte of `n` that starts at bit `k`, cut out as `(n & (0xff << k)) >> k`. */
  function MaskedByte(n: nat, mask: nat, k: nat): (v: nat)
    requires mask == 255 * Pow2(k)
    ensures v == ShiftRight(n, k) % 256
  {
    MaskShiftIsByte(n, k);
    ShiftRight(BitAnd(n, mask), k)
  }

  /**
   * `Color(hex:)`: red is `(n & 0xff0000) >> 16`, green `(n & 0x00ff00) >> 8`
   * and blue `n & 0x0000ff` of the scanned number n.
   */
  function ColorFromHex(hex: string): (c: Rgb)
    ensures 0 <= c.red < 256 && 0 <= c.green < 256 && 0 <= c.blue < 256
    ensures var n := HexNumber(hex);
            c == Rgb(n / 0x10000 % 256, n / 0x100 % 256, n % 256)
  {
    var n := HexNumber(hex);
    Pow2Values();
    ShiftRightDivides(n);
    Rgb(MaskedByte(n, 0xff0000, 16), MaskedByte(n, 0x00ff00, 8), MaskedByte(n, 0x0000ff, 0))
  }

  /** The channels put back together are the scanned number modulo 2^24. */
  lemma ChannelsPackLow24Bits(hex: string)
    ensures var c := ColorFromHex(hex);
            c.red * 0x10000 + c.green * 0x100 + c.blue == HexNumber(hex) % 0x100_0000
  {
    var n := HexNumber(hex);
    var q1, b := n / 256, n % 256;
    var q2, g := q1 / 256, q1 % 256;
    var q3, r := q2 / 256, q2 % 256;
    HalfwayDiv(n);
    assert n == 0x100_0000 * q3 + (r * 0x10000 + g * 0x100 + b);
    DivModUnique(n, 0x100_0000, q3, r * 0x10000 + g * 0x100 + b);
  }

  /** n / 256 / 256 == n / 65536. */
  lemma HalfwayDiv(n: nat)
    ensures n / 256 / 256 == n / 0x10000 && n / 0x100 == n / 256
  {
    var q, r := n / 256 / 256, n / 256 % 256;
    assert n == 0x10000 * q + (256 * r + n % 256);
    DivModUnique(n, 0x10000, q, 256 * r + n % 256);
  }

  /** The leading "#" is optional: with or without it the same number is scanned. */
  lemma HashIsOptional(s: string)
    requires var t := SkipWhitespace(s); t == [] || t[0] != '#'
    ensures HexNumber("#" + s) == HexNumber(s)
    ensures ColorFromHex("#" + s) == ColorFromHex(s)
  {
    LeadingHashScanned(s);
    NoHashUntouched(s);
  }

  /** `scanString("#")` consumes a leading "#". */
  lemma LeadingHashScanned(s: string)
    ensures ScanString("#" + s, "#") == s
  {
    assert SkipWhitespace("#" + s) == "#" + s;
    assert ("#" + s)[1..] == s;
  }

  /** `scanString("#")` leaves a string with no "#" after the whitespace alone. */
  lemma NoHashUntouched(s: string)
    requires var t := SkipWhitespace(s); t == [] || t[0] != '#'
    ensures ScanString(s, "#") == s
  {
  }

  /** With nothing to scan the number stays 0 and so does every channel. */
  lemma {:induction false} NoDigitsIsBlack(hex: string)
    requires var t := DropHexPrefix(SkipWhitespace(ScanString(hex, "#")));
             t == [] || !IsHexDigit(t[0])
    ensures ColorFromHex(hex) == Rgb(0, 0, 0)
  {
    assert HexNumber(hex) == 0;
  }

  predicate AllHexDigits(ds: string) {
    forall i :: 0 <= i < |ds| ==> IsHexDigit(ds[i])
  }

  /** The value of two hexadecimal digits. */
  function HexPair(hi: char, lo: char): (v: nat)
    requires IsHexDigit(hi) && IsHexDigit(lo)
    ensures v < 256
  {
    16 * HexDigitValue(hi) + HexDigitValue(lo)
  }

  /** Six hexadecimal digits read as a number, three digit pairs at a time. */
  lemma SixDigitValue(ds: string)
    requires |ds| == 6 && AllHexDigits(ds)
    ensures HexValue(ds) == HexPair(ds[0], ds[1]) * 0x10000 + HexPair(ds[2], ds[3]) * 0x100 + HexPair(ds[4], ds[5])
  {
    var d0, d1, d2 := HexDigitValue(ds[0]), HexDigitValue(ds[1]), HexDigitValue(ds[2]);
    var d3, d4, d5 := HexDigitValue(ds[3]), HexDigitValue(ds[4]), HexDigitValue(ds[5]);
    assert ds[..1][..0] == [];
    assert HexValue(ds[..1]) == d0;
    assert ds[..2][..1] == ds[..1];
    assert HexValue(ds[..2]) == 16 * d0 + d1;
    assert ds[..3][..2] == ds[..2];
    assert HexValue(ds[..3]) == 256 * d0 + 16 * d1 + d2;
    assert ds[..4][..3] == ds[..3];
    assert HexValue(ds[..4]) == 4096 * d0 + 256 * d1 + 16 * d2 + d3;
    assert ds[..5][..4] == ds[..4];
    assert HexValue(ds[..5]) == 65536 * d0 + 4096 * d1 + 256 * d2 + 16 * d3 + d4;
    assert ds[..6] == ds;
  }

  /** Digits that fit in a `UInt64` are scanned to their value. */
  lemma ScanDigits(ds: string)
    requires ds != [] && AllHexDigits(ds) && HexValue(ds) <= UInt64Max
    ensures ScanHexInt64(ds) == Some(HexValue(ds))
  {
    ScanDigitsThen(ds, "");
    assert ds + "" == ds;
  }

  /** A run of hexadecimal digits ends where a non-digit (or the end) follows it. */
  lemma {:induction false} HexRunThen(ds: string, t: string)
    requires AllHexDigits(ds)
    requires t == [] || !IsHexDigit(t[0])
    ensures HexRun(ds + t) == |ds|
  {
    if ds == [] {
      assert ds + t == t;
    } else {
      assert (ds + t)[0] == ds[0];
      assert (ds + t)[1..] == ds[1..] + t;
      HexRunThen(ds[1..], t);
    }
  }

  /**
   * The number `scanHexInt64` scans: the value of the leading digits, whatever
   * follows them, saturated at `UInt64.max` when it does not fit (17 or more
   * significant digits). A lone "0" followed by "x" is the one exception: that
   * is read as the "0x" prefix.
   */
  lemma ScanDigitsThen(ds: string, t: string)
    requires ds != [] && AllHexDigits(ds)
    requires t == [] || !IsHexDigit(t[0])
    requires !(ds == "0" && t != [] && (t[0] == 'x' || t[0] == 'X'))
    ensures ScanHexInt64(ds + t) == Some(if HexValue(ds) <= UInt64Max then HexValue(ds) else UInt64Max)
  {
    var s := ds + t;
    assert s[0] == ds[0];
    assert SkipWhitespace(s) == s;
    NoPrefixToDrop(ds, t);
    HexRunThen(ds, t);
    assert s[..|ds|] == ds;
  }

  /** Digits that are not a lone "0" before an "x" carry no "0x" prefix. */
  lemma NoPrefixToDrop(ds: string, t: string)
    requires ds != [] && AllHexDigits(ds)
    requires !(ds == "0" && t != [] && (t[0] == 'x' || t[0] == 'X'))
    ensures DropHexPrefix(ds + t) == ds + t
  {
    var s := ds + t;
    if |ds| >= 2 {
      assert s[1] == ds[1];
    } else if t != [] {
      assert ds == [ds[0]] && s[1] == t[0];
    }
  }

  /** Six hexadecimal digits, with or without "#", are scanned exactly. */
  lemma SixDigitNumber(ds: string)
    requires |ds| == 6 && AllHexDigits(ds)
    ensures HexNumber("#" + ds) == HexNumber(ds) == HexValue(ds)
  {
    SixDigitValue(ds);
    ScanDigits(ds);
    assert ScanString(ds, "#") == ds;
    assert HexNumber(ds) == HexValue(ds);
    HashIsOptional(ds);
  }

  /** The channels of a number below 2^24 are its three bytes. */
  lemma BytesOfSmallNumber(n: nat, r: nat, g: nat, b: nat)
    requires r < 256 && g < 256 && b < 256 && n == r * 0x10000 + g * 0x100 + b
    ensures n / 0x10000 % 256 == r && n / 0x100 % 256 == g && n % 256 == b
  {
    DivModUnique(n, 0x10000, r, g * 0x100 + b);
    DivModUnique(r, 256, 0, r);
    DivModUnique(n, 0x100, r * 0x100 + g, b);
    DivModUnique(r * 0x100 + g, 256, r, g);
    DivModUnique(n, 256, r * 0x100 + g, b);
  }

  /**
   * "#RRGGBB" and "RRGGBB": each channel is the value of its own pair of
   * digits.
   */
  lemma SixDigitColor(ds: string)
    requires |ds| == 6 && AllHexDigits(ds)
    ensures ColorFromHex("#" + ds) == ColorFromHex(ds)
    ensures ColorFromHex(ds) == Rgb(HexPair(ds[0], ds[1]), HexPair(ds[2], ds[3]), HexPair(ds[4], ds[5]))
  {
    SixDigitNumber(ds);
    SixDigitValue(ds);
    BytesOfSmallNumber(HexNumber(ds), HexPair(ds[0], ds[1]), HexPair(ds[2], ds[3]), HexPair(ds[4], ds[5]));
  }

  /** The colour "#FF6778" of the settings screen is (255, 103, 120), with or without "#". */
  lemma SettingsRed()
    ensures ColorFromHex("#" + "FF6778") == ColorFromHex("FF6778") == Rgb(255, 103, 120)
  {
    var ds := "FF6778";
    assert AllHexDigits(ds);
    assert HexPair(ds[0], ds[1]) == 255;
    assert HexPair(ds[2], ds[3]) == 103;
    assert HexPair(ds[4], ds[5]) == 120;
    SixDigitColor(ds);
  }
}
