/**
 * Value types the app borrows from Foundation and UIKit, reduced to what the
 * colorizer relies on: bytes, optional and failing results, UUIDs and their
 * string form, URLs as produced by `URL(string:)`, dates, and opaque images.
 */
module Foundation {

  /** One octet of a `Data` buffer. */
  newtype byte = b: int | 0 <= b < 256

  datatype Option<+T> = None | Some(value: T)

  datatype Result<+T, +E> = Success(value: T) | Failure(error: E)

  /** A `UIImage`. Nothing in the model looks inside one. */
  type Image(==)

  /**
   * A `Date`. The app never does arithmetic on dates; it only stores them and
   * asks a formatter for a day label, so a whole number of seconds since the
   * reference date stands in for the floating-point interval.
   */
  datatype Date = Date(secondsSinceReferenceDate: int)

  /** A `UUID`: sixteen bytes. */
  type Uuid = b: seq<byte> | |b| == 16 witness seq(16, _ => 0)

  // ---------------------------------------------------------------------------
  // UUID().uuidString
  // ---------------------------------------------------------------------------

  predicate IsUpperHexDigit(c: char) {
    '0' <= c <= '9' || 'A' <= c <= 'F'
  }

  function UpperHexDigit(d: int): (c: char)
    requires 0 <= d < 16
    ensures IsUpperHexDigit(c)
    ensures d < 10 ==> c as int - '0' as int == d
    ensures 10 <= d ==> c as int - 'A' as int + 10 == d
  {
    if d < 10 then ('0' as int + d) as char else ('A' as int + d - 10) as char
  }

  /** Two upper-case hexadecimal digits of one byte, high nibble first. */
  function ByteHex(b: byte): string {
    [UpperHexDigit(b as int / 16), UpperHexDigit(b as int % 16)]
  }

  function HexOf(bs: seq<byte>): (s: string)
    ensures |s| == 2 * |bs|
    ensures forall i :: 0 <= i < |s| ==> IsUpperHexDigit(s[i])
  {
    if bs == [] then [] else ByteHex(bs[0]) + HexOf(bs[1..])
  }

  /** The positions of the four dashes in a UUID string. */
  predicate IsUuidDashPosition(i: int) {
    i == 8 || i == 13 || i == 18 || i == 23
  }

  /**
   * `UUID.uuidString`: the 8-4-4-4-12 grouping of the sixteen bytes in
   * upper-case hexadecimal.
   */
  function UuidString(u: Uuid): (s: string)
    ensures |s| == 36
    ensures forall i :: 0 <= i < 36 ==> (s[i] == '-' <==> IsUuidDashPosition(i))
    ensures forall i :: 0 <= i < 36 && !IsUuidDashPosition(i) ==> IsUpperHexDigit(s[i])
  {
    HexOf(u[..4]) + "-" + HexOf(u[4..6]) + "-" + HexOf(u[6..8]) + "-"
      + HexOf(u[8..10]) + "-" + HexOf(u[10..])
  }

  // ---------------------------------------------------------------------------
  // URL(string:) and URL.absoluteString
  // ---------------------------------------------------------------------------

  /**
   * The characters `URL(string:)` accepts without percent-encoding them: the
   * unreserved and reserved characters of RFC 3986 (section 2.2 and 2.3)
   * together with `%`.
   */
  predicate IsUrlChar(c: char) {
    || 'a' <= c <= 'z' || 'A' <= c <= 'Z' || '0' <= c <= '9'
    || c in "-._~:/?#[]@!$&'()*+,;=%"
  }

  predicate IsHexChar(c: char) {
    '0' <= c <= '9' || 'a' <= c <= 'f' || 'A' <= c <= 'F'
  }

  /** A percent-encoded octet starts at `i`: "%" and two hexadecimal digits. */
  predicate IsEscapeAt(s: string, i: nat) {
    i + 2 < |s| && IsHexChar(s[i + 1]) && IsHexChar(s[i + 2])
  }

  /**
   * A string `URL(string:)` parses: non-empty, only characters a URL carries
   * unescaped, every "%" starting a percent-encoded octet, and at most one "#"
   * (the fragment delimiter; a fragment cannot hold another).
   */
  predicate IsUrlString(s: string) {
    && s != []
    && (forall i :: 0 <= i < |s| ==> IsUrlChar(s[i]))
    && (forall i :: 0 <= i < |s| && s[i] == '%' ==> IsEscapeAt(s, i))
    && (forall i, j :: 0 <= i < j < |s| && s[i] == '#' ==> s[j] != '#')
  }

  /** A parsed `URL`, identified by its `absoluteString`. */
  type Url = s: string | IsUrlString(s) witness "a"

  /**
   * `URL(string:)`, as it behaves for apps built against SDKs before iOS 17:
   * `nil` for the empty string, for a string holding a character a URL cannot
   * carry unescaped (a space, a quote, `<`, `|`, a non-ASCII letter, ...), for
   * a "%" not followed by two hexadecimal digits and for a second "#". A
   * parsed URL keeps the string as its `absoluteString`.
   */
  function ParseUrl(s: string): (r: Option<Url>)
    ensures r.None? <==>
              || s == []
              || (exists i :: 0 <= i < |s| && !IsUrlChar(s[i]))
              || (exists i :: 0 <= i < |s| && s[i] == '%' && !IsEscapeAt(s, i))
              || (exists i, j :: 0 <= i < j < |s| && s[i] == '#' && s[j] == '#')
    ensures r.Some? ==> r.value == s
  {
    if IsUrlString(s) then Some(s) else None
  }

  /**
   * Parsing the `absoluteString` of a parsed URL gives the same URL back. This
   * holds by the representation: a `Url` is its own string.
   */
  lemma AbsoluteStringRoundTrip(s: string)
    requires ParseUrl(s).Some?
    ensures ParseUrl(ParseUrl(s).value) == ParseUrl(s)
  {
  }
}
