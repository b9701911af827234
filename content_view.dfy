/**
 * The image colorization screen: `ContentView.colorizeImage` builds one
 * `multipart/form-data` request (RFC 7578) around the JPEG bytes of the picked
 * image and posts it to the backend; the response, when it decodes as an
 * image, becomes the output image. `isLoading` is raised while a request is
 * being prepared or is in flight.
 */
module Colorization {

  import opened Foundation

  // ---------------------------------------------------------------------------
  // String.data(using: .utf8)
  // ---------------------------------------------------------------------------

  /** The UTF-8 encoding of one Unicode scalar value. */
  function Utf8Char(c: char): (bs: seq<byte>)
    ensures 1 <= |bs| <= 4
    ensures c as int < 0x80 <==> |bs| == 1
    ensures c as int < 0x80 ==> bs == [c as int as byte]
  {
    var n := c as int;
    if n < 0x80 then [n as byte]
    else if n < 0x800 then [(0xC0 + n / 0x40) as byte, (0x80 + n % 0x40) as byte]
    else if n < 0x1_0000 then
      [(0xE0 + n / 0x1000) as byte, (0x80 + n / 0x40 % 0x40) as byte, (0x80 + n % 0x40) as byte]
    else
      [(0xF0 + n / 0x4_0000) as byte, (0x80 + n / 0x1000 % 0x40) as byte,
       (0x80 + n / 0x40 % 0x40) as byte, (0x80 + n % 0x40) as byte]
  }

  /** `s.data(using: .utf8)!`: never fails, since every string has a UTF-8 encoding. */
  function Utf8Data(s: string): (bs: seq<byte>)
    ensures |bs| >= |s|
  {
    if s == [] then [] else Utf8Char(s[0]) + Utf8Data(s[1..])
  }

  predicate IsAscii(s: string) {
    forall c | c in s :: c as int < 0x80
  }

  /** Encoding a concatenation is concatenating the encodings. */
  lemma {:induction false} Utf8DataAppend(a: string, b: string)
    ensures Utf8Data(a + b) == Utf8Data(a) + Utf8Data(b)
  {
    if a != [] {
      assert (a + b)[0] == a[0];
      assert (a + b)[1..] == a[1..] + b;
      Utf8DataAppend(a[1..], b);
    } else {
      assert a + b == b;
    }
  }

  /** An ASCII string is encoded one byte per character, each its code. */
  lemma {:induction false} AsciiData(s: string)
    requires IsAscii(s)
    ensures |Utf8Data(s)| == |s|
    ensures forall i :: 0 <= i < |s| ==> s[i] as int < 0x80 && Utf8Data(s)[i] == s[i] as int as byte
  {
    if s != [] {
      assert s[0] in s;
      assert forall c | c in s[1..] :: c in s;
      AsciiData(s[1..]);
      assert forall i :: 0 < i < |s| ==> s[i] == s[1..][i - 1];
    }
  }

  // ---------------------------------------------------------------------------
  // The boundary
  // ---------------------------------------------------------------------------

  /** The characters section 5.1.1 of RFC 2046 allows in a boundary (`bchars`). */
  predicate IsBoundaryChar(c: char) {
    || '0' <= c <= '9' || 'a' <= c <= 'z' || 'A' <= c <= 'Z'
    || c in "'()+_,-./:=? "
  }

  /** A boundary as section 5.1.1 of RFC 2046 defines it: 1 to 70 `bchars`, not ending in a space. */
  predicate IsRfc2046Boundary(b: string) {
    && 1 <= |b| <= 70
    && (forall i :: 0 <= i < |b| ==> IsBoundaryChar(b[i]))
    && b[|b| - 1] != ' '
  }

  /** `"Boundary-\(UUID().uuidString)"`, with the generated UUID as a parameter. */
  function Boundary(uuid: Uuid): (b: string)
    ensures |b| == 45 && IsAscii(b)
    ensures IsRfc2046Boundary(b)
  {
    var u := UuidString(uuid);
    var b := "Boundary-" + u;
    assert forall i :: 9 <= i < 45 ==> b[i] == u[i - 9];
    b
  }

  /** The value of the request's `Content-Type` header. */
  function ContentTypeValue(boundary: string): (v: string)
    ensures |v| == 30 + |boundary| && v[30..] == boundary
  {
    "multipart/form-data; boundary=" + boundary
  }

  // ---------------------------------------------------------------------------
  // The body
  // ---------------------------------------------------------------------------

  const Crlf: string := "\r\n"
  /** The form field the backend reads the upload from. */
  const FieldName: string := "file"
  const FileName: string := "image.jpg"
  const DispositionLine: string :=
    "Content-Disposition: " + "form-data; name=\"" + FieldName + "\"; filename=\"" + FileName + "\"" + Crlf
  const ImageTypeLine: string := "Content-Type: " + "image/jpeg" + Crlf + Crlf

  /** The delimiter that opens the part: `"--" + boundary + CRLF`. */
  function OpeningDelimiter(boundary: string): string {
    "--" + boundary + Crlf
  }

  /** The delimiter that closes the body: `"--" + boundary + "--" + CRLF`. */
  function ClosingDelimiter(boundary: string): string {
    "--" + boundary + "--" + Crlf
  }

  /** The part's header lines and the empty line that ends them. */
  function PartHeaders(): seq<byte> {
    Utf8Data(DispositionLine) + Utf8Data(ImageTypeLine)
  }

  /** Everything before the image bytes. */
  function PartHead(boundary: string): seq<byte> {
    Utf8Data(OpeningDelimiter(boundary)) + PartHeaders()
  }

  /** Everything after the image bytes. */
  function PartTail(boundary: string): seq<byte> {
    Utf8Data(Crlf) + Utf8Data(ClosingDelimiter(boundary))
  }

  /** The request body: one file part carrying `imageData`. */
  function MultipartBody(boundary: string, imageData: seq<byte>): (body: seq<byte>)
    ensures |body| == |PartHead(boundary)| + |imageData| + |PartTail(boundary)|
  {
    PartHead(boundary) + imageData + PartTail(boundary)
  }

  /**
   * The body as `colorizeImage` assembles it: successive appends onto an empty
   * `Data`.
   */
  method BuildBody(boundary: string, imageData: seq<byte>) returns (body: seq<byte>)
    ensures body == MultipartBody(boundary, imageData)
  {
    body := [];
    body := body + Utf8Data("--" + boundary + Crlf);
    assert body == Utf8Data(OpeningDelimiter(boundary));
    body := body + Utf8Data(DispositionLine);
    body := body + Utf8Data(ImageTypeLine);
    assert body == PartHead(boundary);
    body := body + imageData;
    body := body + Utf8Data(Crlf);
    body := body + Utf8Data("--" + boundary + "--" + Crlf);
    assert body == PartHead(boundary) + imageData + PartTail(boundary);
  }

  /**
   * Cuts the part head and the tail for `boundary` off a body by their
   * lengths; `None` when the body is not framed that way. A positional inverse
   * of `MultipartBody`, which shows that the body determines the image.
   */
  function StripFraming(body: seq<byte>, boundary: string): (r: Option<seq<byte>>)
    ensures r.Some? ==> MultipartBody(boundary, r.value) == body
  {
    var head, tail := PartHead(boundary), PartTail(boundary);
    if |body| >= |head| + |tail| && body[..|head|] == head && body[|body| - |tail|..] == tail then
      var content := body[|head|..|body| - |tail|];
      assert body == head + content + tail;
      Some(content)
    else
      None
  }

  /** Stripping the framing off a built body leaves exactly the image bytes. */
  lemma StripBuiltBody(boundary: string, imageData: seq<byte>)
    ensures StripFraming(MultipartBody(boundary, imageData), boundary) == Some(imageData)
  {
    var head, tail := PartHead(boundary), PartTail(boundary);
    var body := MultipartBody(boundary, imageData);
    assert body[..|head|] == head;
    assert body[|body| - |tail|..] == tail;
    assert body[|head|..|body| - |tail|] == imageData;
  }

  /** Different images give different bodies under the same boundary. */
  lemma BodyIsInjective(boundary: string, a: seq<byte>, b: seq<byte>)
    requires MultipartBody(boundary, a) == MultipartBody(boundary, b)
    ensures a == b
  {
    StripBuiltBody(boundary, a);
    StripBuiltBody(boundary, b);
  }

  // ---------------------------------------------------------------------------
  // The receiving side
  // ---------------------------------------------------------------------------

  /**
   * The delimiter that ends the file part (section 5.1.1 of RFC 2046): CRLF,
   * "--" and the boundary.
   */
  function PartEnd(boundary: string): seq<byte> {
    Utf8Data(Crlf + "--" + boundary)
  }

  /** `d` occurs in `s` at position `j`. */
  predicate OccursAt(s: seq<byte>, d: seq<byte>, j: nat) {
    j + |d| <= |s| && s[j..j + |d|] == d
  }

  /** The first position at or after `from` where `d` occurs in `s`. */
  function FindFrom(s: seq<byte>, d: seq<byte>, from: nat): (r: Option<nat>)
    ensures r.Some? ==> from <= r.value && OccursAt(s, d, r.value)
    ensures r.Some? ==> forall j :: from <= j < r.value ==> !OccursAt(s, d, j)
    ensures r.None? ==> forall j :: from <= j ==> !OccursAt(s, d, j)
    decreases |s| - from
  {
    if from + |d| > |s| then None
    else if s[from..from + |d|] == d then Some(from)
    else FindFrom(s, d, from + 1)
  }

  /** A slice of a slice is a slice of the whole sequence. */
  lemma SliceOfSlice(s: seq<byte>, lo: nat, hi: nat, a: nat, b: nat)
    requires lo <= hi <= |s| && a <= b <= hi - lo
    ensures s[lo..hi][a..b] == s[lo + a..lo + b]
  {
    var window := s[lo..hi][a..b];
    assert forall k :: 0 <= k < b - a ==> window[k] == s[lo + a + k];
  }

  /** A stretch with no delimiter starting in it contains no delimiter. */
  lemma NoDelimiterBefore(s: seq<byte>, d: seq<byte>, lo: nat, hi: nat)
    requires lo <= hi <= |s| && |d| > 0
    requires forall j :: lo <= j < hi ==> !OccursAt(s, d, j)
    ensures forall i: nat :: !OccursAt(s[lo..hi], d, i)
  {
    var part := s[lo..hi];
    forall i: nat ensures !OccursAt(part, d, i) {
      if i + |d| <= hi - lo {
        SliceOfSlice(s, lo, hi, i, i + |d|);
        assert !OccursAt(s, d, lo + i);
      }
    }
  }

  /**
   * What follows `head` in `body`, up to the first occurrence of the
   * delimiter `d`; `None` when `body` does not start with `head` or no `d`
   * follows it.
   */
  function ContentAfter(body: seq<byte>, head: seq<byte>, d: seq<byte>): (r: Option<seq<byte>>)
    requires |d| > 0
    ensures r.Some? ==>
              && |head| + |r.value| <= |body| && body[..|head|] == head
              && body[|head|..|head| + |r.value|] == r.value
              && OccursAt(body, d, |head| + |r.value|)
    ensures r.Some? ==> forall i: nat :: !OccursAt(r.value, d, i)
    ensures r.Some? ==> forall j :: |head| <= j < |head| + |r.value| ==> !OccursAt(body, d, j)
    ensures |head| <= |body| && body[..|head|] == head && (exists j :: |head| <= j && OccursAt(body, d, j)) ==> r.Some?
  {
    if |head| <= |body| && body[..|head|] == head then
      match FindFrom(body, d, |head|)
      case Some(j) =>
        NoDelimiterBefore(body, d, |head|, j);
        Some(body[|head|..j])
      case None => None
    else
      None
  }

  /**
   * A delimiter whose only carriage return is its first byte, placed right
   * after a part that does not contain it, ends that part.
   */
  lemma {:induction false} WholePartFound(head: seq<byte>, part: seq<byte>, d: seq<byte>, rest: seq<byte>)
    requires |d| > 0 && d[0] == 13 && forall k :: 1 <= k < |d| ==> d[k] != 13
    requires forall i: nat :: !OccursAt(part, d, i)
    ensures ContentAfter(head + part + d + rest, head, d) == Some(part)
  {
    var body, h, n := head + part + d + rest, |head|, |part|;
    assert body[..h] == head;
    assert body[h..h + n] == part;
    assert body[h + n..h + n + |d|] == d;
    FirstDelimiterAfter(body, d, h, n, part);
  }

  /** A part that contains the delimiter is cut at its first occurrence. */
  lemma {:induction false} CutAtCollision(head: seq<byte>, part: seq<byte>, tail: seq<byte>, d: seq<byte>, i: nat)
    requires |d| > 0 && OccursAt(part, d, i)
    ensures var r := ContentAfter(head + part + tail, head, d);
            r.Some? && |r.value| <= i < |part|
  {
    var body, h := head + part + tail, |head|;
    assert body[..h] == head;
    assert body[h..h + |part|] == part;
    SliceOfSlice(body, h, h + |part|, i, i + |d|);
    assert OccursAt(body, d, h + i);
  }

  /**
   * A delimiter that starts with the only carriage return it holds, placed
   * right after a stretch that does not contain it, is the first delimiter
   * after the start of that stretch.
   */
  lemma FirstDelimiterAfter(body: seq<byte>, d: seq<byte>, h: nat, n: nat, part: seq<byte>)
    requires h + n <= |body| && part == body[h..h + n] && OccursAt(body, d, h + n)
    requires |d| > 0 && d[0] == 13 && forall k :: 1 <= k < |d| ==> d[k] != 13
    requires forall i: nat :: !OccursAt(part, d, i)
    ensures FindFrom(body, d, h) == Some(h + n)
  {
    assert body[h + n] == d[0];
    forall j | h <= j < h + n ensures !OccursAt(body, d, j) {
      if j + |d| <= h + n {
        SliceOfSlice(body, h, h + n, j - h, j - h + |d|);
        assert !OccursAt(part, d, j - h);
      } else {
        assert body[j..j + |d|][h + n - j] == body[h + n];
      }
    }
  }

  /**
   * How a receiver that follows section 5.1.1 of RFC 2046 reads the file out
   * of the body: after the part head, the content runs up to the first
   * part-ending delimiter for `boundary`. `None` when the head is missing or
   * no delimiter follows.
   */
  function ExtractFile(body: seq<byte>, boundary: string): (r: Option<seq<byte>>)
    ensures r.Some? ==> var h := |PartHead(boundary)|;
            && h + |r.value| <= |body| && body[..h] == PartHead(boundary)
            && body[h..h + |r.value|] == r.value
            && OccursAt(body, PartEnd(boundary), h + |r.value|)
    ensures r.Some? ==> forall i: nat :: !OccursAt(r.value, PartEnd(boundary), i)
  {
    ContentAfter(body, PartHead(boundary), PartEnd(boundary))
  }

  /** A boundary is ASCII. */
  lemma BoundaryIsAscii(boundary: string)
    requires IsRfc2046Boundary(boundary)
    ensures IsAscii(boundary)
  {
    forall c | c in boundary ensures c as int < 0x80 {
      var k :| 0 <= k < |boundary| && boundary[k] == c;
      assert IsBoundaryChar(boundary[k]);
    }
  }

  /**
   * The bytes of the part-ending delimiter: a carriage return first, and none
   * after it, since a boundary holds no carriage return.
   */
  lemma PartEndBytes(boundary: string)
    requires IsRfc2046Boundary(boundary)
    ensures var d := PartEnd(boundary);
            |d| == 4 + |boundary| && d[0] == 13 && forall k :: 1 <= k < |d| ==> d[k] != 13
  {
    var text := Crlf + "--" + boundary;
    DelimitersAreAscii();
    BoundaryIsAscii(boundary);
    AsciiAppend(Crlf, "--");
    AsciiAppend(Crlf + "--", boundary);
    AsciiData(text);
    forall k | 1 <= k < |text| ensures text[k] != '\r' {
      if k >= 4 {
        assert text[k] == boundary[k - 4];
        assert IsBoundaryChar(boundary[k - 4]);
      }
    }
  }

  /** The closing text is the part-ending delimiter followed by "--" CRLF. */
  lemma TailAroundPartEnd(boundary: string)
    ensures PartTail(boundary) == PartEnd(boundary) + Utf8Data("--" + Crlf)
  {
    var x, y := "--" + boundary, "--" + Crlf;
    assert Crlf + "--" + boundary == Crlf + x;
    Utf8DataAppend(Crlf, x);
    assert ClosingDelimiter(boundary) == x + y;
    Utf8DataAppend(x, y);
  }

  /**
   * Section 5.1.1 of RFC 2046: when the file does not contain the part-ending
   * delimiter, the receiver gets that file back, byte for byte.
   */
  lemma ExtractBuiltBody(boundary: string, imageData: seq<byte>)
    requires IsRfc2046Boundary(boundary)
    requires forall i: nat :: !OccursAt(imageData, PartEnd(boundary), i)
    ensures ExtractFile(MultipartBody(boundary, imageData), boundary) == Some(imageData)
  {
    var head, d, rest := PartHead(boundary), PartEnd(boundary), Utf8Data("--" + Crlf);
    TailAroundPartEnd(boundary);
    assert MultipartBody(boundary, imageData) == head + imageData + d + rest;
    PartEndBytes(boundary);
    WholePartFound(head, imageData, d, rest);
  }

  /**
   * The converse: when the file does contain the part-ending delimiter, the
   * receiver gets a shorter file, cut at the first occurrence.
   */
  lemma CollidingImageIsCut(boundary: string, imageData: seq<byte>, i: nat)
    requires OccursAt(imageData, PartEnd(boundary), i)
    ensures var r := ExtractFile(MultipartBody(boundary, imageData), boundary);
            r.Some? && |r.value| <= i < |imageData|
  {
    CutAtCollision(PartHead(boundary), imageData, PartTail(boundary), PartEnd(boundary), i);
  }

  /**
   * The body opens with `"--" + boundary + CRLF` and closes with
   * `"--" + boundary + "--" + CRLF`.
   */
  lemma BodyFraming(boundary: string, imageData: seq<byte>)
    ensures var body := MultipartBody(boundary, imageData);
            var open, close := Utf8Data("--" + boundary + Crlf), Utf8Data("--" + boundary + "--" + Crlf);
            |open| + |close| <= |body| && body[..|open|] == open && body[|body| - |close|..] == close
  {
    FivePieces(Utf8Data(OpeningDelimiter(boundary)), PartHeaders(), imageData,
               Utf8Data(Crlf), Utf8Data(ClosingDelimiter(boundary)));
  }

  /**
   * The image bytes appear verbatim, right after the part headers naming
   * form field "file", file "image.jpg" and type "image/jpeg" followed by the
   * empty line, and right before a CRLF.
   */
  lemma ImagePlacement(boundary: string, imageData: seq<byte>)
    ensures var body := MultipartBody(boundary, imageData);
            var k := |PartHead(boundary)|;
            var headers, crlf := PartHeaders(), Utf8Data(Crlf);
            && k >= |headers| && k + |imageData| + |crlf| <= |body|
            && body[k - |headers|..k] == headers
            && body[k..k + |imageData|] == imageData
            && body[k + |imageData|..k + |imageData| + |crlf|] == crlf
  {
    var open, headers, crlf := Utf8Data(OpeningDelimiter(boundary)), PartHeaders(), Utf8Data(Crlf);
    var close := Utf8Data(ClosingDelimiter(boundary));
    assert MultipartBody(boundary, imageData) == open + headers + imageData + (crlf + close);
    assert |PartHead(boundary)| == |open| + |headers|;
    FivePieces(open, headers, imageData, crlf, close);
  }

  /** Where the pieces of `a + b + c + (d + e)` sit. */
  lemma FivePieces(a: seq<byte>, b: seq<byte>, c: seq<byte>, d: seq<byte>, e: seq<byte>)
    ensures var s, k := a + b + c + (d + e), |a| + |b|;
            && |s| == k + |c| + |d| + |e|
            && s[..|a|] == a
            && s[|s| - |e|..] == e
            && s[k - |b|..k] == b
            && s[k..k + |c|] == c
            && s[k + |c|..k + |c| + |d|] == d
  {
    var s, k := a + b + c + (d + e), |a| + |b|;
    ThreePieces(a + b, c, d + e);
    SliceOfSlice(s, 0, k, 0, |a|);
    SliceOfSlice(s, 0, k, |a|, k);
    SliceOfSlice(s, k + |c|, |s|, 0, |d|);
    SliceOfSlice(s, k + |c|, |s|, |d|, |d| + |e|);
  }

  /** Where the pieces of `x + y + z` sit. */
  lemma ThreePieces(x: seq<byte>, y: seq<byte>, z: seq<byte>)
    ensures var s := x + y + z;
            s[..|x|] == x && s[|x|..|x| + |y|] == y && s[|x| + |y|..] == z
  {
  }

  /** A concatenation of ASCII strings is ASCII. */
  lemma AsciiAppend(a: string, b: string)
    requires IsAscii(a) && IsAscii(b)
    ensures IsAscii(a + b)
  {
  }

  // The literal pieces of the fixed text are ASCII (one small lemma each keeps
  // the solver's work on each literal small).

  lemma DispositionHeaderIsAscii()
    ensures IsAscii("Content-Disposition: ")
  {
  }

  lemma FormDataIsAscii()
    ensures IsAscii("form-data; name=\"")
  {
  }

  lemma NamesAreAscii()
    ensures IsAscii(FieldName) && IsAscii(FileName)
  {
  }

  lemma QuotesAreAscii()
    ensures IsAscii("\"; filename=\"") && IsAscii("\"")
  {
  }

  lemma ContentTypeIsAscii()
    ensures IsAscii("Content-Type: ")
  {
  }

  lemma ImageJpegIsAscii()
    ensures IsAscii("image/jpeg")
  {
  }

  lemma DelimitersAreAscii()
    ensures IsAscii(Crlf) && IsAscii("--")
  {
  }

  /** The disposition line is ASCII, 67 characters long. */
  lemma DispositionLineIsAscii()
    ensures IsAscii(DispositionLine) && |DispositionLine| == 67
  {
    var header, name := "Content-Disposition: ", "form-data; name=\"";
    var quoteFilename, quote := "\"; filename=\"", "\"";
    DispositionHeaderIsAscii();
    FormDataIsAscii();
    NamesAreAscii();
    QuotesAreAscii();
    DelimitersAreAscii();
    AsciiAppend(header, name);
    AsciiAppend(header + name, FieldName);
    AsciiAppend(header + name + FieldName, quoteFilename);
    AsciiAppend(header + name + FieldName + quoteFilename, FileName);
    AsciiAppend(header + name + FieldName + quoteFilename + FileName, quote);
    AsciiAppend(header + name + FieldName + quoteFilename + FileName + quote, Crlf);
  }

  /** The content type line and the empty line after it are ASCII, 28 characters long. */
  lemma ImageTypeLineIsAscii()
    ensures IsAscii(ImageTypeLine) && |ImageTypeLine| == 28
  {
    var header, jpeg := "Content-Type: ", "image/jpeg";
    ContentTypeIsAscii();
    ImageJpegIsAscii();
    DelimitersAreAscii();
    AsciiAppend(header, jpeg);
    AsciiAppend(header + jpeg, Crlf);
    AsciiAppend(header + jpeg + Crlf, Crlf);
  }

  /** Bytes of the fixed text in the body, apart from the two copies of the boundary. */
  const FixedBodyBytes: nat := 107

  /**
   * Nothing but the framing, twice the boundary and the image: the body is
   * `107 + 2 * |boundary| + |imageData|` bytes long (boundary in UTF-8).
   */
  lemma BodyLength(boundary: string, imageData: seq<byte>)
    ensures |MultipartBody(boundary, imageData)| == FixedBodyBytes + 2 * |Utf8Data(boundary)| + |imageData|
  {
    var b := Utf8Data(boundary);
    DispositionLineIsAscii();
    ImageTypeLineIsAscii();
    DelimitersAreAscii();
    AsciiData("--");
    AsciiData(Crlf);
    AsciiData(DispositionLine);
    AsciiData(ImageTypeLine);
    Utf8DataAppend("--", boundary);
    Utf8DataAppend("--" + boundary, Crlf);
    assert |Utf8Data(OpeningDelimiter(boundary))| == 4 + |b|;
    Utf8DataAppend("--" + boundary, "--");
    Utf8DataAppend("--" + boundary + "--", Crlf);
    assert |Utf8Data(ClosingDelimiter(boundary))| == 6 + |b|;
  }

  /** With the generated boundary the body is exactly 197 bytes longer than the image. */
  lemma GeneratedBodyLength(uuid: Uuid, imageData: seq<byte>)
    ensures |MultipartBody(Boundary(uuid), imageData)| == 197 + |imageData|
  {
    BodyLength(Boundary(uuid), imageData);
    AsciiData(Boundary(uuid));
  }

  // ---------------------------------------------------------------------------
  // The screen state
  // ---------------------------------------------------------------------------

  /** The `URLRequest` handed to `URLSession`. */
  datatype Request = Request(url: Url, httpMethod: string, headers: map<string, string>, body: seq<byte>)

  class ContentView {
    var inputImage: Option<Image>
    var outputImage: Option<Image>
    var isLoading: bool
    /** The backend URL typed on the previous screen. */
    const backendURL: string

    constructor (backendURL: string)
      ensures this.backendURL == backendURL
      ensures inputImage == None && outputImage == None && !isLoading
    {
      this.backendURL := backendURL;
      inputImage := None;
      outputImage := None;
      isLoading := false;
    }

    /** The image picker writes the chosen image through its binding. */
    method PickImage(image: Image)
      modifies this
      ensures inputImage == Some(image)
      ensures outputImage == old(outputImage) && isLoading == old(isLoading)
    {
      inputImage := Some(image);
    }

    /**
     * `colorizeImage`: with no image nothing happens; otherwise `isLoading` is
     * raised, and lowered again when the JPEG conversion or the URL parse
     * fails. On success the POST request with the multipart body is returned
     * (to be sent) and `isLoading` stays raised. `jpegData` stands for
     * `UIImage.jpegData(compressionQuality: 1.0)` and `uuid` for the fresh
     * `UUID()`.
     */
    method ColorizeImage(jpegData: Image -> Option<seq<byte>>, uuid: Uuid) returns (request: Option<Request>)
      modifies this
      ensures inputImage == old(inputImage) && outputImage == old(outputImage)
      ensures inputImage.None? ==> request.None? && isLoading == old(isLoading)
      ensures inputImage.Some? ==>
                && (request.Some? <==> jpegData(inputImage.value).Some? && ParseUrl(backendURL).Some?)
                && isLoading == request.Some?
      ensures request.Some? ==>
                var boundary := Boundary(uuid);
                && request.value.url == ParseUrl(backendURL).value
                && request.value.httpMethod == "POST"
                && request.value.headers == map["Content-Type" := ContentTypeValue(boundary)]
                && request.value.body == MultipartBody(boundary, jpegData(inputImage.value).value)
    {
      if inputImage.None? {
        return None;
      }
      isLoading := true;
      var imageData := jpegData(inputImage.value);
      if imageData.None? {
        isLoading := false;
        return None;
      }
      var url := ParseUrl(backendURL);
      if url.None? {
        isLoading := false;
        return None;
      }
      var boundary := Boundary(uuid);
      var body := BuildBody(boundary, imageData.value);
      request := Some(Request(url.value, "POST", map["Content-Type" := ContentTypeValue(boundary)], body));
    }

    /**
     * The completion handler, run on the main queue: `isLoading` is lowered;
     * on a transport error nothing else changes; otherwise the output image
     * is replaced when the returned data decodes as an image (`decodeImage`
     * stands for `UIImage(data:)`).
     */
    method ReceiveResponse(data: Option<seq<byte>>, error: Option<string>, decodeImage: seq<byte> -> Option<Image>)
      modifies this
      ensures !isLoading && inputImage == old(inputImage)
      ensures error.Some? ==> outputImage == old(outputImage)
      ensures error.None? && data.Some? && decodeImage(data.value).Some? ==>
                outputImage == decodeImage(data.value)
      ensures (data.None? || decodeImage(data.value).None?) ==> outputImage == old(outputImage)
    {
      isLoading := false;
      if error.Some? {
        return;
      }
      if data.Some? {
        var image := decodeImage(data.value);
        if image.Some? {
          outputImage := image;
        }
      }
    }
  }
}
