/**
 * The static-file web server of hw7/webserver.py: the decision table from
 * request method and filesystem facts to a status code, the content-type
 * rule, the response record built for each status, its serialisation as an
 * HTTP/1.1 response (status line, header fields, blank line, body; sections
 * 2.1 and 4 of RFC 9112), and the serving loop that cuts the received byte
 * stream into requests at the first blank line. The filesystem and the
 * clock are parameters.
 */
module WebServer {
  import opened Common

  // ---------------------------------------------------------------------
  // UTF-8 (section 3 of RFC 3629), as `bytes(text, 'utf-8')` produces it.
  // ---------------------------------------------------------------------

  /** The UTF-8 bytes of one character: one byte below 128, else a lead byte and continuation bytes, all at least 128. */
  function EncodeChar(c: char): (r: Bytes)
    ensures 1 <= |r| <= 4
    ensures c as int < 128 ==> r == [c as int]
    ensures c as int >= 128 ==> forall i :: 0 <= i < |r| ==> r[i] >= 128
  {
    var n := c as int;
    if n < 0x80 then [n]
    else if n < 0x800 then [0xC0 + n / 64, 0x80 + n % 64]
    else if n < 0x10000 then [0xE0 + n / 4096, 0x80 + n / 64 % 64, 0x80 + n % 64]
    else [0xF0 + n / 0x40000, 0x80 + n / 4096 % 64, 0x80 + n / 64 % 64, 0x80 + n % 64]
  }

  /** `bytes(s, 'utf-8')`. */
  function Utf8(s: string): (r: Bytes)
    ensures |r| >= |s|
  {
    if s == [] then [] else EncodeChar(s[0]) + Utf8(s[1..])
  }

  /** Encoding distributes over concatenation. */
  lemma {:induction false} Utf8Append(a: string, b: string)
    ensures Utf8(a + b) == Utf8(a) + Utf8(b)
  {
    if a == [] {
      assert a + b == b;
    } else {
      assert (a + b)[0] == a[0] && (a + b)[1..] == a[1..] + b;
      Utf8Append(a[1..], b);
      calc {
        Utf8(a + b);
        EncodeChar(a[0]) + Utf8(a[1..] + b);
        EncodeChar(a[0]) + (Utf8(a[1..]) + Utf8(b));
        (EncodeChar(a[0]) + Utf8(a[1..])) + Utf8(b);
      }
    }
  }

  /** ASCII text encodes to its own code points, one byte per character. */
  lemma {:induction false} Utf8Ascii(s: string)
    requires IsAscii(s)
    ensures |Utf8(s)| == |s|
    ensures forall i :: 0 <= i < |s| ==> Utf8(s)[i] == s[i] as int
  {
    if s != [] {
      Utf8Ascii(s[1..]);
    }
  }

  /** Text without a carriage return encodes to bytes without 13: every byte of a longer encoding is at least 128. */
  lemma {:induction false} Utf8NoReturn(s: string)
    requires '\r' !in s
    ensures 13 !in Utf8(s)
  {
    if s != [] {
      Utf8NoReturn(s[1..]);
    }
  }

  /** The encoding of text that does not start with a carriage return does not start with 13. */
  lemma Utf8Head(s: string)
    requires |s| >= 1 && s[0] != '\r'
    ensures |Utf8(s)| >= 1 && Utf8(s)[0] != 13
  {
  }

  // ---------------------------------------------------------------------
  // Status codes and the decision table.
  // ---------------------------------------------------------------------

  /** The five statuses the server answers with, and their `RESPONSE_CODES` reason phrases. */
  datatype Status = Ok200 | Moved301 | Denied403 | Missing404 | BadMethod405 {
    function Code(): nat {
      match this
      case Ok200 => 200
      case Moved301 => 301
      case Denied403 => 403
      case Missing404 => 404
      case BadMethod405 => 405
    }

    function Reason(): string {
      match this
      case Ok200 => "OK"
      case Moved301 => "Moved Permanently"
      case Denied403 => "Not Authorized"
      case Missing404 => "Not Found"
      case BadMethod405 => "Method Not Allowed"
    }
  }

  /**
   * What the server may ask of the filesystem about `'webroot' + path`:
   * `Path.is_file`, `os.access(…, os.R_OK)`, the bytes a binary read returns,
   * and the text a text-mode read returns (None when it cannot be decoded).
   */
  datatype Webroot = Webroot(
    isFile: string -> bool,
    readable: string -> bool,
    readBytes: string -> Bytes,
    readText: string -> Option<string>)

  /** Python's `sub in s` on strings. */
  function Contains(s: string, sub: string): bool
    decreases |s|
  {
    if |sub| > |s| then false
    else if s[..|sub|] == sub then true
    else s != [] && Contains(s[1..], sub)
  }

  /** `path[1:]`. */
  function FileName(path: string): string {
    Slice(path, 1, |path|)
  }

  predicate IsGetOrHead(httpMethod: string) {
    httpMethod == "GET" || httpMethod == "HEAD"
  }

  /** A file of the webroot that is not in a subdirectory. */
  predicate Servable(root: Webroot, path: string) {
    root.isFile(path) && '/' !in FileName(path)
  }

  /**
   * `get_response_code`: one status for each case of the decision table.
   * Only GET and HEAD are served; a servable file is refused when unreadable
   * and redirected when its name mentions `redirect-example`; the name
   * `redirect-example` redirects even when there is no such file.
   */
  function GetResponseCode(root: Webroot, httpMethod: string, path: string): (code: Status)
    ensures code == BadMethod405 <==> !IsGetOrHead(httpMethod)
    ensures code == Denied403 <==> IsGetOrHead(httpMethod) && Servable(root, path) && !root.readable(path)
    ensures code == Ok200 <==>
      IsGetOrHead(httpMethod) && Servable(root, path) && root.readable(path) && !Contains(FileName(path), "redirect-example")
    ensures code == Moved301 <==>
      IsGetOrHead(httpMethod) &&
      ((Servable(root, path) && root.readable(path) && Contains(FileName(path), "redirect-example")) ||
       (!Servable(root, path) && FileName(path) == "redirect-example"))
    ensures code == Missing404 <==> IsGetOrHead(httpMethod) && !Servable(root, path) && FileName(path) != "redirect-example"
  {
    if IsGetOrHead(httpMethod) then
      var fileName := FileName(path);
      if root.isFile(path) && '/' !in fileName then
        if !root.readable(path) then Denied403
        else if Contains(fileName, "redirect-example") then Moved301
        else Ok200
      else if fileName == "redirect-example" then Moved301
      else Missing404
    else BadMethod405
  }

  // ---------------------------------------------------------------------
  // Content types.
  // ---------------------------------------------------------------------

  /** Python's `s.find(c)`: the first index of `c`, or -1. */
  function Find(s: string, c: char): (i: int)
    ensures -1 <= i < |s|
    ensures i >= 0 ==> s[i] == c && c !in s[..i]
    ensures i < 0 ==> c !in s
  {
    if s == [] then -1
    else if s[0] == c then 0
    else
      var k := Find(s[1..], c);
      assert s[1..] == s[..][1..];
      if k < 0 then -1 else k + 1
  }

  /** `path[path.find('.') + 1:]`: the text after the first dot, or the whole path when there is none. */
  function Extension(path: string): string {
    path[Find(path, '.') + 1..]
  }

  /** The extension is what follows the first dot. */
  lemma ExtensionAfterFirstDot(stem: string, ext: string)
    requires '.' !in stem
    ensures Extension(stem + "." + ext) == ext
  {
    var path := stem + "." + ext;
    var i := Find(path, '.');
    assert path[|stem|] == '.';
    assert forall j :: 0 <= j < |stem| ==> path[j] == stem[j];
    assert i == |stem|;
    assert path[|stem| + 1..] == ext;
  }

  /** Without a dot the whole path serves as the extension. */
  lemma ExtensionWithoutDot(path: string)
    requires '.' !in path
    ensures Extension(path) == path
  {
  }

  /** The `Content-Type` chosen from the extension. */
  function ContentType(path: string): (t: string)
    ensures t == "text/html" <==> Extension(path) == "html" || Extension(path) == "htm"
    ensures t == "text/plain" <==> Extension(path) == "txt"
    ensures t == "text/other" <==> Extension(path) != "html" && Extension(path) != "htm" && Extension(path) != "txt"
  {
    var ext := Extension(path);
    if ext == "html" || ext == "htm" then "text/html"
    else if ext == "txt" then "text/plain"
    else "text/other"
  }

  // ---------------------------------------------------------------------
  // The response record of `process_request`.
  // ---------------------------------------------------------------------

  /** A body is text (encoded as UTF-8 when sent) or the bytes of a binary read. */
  datatype Body = Text(text: string) | Binary(bytes: Bytes)

  /**
   * The `response_data` dict: the status, the content type with its length
   * (the `type` and `length` keys, present together), the body and the
   * redirect location.
   */
  datatype ResponseData = ResponseData(status: Status, typed: Option<(string, nat)>, body: Body, location: Option<string>)

  /** The bytes sent for a body. */
  function BodyBytes(b: Body): Bytes {
    match b
    case Text(t) => Utf8(t)
    case Binary(bs) => bs
  }

  /** Python's `len(body)`: characters of text, bytes of binary data. */
  function BodyLength(b: Body): nat {
    match b
    case Text(t) => |t|
    case Binary(bs) => |bs|
  }

  /**
   * The response for a method and path. `byteLength` chooses how the length
   * of a text file is measured: in characters, as the source does, or in the
   * bytes that are sent.
   */
  function BuildResponse(root: Webroot, httpMethod: string, path: string, byteLength: bool): (r: Result<ResponseData>)
    ensures r.Ok? ==> r.value.status == GetResponseCode(root, httpMethod, path)
    ensures r.Raise? ==> r.error == UnicodeDecodeError && GetResponseCode(root, httpMethod, path) == Ok200
    ensures r.Ok? ==> (r.value.typed.Some? <==> r.value.status == Ok200)
    ensures r.Ok? ==> (r.value.location.Some? <==> r.value.status == Moved301)
    ensures r.Ok? && r.value.status == Ok200 ==> r.value.typed.value.0 == ContentType(path)
    ensures r.Ok? && r.value.status == Ok200 && httpMethod == "HEAD" ==> r.value.body == Text("")
    // a GET of a servable file carries the file: raw bytes for other types, decoded text otherwise
    ensures r.Ok? && r.value.status == Ok200 && ContentType(path) == "text/other" ==>
      && r.value.typed.value.1 == |root.readBytes(path)|
      && (httpMethod == "GET" ==> r.value.body == Binary(root.readBytes(path)))
    ensures r.Ok? && r.value.status == Ok200 && ContentType(path) != "text/other" ==>
      && root.readText(path).Some?
      && r.value.typed.value.1 == (if byteLength then |Utf8(root.readText(path).value)| else |root.readText(path).value|)
      && (httpMethod == "GET" ==> r.value.body == Text(root.readText(path).value))
    ensures r.Raise? ==> ContentType(path) != "text/other" && root.readText(path).None?
    // the fixed redirect target and the error pages
    ensures r.Ok? && r.value.location.Some? ==> r.value.location.value == "/redirect-target.html"
    ensures r.Ok? && r.value.status == Moved301 ==> r.value.body == Text("Redirect: " + path)
    ensures r.Ok? && r.value.status == Denied403 ==> r.value.body == Text("Access denied: " + path)
    ensures r.Ok? && r.value.status == Missing404 ==> r.value.body == Text("File not found: " + path)
    ensures r.Ok? && r.value.status == BadMethod405 ==> r.value.body == Text("Unsupported method: " + httpMethod)
  {
    match GetResponseCode(root, httpMethod, path)
    case Ok200 =>
      var contentType := ContentType(path);
      if contentType == "text/other" then
        var contents := root.readBytes(path);
        Ok(ResponseData(Ok200, Some((contentType, |contents|)), if httpMethod == "GET" then Binary(contents) else Text(""), None))
      else
        (match root.readText(path)
         case None => Raise(UnicodeDecodeError)
         case Some(contents) =>
           var length := if byteLength then |Utf8(contents)| else |contents|;
           Ok(ResponseData(Ok200, Some((contentType, length)), if httpMethod == "GET" then Text(contents) else Text(""), None)))
    case Moved301 => Ok(ResponseData(Moved301, None, Text("Redirect: " + path), Some("/redirect-target.html")))
    case Denied403 => Ok(ResponseData(Denied403, None, Text("Access denied: " + path), None))
    case Missing404 => Ok(ResponseData(Missing404, None, Text("File not found: " + path), None))
    case BadMethod405 => Ok(ResponseData(BadMethod405, None, Text("Unsupported method: " + httpMethod), None))
  }

  /** `request_str.split('\r\n')[0]`: the text before the first CRLF. */
  function RequestLine(s: string): (line: string)
    ensures |line| <= |s| && line == s[..|line|]
    decreases |s|
  {
    if |s| < 2 then s
    else if s[0] == '\r' && s[1] == '\n' then []
    else [s[0]] + RequestLine(s[1..])
  }

  /** A request line without carriage returns is read back up to its CRLF. */
  lemma {:induction false} RequestLineRoundTrip(line: string, rest: string)
    requires '\r' !in line
    ensures RequestLine(line + "\r\n" + rest) == line
    decreases |line|
  {
    var s := line + "\r\n" + rest;
    if line != [] {
      assert s[0] == line[0] && s[1..] == line[1..] + "\r\n" + rest;
      RequestLineRoundTrip(line[1..], rest);
      assert [line[0]] + line[1..] == line;
    } else {
      assert s[0] == '\r' && s[1] == '\n';
    }
  }

  /**
   * `process_request` with the length measure of `byteLength`: decode, take
   * the method and the path from the request line, and build the response.
   * Only ASCII requests are decoded.
   */
  function Process(root: Webroot, request: Bytes, byteLength: bool): (r: Result<ResponseData>)
    ensures !AsciiBytes(request) ==> r == Raise(UnicodeDecodeError)
  {
    if !AsciiBytes(request) then Raise(UnicodeDecodeError)
    else
      var header := Split(RequestLine(AsciiDecode(request)), ' ');
      if |header| < 2 then Raise(IndexError) else BuildResponse(root, header[0], header[1], byteLength)
  }

  /** `process_request` as written: a text file's length is its number of characters. */
  function ProcessRequest(root: Webroot, request: Bytes): Result<ResponseData> {
    Process(root, request, false)
  }

  /** `process_request` with the length of a text file measured in the bytes sent. */
  function ProcessRequestByteLength(root: Webroot, request: Bytes): Result<ResponseData> {
    Process(root, request, true)
  }

  /** ASCII text survives encoding and ASCII decoding. */
  lemma AsciiRoundTrip(s: string)
    requires IsAscii(s)
    ensures AsciiBytes(Utf8(s)) && AsciiDecode(Utf8(s)) == s
  {
    Utf8Ascii(s);
    AsciiBytesAll(Utf8(s));
    AsciiDecodeChars(Utf8(s));
  }

  /**
   * A request a client writes, `method path version` then CRLF and the rest,
   * is answered from its method and path.
   */
  lemma ProcessRequestReadsRequestLine(root: Webroot, httpMethod: string, path: string, version: string, rest: string, byteLength: bool)
    requires IsAscii(httpMethod + " " + path + " " + version + "\r\n" + rest)
    requires ' ' !in httpMethod && ' ' !in path && ' ' !in version
    requires '\r' !in httpMethod && '\r' !in path && '\r' !in version
    ensures Process(root, Utf8(httpMethod + " " + path + " " + version + "\r\n" + rest), byteLength) == BuildResponse(root, httpMethod, path, byteLength)
  {
    var line := httpMethod + " " + path + " " + version;
    var text := line + "\r\n" + rest;
    AsciiRoundTrip(text);
    assert '\r' !in line;
    RequestLineRoundTrip(line, rest);
    var pieces := [httpMethod, path, version];
    assert Join(pieces, ' ') == line by {
      assert Join(pieces[2..], ' ') == version;
      assert Join(pieces[1..], ' ') == path + " " + version;
    }
    SplitJoin(pieces, ' ');
  }

  // ---------------------------------------------------------------------
  // Serialisation: `create_response`.
  // ---------------------------------------------------------------------

  /** The `Content-Length` value: the typed length when there is a type, else `len(body)`. */
  function ContentLength(data: ResponseData): nat {
    if data.typed.Some? then data.typed.value.1 else BodyLength(data.body)
  }

  /** The header lines in the order the server writes them. */
  function HeaderLines(data: ResponseData, date: string): seq<string> {
    ["HTTP/1.1 " + NatToString(data.status.Code()) + " " + data.status.Reason(), "Date: " + date, "Server: Python"]
    + (if data.location.Some? then ["Location: " + data.location.value] else [])
    + (if data.typed.Some? then ["Content-Type: " + data.typed.value.0] else [])
    + ["Content-Length: " + NatToString(ContentLength(data))]
  }

  /** `'\r\n'.join(lines)`. */
  function JoinLines(lines: seq<string>): string {
    if lines == [] then []
    else if |lines| == 1 then lines[0]
    else lines[0] + "\r\n" + JoinLines(lines[1..])
  }

  /** The response bytes: header lines joined by CRLF, a blank line, then the body. */
  function Serialize(data: ResponseData, date: string): Bytes {
    Utf8(JoinLines(HeaderLines(data, date)) + "\r\n\r\n") + BodyBytes(data.body)
  }

  /** `create_response`, with the formatted date as input: builds the header lines one by one. */
  method CreateResponse(data: ResponseData, date: string) returns (r: Bytes)
    ensures r == Serialize(data, date)
  {
    var headerLines := [
      "HTTP/1.1 " + NatToString(data.status.Code()) + " " + data.status.Reason(),
      "Date: " + date,
      "Server: Python"
    ];
    if data.location.Some? {
      headerLines := headerLines + ["Location: " + data.location.value];
    }
    var contentLength: nat;
    if data.typed.Some? {
      contentLength := data.typed.value.1;
      headerLines := headerLines + ["Content-Type: " + data.typed.value.0];
    } else {
      contentLength := BodyLength(data.body);
    }
    headerLines := headerLines + ["Content-Length: " + NatToString(contentLength)];
    assert headerLines == HeaderLines(data, date);
    var responseHeader := JoinLines(headerLines) + "\r\n\r\n";
    r := Utf8(responseHeader) + BodyBytes(data.body);
  }

  // ---------------------------------------------------------------------
  // Blank-line framing: `buffer.split(b'\r\n\r\n', 1)`.
  // ---------------------------------------------------------------------

  /** CR LF CR LF starts at `j`. */
  predicate BlankAt(b: Bytes, j: nat)
    requires j + 4 <= |b|
  {
    b[j] == 13 && b[j + 1] == 10 && b[j + 2] == 13 && b[j + 3] == 10
  }

  /** The first position of CR LF CR LF, or -1. */
  function FindBlankLine(b: Bytes): (r: int)
    ensures -1 <= r && (r >= 0 ==> r + 4 <= |b|)
    ensures r >= 0 ==> BlankAt(b, r) && forall j :: 0 <= j < r ==> !BlankAt(b, j)
    ensures r < 0 ==> forall j :: 0 <= j && j + 4 <= |b| ==> !BlankAt(b, j)
    decreases |b|
  {
    if |b| < 4 then -1
    else if BlankAt(b, 0) then 0
    else
      var k := FindBlankLine(b[1..]);
      assert forall j :: 1 <= j && j + 4 <= |b| ==> (BlankAt(b, j) <==> BlankAt(b[1..], j - 1));
      if k < 0 then -1 else k + 1
  }

  /** `split(b'\r\n\r\n', 1)`: what comes before the first blank line and what follows it. */
  function SplitBlankLine(b: Bytes): (r: Option<(Bytes, Bytes)>)
    ensures r.Some? ==> b == r.value.0 + [13, 10, 13, 10] + r.value.1 && |r.value.1| + 4 <= |b|
  {
    var k := FindBlankLine(b);
    if k < 0 then None
    else
      assert b == b[..k] + b[k..k + 4] + b[k + 4..] && b[k..k + 4] == [13, 10, 13, 10];
      Some((b[..k], b[k + 4..]))
  }

  /** More bytes after the first blank line do not move it. */
  lemma FindBlankLineStable(b: Bytes, more: Bytes)
    requires FindBlankLine(b) >= 0
    ensures FindBlankLine(b + more) == FindBlankLine(b)
  {
    var k := FindBlankLine(b);
    var c := FindBlankLine(b + more);
    assert forall j :: 0 <= j && j + 4 <= |b| ==> (BlankAt(b, j) <==> BlankAt(b + more, j));
    assert BlankAt(b + more, k);
  }

  /**
   * Every 13 in `h` begins a line break followed by a byte that is not 13:
   * the shape of header lines without carriage returns joined by CRLF.
   */
  predicate Breaks(h: Bytes) {
    forall p :: 0 <= p < |h| && h[p] == 13 ==> p + 2 < |h| && h[p + 1] == 10 && h[p + 2] != 13
  }

  /** After such a header the first blank line is the one that ends it. */
  lemma BlankAfterBreaks(h: Bytes, body: Bytes)
    requires Breaks(h)
    ensures FindBlankLine(h + [13, 10, 13, 10] + body) == |h|
  {
    var b := h + [13, 10, 13, 10] + body;
    assert BlankAt(b, |h|);
    forall j | 0 <= j < |h| && j + 4 <= |b|
      ensures !BlankAt(b, j)
    {
      assert b[j] == h[j];
      if h[j] == 13 {
        assert b[j + 2] == h[j + 2];
      }
    }
    var r := FindBlankLine(b);
    assert r >= 0;
    assert r <= |h|;
  }

  /** Text with no carriage return followed by a CRLF and a broken text is broken. */
  lemma BreaksCons(x: Bytes, t: Bytes)
    requires 13 !in x && Breaks(t) && |t| >= 1 && t[0] != 13
    ensures Breaks(x + [13, 10] + t)
  {
    var h := x + [13, 10] + t;
    forall p | 0 <= p < |h| && h[p] == 13
      ensures p + 2 < |h| && h[p + 1] == 10 && h[p + 2] != 13
    {
      if p > |x| + 1 {
        assert h[p] == t[p - |x| - 2];
        assert h[p + 1] == t[p - |x| - 1] && h[p + 2] == t[p - |x|];
      }
    }
  }

  /** Every header line is non-empty and free of carriage returns. */
  predicate PlainLines(lines: seq<string>) {
    forall i :: 0 <= i < |lines| ==> |lines[i]| >= 1 && '\r' !in lines[i]
  }

  /** Joined lines start with the first character of the first line. */
  lemma JoinLinesStart(lines: seq<string>)
    requires |lines| >= 1 && |lines[0]| >= 1
    ensures |JoinLines(lines)| >= 1 && JoinLines(lines)[0] == lines[0][0]
  {
  }

  /** Non-empty lines without carriage returns, joined by CRLF and encoded, are broken. */
  lemma {:induction false} JoinLinesBreaks(lines: seq<string>)
    requires |lines| >= 1 && PlainLines(lines)
    ensures Breaks(Utf8(JoinLines(lines)))
    decreases |lines|
  {
    var first := lines[0];
    Utf8NoReturn(first);
    if |lines| > 1 {
      var rest := lines[1..];
      assert PlainLines(rest) by {
        assert forall i :: 0 <= i < |rest| ==> rest[i] == lines[i + 1];
      }
      JoinLinesBreaks(rest);
      var t := JoinLines(rest);
      JoinLinesStart(rest);
      Utf8Head(t);
      Utf8Break(first, t);
      assert JoinLines(lines) == first + ("\r\n" + t);
      BreaksCons(Utf8(first), Utf8(t));
    }
  }

  /** A CRLF between two texts encodes to 13, 10 between their encodings. */
  lemma Utf8Break(first: string, t: string)
    ensures Utf8(first + ("\r\n" + t)) == Utf8(first) + [13, 10] + Utf8(t)
  {
    Utf8Append(first, "\r\n" + t);
    Utf8Append("\r\n", t);
    Utf8LineBreak();
  }

  /** CRLF encodes to 13, 10. */
  lemma Utf8LineBreak()
    ensures Utf8("\r\n") == [13, 10]
  {
    var s := "\r\n";
    assert s[1..] == "\n" && s[1..][1..] == [];
    assert EncodeChar(s[0]) == [13] && EncodeChar(s[1]) == [10];
  }

  /** Two CRLFs encode to 13, 10, 13, 10. */
  lemma Utf8BlankLine()
    ensures Utf8("\r\n\r\n") == [13, 10, 13, 10]
  {
    Utf8LineBreak();
    Utf8Append("\r\n", "\r\n");
    assert "\r\n" + "\r\n" == "\r\n\r\n";
  }

  /** The header lines are non-empty and free of carriage returns when the date, location and type are. */
  lemma HeaderLinesPlain(data: ResponseData, date: string)
    requires '\r' !in date
    requires data.location.Some? ==> '\r' !in data.location.value
    requires data.typed.Some? ==> '\r' !in data.typed.value.0
    ensures |HeaderLines(data, date)| >= 1 && PlainLines(HeaderLines(data, date))
  {
    var code := NatToString(data.status.Code());
    var length := NatToString(ContentLength(data));
    NatToStringDigits(data.status.Code());
    NatToStringDigits(ContentLength(data));
    assert '\r' !in code && '\r' !in length;
    var fixedLines := ["HTTP/1.1 " + code + " " + data.status.Reason(), "Date: " + date, "Server: Python"];
    var locationLines := if data.location.Some? then ["Location: " + data.location.value] else [];
    var typeLines := if data.typed.Some? then ["Content-Type: " + data.typed.value.0] else [];
    var lengthLines := ["Content-Length: " + length];
    ReasonPlain(data.status);
    assert '\r' !in "HTTP/1.1 " && '\r' !in "Date: " && '\r' !in "Server: Python";
    assert PlainLines(fixedLines);
    assert PlainLines(locationLines) && PlainLines(typeLines) && PlainLines(lengthLines);
    PlainAppend(fixedLines, locationLines);
    PlainAppend(fixedLines + locationLines, typeLines);
    PlainAppend(fixedLines + locationLines + typeLines, lengthLines);
  }

  /** No reason phrase holds a carriage return. */
  lemma ReasonPlain(status: Status)
    ensures '\r' !in status.Reason()
  {
    match status
    case Ok200 =>
    case Moved301 =>
    case Denied403 =>
    case Missing404 =>
    case BadMethod405 =>
  }

  /** Plain lines followed by plain lines are plain. */
  lemma PlainAppend(a: seq<string>, b: seq<string>)
    requires PlainLines(a) && PlainLines(b)
    ensures PlainLines(a + b)
  {
    assert forall i :: |a| <= i < |a + b| ==> (a + b)[i] == b[i - |a|];
  }

  /**
   * A client that splits a response at its first blank line, as the server
   * splits requests, gets the header block and exactly the body bytes,
   * whenever the date, location and content type hold no carriage return.
   */
  lemma ResponseFraming(data: ResponseData, date: string)
    requires '\r' !in date
    requires data.location.Some? ==> '\r' !in data.location.value
    requires data.typed.Some? ==> '\r' !in data.typed.value.0
    ensures SplitBlankLine(Serialize(data, date)) == Some((Utf8(JoinLines(HeaderLines(data, date))), BodyBytes(data.body)))
  {
    HeaderLinesPlain(data, date);
    HeaderSplits(HeaderLines(data, date), BodyBytes(data.body));
  }

  /** Plain header lines, a blank line and a body split back into the encoded header and the body. */
  lemma HeaderSplits(lines: seq<string>, body: Bytes)
    requires |lines| >= 1 && PlainLines(lines)
    ensures SplitBlankLine(Utf8(JoinLines(lines) + "\r\n\r\n") + body) == Some((Utf8(JoinLines(lines)), body))
  {
    JoinLinesBreaks(lines);
    Utf8Append(JoinLines(lines), "\r\n\r\n");
    Utf8BlankLine();
    SplitAfterBreaks(Utf8(JoinLines(lines)), body);
  }

  /** A broken header, a blank line and a body split back into the header and the body. */
  lemma SplitAfterBreaks(h: Bytes, body: Bytes)
    requires Breaks(h)
    ensures SplitBlankLine(h + [13, 10, 13, 10] + body) == Some((h, body))
  {
    var b := h + [13, 10, 13, 10] + body;
    BlankAfterBreaks(h, body);
    assert b[..|h|] == h;
    assert b[|h| + 4..] == body;
  }

  // ---------------------------------------------------------------------
  // Content-Length.
  // ---------------------------------------------------------------------

  /**
   * Measured in bytes, `Content-Length` is the number of body bytes sent, and
   * for HEAD on a file it is the number GET would send; this holds for every
   * ASCII method and path, which are all the request decoder yields.
   */
  lemma ContentLengthCountsBytes(root: Webroot, httpMethod: string, path: string)
    requires IsAscii(httpMethod) && IsAscii(path)
    requires BuildResponse(root, httpMethod, path, true).Ok?
    ensures var data := BuildResponse(root, httpMethod, path, true).value;
      if httpMethod == "HEAD" && data.status == Ok200
      then ContentLength(data) == |BodyBytes(BuildResponse(root, "GET", path, true).value.body)|
      else ContentLength(data) == |BodyBytes(data.body)|
  {
    match GetResponseCode(root, httpMethod, path)
    case Ok200 =>
      assert GetResponseCode(root, "GET", path) == Ok200;
    case Moved301 =>
      AsciiMessage("Redirect: ", path);
    case Denied403 =>
      AsciiMessage("Access denied: ", path);
    case Missing404 =>
      AsciiMessage("File not found: ", path);
    case BadMethod405 =>
      AsciiMessage("Unsupported method: ", httpMethod);
  }

  /** A message made of ASCII text encodes to one byte per character. */
  lemma AsciiMessage(prefix: string, s: string)
    requires IsAscii(prefix) && IsAscii(s)
    ensures |Utf8(prefix + s)| == |prefix + s|
  {
    assert forall i :: 0 <= i < |prefix| ==> (prefix + s)[i] == prefix[i];
    assert forall i :: |prefix| <= i < |prefix + s| ==> (prefix + s)[i] == s[i - |prefix|];
    Utf8Ascii(prefix + s);
  }

  /** As written, a GET of a one-character HTML file holding 'é' announces one byte and sends two. */
  lemma ContentLengthCountsCharacters()
    ensures var root := Webroot(p => true, p => true, p => [], p => Some("\U{E9}"));
      var data := BuildResponse(root, "GET", "/a.html", false).value;
      BuildResponse(root, "GET", "/a.html", false).Ok? && ContentLength(data) == 1 && |BodyBytes(data.body)| == 2
  {
    var root := Webroot(p => true, p => true, p => [], p => Some("\U{E9}"));
    assert FileName("/a.html") == "a.html";
    assert !Contains("a.html", "redirect-example");
    assert Find("/a.html", '.') == 2;
    assert Extension("/a.html") == "html";
    assert Utf8("\U{E9}") == [0xC3, 0xA9];
  }

  // ---------------------------------------------------------------------
  // The serving loop.
  // ---------------------------------------------------------------------

  /** All received chunks, in order. */
  function Concat(chunks: seq<Bytes>): Bytes {
    if chunks == [] then [] else chunks[0] + Concat(chunks[1..])
  }

  /** The chunk at `at` is followed by the chunks from `next`. */
  lemma ConcatStep(chunks: seq<Bytes>, at: nat, next: nat)
    requires at < |chunks| && next == at + 1
    ensures Concat(chunks[at..]) == chunks[at] + Concat(chunks[next..])
  {
    assert chunks[at..][1..] == chunks[next..];
  }

  /** The complete requests in a byte stream, in order, and the incomplete rest. */
  function Frames(b: Bytes): (r: (seq<Bytes>, Bytes))
    decreases |b|
  {
    match SplitBlankLine(b)
    case None => ([], b)
    case Some((request, rest)) =>
      var f := Frames(rest);
      ([request] + f.0, f.1)
  }

  /** More bytes after the first blank line stay after it. */
  lemma SplitBlankLineStable(x: Bytes, y: Bytes)
    requires SplitBlankLine(x).Some?
    ensures SplitBlankLine(x + y) == Some((SplitBlankLine(x).value.0, SplitBlankLine(x).value.1 + y))
  {
    FindBlankLineStable(x, y);
    var k := FindBlankLine(x);
    assert (x + y)[..k] == x[..k] && (x + y)[k + 4..] == x[k + 4..] + y;
  }

  /** Framing does not depend on how the stream is cut: the frames of `x + y` are those of `x`, then those of its rest followed by `y`. */
  lemma {:induction false} FramesAppend(x: Bytes, y: Bytes)
    ensures var fx := Frames(x); var fy := Frames(fx.1 + y);
      Frames(x + y) == (fx.0 + fy.0, fy.1)
    decreases |x|
  {
    var s := SplitBlankLine(x);
    if s.Some? {
      var request, rest := s.value.0, s.value.1;
      SplitBlankLineStable(x, y);
      FramesAppend(rest, y);
      var fr := Frames(rest);
      var fy := Frames(fr.1 + y);
      assert Frames(x) == ([request] + fr.0, fr.1);
      assert Frames(x + y) == ([request] + (fr.0 + fy.0), fy.1);
      Regroup([request], fr.0, fy.0);
    } else {
      assert Frames(x) == ([], x);
      assert [] + Frames(x + y).0 == Frames(x + y).0;
    }
  }

  /** How the serving loop ended. */
  datatype Outcome =
    | Closed          // the client closed and nothing was left to answer
    | Spins           // the loop would repeat the same iteration forever
    | Crashed(error: Exception)  // processing a request raised

  /** The request handler of the loop: `process_request`, with the chosen length measure. */
  function Handler(root: Webroot, byteLength: bool): Bytes -> Result<ResponseData> {
    request => Process(root, request, byteLength)
  }

  /** The response writer of the loop: `create_response`, the `j`-th response dated `clock(j)`. */
  function Writer(clock: nat -> string): (ResponseData, nat) -> Bytes {
    (data, j) => Serialize(data, clock(j))
  }

  /** The number of requests handled before the first one that raises. */
  function FirstFailure(handle: Bytes -> Result<ResponseData>, requests: seq<Bytes>): (k: nat)
    ensures k <= |requests|
    ensures forall j :: 0 <= j < k ==> handle(requests[j]).Ok?
    ensures k < |requests| ==> handle(requests[k]).Raise?
  {
    if requests == [] then 0
    else if handle(requests[0]).Raise? then 0
    else 1 + FirstFailure(handle, requests[1..])
  }

  /** The first failure is where the first raising request stands. */
  lemma {:induction false} FirstFailureAt(handle: Bytes -> Result<ResponseData>, requests: seq<Bytes>, k: nat)
    requires k < |requests| && handle(requests[k]).Raise?
    requires forall j :: 0 <= j < k ==> handle(requests[j]).Ok?
    ensures FirstFailure(handle, requests) == k
    decreases k
  {
    if k > 0 {
      assert forall j :: 0 <= j < k - 1 ==> requests[1..][j] == requests[j + 1];
      FirstFailureAt(handle, requests[1..], k - 1);
    }
  }

  /** `sent` holds the responses to the first `|sent|` requests, in order. */
  predicate Answered(handle: Bytes -> Result<ResponseData>, write: (ResponseData, nat) -> Bytes, requests: seq<Bytes>, sent: seq<Bytes>) {
    && |sent| <= |requests|
    && forall j :: 0 <= j < |sent| ==> handle(requests[j]).Ok? && sent[j] == write(handle(requests[j]).value, j)
  }

  /**
   * The serving loop as written. `chunks` are what `recv` returns before the
   * client closes; after that `recv` returns nothing. One request is cut off
   * the buffer per `recv`. When the client has closed while an incomplete
   * request is still buffered the loop neither breaks nor makes progress:
   * the model stops there with `Spins`.
   */
  method ServeAsWritten(root: Webroot, clock: nat -> string, chunks: seq<Bytes>) returns (sent: seq<Bytes>, outcome: Outcome)
    requires forall i :: 0 <= i < |chunks| ==> chunks[i] != []
    ensures var f := Frames(Concat(chunks)); var k := FirstFailure(Handler(root, false), f.0);
      && |sent| == k
      && Answered(Handler(root, false), Writer(clock), f.0, sent)
      && outcome == if k < |f.0| then Crashed(Process(root, f.0[k], false).error) else if f.1 == [] then Closed else Spins
  {
    sent, outcome := ServeLoop(Handler(root, false), clock, chunks, false);
  }

  /**
   * The serving loop with the length of text files measured in bytes and
   * with a close ending the loop once no complete request is left: every
   * complete request is answered and the loop always stops.
   */
  method Serve(root: Webroot, clock: nat -> string, chunks: seq<Bytes>) returns (sent: seq<Bytes>, outcome: Outcome)
    requires forall i :: 0 <= i < |chunks| ==> chunks[i] != []
    ensures var f := Frames(Concat(chunks)); var k := FirstFailure(Handler(root, true), f.0);
      && |sent| == k
      && Answered(Handler(root, true), Writer(clock), f.0, sent)
      && outcome == if k < |f.0| then Crashed(Process(root, f.0[k], true).error) else Closed
  {
    sent, outcome := ServeLoop(Handler(root, true), clock, chunks, true);
  }

  /**
   * The state of the serving loop after `i` chunks: `consumed` is what was
   * received, `handled` the requests cut off so far, `buffer` what is still
   * buffered, and `sent` the responses to `handled`.
   */
  ghost predicate Serving(handle: Bytes -> Result<ResponseData>, write: (ResponseData, nat) -> Bytes, chunks: seq<Bytes>,
                          i: nat, consumed: Bytes, handled: seq<Bytes>, buffer: Bytes, sent: seq<Bytes>)
  {
    && i <= |chunks|
    && Concat(chunks) == consumed + Concat(chunks[i..])
    && Frames(consumed) == (handled + Frames(buffer).0, Frames(buffer).1)
    && |sent| == |handled|
    && Answered(handle, write, handled, sent)
  }

  /** Before anything is received. */
  lemma ServingStart(handle: Bytes -> Result<ResponseData>, write: (ResponseData, nat) -> Bytes, chunks: seq<Bytes>)
    ensures Serving(handle, write, chunks, 0, [], [], [], [])
  {
    assert chunks[0..] == chunks;
    assert Frames([]) == ([], []);
    assert [] + Frames([]).0 == [];
  }

  /** Receiving the next chunk appends it to what was received and to the buffer. */
  lemma ServingReceive(handle: Bytes -> Result<ResponseData>, write: (ResponseData, nat) -> Bytes, chunks: seq<Bytes>,
                       i: nat, consumed: Bytes, handled: seq<Bytes>, buffer: Bytes, sent: seq<Bytes>, next: nat)
    requires Serving(handle, write, chunks, i, consumed, handled, buffer, sent)
    requires i < |chunks| && next == i + 1
    ensures Serving(handle, write, chunks, next, consumed + chunks[i], handled, buffer + chunks[i], sent)
  {
    ConcatStep(chunks, i, next);
    var c := chunks[i];
    Regroup(consumed, c, Concat(chunks[next..]));
    var fb := Frames(buffer);
    var g := Frames(fb.1 + c);
    FramesAppend(consumed, c);
    FramesAppend(buffer, c);
    assert Frames(consumed + c) == ((handled + fb.0) + g.0, g.1);
    assert Frames(buffer + c) == (fb.0 + g.0, g.1);
    Regroup(handled, fb.0, g.0);
  }

  /** Cutting a request off the buffer and answering it. */
  lemma ServingAnswer(handle: Bytes -> Result<ResponseData>, write: (ResponseData, nat) -> Bytes, chunks: seq<Bytes>,
                      i: nat, consumed: Bytes, handled: seq<Bytes>, buffer: Bytes, sent: seq<Bytes>,
                      request: Bytes, rest: Bytes, response: Bytes)
    requires Serving(handle, write, chunks, i, consumed, handled, buffer, sent)
    requires SplitBlankLine(buffer) == Some((request, rest))
    requires handle(request).Ok? && response == write(handle(request).value, |sent|)
    ensures Serving(handle, write, chunks, i, consumed, handled + [request], rest, sent + [response])
  {
    assert Frames(buffer) == ([request] + Frames(rest).0, Frames(rest).1);
    Regroup(handled, [request], Frames(rest).0);
    AnsweredSnoc(handle, write, handled, sent, request, response);
  }

  /** One more request answered. */
  lemma AnsweredSnoc(handle: Bytes -> Result<ResponseData>, write: (ResponseData, nat) -> Bytes,
                     handled: seq<Bytes>, sent: seq<Bytes>, request: Bytes, response: Bytes)
    requires |sent| == |handled| && Answered(handle, write, handled, sent)
    requires handle(request).Ok? && response == write(handle(request).value, |sent|)
    ensures Answered(handle, write, handled + [request], sent + [response])
  {
    var h, r := handled + [request], sent + [response];
    forall j | 0 <= j < |r|
      ensures handle(h[j]).Ok? && r[j] == write(handle(h[j]).value, j)
    {
      if j < |sent| {
        assert h[j] == handled[j] && r[j] == sent[j];
      }
    }
  }

  /** When the loop stops after the client closed, every request of the stream has been handled. */
  lemma ServingEnds(handle: Bytes -> Result<ResponseData>, write: (ResponseData, nat) -> Bytes, chunks: seq<Bytes>,
                    consumed: Bytes, handled: seq<Bytes>, buffer: Bytes, sent: seq<Bytes>)
    requires Serving(handle, write, chunks, |chunks|, consumed, handled, buffer, sent)
    requires SplitBlankLine(buffer).None?
    ensures Frames(Concat(chunks)) == (handled, buffer)
    ensures FirstFailure(handle, handled) == |handled|
  {
    assert chunks[|chunks|..] == [];
    assert consumed + [] == consumed;
    assert Frames(buffer) == ([], buffer);
    assert handled + [] == handled;
    assert forall j :: 0 <= j < |handled| ==> handle(handled[j]).Ok?;
  }

  /** When the request just cut off raises, it is the first failing request of the whole stream. */
  lemma ServingCrashes(handle: Bytes -> Result<ResponseData>, write: (ResponseData, nat) -> Bytes, chunks: seq<Bytes>,
                       i: nat, consumed: Bytes, handled: seq<Bytes>, buffer: Bytes, sent: seq<Bytes>,
                       request: Bytes, rest: Bytes)
    requires Serving(handle, write, chunks, i, consumed, handled, buffer, sent)
    requires SplitBlankLine(buffer) == Some((request, rest))
    requires handle(request).Raise?
    ensures var f := Frames(Concat(chunks)).0;
      && |handled| < |f| && f[|handled|] == request
      && FirstFailure(handle, f) == |handled|
      && Answered(handle, write, f, sent)
  {
    FramesAppend(consumed, Concat(chunks[i..]));
    var later := Frames(Frames(consumed).1 + Concat(chunks[i..])).0;
    assert Frames(buffer).0 == [request] + Frames(rest).0;
    Regroup(handled, [request], Frames(rest).0);
    Regroup(handled + [request], Frames(rest).0, later);
    FailureAfter(handle, write, handled, request, Frames(rest).0 + later, sent);
  }

  /** Answered requests followed by a raising one: the raising one is the first failure. */
  lemma FailureAfter(handle: Bytes -> Result<ResponseData>, write: (ResponseData, nat) -> Bytes,
                     handled: seq<Bytes>, request: Bytes, more: seq<Bytes>, sent: seq<Bytes>)
    requires |sent| == |handled| && Answered(handle, write, handled, sent)
    requires handle(request).Raise?
    ensures var f := handled + [request] + more;
      && f[|handled|] == request
      && FirstFailure(handle, f) == |handled|
      && Answered(handle, write, f, sent)
  {
    var f := handled + [request] + more;
    assert forall j :: 0 <= j < |handled| ==> f[j] == handled[j];
    FirstFailureAt(handle, f, |handled|);
  }

  /** `create_response` for the `j`-th response of the connection. */
  method Respond(clock: nat -> string, data: ResponseData, j: nat) returns (response: Bytes)
    ensures response == Writer(clock)(data, j)
  {
    response := CreateResponse(data, clock(j));
  }

  /**
   * The loop of the `__main__` block, over the request handler `handle`
   * (`process_request` with one of the two length measures); `fixed` selects
   * the close handling of `Serve`.
   */
  method ServeLoop(handle: Bytes -> Result<ResponseData>, clock: nat -> string, chunks: seq<Bytes>, fixed: bool)
    returns (sent: seq<Bytes>, outcome: Outcome)
    requires forall i :: 0 <= i < |chunks| ==> chunks[i] != []
    ensures var f := Frames(Concat(chunks)); var k := FirstFailure(handle, f.0);
      && |sent| == k
      && Answered(handle, Writer(clock), f.0, sent)
      && outcome == if k < |f.0| then Crashed(handle(f.0[k]).error) else if f.1 == [] || fixed then Closed else Spins
  {
    ghost var write := Writer(clock);
    var inputBuffer: Bytes := [];
    sent := [];
    var i := 0;
    ghost var handled: seq<Bytes> := [];
    ghost var consumed: Bytes := [];
    ServingStart(handle, write, chunks);
    while true
      invariant Serving(handle, write, chunks, i, consumed, handled, inputBuffer, sent)
      decreases |chunks| - i, |inputBuffer|
    {
      var clientRequest: Bytes := [];
      if i < |chunks| {
        clientRequest := chunks[i];
      }
      if clientRequest == [] && (inputBuffer == [] || (fixed && SplitBlankLine(inputBuffer).None?)) {
        outcome := Closed;
        ServingEnds(handle, write, chunks, consumed, handled, inputBuffer, sent);
        return;
      }
      if clientRequest != [] {
        ServingReceive(handle, write, chunks, i, consumed, handled, inputBuffer, sent, i + 1);
        consumed := consumed + clientRequest;
        i := i + 1;
        inputBuffer := inputBuffer + clientRequest;
      }
      var bufferSplit := SplitBlankLine(inputBuffer);
      if bufferSplit.None? {
        if clientRequest == [] {
          outcome := Spins;
          ServingEnds(handle, write, chunks, consumed, handled, inputBuffer, sent);
          return;
        }
        continue;
      }
      var request := bufferSplit.value.0;
      var data := handle(request);
      if data.Raise? {
        outcome := Crashed(data.error);
        ServingCrashes(handle, write, chunks, i, consumed, handled, inputBuffer, sent, request, bufferSplit.value.1);
        return;
      }
      var serverResponse := Respond(clock, data.value, |sent|);
      ServingAnswer(handle, write, chunks, i, consumed, handled, inputBuffer, sent, request, bufferSplit.value.1, serverResponse);
      inputBuffer := bufferSplit.value.1;
      handled := handled + [request];
      sent := sent + [serverResponse];
    }
  }

  /** A client that sends one byte and closes leaves the server of the source looping forever. */
  method PartialRequestSpins(root: Webroot, clock: nat -> string) returns (outcome: Outcome)
    ensures outcome == Spins
  {
    assert Concat([[71]]) == [71];
    assert Frames([71]) == ([], [71]);
    var _, o := ServeAsWritten(root, clock, [[71]]);
    outcome := o;
  }

  /** With the close handled, the same client ends the loop. */
  method PartialRequestCloses(root: Webroot, clock: nat -> string) returns (outcome: Outcome)
    ensures outcome == Closed
  {
    assert Concat([[71]]) == [71];
    assert Frames([71]) == ([], [71]);
    var _, o := Serve(root, clock, [[71]]);
    outcome := o;
  }
}
