/** The HTTP/1.1 layer of the query server (src/server.cpp): reason phrases,
    the response builder, the request parser with its Content-Length rule,
    the read loop that frames one request on a connection, and dispatch.
    Text is a `seq<char>` whose characters stand for bytes. */
module Http {
  import opened Common

  /** 30 MiB, the request-size limit of both the parser and the read loop. */
  const MAX_REQUEST_SIZE: nat := 31457280
  /** The receive buffer starts at 64 KiB. */
  const INITIAL_BUFFER: nat := 65536
  /** The buffer is doubled once fewer than this many bytes are free. */
  const GROW_MARGIN: nat := 1024
  /** Range of the C++ `long` that `std::stol` produces. */
  const LONG_MIN: int := -0x8000_0000_0000_0000
  const LONG_MAX: int := 0x7FFF_FFFF_FFFF_FFFF

  // ---------------------------------------------------------------------
  // Decimal text

  predicate IsDigit(c: char) {
    '0' <= c <= '9'
  }

  /** The characters `std::isspace` accepts in the "C" locale. */
  predicate IsSpace(c: char) {
    c == ' ' || c == '\t' || c == '\n' || c == 11 as char || c == 12 as char || c == '\r'
  }

  function DigitValue(c: char): nat
    requires IsDigit(c)
  {
    c as int - '0' as int
  }

  function DigitChar(d: nat): (c: char)
    requires d < 10
    ensures IsDigit(c) && DigitValue(c) == d
  {
    (48 + d) as char
  }

  /** Value of a string of decimal digits. */
  function DigitsValue(s: string): nat
    requires forall i :: 0 <= i < |s| ==> IsDigit(s[i])
  {
    if s == [] then 0
    else DigitsValue(s[..|s| - 1]) * 10 + DigitValue(s[|s| - 1])
  }

  /** Decimal text of a natural number, as `operator<<` writes it. */
  function NatToString(n: nat): (s: string)
    ensures |s| >= 1
    ensures forall i :: 0 <= i < |s| ==> IsDigit(s[i])
  {
    if n < 10 then [DigitChar(n)] else NatToString(n / 10) + [DigitChar(n % 10)]
  }

  /** Decimal text of an integer, with a leading '-' when it is negative. */
  function IntToString(n: int): (s: string)
    ensures |s| >= 1
    ensures forall i :: 0 <= i < |s| ==> s[i] != ' ' && !IsSpace(s[i])
  {
    if n >= 0 then NatToString(n) else "-" + NatToString(-n)
  }

  lemma {:induction false} NatToStringValue(n: nat)
    ensures DigitsValue(NatToString(n)) == n
  {
    if n >= 10 {
      var s := NatToString(n);
      NatToStringValue(n / 10);
      assert s[..|s| - 1] == NatToString(n / 10);
    }
  }

  /** Index of the first character at or after `i` that `pred` rejects. */
  function SkipSpace(s: string, i: nat): (j: nat)
    requires i <= |s|
    ensures i <= j <= |s|
    ensures j < |s| ==> !IsSpace(s[j])
    ensures forall k :: i <= k < j ==> IsSpace(s[k])
    decreases |s| - i
  {
    if i < |s| && IsSpace(s[i]) then SkipSpace(s, i + 1) else i
  }

  function DigitRunEnd(s: string, i: nat): (j: nat)
    requires i <= |s|
    ensures i <= j <= |s|
    ensures j < |s| ==> !IsDigit(s[j])
    ensures forall k :: i <= k < j ==> IsDigit(s[k])
    decreases |s| - i
  {
    if i < |s| && IsDigit(s[i]) then DigitRunEnd(s, i + 1) else i
  }

  /** `std::stol(s)`: leading white space, an optional sign and at least one
      digit; anything after the digits is ignored. `None` stands for the
      `invalid_argument` (no digits) or `out_of_range` (not a `long`)
      exception. */
  function Stol(s: string): (r: Option<int>)
    ensures r.Some? ==> LONG_MIN <= r.value <= LONG_MAX
    ensures (forall i :: 0 <= i < |s| ==> !IsDigit(s[i])) ==> r == None
  {
    var a := SkipSpace(s, 0);
    var neg := a < |s| && s[a] == '-';
    var b := if a < |s| && (s[a] == '-' || s[a] == '+') then a + 1 else a;
    var e := DigitRunEnd(s, b);
    if e == b then None
    else
      assert forall k :: 0 <= k < e - b ==> IsDigit(s[b..e][k]);
      var d: int := DigitsValue(s[b..e]);
      var v := if neg then -d else d;
      if LONG_MIN <= v <= LONG_MAX then Some(v) else None
  }

  /** `std::stol` reads back what `operator<<` writes for a `long`. */
  lemma {:induction false} StolNatToString(n: nat)
    requires n <= LONG_MAX
    ensures Stol(NatToString(n)) == Some(n)
  {
    var s := NatToString(n);
    assert SkipSpace(s, 0) == 0;
    assert DigitRunEnd(s, 0) == |s|;
    assert s[0..|s|] == s;
    NatToStringValue(n);
  }

  // ---------------------------------------------------------------------
  // Responses

  /** `get_reason_phrase` (src/server.cpp:37-60). */
  function ReasonPhrase(code: int): (r: string)
    ensures |r| >= 2
  {
    match code
    case 200 => "OK"
    case 201 => "Created"
    case 202 => "Accepted"
    case 204 => "No Content"
    case 301 => "Moved Permanently"
    case 302 => "Found"
    case 304 => "Not Modified"
    case 400 => "Bad Request"
    case 401 => "Unauthorized"
    case 403 => "Forbidden"
    case 404 => "Not Found"
    case 405 => "Method Not Allowed"
    case 413 => "Request Entity Too Large"
    case 415 => "Unsupported Media Type"
    case 429 => "Too Many Requests"
    case 500 => "Internal Server Error"
    case 501 => "Not Implemented"
    case 502 => "Bad Gateway"
    case 503 => "Service Unavailable"
    case _ => "Unknown"
  }

  /** The status codes with a phrase of their own. */
  const LISTED_CODES: set<int> :=
    {200, 201, 202, 204, 301, 302, 304, 400, 401, 403, 404, 405, 413, 415, 429, 500, 501, 502, 503}

  /** Exactly the listed codes have a phrase of their own; 413 keeps the
      older wording "Request Entity Too Large" of RFC 2616 section 10.4.14
      rather than "Content Too Large" of RFC 9110 section 15.5.14. */
  lemma {:induction false} ReasonPhraseListed(code: int)
    ensures ReasonPhrase(code) == "Unknown" <==> code !in LISTED_CODES
    ensures ReasonPhrase(413) == "Request Entity Too Large"
  {
  }

  /** One header field line, `name: value`. */
  datatype Field = Field(name: string, value: string)

  function FieldLine(f: Field): string {
    f.name + ": " + f.value + "\r\n"
  }

  /** The field lines of a message head, each ended by CRLF. */
  function FieldLines(fs: seq<Field>): string {
    if fs == [] then "" else FieldLine(fs[0]) + FieldLines(fs[1..])
  }

  /** A message: start line, field lines, an empty line, then the body
      (RFC 9112 section 2.1). */
  function Message(startLine: string, fs: seq<Field>, body: string): string {
    HeadStream(startLine + "\r\n", fs, body)
  }

  /** Where the body of a message starts: after the start line, the field
      lines and two line breaks. */
  function BodyStart(startLine: string, fs: seq<Field>): nat {
    |startLine| + |FieldLines(fs)| + 4
  }

  /** The field lines `fs` and the empty line after them, between `pre` and
      `post`, written one field at a time. */
  function HeadStream(pre: string, fs: seq<Field>, post: string): (r: string)
    ensures |r| == |pre| + |FieldLines(fs)| + 2 + |post|
    decreases |fs|
  {
    if fs == [] then pre + "\r\n" + post
    else HeadStream(pre + FieldLine(fs[0]), fs[1..], post)
  }

  lemma {:induction false} HeadStreamIs(pre: string, fs: seq<Field>, post: string)
    ensures HeadStream(pre, fs, post) == pre + (FieldLines(fs) + "\r\n") + post
    decreases |fs|
  {
    if fs != [] {
      HeadStreamIs(pre + FieldLine(fs[0]), fs[1..], post);
      assert FieldLines(fs) == FieldLine(fs[0]) + FieldLines(fs[1..]);
    }
  }

  /** A message is its start line and CRLF, its field lines, an empty line
      and its body. */
  lemma {:induction false} MessageIs(startLine: string, fs: seq<Field>, body: string)
    ensures Message(startLine, fs, body) == startLine + "\r\n" + FieldLines(fs) + "\r\n" + body
  {
    HeadStreamIs(startLine + "\r\n", fs, body);
  }

  function StatusLine(code: int): (s: string)
    ensures |s| > 9 && s[..9] == "HTTP/1.1 "
  {
    "HTTP/1.1" + " " + IntToString(code) + (" " + ReasonPhrase(code))
  }

  /** The header fields `build_http_response` writes, in order: the
      content type and length, then fixed security and CORS fields. */
  function ResponseFields(contentType: string, body: string): seq<Field> {
    [Field("Content-Type", contentType), Field("Content-Length", NatToString(|body|))] + FIXED_FIELDS
  }

  const FIXED_FIELDS: seq<Field> :=
    [ Field("X-Frame-Options", "DENY"),
      Field("X-Content-Type-Options", "nosniff"),
      Field("X-XSS-Protection", "1; mode=block"),
      Field("Content-Security-Policy", CSP),
      Field("Referrer-Policy", "strict-origin-when-cross-origin"),
      Field("Access-Control-Allow-Origin", "https://example.com"),
      Field("Access-Control-Allow-Methods", "GET, POST, OPTIONS"),
      Field("Access-Control-Allow-Headers", "Content-Type") ]

  const CSP: string :=
    "default-src 'self'; " + "script-src 'self' 'unsafe-inline'; " + "style-src 'self' 'unsafe-inline'"

  /** `build_http_response` (src/server.cpp:63-83). */
  function BuildHttpResponse(code: int, contentType: string, body: string): (r: string)
    ensures |r| > 9 + |body|
    ensures r[..9] == "HTTP/1.1 " && r[|r| - |body|..] == body
  {
    var status := StatusLine(code);
    MessageEnds(status, ResponseFields(contentType, body), body);
    Message(status, ResponseFields(contentType, body), body)
  }

  /** A message begins with its start line and ends with its body. */
  lemma {:induction false} MessageEnds(startLine: string, fs: seq<Field>, body: string)
    ensures var m := Message(startLine, fs, body);
      |m| == |startLine| + |FieldLines(fs)| + 4 + |body| &&
      m[..|startLine|] == startLine && m[|m| - |body|..] == body
  {
    MessageIs(startLine, fs, body);
  }

  // ---------------------------------------------------------------------
  // Request parsing

  /** `verb` is the request method. */
  datatype Request = Request(verb: string, path: string, headers: map<string, string>, body: string)

  /** Outcome of `parse_http_request`: `Crashed` is the `std::out_of_range`
      thrown by `substr` on a header line whose only ':' is its last
      character; no caller catches it. */
  datatype Parse = Crashed | Parsed(req: Request)

  /** Position of the first '\n' at or after `pos`, or the end of `s`. */
  function LineEnd(s: string, pos: nat): (q: nat)
    requires pos <= |s|
    ensures pos <= q <= |s|
    ensures q < |s| ==> s[q] == '\n'
    ensures forall i :: pos <= i < q ==> s[i] != '\n'
    decreases |s| - pos
  {
    if pos == |s| || s[pos] == '\n' then pos else LineEnd(s, pos + 1)
  }

  /** `std::getline` on a string stream at position `pos`: the line without
      its '\n' and the position after it, or `None` once nothing is left. */
  function GetLine(s: string, pos: nat): (r: Option<(string, nat)>)
    requires pos <= |s|
    ensures r.None? <==> pos == |s|
    ensures r.Some? ==> pos < r.value.1 <= |s|
  {
    if pos == |s| then None
    else
      var q := LineEnd(s, pos);
      Some((s[pos..q], if q < |s| then q + 1 else |s|))
  }

  function TokenEnd(s: string, i: nat): (j: nat)
    requires i <= |s|
    ensures i <= j <= |s|
    ensures j < |s| ==> IsSpace(s[j])
    ensures forall k :: i <= k < j ==> !IsSpace(s[k])
    decreases |s| - i
  {
    if i < |s| && !IsSpace(s[i]) then TokenEnd(s, i + 1) else i
  }

  /** `request_line >> method >> path`: the first two white-space separated
      tokens of the line; a token that is missing stays empty. */
  function RequestLine(line: string): (string, string) {
    var a := SkipSpace(line, 0);
    var b := TokenEnd(line, a);
    var c := SkipSpace(line, b);
    var d := TokenEnd(line, c);
    (line[a..b], line[c..d])
  }

  /** Position of the first ':' at or after `i`. */
  function FindColon(line: string, i: nat): (r: Option<nat>)
    requires i <= |line|
    ensures r.Some? ==> i <= r.value < |line| && line[r.value] == ':'
    ensures forall k :: i <= k < |line| && (r.None? || k < r.value) ==> line[k] != ':'
    decreases |line| - i
  {
    if i == |line| then None
    else if line[i] == ':' then Some(i)
    else FindColon(line, i + 1)
  }

  /** `value.erase(value.find_last_not_of("\r\n") + 1)`: trailing CR and LF
      characters are removed, all of them when nothing else is left. */
  function TrimCrLf(v: string): (r: string)
    ensures |r| <= |v| && r == v[..|r|]
    ensures r == [] || (r[|r| - 1] != '\r' && r[|r| - 1] != '\n')
    ensures forall k :: |r| <= k < |v| ==> v[k] == '\r' || v[k] == '\n'
  {
    if v != [] && (v[|v| - 1] == '\r' || v[|v| - 1] == '\n') then TrimCrLf(v[..|v| - 1]) else v
  }

  /** What the header loop does with one line. */
  datatype LineAction = Stop | Ignore | Store(key: string, value: string) | Throw

  /** One pass of the header loop (src/server.cpp:102-113): an empty line or
      a lone CR ends the head; a line without ':' is skipped; otherwise the
      key is what precedes the first ':' and the value starts two characters
      after it. The `"\n"` test can never hold, since `getline` strips the
      '\n'. */
  function HeaderAction(line: string): LineAction {
    if line == "\r" || line == "" || line == "\n" then Stop
    else
      match FindColon(line, 0)
      case None => Ignore
      case Some(c) =>
        if c + 2 > |line| then Throw else Store(line[..c], TrimCrLf(line[c + 2..]))
  }

  /** The head as the parser sees it: the header map and the stream position
      where the body starts. */
  datatype Head = HeadThrew | Head(headers: map<string, string>, bodyStart: nat)

  /** The header loop from position `pos`, with the map `h` built so far. A
      repeated header keeps its last value. When `getline` fails the stream
      is exhausted, so the body starts at the end. */
  function ScanHeaders(s: string, pos: nat, h: map<string, string>): (r: Head)
    requires pos <= |s|
    ensures r.Head? ==> pos <= r.bodyStart <= |s|
    decreases |s| - pos
  {
    match GetLine(s, pos)
    case None => Head(h, |s|)
    case Some((line, next)) =>
      match HeaderAction(line)
      case Stop => Head(h, next)
      case Ignore => ScanHeaders(s, next, h)
      case Store(k, v) => ScanHeaders(s, next, h[k := v])
      case Throw => HeadThrew
  }

  /** The Content-Length the parser accepts: the header is present under
      exactly that spelling, `std::stol` reads it, and it lies in
      [0, 30 MiB]. */
  function DeclaredLength(h: map<string, string>): Option<nat> {
    if "Content-Length" !in h then None
    else
      match Stol(h["Content-Length"])
      case None => None
      case Some(n) => if n < 0 || n > MAX_REQUEST_SIZE then None else Some(n)
  }

  function Zeros(n: nat): (z: string)
    ensures |z| == n
    ensures forall i :: 0 <= i < n ==> z[i] == '\0'
  {
    seq(n, _ => '\0')
  }

  /** `req.body.resize(n); stream.read(&req.body[0], n)`: the body has the
      declared length; what the stream still holds fills its front and NUL
      characters the rest. Without an accepted length the body is empty. */
  function ReadBody(s: string, pos: nat, h: map<string, string>): (body: string)
    requires pos <= |s|
    ensures DeclaredLength(h).None? ==> body == ""
    ensures DeclaredLength(h).Some? ==> |body| == DeclaredLength(h).value
  {
    match DeclaredLength(h)
    case None => ""
    case Some(n) =>
      var got := Min(n, |s| - pos);
      s[pos..pos + got] + Zeros(n - got)
  }

  /** A body that is longer than what the stream still holds is padded with
      NUL characters up to the declared length. */
  lemma {:induction false} ReadBodyPadded(s: string, pos: nat, h: map<string, string>)
    requires pos <= |s| && DeclaredLength(h).Some?
    ensures var body := ReadBody(s, pos, h);
      forall i :: 0 <= i < |body| ==> body[i] == if pos + i < |s| then s[pos + i] else '\0'
  {
  }

  /** `parse_http_request` (src/server.cpp:92-136). */
  function ParseRequest(s: string): Parse {
    match GetLine(s, 0)
    case None => Parsed(Request("", "", map[], ""))
    case Some((line, next)) =>
      var (m, p) := RequestLine(line);
      match ScanHeaders(s, next, map[])
      case HeadThrew => Crashed
      case Head(h, at) => Parsed(Request(m, p, h, ReadBody(s, at, h)))
  }

  /** `parse_http_request` with its `getline` loop filling the header map. */
  method ParseHttpRequest(request: string) returns (r: Parse)
    ensures r == ParseRequest(request)
  {
    var first := GetLine(request, 0);
    if first.None? {
      return Parsed(Request("", "", map[], ""));
    }
    var (m, p) := RequestLine(first.value.0);
    var pos := first.value.1;
    var headers: map<string, string> := map[];
    while true
      invariant pos <= |request|
      invariant ScanHeaders(request, pos, headers) == ScanHeaders(request, first.value.1, map[])
      decreases |request| - pos
    {
      var got := GetLine(request, pos);
      if got.None? {
        pos := |request|;
        break;
      }
      var (line, next) := got.value;
      match HeaderAction(line) {
        case Stop =>
          pos := next;
          break;
        case Ignore =>
          pos := next;
        case Store(k, v) =>
          headers := headers[k := v];
          pos := next;
        case Throw =>
          return Crashed;
      }
    }
    r := Parsed(Request(m, p, headers, ReadBody(request, pos, headers)));
  }

  // ---------------------------------------------------------------------
  // Parsing what is serialised

  /** `t` occurs in `s` at position `pos`. */
  predicate PrefixAt(s: string, pos: nat, t: string) {
    pos + |t| <= |s| && s[pos..pos + |t|] == t
  }

  lemma {:induction false} PrefixAtSplit(s: string, pos: nat, a: string, b: string)
    requires PrefixAt(s, pos, a + b)
    ensures PrefixAt(s, pos, a) && PrefixAt(s, pos + |a|, b)
  {
    assert s[pos..pos + |a|] == s[pos..pos + |a + b|][..|a|];
    assert s[pos + |a|..pos + |a| + |b|] == s[pos..pos + |a + b|][|a|..];
  }

  /** A line that is followed by '\n' is what `getline` returns. */
  lemma {:induction false} GetLineAt(s: string, pos: nat, line: string)
    requires PrefixAt(s, pos, line + "\n")
    requires '\n' !in line
    ensures GetLine(s, pos) == Some((line, pos + |line| + 1))
  {
    PrefixAtSplit(s, pos, line, "\n");
    var q := pos + |line|;
    assert s[q] == '\n';
    forall i | pos <= i < q
      ensures s[i] != '\n'
    {
      assert s[i] == line[i - pos];
    }
    assert LineEnd(s, pos) == q;
  }

  /** A header field that serialises to one line and parses back: the name
      holds no ':' and no line break, the value no line break and no
      trailing CR. */
  predicate WellFormedField(f: Field) {
    OneLineName(f.name) && OneLineValue(f.value)
  }

  /** Every field of `fs` is well formed. */
  predicate WellFormedFields(fs: seq<Field>)
    decreases |fs|
  {
    fs == [] || (WellFormedField(fs[0]) && WellFormedFields(fs[1..]))
  }

  lemma {:induction false} WellFormedFieldsEach(fs: seq<Field>)
    requires forall i :: 0 <= i < |fs| ==> WellFormedField(fs[i])
    ensures WellFormedFields(fs)
    decreases |fs|
  {
    if fs != [] {
      assert WellFormedField(fs[0]);
      assert forall i :: 0 <= i < |fs[1..]| ==> fs[1..][i] == fs[i + 1];
      WellFormedFieldsEach(fs[1..]);
    }
  }

  predicate OneLineName(s: string) {
    forall k :: 0 <= k < |s| ==> s[k] != ':' && s[k] != '\n'
  }

  predicate OneLineValue(s: string) {
    (forall k :: 0 <= k < |s| ==> s[k] != '\n') && (s == [] || s[|s| - 1] != '\r')
  }

  /** The header map the parser builds from field lines: later fields
      overwrite earlier ones with the same name. */
  function FieldMap(h: map<string, string>, fs: seq<Field>): map<string, string>
    decreases |fs|
  {
    if fs == [] then h else FieldMap(h[fs[0].name := fs[0].value], fs[1..])
  }

  lemma {:induction false} FieldLineAction(f: Field)
    requires WellFormedField(f)
    ensures HeaderAction(f.name + ": " + f.value + "\r") == Store(f.name, f.value)
    ensures '\n' !in f.name + ": " + f.value + "\r"
  {
    FieldTextOneLine(f);
    FieldTextParts(f);
    FindColonFirst(f.name + ": " + f.value + "\r", |f.name|);
    TrimCrLfCr(f.value);
  }

  /** The pieces of a field line: the name, the ':' after it, and the value
      two characters later. */
  lemma {:induction false} FieldTextParts(f: Field)
    requires WellFormedField(f)
    ensures |f.name| + 2 <= |f.name + ": " + f.value + "\r"|
    ensures (f.name + ": " + f.value + "\r")[|f.name|] == ':'
    ensures forall k :: 0 <= k < |f.name| ==> (f.name + ": " + f.value + "\r")[k] != ':'
    ensures (f.name + ": " + f.value + "\r")[..|f.name|] == f.name
    ensures (f.name + ": " + f.value + "\r")[|f.name| + 2..] == f.value + "\r"
  {
    var line := f.name + ": " + f.value + "\r";
    forall k | 0 <= k < |f.name|
      ensures line[k] != ':'
    {
      assert line[k] == f.name[k];
    }
  }

  /** The first ':' of a line is found at its position. */
  lemma {:induction false} FindColonFirst(line: string, c: nat)
    requires c < |line| && line[c] == ':'
    requires forall k :: 0 <= k < c ==> line[k] != ':'
    ensures FindColon(line, 0) == Some(c)
  {
  }

  /** A one-line value followed by the CR that `getline` leaves is trimmed
      back to itself. */
  lemma {:induction false} TrimCrLfCr(v: string)
    requires OneLineValue(v)
    ensures TrimCrLf(v + "\r") == v
  {
    assert (v + "\r")[..|v|] == v;
  }

  lemma {:induction false} FieldTextOneLine(f: Field)
    requires WellFormedField(f)
    ensures '\n' !in f.name + ": " + f.value + "\r"
  {
    var line := f.name + ": " + f.value + "\r";
    var c := |f.name|;
    forall k | 0 <= k < |line|
      ensures line[k] != '\n'
    {
      if k < c {
        assert line[k] == f.name[k];
      } else if c + 2 <= k < |line| - 1 {
        assert line[k] == f.value[k - c - 2];
      }
    }
  }

  /** One pass of the header loop over a line it stores. */
  lemma {:induction false} ScanHeadersStore(s: string, pos: nat, h: map<string, string>, line: string, next: nat, k: string, v: string)
    requires pos <= |s|
    requires GetLine(s, pos) == Some((line, next))
    requires HeaderAction(line) == Store(k, v)
    ensures ScanHeaders(s, pos, h) == ScanHeaders(s, next, h[k := v])
  {
  }

  /** The header loop ends at a line that stops it. */
  lemma {:induction false} ScanHeadersStop(s: string, pos: nat, h: map<string, string>, line: string, next: nat)
    requires pos <= |s|
    requires GetLine(s, pos) == Some((line, next))
    requires HeaderAction(line) == Stop
    ensures ScanHeaders(s, pos, h) == Head(h, next)
  {
  }

  /** What `getline` returns for a field. */
  function FieldText(f: Field): string {
    f.name + ": " + f.value + "\r"
  }

  /** From `pos` on, `getline` returns the lines of the fields `fs`, each
      stored by the header loop, and then a lone CR. */
  predicate LinesAt(s: string, pos: nat, fs: seq<Field>)
    decreases |fs|
  {
    pos <= |s| &&
    if fs == [] then GetLine(s, pos) == Some(("\r", pos + 2))
    else
      GetLine(s, pos) == Some((FieldText(fs[0]), pos + |FieldLine(fs[0])|)) &&
      HeaderAction(FieldText(fs[0])) == Store(fs[0].name, fs[0].value) &&
      LinesAt(s, pos + |FieldLine(fs[0])|, fs[1..])
  }

  /** A line followed by '\n' is what `getline` returns, whatever precedes
      and follows it. */
  lemma {:induction false} LineOf(s: string, pre: string, line: string, post: string, next: nat)
    requires s == pre + (line + "\n") + post
    requires '\n' !in line
    requires next == |pre| + |line| + 1
    ensures |pre| <= |s|
    ensures GetLine(s, |pre|) == Some((line, next))
  {
    assert s[|pre|..|pre| + |line + "\n"|] == line + "\n";
    GetLineAt(s, |pre|, line);
  }

  /** The same, with what follows the line given in two parts. */
  lemma {:induction false} LineBefore(s: string, pre: string, line: string, mid: string, post: string, next: nat)
    requires s == pre + (line + "\n") + mid + post
    requires '\n' !in line
    requires next == |pre| + |line| + 1
    ensures |pre| <= |s|
    ensures GetLine(s, |pre|) == Some((line, next))
  {
    assert s == pre + (line + "\n") + (mid + post);
    LineOf(s, pre, line, mid + post, next);
  }

  /** The empty line ending a head is what `getline` returns there. */
  lemma {:induction false} EmptyLineAt(pre: string, post: string)
    ensures |pre| <= |HeadStream(pre, [], post)|
    ensures GetLine(HeadStream(pre, [], post), |pre|) == Some(("\r", |pre| + 2))
  {
    var s := HeadStream(pre, [], post);
    assert s == pre + ("\r" + "\n") + post;
    LineOf(s, pre, "\r", post, |pre| + 2);
  }

  /** The first field line of a head is what `getline` returns there. */
  lemma {:induction false} FirstFieldLine(pre: string, fs: seq<Field>, post: string)
    requires fs != [] && '\n' !in FieldText(fs[0])
    ensures |pre| <= |HeadStream(pre, fs, post)|
    ensures GetLine(HeadStream(pre, fs, post), |pre|) == Some((FieldText(fs[0]), |pre| + |FieldLine(fs[0])|))
  {
    var f := fs[0];
    assert FieldLine(f) == FieldText(f) + "\n";
    HeadStreamIs(pre + FieldLine(f), fs[1..], post);
    LineBefore(HeadStream(pre, fs, post), pre, FieldText(f), FieldLines(fs[1..]) + "\r\n", post, |pre| + |FieldLine(f)|);
  }

  /** After the first field line, the rest of the head follows. */
  lemma {:induction false} ShiftLines(pre: string, fs: seq<Field>, post: string)
    requires fs != []
    ensures LinesAt(HeadStream(pre, fs, post), |pre| + |FieldLine(fs[0])|, fs[1..])
      == LinesAt(HeadStream(pre + FieldLine(fs[0]), fs[1..], post), |pre + FieldLine(fs[0])|, fs[1..])
  {
    assert HeadStream(pre, fs, post) == HeadStream(pre + FieldLine(fs[0]), fs[1..], post);
  }

  /** Serialised field lines followed by the empty line are read back one by
      one, whatever precedes and follows them. */
  lemma {:induction false} LinesOf(pre: string, fs: seq<Field>, post: string)
    requires WellFormedFields(fs)
    ensures LinesAt(HeadStream(pre, fs, post), |pre|, fs)
    decreases |fs|
  {
    if fs == [] {
      EmptyLineAt(pre, post);
    } else {
      FieldLineAction(fs[0]);
      FirstFieldLine(pre, fs, post);
      LinesOf(pre + FieldLine(fs[0]), fs[1..], post);
      ShiftLines(pre, fs, post);
    }
  }

  /** The header loop stores each field read back and stops at the lone CR
      after them. */
  lemma {:induction false} ScanFieldLines(s: string, pos: nat, fs: seq<Field>, h: map<string, string>)
    requires LinesAt(s, pos, fs)
    ensures ScanHeaders(s, pos, h) == Head(FieldMap(h, fs), pos + |FieldLines(fs)| + 2)
    decreases |fs|
  {
    if fs == [] {
      ScanHeadersStop(s, pos, h, "\r", pos + 2);
    } else {
      var h' := h[fs[0].name := fs[0].value];
      var next := LinesAtStep(s, pos, fs, h);
      ScanFieldLines(s, next, fs[1..], h');
      assert FieldMap(h, fs) == FieldMap(h', fs[1..]);
      assert |FieldLines(fs)| == |FieldLine(fs[0])| + |FieldLines(fs[1..])|;
    }
  }

  /** One field line read and stored; the rest follow it. */
  lemma {:induction false} LinesAtStep(s: string, pos: nat, fs: seq<Field>, h: map<string, string>) returns (next: nat)
    requires LinesAt(s, pos, fs) && fs != []
    ensures next == pos + |FieldLine(fs[0])|
    ensures ScanHeaders(s, pos, h) == ScanHeaders(s, next, h[fs[0].name := fs[0].value])
    ensures LinesAt(s, next, fs[1..])
  {
    next := pos + |FieldLine(fs[0])|;
    ScanHeadersStore(s, pos, h, FieldText(fs[0]), next, fs[0].name, fs[0].value);
  }

  /** A field whose name no later field repeats. */
  lemma {:induction false} FieldMapOther(h: map<string, string>, fs: seq<Field>, k: string)
    requires forall i :: 0 <= i < |fs| ==> fs[i].name != k
    ensures (k in FieldMap(h, fs)) == (k in h)
    ensures k in h ==> FieldMap(h, fs)[k] == h[k]
    decreases |fs|
  {
    if fs != [] {
      FieldMapOther(h[fs[0].name := fs[0].value], fs[1..], k);
    }
  }

  /** The last field with a given name decides its value. */
  lemma {:induction false} FieldMapLast(h: map<string, string>, fs: seq<Field>, i: nat)
    requires i < |fs|
    requires forall j :: i < j < |fs| ==> fs[j].name != fs[i].name
    ensures fs[i].name in FieldMap(h, fs) && FieldMap(h, fs)[fs[i].name] == fs[i].value
    decreases |fs|
  {
    if i == 0 {
      FieldMapOther(h[fs[0].name := fs[0].value], fs[1..], fs[0].name);
    } else {
      FieldMapLast(h[fs[0].name := fs[0].value], fs[1..], i - 1);
    }
  }

  /** A token of the request line: non-empty, without white space. */
  predicate IsToken(t: string) {
    |t| > 0 && forall i :: 0 <= i < |t| ==> !IsSpace(t[i])
  }

  lemma {:induction false} TokenOneLine(t: string)
    requires IsToken(t)
    ensures '\n' !in t
  {
  }

  lemma {:induction false} RequestLineOf(a: string, b: string, rest: string)
    requires IsToken(a) && IsToken(b)
    requires rest == [] || IsSpace(rest[0])
    ensures RequestLine(a + " " + b + rest) == (a, b)
  {
    var line := a + " " + b + rest;
    assert line[0] == a[0];
    forall k | 0 <= k < |a|
      ensures !IsSpace(line[k])
    {
      assert line[k] == a[k];
    }
    assert line[|a|] == ' ';
    assert TokenEnd(line, 0) == |a|;
    assert line[|a| + 1] == b[0];
    assert SkipSpace(line, |a|) == |a| + 1;
    forall k | |a| + 1 <= k < |a| + 1 + |b|
      ensures !IsSpace(line[k])
    {
      assert line[k] == b[k - |a| - 1];
    }
    if rest != [] {
      assert line[|a| + 1 + |b|] == rest[0];
    }
    assert TokenEnd(line, |a| + 1) == |a| + 1 + |b|;
    assert line[0..|a|] == a;
    assert line[|a| + 1..|a| + 1 + |b|] == b;
  }

  /** `ParseRequest` once its first line and its head are known. */
  lemma {:induction false} ParseRequestOf(s: string, line: string, m: string, p: string, pos: nat, h: map<string, string>, at: nat, body: string)
    requires pos <= |s| && at <= |s|
    requires GetLine(s, 0) == Some((line, pos))
    requires RequestLine(line) == (m, p)
    requires ScanHeaders(s, pos, map[]) == Head(h, at)
    requires ReadBody(s, at, h) == body
    ensures ParseRequest(s) == Parsed(Request(m, p, h, body))
  {
  }

  /** A message seen line by line: start line, field lines, body. */
  lemma {:induction false} MessageSplit(startLine: string, fs: seq<Field>, body: string)
    ensures Message(startLine, fs, body) == ((startLine + "\r") + "\n") + (FieldLines(fs) + "\r\n") + body
  {
    HeadStreamIs(startLine + "\r\n", fs, body);
  }

  /** `getline` returns the start line of a message, with its CR. */
  lemma {:induction false} MessageFirstLine(startLine: string, fs: seq<Field>, body: string)
    requires '\n' !in startLine
    ensures GetLine(Message(startLine, fs, body), 0) == Some((startLine + "\r", |startLine| + 2))
  {
    var s := Message(startLine, fs, body);
    var line := startLine + "\r";
    MessageSplit(startLine, fs, body);
    assert s[0..|line + "\n"|] == line + "\n";
    GetLineAt(s, 0, line);
  }

  /** The header loop reads the fields of a message and stops where its
      body starts. */
  lemma {:induction false} MessageHead(startLine: string, fs: seq<Field>, body: string)
    requires WellFormedFields(fs)
    ensures ScanHeaders(Message(startLine, fs, body), |startLine| + 2, map[])
      == Head(FieldMap(map[], fs), BodyStart(startLine, fs))
  {
    MessageLines(startLine, fs, body);
    ScanFieldLines(Message(startLine, fs, body), |startLine| + 2, fs, map[]);
  }

  lemma {:induction false} MessageLines(startLine: string, fs: seq<Field>, body: string)
    requires WellFormedFields(fs)
    ensures LinesAt(Message(startLine, fs, body), |startLine| + 2, fs)
  {
    LinesOf(startLine + "\r\n", fs, body);
  }

  /** The start line `verb path version` of a message is read whole by
      `getline` and yields the method and the path. */
  lemma {:induction false} MessageStartLine(verb: string, path: string, version: string, fs: seq<Field>, body: string)
    requires IsToken(verb) && IsToken(path) && '\n' !in version
    ensures GetLine(Message(verb + " " + path + (" " + version), fs, body), 0)
      == Some((verb + " " + path + (" " + version) + "\r", |verb + " " + path + (" " + version)| + 2))
    ensures RequestLine(verb + " " + path + (" " + version) + "\r") == (verb, path)
  {
    var startLine := verb + " " + path + (" " + version);
    TokenOneLine(verb);
    TokenOneLine(path);
    MessageFirstLine(startLine, fs, body);
    RequestLineOf(verb, path, " " + version + "\r");
    assert verb + " " + path + (" " + version + "\r") == startLine + "\r";
  }

  /** Parsing a serialised request: the first two tokens of its start line,
      its fields (the last of each name winning), and the body that is read
      from just after the empty line by the Content-Length rule. */
  lemma {:induction false} ParseMessage(verb: string, path: string, version: string, fs: seq<Field>, body: string, read: string)
    requires IsToken(verb) && IsToken(path) && '\n' !in version
    requires WellFormedFields(fs)
    requires ReadBody(Message(verb + " " + path + (" " + version), fs, body),
      BodyStart(verb + " " + path + (" " + version), fs), FieldMap(map[], fs)) == read
    ensures ParseRequest(Message(verb + " " + path + (" " + version), fs, body)) == Parsed(Request(verb, path, FieldMap(map[], fs), read))
  {
    var startLine := verb + " " + path + (" " + version);
    var s := Message(startLine, fs, body);
    MessageStartLine(verb, path, version, fs, body);
    MessageHead(startLine, fs, body);
    MessageLengths(startLine, fs, body);
    ParseRequestOf(s, startLine + "\r", verb, path, |startLine| + 2, FieldMap(map[], fs), BodyStart(startLine, fs), read);
  }

  lemma {:induction false} MessageLengths(startLine: string, fs: seq<Field>, body: string)
    ensures |startLine| + 2 <= BodyStart(startLine, fs) <= |Message(startLine, fs, body)|
  {
  }

  /** The body is the rest of the stream when the declared length matches. */
  lemma {:induction false} ReadBodyRest(s: string, pos: nat, h: map<string, string>)
    requires pos <= |s|
    requires DeclaredLength(h) == Some(|s| - pos)
    ensures ReadBody(s, pos, h) == s[pos..]
  {
    assert s[pos..pos + (|s| - pos)] + Zeros(0) == s[pos..];
  }

  /** The body of a serialised message is read back whole when its
      declared length is its length, and is empty when none is declared. */
  lemma {:induction false} MessageBody(startLine: string, fs: seq<Field>, body: string)
    requires DeclaredLength(FieldMap(map[], fs)) == Some(|body|) ||
      (DeclaredLength(FieldMap(map[], fs)).None? && body == "")
    ensures ReadBody(Message(startLine, fs, body), BodyStart(startLine, fs), FieldMap(map[], fs)) == body
  {
    var s := Message(startLine, fs, body);
    var h := FieldMap(map[], fs);
    assert s[|s| - |body|..] == body by {
      MessageSplit(startLine, fs, body);
    }
    if DeclaredLength(h).Some? {
      ReadBodyRest(s, |s| - |body|, h);
    }
  }

  /** A request serialised with a Content-Length equal to its body's length,
      or without one and without a body, parses back to its method, path,
      headers and body (RFC 9112 sections 2.1 and 6.3). */
  lemma {:induction false} RequestRoundTrip(verb: string, path: string, version: string, fs: seq<Field>, body: string)
    requires IsToken(verb) && IsToken(path) && '\n' !in version
    requires WellFormedFields(fs)
    requires DeclaredLength(FieldMap(map[], fs)) == Some(|body|) ||
      (DeclaredLength(FieldMap(map[], fs)).None? && body == "")
    ensures ParseRequest(Message(verb + " " + path + (" " + version), fs, body))
      == Parsed(Request(verb, path, FieldMap(map[], fs), body))
  {
    MessageBody(verb + " " + path + (" " + version), fs, body);
    ParseMessage(verb, path, version, fs, body, body);
  }

  /** Without an accepted Content-Length the body is dropped, whatever
      follows the head. */
  lemma {:induction false} UndeclaredBodyDropped(verb: string, path: string, version: string, fs: seq<Field>, body: string)
    requires IsToken(verb) && IsToken(path) && '\n' !in version
    requires WellFormedFields(fs)
    requires DeclaredLength(FieldMap(map[], fs)).None?
    ensures ParseRequest(Message(verb + " " + path + (" " + version), fs, body))
      == Parsed(Request(verb, path, FieldMap(map[], fs), ""))
  {
    ParseMessage(verb, path, version, fs, body, "");
  }

  /** A lower-case "content-length" field is well formed, is stored under
      that spelling and is not the declared length. */
  lemma {:induction false} LowerCaseField(m: nat)
    ensures var fs := [Field("content-length", NatToString(m))];
      WellFormedFields(fs) && FieldMap(map[], fs) == map["content-length" := NatToString(m)] &&
      DeclaredLength(FieldMap(map[], fs)).None?
  {
    var n := NatToString(m);
    var fs := [Field("content-length", n)];
    assert n[|n| - 1] != '\r';
    assert FieldMap(map[], fs) == FieldMap(map["content-length" := n], []);
    assert "Content-Length" != "content-length" by {
      assert "Content-Length"[0] != "content-length"[0];
    }
  }

  /** The "Content-Length" spelling is matched exactly: a body framed by any
      other spelling of the field name (RFC 9110 section 5.1 makes names
      case-insensitive) is dropped. */
  lemma {:induction false} LowerCaseContentLengthIgnored(verb: string, path: string, version: string, body: string)
    requires IsToken(verb) && IsToken(path) && '\n' !in version
    ensures var fs := [Field("content-length", NatToString(|body|))];
      ParseRequest(Message(verb + " " + path + (" " + version), fs, body))
      == Parsed(Request(verb, path, map["content-length" := NatToString(|body|)], ""))
  {
    var fs := [Field("content-length", NatToString(|body|))];
    LowerCaseField(|body|);
    UndeclaredBodyDropped(verb, path, version, fs, body);
  }

  // ---------------------------------------------------------------------
  // Reading back a response

  /** No line break in `a + b` when there is none in either part. */
  lemma {:induction false} NoLineBreakConcat(a: string, b: string)
    requires forall k :: 0 <= k < |a| ==> a[k] != '\n'
    requires forall k :: 0 <= k < |b| ==> b[k] != '\n'
    ensures forall k :: 0 <= k < |a + b| ==> (a + b)[k] != '\n'
  {
    forall k | 0 <= k < |a + b|
      ensures (a + b)[k] != '\n'
    {
      if k >= |a| {
        assert (a + b)[k] == b[k - |a|];
      }
    }
  }

  lemma {:induction false} CspOneLine()
    ensures OneLineValue(CSP)
  {
    var a, b, c := "default-src 'self'; ", "script-src 'self' 'unsafe-inline'; ", "style-src 'self' 'unsafe-inline'";
    assert forall k :: 0 <= k < |a| ==> a[k] != '\n';
    assert forall k :: 0 <= k < |b| ==> b[k] != '\n';
    assert forall k :: 0 <= k < |c| ==> c[k] != '\n';
    NoLineBreakConcat(a, b);
    NoLineBreakConcat(a + b, c);
  }

  lemma {:induction false} SecurityNames()
    ensures OneLineName("X-Frame-Options") && OneLineName("X-Content-Type-Options")
    ensures OneLineName("X-XSS-Protection") && OneLineName("Content-Security-Policy")
  {
  }

  lemma {:induction false} CorsNames()
    ensures OneLineName("Referrer-Policy") && OneLineName("Access-Control-Allow-Origin")
    ensures OneLineName("Access-Control-Allow-Methods") && OneLineName("Access-Control-Allow-Headers")
  {
  }

  lemma {:induction false} FixedValues()
    ensures OneLineValue("DENY") && OneLineValue("nosniff") && OneLineValue("1; mode=block")
    ensures OneLineValue("strict-origin-when-cross-origin") && OneLineValue("https://example.com")
    ensures OneLineValue("GET, POST, OPTIONS") && OneLineValue("Content-Type")
  {
  }

  lemma {:induction false} FixedFieldsWellFormed()
    ensures forall i :: 0 <= i < |FIXED_FIELDS| ==> WellFormedField(FIXED_FIELDS[i])
  {
    CspOneLine();
    SecurityNames();
    CorsNames();
    FixedValues();
  }

  /** No fixed field is named Content-Type or Content-Length. */
  lemma {:induction false} FixedFieldsOtherNames()
    ensures forall i :: 0 <= i < |FIXED_FIELDS| ==>
      FIXED_FIELDS[i].name != "Content-Type" && FIXED_FIELDS[i].name != "Content-Length"
  {
  }

  /** The fields of a response are well formed when its content type is,
      and only its own Content-Type and Content-Length fields carry those
      names. */
  lemma {:induction false} ResponseFieldsWellFormed(contentType: string, body: string)
    requires OneLineValue(contentType)
    ensures var fs := ResponseFields(contentType, body);
      (forall i :: 0 <= i < |fs| ==> WellFormedField(fs[i])) &&
      (forall j :: 1 < j < |fs| ==> fs[j].name != "Content-Length") &&
      (forall j :: 0 < j < |fs| ==> fs[j].name != "Content-Type")
  {
    var n := NatToString(|body|);
    assert n[|n| - 1] != '\r';
    assert OneLineName("Content-Type") && OneLineName("Content-Length");
    assert "Content-Length" != "Content-Type" by {
      assert |"Content-Length"| != |"Content-Type"|;
    }
    FixedFieldsWellFormed();
    FixedFieldsOtherNames();
  }

  /** The header map of a response maps Content-Type to the content type and
      Content-Length to the decimal body length. */
  lemma {:induction false} ResponseHeaders(contentType: string, body: string)
    ensures var h := FieldMap(map[], ResponseFields(contentType, body));
      "Content-Type" in h && h["Content-Type"] == contentType &&
      "Content-Length" in h && h["Content-Length"] == NatToString(|body|)
  {
    ResponseLeadingFields(contentType, NatToString(|body|));
  }

  lemma {:induction false} ResponseLeadingFields(contentType: string, length: string)
    ensures var h := FieldMap(map[], [Field("Content-Type", contentType), Field("Content-Length", length)] + FIXED_FIELDS);
      "Content-Type" in h && h["Content-Type"] == contentType &&
      "Content-Length" in h && h["Content-Length"] == length
  {
    FixedFieldsOtherNames();
    FieldNamesDiffer();
    LeadingFields(Field("Content-Type", contentType), Field("Content-Length", length), FIXED_FIELDS);
  }

  lemma {:induction false} FieldNamesDiffer()
    ensures "Content-Type" != "Content-Length"
  {
    assert |"Content-Length"| != |"Content-Type"|;
  }

  /** Two fields ahead of fields with other names keep their values in the
      header map. */
  lemma {:induction false} LeadingFields(a: Field, b: Field, rest: seq<Field>)
    requires a.name != b.name
    requires forall j :: 0 <= j < |rest| ==> rest[j].name != a.name && rest[j].name != b.name
    ensures var h := FieldMap(map[], [a, b] + rest);
      a.name in h && h[a.name] == a.value && b.name in h && h[b.name] == b.value
  {
    var fs := [a, b] + rest;
    assert forall j :: 2 <= j < |fs| ==> fs[j] == rest[j - 2];
    FieldMapLast(map[], fs, 0);
    FieldMapLast(map[], fs, 1);
  }

  /** A decimal Content-Length within the limit is accepted as is. */
  lemma {:induction false} DeclaredLengthOf(h: map<string, string>, n: nat)
    requires "Content-Length" in h && h["Content-Length"] == NatToString(n)
    requires n <= MAX_REQUEST_SIZE
    ensures DeclaredLength(h) == Some(n)
  {
    StolNatToString(n);
  }

  /** The pieces of a status line as a start line. */
  lemma {:induction false} StatusLineTokens(code: int)
    ensures IsToken("HTTP/1.1") && IsToken(IntToString(code))
  {
  }

  /** No reason phrase holds a line break. */
  lemma {:induction false} ReasonPhraseOneLine(code: int)
    ensures '\n' !in ReasonPhrase(code)
  {
    SuccessRedirectPhrasesOneLine();
    ClientErrorPhrasesOneLine();
    MoreClientErrorPhrasesOneLine();
    ServerErrorPhrasesOneLine();
  }

  /** The 2xx and 3xx phrases. */
  lemma {:induction false} SuccessRedirectPhrasesOneLine()
    ensures '\n' !in "OK" && '\n' !in "Created" && '\n' !in "Accepted" && '\n' !in "No Content"
    ensures '\n' !in "Moved Permanently" && '\n' !in "Found" && '\n' !in "Not Modified"
  {
  }

  /** The 4xx phrases. */
  lemma {:induction false} ClientErrorPhrasesOneLine()
    ensures '\n' !in "Bad Request" && '\n' !in "Unauthorized" && '\n' !in "Forbidden" && '\n' !in "Not Found"
  {
  }

  lemma {:induction false} MoreClientErrorPhrasesOneLine()
    ensures '\n' !in "Method Not Allowed" && '\n' !in "Request Entity Too Large" && '\n' !in "Unsupported Media Type" && '\n' !in "Too Many Requests"
  {
  }

  /** The 5xx phrases and the default. */
  lemma {:induction false} ServerErrorPhrasesOneLine()
    ensures '\n' !in "Internal Server Error" && '\n' !in "Not Implemented" && '\n' !in "Bad Gateway" && '\n' !in "Service Unavailable"
    ensures '\n' !in "Unknown"
  {
  }

  /** The request parser reads a response back as a message whose first two
      tokens are the protocol version and the status code: it recovers every
      header field and the whole body. */
  lemma {:induction false} ResponseRoundTrip(code: int, contentType: string, body: string)
    requires OneLineValue(contentType)
    requires |body| <= MAX_REQUEST_SIZE
    ensures ParseRequest(BuildHttpResponse(code, contentType, body))
      == Parsed(Request("HTTP/1.1", IntToString(code), FieldMap(map[], ResponseFields(contentType, body)), body))
  {
    StatusLineTokens(code);
    ReasonPhraseOneLine(code);
    ResponseFieldsWellFormed(contentType, body);
    WellFormedFieldsEach(ResponseFields(contentType, body));
    ResponseHeaders(contentType, body);
    DeclaredLengthOf(FieldMap(map[], ResponseFields(contentType, body)), |body|);
    RequestRoundTrip("HTTP/1.1", IntToString(code), ReasonPhrase(code), ResponseFields(contentType, body), body);
  }

  // ---------------------------------------------------------------------
  // Malformed heads

  /** A header line whose only ':' is its last character, with no CR after
      it, makes `substr(colon_pos + 2)` throw: the parse ends in `Crashed`,
      whatever the start line and whatever follows. */
  lemma {:induction false} ColonAtEndCrashes(startLine: string, name: string, rest: string)
    requires '\n' !in startLine
    requires ':' !in name && '\n' !in name
    ensures ParseRequest(startLine + "\n" + (name + ":" + "\n") + rest) == Crashed
  {
    var s := startLine + "\n" + (name + ":" + "\n") + rest;
    var line := name + ":";
    assert s == [] + (startLine + "\n") + ((name + ":" + "\n") + rest);
    LineOf(s, [], startLine, (name + ":" + "\n") + rest, |startLine| + 1);
    assert s == (startLine + "\n") + (line + "\n") + rest;
    LineOf(s, startLine + "\n", line, rest, |startLine| + |line| + 2);
    forall k | 0 <= k < |name|
      ensures line[k] != ':'
    {
      assert line[k] == name[k];
    }
    assert line[|name|] == ':';
    assert FindColon(line, 0) == Some(|name|);
    assert HeaderAction(line) == Throw;
  }

  // ---------------------------------------------------------------------
  // Framing one request on a connection

  /** "\r\n\r\n", the blank line that ends a head, starts at `k`. */
  predicate BlankLineAt(s: string, k: nat) {
    k + 4 <= |s| && s[k..k + 4] == "\r\n\r\n"
  }

  /** `find("\r\n\r\n")` from `i`: the first blank line, the end of the head. */
  function HeadEnd(s: string, i: nat): (r: Option<nat>)
    requires i <= |s|
    ensures r.Some? ==> i <= r.value && BlankLineAt(s, r.value)
    ensures forall k: nat :: i <= k && (r.None? || k < r.value) ==> !BlankLineAt(s, k)
    decreases |s| - i
  {
    if i + 4 > |s| then None
    else if BlankLineAt(s, i) then Some(i)
    else HeadEnd(s, i + 1)
  }

  /** A head found in a prefix is still there, at the same place, once more
      bytes arrive. */
  lemma {:induction false} HeadEndExtends(data: string, a: nat, b: nat)
    requires a <= b <= |data|
    requires HeadEnd(data[..a], 0).Some?
    ensures HeadEnd(data[..b], 0) == HeadEnd(data[..a], 0)
  {
    var e := HeadEnd(data[..a], 0).value;
    assert data[..b][e..e + 4] == data[..a][e..e + 4];
    assert BlankLineAt(data[..b], e);
    var r := HeadEnd(data[..b], 0);
    if r.Some? && r.value < e {
      assert data[..a][r.value..r.value + 4] == data[..b][r.value..r.value + 4];
      assert BlankLineAt(data[..a], r.value);
    }
  }

  /** What one `read` into the free part of the buffer returns: the
      kernel's answer `granted` (zero or less for end of stream, a timeout
      or an error), never more than the `room` asked for nor more than the
      peer still has to send. */
  function Received(granted: int, room: nat, left: nat): (n: int)
    ensures n <= 0 <==> granted <= 0 || room == 0 || left == 0
    ensures n > 0 ==> n <= room && n <= left && n <= granted
  {
    if granted <= 0 then granted else Min(granted, Min(room, left))
  }

  /** The head the read loop parses ends in a POST whose Content-Length it
      refuses with 400: the header is there but `std::stol` fails or the
      value is negative or above 30 MiB. */
  predicate Rejected(p: Parse) {
    p.Parsed? && p.req.verb == "POST" && "Content-Length" in p.req.headers
    && DeclaredLength(p.req.headers).None?
  }

  /** How a connection ends: nothing read, 400 for a refused
      Content-Length, an exception out of the parser, or the parsed request
      handed to dispatch. Each carries the bytes received. No handler in the
      detached client thread catches the parser's exception, so
      `std::terminate` ends the whole server (src/server.cpp:699-700). */
  datatype Outcome =
    | NoRequest
    | BadRequest(received: string)
    | Terminated(received: string)
    | Dispatched(received: string, req: Request)

  /** Where the read loop of `handle_client` leaves a connection: how it
      ends, `total_read`, the buffer size, `total_read` when "\r\n\r\n" was
      first seen, and the number of `read` calls made. */
  datatype Framed = Framed(out: Outcome, total: nat, size: nat, head: Option<nat>, calls: nat)

  /** The buffer after a read that left the head incomplete: doubled,
      capped at 30 MiB, once fewer than 1 KiB would be left. */
  function Grow(size: nat, total: nat): (r: nat)
    requires size <= MAX_REQUEST_SIZE
    ensures size <= r <= MAX_REQUEST_SIZE
  {
    if total + GROW_MARGIN >= size then Min(size * 2, MAX_REQUEST_SIZE) else size
  }

  /** The parse the head is checked with accepts a POST body: the method is
      POST and the Content-Length passes. */
  predicate Accepted(p: Parse) {
    p.Parsed? && p.req.verb == "POST" && DeclaredLength(p.req.headers).Some?
  }

  /** No further read would bring anything: none is left, or the last one
      made returned nothing. */
  predicate ReadsEnded(data: string, grants: seq<int>, calls: nat, total: nat, size: nat) {
    calls == |grants|
    || (0 < calls <= |grants| && total <= |data| && total < size
        && Received(grants[calls - 1], size - total - 1, |data| - total) <= 0)
  }

  /** After the read loop (src/server.cpp:585-603): nothing read, or the
      bytes received parsed for dispatch. */
  function Finish(data: string, total: nat, size: nat, head: Option<nat>, calls: nat): (r: Framed)
    requires total <= |data|
    ensures r.total == total && r.size == size && r.head == head && r.calls == calls
    ensures r.out.NoRequest? <==> total == 0
    ensures !r.out.BadRequest?
  {
    if total == 0 then Framed(NoRequest, total, size, head, calls)
    else
      match ParseRequest(data[..total])
      case Crashed => Framed(Terminated(data[..total]), total, size, head, calls)
      case Parsed(req) => Framed(Dispatched(data[..total], req), total, size, head, calls)
  }

  /** The body loop (src/server.cpp:548-563) from `total` bytes after
      `calls` reads: while fewer than `length` bytes follow `bodyStart`, it
      reads into the room the buffer has left, until a read returns nothing.
      The bytes then in and the reads made. */
  function BodyLoop(data: string, grants: seq<int>, calls: nat, total: nat, size: nat, bodyStart: nat, length: int): (r: (nat, nat))
    requires calls <= |grants| && total <= |data| && total < size
    ensures total <= r.0 <= |data| && r.0 < size
    ensures calls <= r.1 <= |grants|
    decreases |grants| - calls
  {
    if total - bodyStart >= length || calls == |grants| then (total, calls)
    else
      var got := Received(grants[calls], size - total - 1, |data| - total);
      if got <= 0 then (total, calls + 1)
      else BodyLoop(data, grants, calls + 1, total + got, size, bodyStart, length)
  }

  /** The head has arrived, with its blank line at `e`: it is parsed; a POST
      with a Content-Length has the length checked and its body read; then
      the loop ends. */
  function AtHead(data: string, grants: seq<int>, calls: nat, total: nat, size: nat, e: nat): (r: Framed)
    requires calls <= |grants| && total <= |data| && total < size
    ensures total <= r.total <= |data| && r.total < r.size == size
    ensures calls <= r.calls <= |grants| && r.head == Some(total)
  {
    match ParseRequest(data[..total])
    case Crashed => Framed(Terminated(data[..total]), total, size, Some(total), calls)
    case Parsed(req) =>
      if req.verb == "POST" && "Content-Length" in req.headers then
        match DeclaredLength(req.headers)
        case None => Framed(BadRequest(data[..total]), total, size, Some(total), calls)
        case Some(length) =>
          var r := BodyLoop(data, grants, calls, total, size, e + 4, length);
          Finish(data, r.0, size, Some(total), r.1)
      else Finish(data, total, size, Some(total), calls)
  }

  /** Where the head loop leaves off: `total_read`, the buffer size, the
      number of `read` calls made, and where "\r\n\r\n" starts once it is
      in. */
  datatype HeadRead = HeadRead(total: nat, size: nat, calls: nat, end: Option<nat>)

  /** The head loop (src/server.cpp:510-583) after `calls` reads that
      brought `total` bytes without a blank line: no read left, or one that
      returns nothing, ends it; otherwise the bytes are added and the head
      is looked for; without it the buffer grows. */
  function HeadLoop(data: string, grants: seq<int>, calls: nat, total: nat, size: nat): (r: HeadRead)
    requires calls <= |grants| && total <= |data| && total < size <= MAX_REQUEST_SIZE
    ensures total <= r.total <= |data| && r.total < r.size && size <= r.size <= MAX_REQUEST_SIZE
    ensures calls <= r.calls <= |grants|
    ensures r.end.Some? ==> total < r.total
    decreases |grants| - calls
  {
    if calls == |grants| then HeadRead(total, size, calls, None)
    else
      var got := Received(grants[calls], size - total - 1, |data| - total);
      if got <= 0 then HeadRead(total, size, calls + 1, None)
      else
        var t := total + got;
        match HeadEnd(data[..t], 0)
        case Some(e) => HeadRead(t, size, calls + 1, Some(e))
        case None => HeadLoop(data, grants, calls + 1, t, Grow(size, t))
  }

  /** The framing of one connection: the peer sends `data`, and `grants[i]`
      is what the kernel lets the i-th `read` return; reads past the end of
      `grants` see end of stream. The buffer starts at 64 KiB. The head
      loop runs; if it found the head, the head is handled; otherwise what
      was received goes to dispatch. */
  function Frame(data: string, grants: seq<int>): Framed {
    var h := HeadLoop(data, grants, 0, 0, INITIAL_BUFFER);
    match h.end
    case None => Finish(data, h.total, h.size, None, h.calls)
    case Some(e) => AtHead(data, grants, h.calls, h.total, h.size, e)
  }

  /** The body loop of `handle_client` (src/server.cpp:548-563): calls go
      on into the free room of the buffer, which no longer grows, until
      `length` bytes from `bodyStart` on are in or a read returns nothing. */
  method ReadBodyBytes(data: string, grants: seq<int>, i0: nat, total0: nat, size: nat, bodyStart: nat, length: int)
    returns (total: nat, i: nat)
    requires i0 <= |grants| && total0 <= |data| && total0 < size <= MAX_REQUEST_SIZE
    ensures (total, i) == BodyLoop(data, grants, i0, total0, size, bodyStart, length)
    ensures total - bodyStart >= length || i == |grants|
      || (i0 < i && Received(grants[i - 1], size - total - 1, |data| - total) <= 0)
  {
    total, i := total0, i0;
    var bodyRead: int := total - bodyStart;
    while bodyRead < length && i < |grants|
      invariant i0 <= i <= |grants|
      invariant total0 <= total <= |data| && total < size
      invariant bodyRead == total - bodyStart
      invariant BodyLoop(data, grants, i, total, size, bodyStart, length) == BodyLoop(data, grants, i0, total0, size, bodyStart, length)
      decreases |grants| - i
    {
      if total >= MAX_REQUEST_SIZE {
        // the 413 reply: unreachable, a read never fills the buffer
        assert false;
      }
      var got := Received(grants[i], size - total - 1, |data| - total);
      var next := i + 1;
      if got <= 0 {
        i := next;
        break;
      }
      total, i := total + got, next;
      bodyRead := bodyRead + got;
    }
  }

  /** One step of the head loop that finds the head. */
  lemma HeadLoopFound(data: string, grants: seq<int>, calls: nat, total: nat, size: nat, t: nat, e: nat)
    requires calls < |grants| && total <= |data| && total < size <= MAX_REQUEST_SIZE
    requires t == total + Received(grants[calls], size - total - 1, |data| - total) && t > total
    requires HeadEnd(data[..t], 0) == Some(e)
    ensures HeadLoop(data, grants, calls, total, size) == HeadRead(t, size, calls + 1, Some(e))
  {
    var got := Received(grants[calls], size - total - 1, |data| - total);
    assert calls != |grants| && got > 0 && total + got == t;
  }

  /** One step of the head loop that reads without finding the head. */
  lemma HeadLoopGrows(data: string, grants: seq<int>, calls: nat, total: nat, size: nat, t: nat)
    requires calls < |grants| && total <= |data| && total < size <= MAX_REQUEST_SIZE
    requires t == total + Received(grants[calls], size - total - 1, |data| - total) && t > total
    requires HeadEnd(data[..t], 0).None?
    ensures HeadLoop(data, grants, calls, total, size) == HeadLoop(data, grants, calls + 1, t, Grow(size, t))
  {
    var got := Received(grants[calls], size - total - 1, |data| - total);
    assert calls != |grants| && got > 0 && total + got == t;
  }

  /** The step of `handle_client` that finds "\r\n\r\n" at `e` after
      `t` bytes (src/server.cpp:525-569): the head is parsed; a POST with a
      Content-Length has it checked, and gets 400 when it is refused, or its
      body read. An outcome here ends the connection at once; otherwise the
      read loop ends with `total` bytes after `calls` reads. */
  method HeadArrived(data: string, grants: seq<int>, next: nat, t: nat, size: nat, e: nat)
    returns (early: Option<Outcome>, total: nat, calls: nat)
    requires next <= |grants| && t <= |data| && t < size <= MAX_REQUEST_SIZE
    ensures t <= total <= |data| && total < size
    ensures early.Some? ==> AtHead(data, grants, next, t, size, e) == Framed(early.value, total, size, Some(t), calls)
    ensures early.None? ==> AtHead(data, grants, next, t, size, e) == Finish(data, total, size, Some(t), calls)
  {
    var current := data[..t];
    var temp := ParseHttpRequest(current);
    if temp.Crashed? {
      return Some(Terminated(current)), t, next;
    }
    if temp.req.verb == "POST" && "Content-Length" in temp.req.headers {
      var contentLength := Stol(temp.req.headers["Content-Length"]);
      if contentLength.None? || contentLength.value < 0 || contentLength.value > MAX_REQUEST_SIZE {
        return Some(BadRequest(current)), t, next;
      }
      AtHeadBody(data, grants, next, t, size, e, temp.req, contentLength.value);
      total, calls := ReadBodyBytes(data, grants, next, t, size, e + 4, contentLength.value);
      early := None;
    } else {
      early, total, calls := None, t, next;
    }
  }

  /** `handle_client` (src/server.cpp:493-603) up to dispatch: the head is
      read into a buffer that starts at 64 KiB and doubles, capped at
      30 MiB, whenever fewer than 1 KiB would be left; the body is read into
      whatever room remains. */
  method HandleClient(data: string, grants: seq<int>) returns (out: Outcome, total: nat, size: nat, head: Option<nat>, calls: nat)
    ensures Framed(out, total, size, head, calls) == Frame(data, grants)
  {
    size := INITIAL_BUFFER;
    total := 0;
    head := None;
    calls := 0;
    while calls < |grants|
      invariant calls <= |grants|
      invariant total <= |data| && total < size <= MAX_REQUEST_SIZE
      invariant head.None?
      invariant HeadLoop(data, grants, calls, total, size) == HeadLoop(data, grants, 0, 0, INITIAL_BUFFER)
      decreases |grants| - calls
    {
      var got := Received(grants[calls], size - total - 1, |data| - total);
      var next := calls + 1;
      if got <= 0 {
        assert HeadLoop(data, grants, calls, total, size) == HeadRead(total, size, next, None);
        calls := next;
        assert Finish(data, total, size, head, calls) == Frame(data, grants);
        break;
      }
      var t := total + got;
      if t >= MAX_REQUEST_SIZE {
        // the 413 reply: unreachable, a read never fills the buffer
        assert false;
      }
      var current := data[..t];
      var headerEnd := HeadEnd(current, 0);
      if headerEnd.Some? {
        HeadLoopFound(data, grants, calls, total, size, t, headerEnd.value);
        assert Frame(data, grants) == AtHead(data, grants, next, t, size, headerEnd.value);
        head := Some(t);
        var early;
        early, total, calls := HeadArrived(data, grants, next, t, size, headerEnd.value);
        if early.Some? {
          return early.value, total, size, head, calls;
        }
        assert Finish(data, total, size, head, calls) == Frame(data, grants);
        break;
      }
      var grown := size;
      if t + GROW_MARGIN >= size {
        grown := Min(size * 2, MAX_REQUEST_SIZE);
      }
      assert grown == Grow(size, t);
      HeadLoopGrows(data, grants, calls, total, size, t);
      total, calls, size := t, next, grown;
    }
    if calls == |grants| && head.None? {
      assert Finish(data, total, size, head, calls) == Frame(data, grants);
    }
    if total == 0 {
      return NoRequest, total, size, head, calls;
    }
    var request := ParseHttpRequest(data[..total]);
    if request.Crashed? {
      out := Terminated(data[..total]);
    } else {
      out := Dispatched(data[..total], request.req);
    }
  }

  /** The body loop stops for one of three reasons: the declared body is
      in, no read is left, or the last read returned nothing. It reads past
      `total` only while the body is incomplete. */
  lemma {:induction false} BodyLoopStops(data: string, grants: seq<int>, calls: nat, total: nat, size: nat, bodyStart: nat, length: int)
    requires calls <= |grants| && total <= |data| && total < size
    ensures var r := BodyLoop(data, grants, calls, total, size, bodyStart, length);
      r.0 - bodyStart >= length || r.1 == |grants|
      || (calls < r.1 && Received(grants[r.1 - 1], size - r.0 - 1, |data| - r.0) <= 0)
    ensures BodyLoop(data, grants, calls, total, size, bodyStart, length).0 > total ==> total - bodyStart < length
    decreases |grants| - calls
  {
    if total - bodyStart < length && calls < |grants| {
      var got := Received(grants[calls], size - total - 1, |data| - total);
      if got > 0 {
        BodyLoopStops(data, grants, calls + 1, total + got, size, bodyStart, length);
      }
    }
  }

  /** `BodyLoopStops` in the terms of `ReadsEnded`. */
  lemma BodyLoopEnds(data: string, grants: seq<int>, calls: nat, total: nat, size: nat, bodyStart: nat, length: int)
    requires calls <= |grants| && total <= |data| && total < size
    ensures var r := BodyLoop(data, grants, calls, total, size, bodyStart, length);
      r.0 - bodyStart >= length || ReadsEnded(data, grants, r.1, r.0, size)
  {
    BodyLoopStops(data, grants, calls, total, size, bodyStart, length);
  }

  /** With a peer that has enough to send and reads that all return
      something, a body that does not fit is read until the buffer is full:
      one byte short of its size, the room `read` is never given. */
  lemma {:induction false} BodyLoopFills(data: string, grants: seq<int>, calls: nat, total: nat, size: nat, bodyStart: nat, length: int)
    requires calls <= |grants| && total <= |data| && total < size
    requires forall j :: calls <= j < |grants| ==> grants[j] > 0
    requires |grants| - calls >= size - 1 - total
    requires size - 1 <= |data| && size - 1 <= bodyStart + length
    ensures BodyLoop(data, grants, calls, total, size, bodyStart, length).0 == size - 1
    decreases |grants| - calls
  {
    if total < size - 1 {
      var got := Received(grants[calls], size - total - 1, |data| - total);
      assert got >= 1;
      BodyLoopFills(data, grants, calls + 1, total + got, size, bodyStart, length);
    }
  }

  /** The outcome agrees with the bytes received: none exactly when
      nothing arrived, and otherwise their parse, or the exception out of
      it, or the 400 reply. */
  predicate Settles(data: string, r: Framed)
    requires r.total <= |data|
  {
    (r.out.NoRequest? <==> r.total == 0)
    && (!r.out.NoRequest? ==> r.out.received == data[..r.total])
    && (r.out.Dispatched? ==> ParseRequest(data[..r.total]) == Parsed(r.out.req))
    && (r.out.Terminated? ==> ParseRequest(data[..r.total]) == Crashed)
  }

  /** After the read loop the outcome is the parse of what was received,
      never the 400 reply. */
  lemma FinishSettles(data: string, total: nat, size: nat, head: Option<nat>, calls: nat)
    requires total <= |data|
    ensures Settles(data, Finish(data, total, size, head, calls))
  {
  }

  /** The step that finds the head: the outcome agrees with the bytes
      received, is 400 exactly when the head's parse refuses its
      Content-Length, and bytes past the head are read only for an accepted
      POST. */
  lemma {:induction false} AtHeadOutcome(data: string, grants: seq<int>, calls: nat, t: nat, size: nat, e: nat)
    requires calls <= |grants| && 0 < t <= |data| && t < size
    requires HeadEnd(data[..t], 0) == Some(e)
    ensures var r := AtHead(data, grants, calls, t, size, e);
      t <= r.total <= |data| && r.total < r.size == size && calls <= r.calls <= |grants| && r.head == Some(t)
      && Settles(data, r) && HeadEnd(data[..r.total], 0) == Some(e)
      && (r.out.BadRequest? <==> Rejected(ParseRequest(data[..t])))
      && (r.total > t ==> Accepted(ParseRequest(data[..t])))
  {
    match ParseRequest(data[..t])
    case Crashed =>
      assert AtHead(data, grants, calls, t, size, e) == Framed(Terminated(data[..t]), t, size, Some(t), calls);
    case Parsed(req) =>
      if req.verb == "POST" && "Content-Length" in req.headers {
        match DeclaredLength(req.headers)
        case None =>
          assert AtHead(data, grants, calls, t, size, e) == Framed(BadRequest(data[..t]), t, size, Some(t), calls);
        case Some(length) =>
          var b := BodyLoop(data, grants, calls, t, size, e + 4, length);
          assert AtHead(data, grants, calls, t, size, e) == Finish(data, b.0, size, Some(t), b.1);
          FinishSettles(data, b.0, size, Some(t), b.1);
          HeadEndExtends(data, t, b.0);
      } else {
        assert AtHead(data, grants, calls, t, size, e) == Finish(data, t, size, Some(t), calls);
        FinishSettles(data, t, size, Some(t), calls);
      }
  }

  /** After the head of an accepted POST, reading stopped once the
      declared body was in or reads ended. */
  predicate BodyEnded(data: string, grants: seq<int>, r: Framed) {
    r.head.Some? && r.head.value <= |data| && Accepted(ParseRequest(data[..r.head.value])) ==>
      HeadEnd(data[..r.head.value], 0).Some?
      && (r.total - (HeadEnd(data[..r.head.value], 0).value + 4)
            >= DeclaredLength(ParseRequest(data[..r.head.value]).req.headers).value
          || ReadsEnded(data, grants, r.calls, r.total, r.size))
  }

  /** The step that finds the head keeps the buffer, and after the head of
      an accepted POST stops once the declared body is in or reads end. */
  lemma {:induction false} AtHeadStops(data: string, grants: seq<int>, calls: nat, t: nat, size: nat, e: nat)
    requires calls <= |grants| && 0 < t <= |data| && t < size
    requires HeadEnd(data[..t], 0) == Some(e)
    ensures var r := AtHead(data, grants, calls, t, size, e);
      r.head == Some(t) && r.size == size && BodyEnded(data, grants, r)
  {
    match ParseRequest(data[..t])
    case Crashed =>
      assert AtHead(data, grants, calls, t, size, e) == Framed(Terminated(data[..t]), t, size, Some(t), calls);
    case Parsed(req) =>
      if req.verb == "POST" && "Content-Length" in req.headers {
        match DeclaredLength(req.headers)
        case None =>
          assert AtHead(data, grants, calls, t, size, e) == Framed(BadRequest(data[..t]), t, size, Some(t), calls);
        case Some(length) =>
          var b := BodyLoop(data, grants, calls, t, size, e + 4, length);
          AtHeadBody(data, grants, calls, t, size, e, req, length);
          FinishSettles(data, b.0, size, Some(t), b.1);
          BodyLoopEnds(data, grants, calls, t, size, e + 4, length);
      } else {
        assert AtHead(data, grants, calls, t, size, e) == Finish(data, t, size, Some(t), calls);
        FinishSettles(data, t, size, Some(t), calls);
      }
  }

  /** The head loop, from `total` bytes without a blank line, reports the
      first "\r\n\r\n" in what it holds when it stops, and finds none
      only when reads end. */
  lemma {:induction false} HeadLoopEnds(data: string, grants: seq<int>, calls: nat, total: nat, size: nat)
    requires calls <= |grants| && total <= |data| && total < size <= MAX_REQUEST_SIZE
    requires HeadEnd(data[..total], 0).None?
    ensures var r := HeadLoop(data, grants, calls, total, size);
      HeadEnd(data[..r.total], 0) == r.end
      && (r.end.None? ==> ReadsEnded(data, grants, r.calls, r.total, r.size))
    decreases |grants| - calls
  {
    if calls == |grants| {
      assert HeadLoop(data, grants, calls, total, size) == HeadRead(total, size, calls, None);
    } else {
      var got := Received(grants[calls], size - total - 1, |data| - total);
      if got <= 0 {
        assert HeadLoop(data, grants, calls, total, size) == HeadRead(total, size, calls + 1, None);
      } else {
        var t := total + got;
        match HeadEnd(data[..t], 0)
        case Some(e) =>
          HeadLoopFound(data, grants, calls, total, size, t, e);
        case None =>
          HeadLoopGrows(data, grants, calls, total, size, t);
          HeadLoopEnds(data, grants, calls + 1, t, Grow(size, t));
      }
    }
  }

  /** While the head is incomplete the buffer keeps 1 KiB free, until it
      reaches 30 MiB. */
  lemma {:induction false} HeadLoopRoom(data: string, grants: seq<int>, calls: nat, total: nat, size: nat)
    requires calls <= |grants| && total <= |data| && total < size <= MAX_REQUEST_SIZE
    requires INITIAL_BUFFER <= size && (total + GROW_MARGIN < size || size == MAX_REQUEST_SIZE)
    ensures var r := HeadLoop(data, grants, calls, total, size);
      r.end.None? ==> r.total + GROW_MARGIN < r.size || r.size == MAX_REQUEST_SIZE
    decreases |grants| - calls
  {
    if calls == |grants| {
      assert HeadLoop(data, grants, calls, total, size) == HeadRead(total, size, calls, None);
    } else {
      var got := Received(grants[calls], size - total - 1, |data| - total);
      if got <= 0 {
        assert HeadLoop(data, grants, calls, total, size) == HeadRead(total, size, calls + 1, None);
      } else {
        var t := total + got;
        match HeadEnd(data[..t], 0)
        case Some(e) =>
          HeadLoopFound(data, grants, calls, total, size, t, e);
        case None =>
          HeadLoopGrows(data, grants, calls, total, size, t);
          HeadLoopRoom(data, grants, calls + 1, t, Grow(size, t));
      }
    }
  }

  /** Nothing is received exactly when the first read brings nothing. */
  lemma FirstReadEmpty(data: string, grants: seq<int>)
    ensures HeadLoop(data, grants, 0, 0, INITIAL_BUFFER).total == 0
      <==> |grants| == 0 || grants[0] <= 0 || data == []
  {
    if |grants| > 0 {
      var t := Received(grants[0], INITIAL_BUFFER - 0 - 1, |data| - 0);
      if t > 0 {
        match HeadEnd(data[..t], 0)
        case Some(e) =>
          HeadLoopFound(data, grants, 0, 0, INITIAL_BUFFER, t, e);
        case None =>
          HeadLoopGrows(data, grants, 0, 0, INITIAL_BUFFER, t);
      } else {
        assert HeadLoop(data, grants, 0, 0, INITIAL_BUFFER) == HeadRead(0, INITIAL_BUFFER, 1, None);
      }
    }
  }

  /** `handle_client`'s framing: the bytes received are a prefix of what
      was sent, shorter than the buffer, which never exceeds 30 MiB, so the
      413 replies cannot happen. Nothing is received exactly when the first
      read returns nothing. The connection gets 400 exactly when the head's
      parse refuses its Content-Length, dies in the parser exactly when the
      parse of what was received throws, and otherwise hands that parse to
      dispatch; only an accepted POST reads past the head. */
  lemma {:induction false} FrameOutcome(data: string, grants: seq<int>)
    ensures var r := Frame(data, grants);
      r.total <= |data| && r.total < r.size && INITIAL_BUFFER <= r.size <= MAX_REQUEST_SIZE
      && r.calls <= |grants|
      && (r.out.NoRequest? <==> r.total == 0)
      && (r.total == 0 <==> |grants| == 0 || grants[0] <= 0 || data == [])
      && (!r.out.NoRequest? ==> r.out.received == data[..r.total])
      && (r.out.Dispatched? ==> ParseRequest(data[..r.total]) == Parsed(r.out.req))
      && (r.out.Terminated? ==> ParseRequest(data[..r.total]) == Crashed)
    ensures var r := Frame(data, grants);
      (r.head.None? ==> HeadEnd(data[..r.total], 0).None? && !r.out.BadRequest?)
      && (r.head.Some? ==> r.head.value <= r.total && HeadEnd(data[..r.total], 0) == HeadEnd(data[..r.head.value], 0))
      && (r.head.Some? ==> (r.out.BadRequest? <==> Rejected(ParseRequest(data[..r.head.value]))))
      && (r.head.Some? && r.total > r.head.value ==> Accepted(ParseRequest(data[..r.head.value])))
  {
    var h := HeadLoop(data, grants, 0, 0, INITIAL_BUFFER);
    HeadLoopEnds(data, grants, 0, 0, INITIAL_BUFFER);
    FirstReadEmpty(data, grants);
    match h.end
    case None =>
      assert Frame(data, grants) == Finish(data, h.total, h.size, None, h.calls);
      FinishSettles(data, h.total, h.size, None, h.calls);
    case Some(e) =>
      assert Frame(data, grants) == AtHead(data, grants, h.calls, h.total, h.size, e);
      AtHeadOutcome(data, grants, h.calls, h.total, h.size, e);
  }

  /** Why `handle_client` stops reading: without a complete head, only
      because a read returned nothing or none is left, with the buffer still
      1 KiB from full unless it reached 30 MiB; after the head of anything
      but an accepted POST, at once; after an accepted POST's head, once the
      declared body is in or reads end. */
  lemma {:induction false} FrameStops(data: string, grants: seq<int>)
    ensures var r := Frame(data, grants);
      r.total <= |data| && (r.head.Some? ==> r.head.value <= r.total)
    ensures var r := Frame(data, grants);
      r.head.None? ==>
        ReadsEnded(data, grants, r.calls, r.total, r.size)
        && (r.total + GROW_MARGIN < r.size || r.size == MAX_REQUEST_SIZE)
    ensures var r := Frame(data, grants);
      r.head.Some? ==>
        !Accepted(ParseRequest(data[..r.head.value])) ==> r.total == r.head.value
    ensures var r := Frame(data, grants);
      r.head.Some? && Accepted(ParseRequest(data[..r.head.value])) ==>
        HeadEnd(data[..r.head.value], 0).Some?
        && (r.total - (HeadEnd(data[..r.head.value], 0).value + 4)
              >= DeclaredLength(ParseRequest(data[..r.head.value]).req.headers).value
            || ReadsEnded(data, grants, r.calls, r.total, r.size))
  {
    var h := HeadLoop(data, grants, 0, 0, INITIAL_BUFFER);
    HeadLoopEnds(data, grants, 0, 0, INITIAL_BUFFER);
    HeadLoopRoom(data, grants, 0, 0, INITIAL_BUFFER);
    match h.end
    case None =>
      assert Frame(data, grants) == Finish(data, h.total, h.size, None, h.calls);
    case Some(e) =>
      assert Frame(data, grants) == AtHead(data, grants, h.calls, h.total, h.size, e);
      AtHeadOutcome(data, grants, h.calls, h.total, h.size, e);
      AtHeadStops(data, grants, h.calls, h.total, h.size, e);
  }

  // ---------------------------------------------------------------------
  // The head does not depend on what follows it

  /** The head `parse_http_request` reads after the request line. */
  function RequestHead(s: string): Head {
    match GetLine(s, 0)
    case None => Head(map[], 0)
    case Some((_, next)) => ScanHeaders(s, next, map[])
  }

  /** A line that ends inside `s` ends at the same place in any extension
      of `s`. */
  lemma LineEndAgrees(s: string, t: string, pos: nat)
    requires |s| <= |t| && s == t[..|s|] && pos <= |s|
    requires LineEnd(s, pos) < |s|
    ensures LineEnd(t, pos) == LineEnd(s, pos)
  {
    assert t[LineEnd(s, pos)] == s[LineEnd(s, pos)];
  }

  /** The characters of a blank line. */
  lemma BlankLineChars(s: string, e: nat)
    requires BlankLineAt(s, e)
    ensures s[e] == '\r' && s[e + 1] == '\n' && s[e + 2] == '\r' && s[e + 3] == '\n'
  {
    assert s[e..e + 4][1] == s[e + 1];
    assert s[e..e + 4][2] == s[e + 2];
    assert s[e..e + 4][3] == s[e + 3];
  }

  /** A line that starts before the blank line at `e` ends by `e + 1`; the
      one that starts at `e + 2` is a lone CR. */
  lemma {:induction false} LineBeforeBlank(s: string, pos: nat, e: nat)
    requires BlankLineAt(s, e) && pos <= e + 2
    ensures pos <= e + 1 ==> LineEnd(s, pos) <= e + 1
    ensures pos == e + 2 ==> LineEnd(s, pos) == e + 3 && s[pos..LineEnd(s, pos)] == "\r"
  {
    BlankLineChars(s, e);
  }

  /** A line read from a start up to the blank line at `e` is read the
      same in any extension of `s`: it ends by `e + 1`, or is the lone CR
      that ends the head. */
  lemma GetLineAgrees(s: string, t: string, pos: nat, e: nat)
    requires |s| <= |t| && s == t[..|s|] && BlankLineAt(s, e) && pos <= e + 2
    ensures GetLine(t, pos) == GetLine(s, pos) && GetLine(s, pos).Some?
    ensures pos <= e + 1 ==> GetLine(s, pos).value.1 <= e + 2
    ensures pos == e + 2 ==> GetLine(s, pos).value == ("\r", e + 4)
  {
    LineBeforeBlank(s, pos, e);
    var q := LineEnd(s, pos);
    LineEndAgrees(s, t, pos);
    assert t[pos..q] == s[pos..q];
  }

  /** The header loop from any line start up to the blank line at `e` stops
      by `e + 4`, and reads the same in any extension of `s`. */
  lemma {:induction false} ScanHeadersPrefix(s: string, t: string, pos: nat, h: map<string, string>, e: nat)
    requires |s| <= |t| && s == t[..|s|] && BlankLineAt(s, e) && pos <= e + 2
    ensures ScanHeaders(t, pos, h) == ScanHeaders(s, pos, h)
    ensures ScanHeaders(s, pos, h).Head? ==> ScanHeaders(s, pos, h).bodyStart <= e + 4
    decreases e + 2 - pos
  {
    GetLineAgrees(s, t, pos, e);
    var (line, next) := GetLine(s, pos).value;
    match HeaderAction(line)
    case Stop =>
    case Throw =>
    case Ignore =>
      ScanHeadersPrefix(s, t, next, h, e);
    case Store(k, v) =>
      ScanHeadersPrefix(s, t, next, h[k := v], e);
  }

  /** Once the blank line "\r\n\r\n" at `e` has arrived, later bytes change
      nothing in the parse but the body: the request line and the headers
      are fixed, the body starts by `e + 4`, and it is read from the
      longer stream. */
  lemma {:induction false} ParsePrefix(s: string, t: string, e: nat)
    requires |s| <= |t| && s == t[..|s|] && BlankLineAt(s, e)
    ensures RequestHead(t) == RequestHead(s)
    ensures RequestHead(s).Head? ==> RequestHead(s).bodyStart <= e + 4
    ensures ParseRequest(t).Crashed? <==> ParseRequest(s).Crashed?
    ensures ParseRequest(s).Parsed? ==>
      ParseRequest(t) == Parsed(ParseRequest(s).req.(body := ReadBody(t, RequestHead(s).bodyStart, ParseRequest(s).req.headers)))
  {
    GetLineAgrees(s, t, 0, e);
    ScanHeadersPrefix(s, t, GetLine(s, 0).value.1, map[], e);
  }

  /** `ParsePrefix` for two prefixes of what the peer sends: the request
      parsed once the head is in is the one parsed later, with the body
      read from the longer prefix. */
  lemma PrefixParsed(data: string, a: nat, b: nat, e: nat, req: Request)
    requires a <= b <= |data| && BlankLineAt(data[..a], e)
    requires ParseRequest(data[..a]) == Parsed(req)
    ensures RequestHead(data[..a]).Head? && RequestHead(data[..a]).bodyStart <= e + 4
    ensures ParseRequest(data[..b]) == Parsed(req.(body := ReadBody(data[..b], RequestHead(data[..a]).bodyStart, req.headers)))
  {
    assert data[..a] == data[..b][..a];
    ParsePrefix(data[..a], data[..b], e);
  }

  /** A request parsed once its head was in at `a` bytes is dispatched
      after the loop ends at `b` bytes, with the body read from all `b`. */
  lemma FinishLater(data: string, a: nat, b: nat, size: nat, calls: nat, e: nat, req: Request)
    requires 0 < a <= b <= |data| && BlankLineAt(data[..a], e)
    requires ParseRequest(data[..a]) == Parsed(req)
    ensures Finish(data, b, size, Some(a), calls).out
      == Dispatched(data[..b], req.(body := ReadBody(data[..b], RequestHead(data[..a]).bodyStart, req.headers)))
  {
    PrefixParsed(data, a, b, e, req);
    FinishSettles(data, b, size, Some(a), calls);
  }

  /** The head of a POST with an accepted length leads to its body. */
  lemma AtHeadBody(data: string, grants: seq<int>, calls: nat, t: nat, size: nat, e: nat, req: Request, length: nat)
    requires calls <= |grants| && t <= |data| && t < size
    requires ParseRequest(data[..t]) == Parsed(req)
    requires req.verb == "POST" && DeclaredLength(req.headers) == Some(length)
    ensures var b := BodyLoop(data, grants, calls, t, size, e + 4, length);
      AtHead(data, grants, calls, t, size, e) == Finish(data, b.0, size, Some(t), b.1)
  {
    assert "Content-Length" in req.headers;
  }

  /** The first steps of `LargeBodyCut`: the head arrives in the first
      read, and the body loop fills the 64 KiB buffer. */
  lemma LargeBodyFrame(data: string, grants: seq<int>, first: nat, e: nat, req: Request, length: nat)
    requires |grants| >= INITIAL_BUFFER && forall j :: 0 <= j < |grants| ==> grants[j] > 0
    requires |data| >= INITIAL_BUFFER - 1
    requires first == Received(grants[0], INITIAL_BUFFER - 1, |data|)
    requires HeadEnd(data[..first], 0) == Some(e)
    requires ParseRequest(data[..first]) == Parsed(req)
    requires req.verb == "POST" && DeclaredLength(req.headers) == Some(length)
    requires e + 4 + length >= INITIAL_BUFFER - 1
    ensures 0 < first <= INITIAL_BUFFER - 1
    ensures Frame(data, grants)
      == Finish(data, INITIAL_BUFFER - 1, INITIAL_BUFFER, Some(first),
                BodyLoop(data, grants, 1, first, INITIAL_BUFFER, e + 4, length).1)
  {
    assert Received(grants[0], INITIAL_BUFFER - 0 - 1, |data| - 0) == first;
    HeadLoopFound(data, grants, 0, 0, INITIAL_BUFFER, first, e);
    assert Frame(data, grants) == AtHead(data, grants, 1, first, INITIAL_BUFFER, e);
    var b := BodyLoop(data, grants, 1, first, INITIAL_BUFFER, e + 4, length);
    AtHeadBody(data, grants, 1, first, INITIAL_BUFFER, e, req, length);
    BodyLoopFills(data, grants, 1, first, INITIAL_BUFFER, e + 4, length);
  }

  /** A body declared longer than what the first `n` bytes hold after
      `pos` is what they hold, padded with NUL. */
  lemma CutBody(data: string, n: nat, pos: nat, h: map<string, string>, length: nat)
    requires pos <= n <= |data| && DeclaredLength(h) == Some(length) && n <= pos + length
    ensures ReadBody(data[..n], pos, h) == data[pos..n] + Zeros(pos + length - n)
  {
    assert data[..n][pos..] == data[pos..n];
  }

  /** A POST whose head arrives in the first read and whose declared body
      does not fit the 64 KiB buffer: however much the peer sends, reading
      stops when the buffer is full, one byte short of 64 KiB, and the body
      handed to dispatch is what arrived after the head, padded with NUL up
      to the declared length. */
  lemma {:induction false} LargeBodyCut(data: string, grants: seq<int>, first: nat, e: nat, req: Request, length: nat)
    requires |grants| >= INITIAL_BUFFER && forall j :: 0 <= j < |grants| ==> grants[j] > 0
    requires |data| >= INITIAL_BUFFER - 1
    requires first == Received(grants[0], INITIAL_BUFFER - 1, |data|)
    requires HeadEnd(data[..first], 0) == Some(e)
    requires ParseRequest(data[..first]) == Parsed(req)
    requires req.verb == "POST" && DeclaredLength(req.headers) == Some(length)
    requires e + 4 + length >= INITIAL_BUFFER - 1
    ensures Frame(data, grants).total == INITIAL_BUFFER - 1
    ensures Frame(data, grants).out
      == Dispatched(data[..INITIAL_BUFFER - 1],
                    req.(body := ReadBody(data[..INITIAL_BUFFER - 1], RequestHead(data[..first]).bodyStart, req.headers)))
    ensures RequestHead(data[..first]) == Head(req.headers, e + 4) ==>
      Frame(data, grants).out.req.body == data[e + 4..INITIAL_BUFFER - 1] + Zeros(e + 4 + length - (INITIAL_BUFFER - 1))
  {
    var full := INITIAL_BUFFER - 1;
    LargeBodyFrame(data, grants, first, e, req, length);
    var calls := BodyLoop(data, grants, 1, first, INITIAL_BUFFER, e + 4, length).1;
    FinishLater(data, first, full, INITIAL_BUFFER, calls, e, req);
    if RequestHead(data[..first]) == Head(req.headers, e + 4) {
      CutBody(data, full, e + 4, req.headers, length);
    }
  }

  /** A request that arrives whole in the first read, head and declared
      body, and fits the 64 KiB buffer is handed to dispatch as the parse of
      everything that was sent, unless it is refused or the parser throws. */
  lemma {:induction false} WholeRequestInOneRead(data: string, grants: seq<int>, e: nat)
    requires 0 < |data| < INITIAL_BUFFER && |grants| > 0 && grants[0] >= |data|
    requires HeadEnd(data, 0) == Some(e)
    requires ParseRequest(data).Parsed? && !Rejected(ParseRequest(data))
    requires Accepted(ParseRequest(data)) ==> e + 4 + DeclaredLength(ParseRequest(data).req.headers).value <= |data|
    ensures Frame(data, grants) == Finish(data, |data|, INITIAL_BUFFER, Some(|data|), 1)
    ensures Frame(data, grants).out == Dispatched(data, ParseRequest(data).req)
  {
    assert data[..|data|] == data;
    assert Received(grants[0], INITIAL_BUFFER - 0 - 1, |data| - 0) == |data|;
    HeadLoopFound(data, grants, 0, 0, INITIAL_BUFFER, |data|, e);
    assert Frame(data, grants) == AtHead(data, grants, 1, |data|, INITIAL_BUFFER, e);
    var p := ParseRequest(data);
    if Accepted(p) {
      AtHeadBody(data, grants, 1, |data|, INITIAL_BUFFER, e, p.req, DeclaredLength(p.req.headers).value);
    }
  }

  /** The read loop never holds 30 MiB, so a body declared at exactly the
      30 MiB limit, which the parser accepts, is never received whole: the
      parser pads what is missing with NUL characters. */
  lemma {:induction false} LimitBodyPadded(received: string)
    requires |received| < MAX_REQUEST_SIZE
    requires ParseRequest(received).Parsed?
    requires DeclaredLength(ParseRequest(received).req.headers) == Some(MAX_REQUEST_SIZE)
    ensures |ParseRequest(received).req.body| == MAX_REQUEST_SIZE
    ensures ParseRequest(received).req.body[MAX_REQUEST_SIZE - 1] == '\0'
  {
    var next := GetLine(received, 0).value.1;
    var head := ScanHeaders(received, next, map[]);
    ReadBodyPadded(received, head.bodyStart, head.headers);
  }

  // ---------------------------------------------------------------------
  // Dispatch

  /** Where a request goes. */
  datatype Handler = Preflight | Query(body: string) | Status | StaticFile(path: string) | NotFound

  /** The dispatch chain of `handle_client` (src/server.cpp:591-601): a
      preflight answered with an empty 200, POST /query, GET /status, any
      other GET served from disk, and 404 for everything else. */
  function Route(req: Request): (h: Handler)
    ensures h.Preflight? <==> req.verb == "OPTIONS"
    ensures h.Query? <==> req.verb == "POST" && req.path == "/query"
    ensures h.Status? <==> req.verb == "GET" && req.path == "/status"
    ensures h.StaticFile? <==> req.verb == "GET" && req.path != "/status"
    ensures h.NotFound? <==> req.verb != "OPTIONS" && req.verb != "GET" && !(req.verb == "POST" && req.path == "/query")
    ensures h.Query? ==> h.body == req.body
    ensures h.StaticFile? ==> h.path == req.path
  {
    if req.verb == "OPTIONS" then Preflight
    else if req.verb == "POST" && req.path == "/query" then Query(req.body)
    else if req.verb == "GET" && req.path == "/status" then Status
    else if req.verb == "GET" then StaticFile(req.path)
    else NotFound
  }

  /** The replies dispatch builds itself; the others come from handlers
      that are not part of this model. */
  function FixedReply(h: Handler): (r: Option<string>)
    ensures r.Some? <==> h.Preflight? || h.NotFound?
  {
    match h
    case Preflight => Some(BuildHttpResponse(200, "text/plain", ""))
    case NotFound => Some(BuildHttpResponse(404, "text/plain", "Not Found"))
    case _ => None
  }

  /** The preflight reply is a 200 whose Content-Length is 0 and whose body
      is empty. */
  lemma {:induction false} PreflightReply(req: Request)
    requires req.verb == "OPTIONS"
    ensures FixedReply(Route(req)).Some?
    ensures ParseRequest(FixedReply(Route(req)).value)
      == Parsed(Request("HTTP/1.1", IntToString(200), FieldMap(map[], ResponseFields("text/plain", "")), ""))
  {
    assert OneLineValue("text/plain");
    ResponseRoundTrip(200, "text/plain", "");
  }
}
