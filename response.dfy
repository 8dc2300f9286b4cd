/**
 * The response side of the server: `SimpleResponse`, its constructors, and
 * the bytes `send` builds and hands to the connection.
 */
module Response {
  import opened Wrappers
  import opened Seqs
  import Utf8
  import Decimal

  /** `SimpleResponse`: a status ("<code> <reason>"), the handler's header
      fields in order, and the body bytes. */
  datatype Response = Response(status: string, headers: seq<(string, string)>, body: Utf8.Bytes)

  /** `okJSON`: the body is the text JSONSerialization writes for a
      dictionary, which the model takes as given. */
  function OkJSON(json: Utf8.Bytes): Response {
    Response("200 OK", [("Content-Type", "application/json")], json)
  }

  /** `okJSONText`: a JSON text sent as it is. */
  function OkJSONText(s: string): Response {
    Response("200 OK", [("Content-Type", "application/json")], Utf8.Encode(s))
  }

  /** `bad`: the message is placed inside `{"error":"..."}` without escaping. */
  function Bad(msg: string): Response {
    Response("400 Bad Request", [("Content-Type", "application/json")], Utf8.Encode("{\"error\":\"" + msg + "\"}"))
  }

  /** `notFound`. */
  function NotFound(): Response {
    Response("404 Not Found", [("Content-Type", "text/plain")], Utf8.Encode("Not Found"))
  }

  /** The CORS header lines every response carries, in this order. */
  const CorsLines: seq<string> := [
    "Access-Control-Allow-Origin: *",
    "Access-Control-Allow-Headers: Content-Type",
    "Access-Control-Allow-Methods: GET, POST, OPTIONS"
  ]

  /** The first header line. */
  function StatusLine(status: string): string {
    "HTTP/1.1 " + status
  }

  /** One `name: value` header line. */
  function FieldLine(h: (string, string)): string {
    h.0 + ": " + h.1
  }

  /** The handler's header lines, in order. */
  function FieldLines(hs: seq<(string, string)>): (r: seq<string>)
    ensures |r| == |hs|
  {
    seq(|hs|, i requires 0 <= i < |hs| => FieldLine(hs[i]))
  }

  /** The `Content-Length` line for a body of `n` bytes. */
  function ContentLengthLine(n: nat): string {
    "Content-Length: " + Decimal.Digits(n)
  }

  /** The lines of the header block: the status line (section 4 of
      RFC 9112), the handler's fields in order, the CORS lines,
      Content-Length (section 8.6 of RFC 9110) and `Connection: close`. */
  function HeaderLines(r: Response): (lines: seq<string>)
    ensures |lines| == |r.headers| + 6
  {
    [StatusLine(r.status)] + FieldLines(r.headers) + CorsLines
      + [ContentLengthLine(|r.body|), "Connection: close"]
  }

  /** The header block: every line ended by CRLF, then an empty line. */
  function HeadText(r: Response): string {
    Terminated(HeaderLines(r), CRLF) + CRLF
  }

  /** The bytes sent for a response: the header block, then the body. */
  function Wire(r: Response): Utf8.Bytes {
    Utf8.Encode(HeadText(r)) + r.body
  }

  /** The byte-building part of `send`: the header lines are collected in an
      array, joined with CRLF after two empty strings are appended, encoded
      as UTF-8, and the body is appended. */
  method Send(resp: Response) returns (total: Utf8.Bytes)
    ensures total == Wire(resp)
  {
    var headerLines: seq<string> := [];
    headerLines := headerLines + [StatusLine(resp.status)];
    var i := 0;
    while i < |resp.headers|
      invariant 0 <= i <= |resp.headers|
      invariant headerLines == [StatusLine(resp.status)] + FieldLines(resp.headers[..i])
    {
      var (k, v) := resp.headers[i];
      assert FieldLines(resp.headers[..i + 1]) == FieldLines(resp.headers[..i]) + [k + ": " + v];
      headerLines := headerLines + [k + ": " + v];
      i := i + 1;
    }
    assert resp.headers[..i] == resp.headers;
    headerLines := headerLines + ["Access-Control-Allow-Origin: *"];
    headerLines := headerLines + ["Access-Control-Allow-Headers: Content-Type"];
    headerLines := headerLines + ["Access-Control-Allow-Methods: GET, POST, OPTIONS"];
    headerLines := headerLines + ["Content-Length: " + Decimal.Digits(|resp.body|)];
    headerLines := headerLines + ["Connection: close"];
    assert headerLines == HeaderLines(resp);
    headerLines := headerLines + [""];
    headerLines := headerLines + [""];
    assert headerLines == HeaderLines(resp) + [[], []];
    JoinWithBlankLine(HeaderLines(resp), CRLF);
    var headerData := Utf8.Encode(Join(headerLines, CRLF));
    total := headerData + resp.body;
  }

  // ---------------------------------------------------------------------
  // Properties of the bytes sent

  /** The header block, written out: the status line, the handler's fields
      in their order, the three CORS lines, Content-Length and
      `Connection: close`, each ended by CRLF, then one empty line. */
  lemma HeadLayout(r: Response)
    ensures HeadText(r) == StatusLine(r.status) + CRLF
                         + Terminated(FieldLines(r.headers), CRLF)
                         + "Access-Control-Allow-Origin: *\r\n"
                         + "Access-Control-Allow-Headers: Content-Type\r\n"
                         + "Access-Control-Allow-Methods: GET, POST, OPTIONS\r\n"
                         + ContentLengthLine(|r.body|) + "\r\n"
                         + "Connection: close\r\n"
                         + "\r\n"
  {
    var status := [StatusLine(r.status)];
    var fields := FieldLines(r.headers);
    var tail := [ContentLengthLine(|r.body|), "Connection: close"];
    var f := Terminated(fields, CRLF);
    assert HeaderLines(r) == status + fields + CorsLines + tail;
    calc {
      HeadText(r);
      Terminated(status + fields + CorsLines + tail, CRLF) + CRLF;
      { TerminatedAppend(status + fields + CorsLines, tail, CRLF);
        TerminatedAppend(status + fields, CorsLines, CRLF);
        TerminatedAppend(status, fields, CRLF); }
      Terminated(status, CRLF) + f + Terminated(CorsLines, CRLF) + Terminated(tail, CRLF) + CRLF;
      { TerminatedOne(StatusLine(r.status));
        CorsText();
        TailText(ContentLengthLine(|r.body|)); }
      (StatusLine(r.status) + CRLF) + f
        + ("Access-Control-Allow-Origin: *\r\n"
           + "Access-Control-Allow-Headers: Content-Type\r\n"
           + "Access-Control-Allow-Methods: GET, POST, OPTIONS\r\n")
        + (ContentLengthLine(|r.body|) + "\r\n" + "Connection: close\r\n") + "\r\n";
      { Regroup(StatusLine(r.status) + CRLF, f,
                "Access-Control-Allow-Origin: *\r\n",
                "Access-Control-Allow-Headers: Content-Type\r\n",
                "Access-Control-Allow-Methods: GET, POST, OPTIONS\r\n",
                ContentLengthLine(|r.body|), "\r\n", "Connection: close\r\n", "\r\n"); }
      StatusLine(r.status) + CRLF + f
        + "Access-Control-Allow-Origin: *\r\n"
        + "Access-Control-Allow-Headers: Content-Type\r\n"
        + "Access-Control-Allow-Methods: GET, POST, OPTIONS\r\n"
        + ContentLengthLine(|r.body|) + "\r\n"
        + "Connection: close\r\n"
        + "\r\n";
    }
  }

  /** Concatenation regrouped. */
  lemma Regroup(a: string, f: string, c1: string, c2: string, c3: string,
                t1: string, t2: string, t3: string, e: string)
    ensures a + f + (c1 + c2 + c3) + (t1 + t2 + t3) + e == a + f + c1 + c2 + c3 + t1 + t2 + t3 + e
  {
  }

  /** One line, terminated. */
  lemma TerminatedOne(line: string)
    ensures Terminated([line], CRLF) == line + CRLF
  {
    assert Terminated([line], CRLF) == line + CRLF + Terminated([], CRLF);
  }

  /** The three CORS lines as text. */
  lemma CorsText()
    ensures Terminated(CorsLines, CRLF)
            == "Access-Control-Allow-Origin: *\r\n"
             + "Access-Control-Allow-Headers: Content-Type\r\n"
             + "Access-Control-Allow-Methods: GET, POST, OPTIONS\r\n"
  {
    var c0, c1, c2 := CorsLines[0], CorsLines[1], CorsLines[2];
    assert CorsLines == [c0] + [c1] + [c2];
    TerminatedAppend([c0] + [c1], [c2], CRLF);
    TerminatedAppend([c0], [c1], CRLF);
    TerminatedOne(c0);
    TerminatedOne(c1);
    TerminatedOne(c2);
  }

  /** The last two header lines as text. */
  lemma TailText(length: string)
    ensures Terminated([length, "Connection: close"], CRLF) == length + "\r\n" + "Connection: close\r\n"
  {
    assert [length, "Connection: close"] == [length] + ["Connection: close"];
    TerminatedAppend([length], ["Connection: close"], CRLF);
    TerminatedOne(length);
    TerminatedOne("Connection: close");
  }

  /** Header fields free of CR and LF, as section 5 of RFC 9110 requires. */
  predicate WellFormed(r: Response) {
    '\r' !in r.status && '\n' !in r.status
    && forall i :: 0 <= i < |r.headers| ==>
         '\r' !in r.headers[i].0 && '\n' !in r.headers[i].0
         && '\r' !in r.headers[i].1 && '\n' !in r.headers[i].1
  }

  /** The UTF-8 bytes of each line. */
  function EncodeLines(lines: seq<string>): (r: seq<Utf8.Bytes>)
    ensures |r| == |lines|
  {
    seq(|lines|, i requires 0 <= i < |lines| => Utf8.Encode(lines[i]))
  }

  /** UTF-8 encoding commutes with terminating each line by CRLF. */
  lemma {:induction false} EncodeTerminated(lines: seq<string>)
    ensures Utf8.Encode(Terminated(lines, CRLF)) == Terminated(EncodeLines(lines), [13, 10])
    decreases |lines|
  {
    if |lines| > 0 {
      var rest := Terminated(lines[1..], CRLF);
      EncodeTerminated(lines[1..]);
      assert EncodeLines(lines)[1..] == EncodeLines(lines[1..]);
      Utf8.EncodeAppend(lines[0] + CRLF, rest);
      Utf8.EncodeAppend(lines[0], CRLF);
      assert Utf8.Encode(CRLF) == [13, 10];
    }
  }

  /** Every line is non-empty and holds no CR. */
  ghost predicate Clean(lines: seq<string>) {
    forall k :: 0 <= k < |lines| ==> |lines[k]| > 0 && '\r' !in lines[k]
  }

  /** Clean blocks of lines stay clean when put together. */
  lemma CleanAppend(a: seq<string>, b: seq<string>)
    requires Clean(a) && Clean(b)
    ensures Clean(a + b)
  {
    forall k | 0 <= k < |a + b| ensures |(a + b)[k]| > 0 && '\r' !in (a + b)[k] {
      if k < |a| {
        assert (a + b)[k] == a[k];
      } else {
        assert (a + b)[k] == b[k - |a|];
      }
    }
  }

  /** The handler's field lines are clean when its fields are. */
  lemma FieldLinesClean(r: Response)
    requires WellFormed(r)
    ensures Clean(FieldLines(r.headers))
  {
    var fields := FieldLines(r.headers);
    forall k | 0 <= k < |fields| ensures |fields[k]| > 0 && '\r' !in fields[k] {
      assert fields[k] == r.headers[k].0 + ": " + r.headers[k].1;
    }
  }

  /** The CORS lines are clean. */
  lemma CorsClean()
    ensures Clean(CorsLines)
  {
    var c0, c1, c2 := CorsLines[0], CorsLines[1], CorsLines[2];
    assert CorsLines == [c0] + [c1] + [c2];
    MethodsLineNoCr();
    CleanOne(c0);
    CleanOne(c1);
    CleanOne(c2);
    CleanAppend([c0], [c1]);
    CleanAppend([c0] + [c1], [c2]);
  }

  /** The longest CORS line holds no CR, taken in two pieces. */
  lemma MethodsLineNoCr()
    ensures '\r' !in "Access-Control-Allow-Methods: GET, POST, OPTIONS"
  {
    MethodsLineSplit();
    MethodsPiecesNoCr();
    NoCrAppend("Access-Control-Allow-Methods: ", "GET, POST, OPTIONS");
  }

  /** The methods line, cut in two so that each part is short. */
  lemma MethodsLineSplit()
    ensures "Access-Control-Allow-Methods: GET, POST, OPTIONS"
            == "Access-Control-Allow-Methods: " + "GET, POST, OPTIONS"
  {
  }

  /** Both parts of the methods line are free of CR. */
  lemma MethodsPiecesNoCr()
    ensures '\r' !in "Access-Control-Allow-Methods: " && '\r' !in "GET, POST, OPTIONS"
  {
  }

  /** Two CR-free texts put together are CR-free. */
  lemma NoCrAppend(a: string, b: string)
    requires '\r' !in a && '\r' !in b
    ensures '\r' !in a + b
  {
  }

  /** A single non-empty CR-free line is a clean block. */
  lemma CleanOne(line: string)
    requires |line| > 0 && '\r' !in line
    ensures Clean([line])
  {
  }

  /** The Content-Length line and `Connection: close` are clean. */
  lemma TailClean(n: nat)
    ensures Clean([ContentLengthLine(n), "Connection: close"])
  {
    var digits := Decimal.Digits(n);
    assert '\r' !in digits by {
      forall i | 0 <= i < |digits| ensures digits[i] != '\r' {
        assert Decimal.IsDigit(digits[i]);
      }
    }
    assert ContentLengthLine(n) == "Content-Length: " + digits;
  }

  /** Every header line is non-empty and holds no CR. */
  lemma HeaderLinesClean(r: Response)
    requires WellFormed(r)
    ensures Clean(HeaderLines(r))
  {
    var status := [StatusLine(r.status)];
    var fields := FieldLines(r.headers);
    var tail := [ContentLengthLine(|r.body|), "Connection: close"];
    assert HeaderLines(r) == status + fields + CorsLines + tail;
    assert Clean(status) by {
      assert status[0] == "HTTP/1.1 " + r.status;
    }
    FieldLinesClean(r);
    CorsClean();
    TailClean(|r.body|);
    CleanAppend(status, fields);
    CleanAppend(status + fields, CorsLines);
    CleanAppend(status + fields + CorsLines, tail);
  }

  /** Clean lines encode to non-empty byte lines without byte 13. */
  lemma EncodeClean(lines: seq<string>)
    requires Clean(lines)
    ensures forall k :: 0 <= k < |lines| ==> |EncodeLines(lines)[k]| > 0 && 13 !in EncodeLines(lines)[k]
  {
    var enc := EncodeLines(lines);
    forall k | 0 <= k < |enc| ensures |enc[k]| > 0 && 13 !in enc[k] {
      Utf8.EncodeAvoidsAscii(lines[k], '\r');
    }
  }

  /** Framing: the first empty line in the bytes sent is the one that closes
      the header block, and exactly the body follows it, whatever bytes the
      body holds. */
  lemma WireFraming(r: Response)
    requires WellFormed(r)
    ensures FindFrom(Wire(r), [13, 10, 13, 10], 0) == Some(|Utf8.Encode(HeadText(r))| - 4)
    ensures Wire(r)[|Utf8.Encode(HeadText(r))|..] == r.body
  {
    var enc := EncodeLines(HeaderLines(r));
    var t := Terminated(enc, [13, 10]);
    HeadBytes(r);
    HeaderLinesClean(r);
    EncodeClean(HeaderLines(r));
    FirstEmptyLine(enc, 13, 10, r.body);
    assert Wire(r) == t + [13, 10] + r.body;
  }

  /** The header block's bytes are its lines' bytes, each ended by CR LF,
      then CR LF. */
  lemma HeadBytes(r: Response)
    ensures Utf8.Encode(HeadText(r)) == Terminated(EncodeLines(HeaderLines(r)), [13, 10]) + [13, 10]
  {
    var lines := HeaderLines(r);
    EncodeTerminated(lines);
    Utf8.EncodeAppend(Terminated(lines, CRLF), CRLF);
    assert Utf8.Encode(CRLF) == [13, 10];
  }

  /** The Content-Length line states the number of bytes that follow the
      header block, in a form a client reads back to that number. */
  lemma ContentLengthAgrees(r: Response)
    ensures var line := HeaderLines(r)[|r.headers| + 4];
            && line[..16] == "Content-Length: "
            && Decimal.Value(line[16..]) == Some(|Wire(r)| - |Utf8.Encode(HeadText(r))|)
  {
    var line := HeaderLines(r)[|r.headers| + 4];
    assert line == "Content-Length: " + Decimal.Digits(|r.body|);
    assert line[16..] == Decimal.Digits(|r.body|);
    Decimal.ValueDigits(|r.body|);
  }

  // --- the fixed responses

  /** A text with no CR and no LF. */
  predicate Plain(s: string) {
    '\r' !in s && '\n' !in s
  }

  /** A response with one plain field and a plain status is well formed. */
  lemma OneFieldWellFormed(status: string, name: string, value: string, b: Utf8.Bytes)
    requires Plain(status) && Plain(name) && Plain(value)
    ensures WellFormed(Response(status, [(name, value)], b))
  {
  }

  /** The status lines and fields the server uses hold no CR or LF. */
  lemma JsonShapesWellFormed(b: Utf8.Bytes)
    ensures WellFormed(Response("200 OK", [("Content-Type", "application/json")], b))
    ensures WellFormed(Response("400 Bad Request", [("Content-Type", "application/json")], b))
  {
    assert Plain("Content-Type");
    assert Plain("application/json");
    assert Plain("200 OK");
    assert Plain("400 Bad Request");
    OneFieldWellFormed("200 OK", "Content-Type", "application/json", b);
    OneFieldWellFormed("400 Bad Request", "Content-Type", "application/json", b);
  }

  /** The plain-text shapes, whatever the body, are well formed. */
  lemma TextShapesWellFormed(b: Utf8.Bytes)
    ensures WellFormed(Response("404 Not Found", [("Content-Type", "text/plain")], b))
    ensures WellFormed(Response("204 No Content", [("Content-Type", "text/plain")], b))
  {
    assert Plain("Content-Type");
    assert Plain("text/plain");
    assert Plain("404 Not Found");
    assert Plain("204 No Content");
    OneFieldWellFormed("404 Not Found", "Content-Type", "text/plain", b);
    OneFieldWellFormed("204 No Content", "Content-Type", "text/plain", b);
  }

  /** `okJSONText(s)`: 200, JSON, and a body that reads back as `s`. */
  lemma OkJSONTextShape(s: string)
    ensures OkJSONText(s).status == "200 OK"
    ensures OkJSONText(s).headers == [("Content-Type", "application/json")]
    ensures Utf8.Decode(OkJSONText(s).body) == Some(s)
    ensures WellFormed(OkJSONText(s))
  {
    Utf8.DecodeEncode(s);
    JsonShapesWellFormed(OkJSONText(s).body);
  }

  /** `bad(m)`: 400, JSON, and the body `{"error":"` then `m`, unescaped,
      then `"}`. */
  lemma BadShape(m: string)
    ensures Bad(m).status == "400 Bad Request"
    ensures Bad(m).headers == [("Content-Type", "application/json")]
    ensures Bad(m).body == Utf8.Encode("{\"error\":\"") + Utf8.Encode(m) + Utf8.Encode("\"}")
    ensures Utf8.Decode(Bad(m).body) == Some("{\"error\":\"" + m + "\"}")
    ensures WellFormed(Bad(m))
  {
    var text := "{\"error\":\"" + m + "\"}";
    assert Bad(m).body == Utf8.Encode(text);
    Utf8.EncodeAppend("{\"error\":\"" + m, "\"}");
    Utf8.EncodeAppend("{\"error\":\"", m);
    Utf8.DecodeEncode(text);
    JsonShapesWellFormed(Bad(m).body);
  }

  /** `notFound()`: 404, plain text, the nine bytes "Not Found". */
  lemma NotFoundShape()
    ensures NotFound().status == "404 Not Found"
    ensures NotFound().headers == [("Content-Type", "text/plain")]
    ensures |NotFound().body| == 9 && Utf8.Decode(NotFound().body) == Some("Not Found")
    ensures WellFormed(NotFound())
  {
    NotFoundBody();
    TextShapesWellFormed(NotFound().body);
  }

  /** The text "Not Found" is nine ASCII characters and reads back. */
  lemma NotFoundBody()
    ensures |Utf8.Encode("Not Found")| == 9 && Utf8.Decode(Utf8.Encode("Not Found")) == Some("Not Found")
  {
    var t := "Not Found";
    assert |t| == 9;
    assert forall i :: 0 <= i < |t| ==> t[i] as int < 0x80;
    Utf8.EncodeAscii(t);
    Utf8.DecodeEncode(t);
  }
}
