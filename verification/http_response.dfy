/** The two responses of the HTTP emulator, rendered from `HTTP_RESPONSE_TEMPLATE`, and a reader
    that takes a rendered response apart again. */
module HttpResponse {
  import opened Text
  import opened AttackRecord

  /** `FAKE_LOGIN_HTML`: the router admin page behind every 403. */
  const FakeLoginHtml: string :=
    "<!DOCTYPE html>\n" +
    "<html lang='en'>\n" +
    "<head>\n" +
    "    <meta charset='UTF-8'>\n" +
    "    <meta name='viewport' content='width=device-width, initial-scale=1.0'>\n" +
    "    <title>Router Admin Panel</title>\n" +
    "    <style>\n" +
    "        body { font-family: Arial, sans-serif; margin: 40px; }\n" +
    "        .container { max-width: 400px; margin: 0 auto; padding: 20px; border: 1px solid #ccc; }\n" +
    "        .error { color: red; margin-top: 10px; }\n" +
    "    </style>\n" +
    "</head>\n" +
    "<body>\n" +
    "    <div class='container'>\n" +
    "        <h2>Router Administration</h2>\n" +
    "        <div class='error'>Access Denied: Invalid credentials</div>\n" +
    "        <p>Please contact your network administrator.</p>\n" +
    "    </div>\n" +
    "</body>\n" +
    "</html>"

  /** The body of every error response. */
  const ErrorBody: string := "<html><body><h1>Error</h1><p>An error occurred.</p></body></html>"

  /** The template around the status code, reason phrase, length and body. */
  const StatusPrefix: string := "HTTP/1.1 "
  const LengthLead: string := "\nContent-Type: text/html\r\nContent-Length: "
  const HeaderTail: string := "\r\nConnection: close\r\n" + "Server: Apache/2.4.41 (Ubuntu)\r\n\r\n"

  /** The response buffers: `char response[2048]` and `char response[512]`. */
  const FakeBufferSize: nat := 2048
  const ErrorBufferSize: nat := 512

  /** The template filled in: `%d %s` with the code and reason, `%d` with `strlen(body)`, `%s`
      with the body. The reason and body are the program's constant strings, which hold no NUL,
      so `strlen` is their length. */
  function ResponseText(code: nat, reason: string, body: string): string {
    StatusPrefix + (Decimal(code) + (" " + (reason + ("\r" + (LengthLead + (Decimal(|body|) + (HeaderTail + body)))))))
  }

  /** What `snprintf` leaves in a buffer of `size` characters and `send(..., strlen(response))`
      transmits: the text cut to `size - 1` characters. */
  function Sent(text: string, size: nat): (r: string)
    requires size >= 1
    ensures r <= text && |r| < size
    ensures |text| < size ==> r == text
  {
    Truncate(text, size - 1)
  }

  /** A response as the template is asked to render it: status code, reason phrase, body, and
      the size of the buffer it is rendered into. */
  datatype Reply = Reply(code: nat, reason: string, body: string, bufferSize: nat)

  /** The bytes that go on the wire for a reply. */
  function Wire(r: Reply): (t: string)
    requires r.bufferSize >= 1
    ensures t <= ResponseText(r.code, r.reason, r.body) && |t| < r.bufferSize
  {
    Sent(ResponseText(r.code, r.reason, r.body), r.bufferSize)
  }

  /** `send_fake_response`: 403 Forbidden with the fake admin page. */
  function ForbiddenResponse(): (r: Reply)
    ensures r.bufferSize >= 1
  {
    Reply(403, "Forbidden", FakeLoginHtml, FakeBufferSize)
  }

  /** `send_error_response(sock, code, message)`: the error body with the given status. */
  function ErrorResponse(code: nat, message: string): (r: Reply)
    ensures r.bufferSize >= 1
  {
    Reply(code, message, ErrorBody, ErrorBufferSize)
  }

  /** The only error response the emulator sends. */
  function BadRequestResponse(): (r: Reply)
    ensures r.bufferSize >= 1
  {
    ErrorResponse(400, "Bad Request")
  }

  // ----- Reading a response back -----

  datatype ParsedResponse = ParsedResponse(code: nat, reason: string, contentLength: nat, body: string)

  /** Reads `<code> <reason>\r`: the decimal code, the reason up to the carriage return, and
      what follows it. */
  function ParseStatus(a: string): Option<(nat, string, string)> {
    var c := TakeDigits(a);
    if |c.0| == 0 then None
    else
      var b :- ExpectLit(c.1, " ");
      var d :- SplitAt(b, '\r');
      Some((DecimalValue(c.0), d.0, d.1))
  }

  /** Reads the fixed headers around the decimal `Content-Length`, then the empty line; the body
      is whatever follows. */
  function ParseLength(e: string): Option<(nat, string)> {
    var g :- ExpectLit(e, LengthLead);
    var f := TakeDigits(g);
    if |f.0| == 0 then None
    else
      var body :- ExpectLit(f.1, HeaderTail);
      Some((DecimalValue(f.0), body))
  }

  /** A reader for responses in the template's shape: status line, the fixed headers with a
      decimal `Content-Length`, the empty line, and the body as the rest of the text. */
  function ParseResponse(t: string): Option<ParsedResponse> {
    var a :- ExpectLit(t, StatusPrefix);
    var st :- ParseStatus(a);
    var lb :- ParseLength(st.2);
    Some(ParsedResponse(st.0, st.1, lb.0, lb.1))
  }

  lemma ExpectLitRoundTrip(lit: string, rest: string)
    ensures ExpectLit(lit + rest, lit) == Some(rest)
  {
    assert lit <= lit + rest;
    assert (lit + rest)[|lit|..] == rest;
  }

  lemma StatusRoundTrip(code: nat, reason: string, rest: string)
    requires '\r' !in reason
    ensures ParseStatus(Decimal(code) + (" " + (reason + ['\r'] + rest))) == Some((code, reason, rest))
  {
    var r2 := reason + ['\r'] + rest;
    TakeDigitsRoundTrip(Decimal(code), " " + r2);
    ExpectLitRoundTrip(" ", r2);
    SplitAtRoundTrip(reason, '\r', rest);
    DecimalRoundTrip(code);
  }

  lemma LengthRoundTrip(n: nat, body: string)
    ensures ParseLength(LengthLead + (Decimal(n) + (HeaderTail + body))) == Some((n, body))
  {
    ExpectLitRoundTrip(LengthLead, Decimal(n) + (HeaderTail + body));
    assert (HeaderTail + body)[0] == '\r';
    TakeDigitsRoundTrip(Decimal(n), HeaderTail + body);
    ExpectLitRoundTrip(HeaderTail, body);
    DecimalRoundTrip(n);
  }

  /** Reading a rendered response gives back its status, its reason phrase and its body, and the
      `Content-Length` it declares is the length of that body. */
  lemma ResponseRoundTrip(code: nat, reason: string, body: string)
    requires '\r' !in reason
    ensures ParseResponse(ResponseText(code, reason, body))
            == Some(ParsedResponse(code, reason, |body|, body))
  {
    var r3 := LengthLead + (Decimal(|body|) + (HeaderTail + body));
    assert reason + ("\r" + r3) == reason + ['\r'] + r3;
    var r0 := Decimal(code) + (" " + (reason + ['\r'] + r3));
    ExpectLitRoundTrip(StatusPrefix, r0);
    StatusRoundTrip(code, reason, r3);
    LengthRoundTrip(|body|, body);
  }

  lemma ThreeDigits(n: nat)
    requires 100 <= n < 1000
    ensures |Decimal(n)| == 3
  {
    assert |Decimal(n / 10)| == 2 by {
      assert |Decimal(n / 100)| == 1;
    }
  }

  lemma TwoDigits(n: nat)
    requires 10 <= n < 100
    ensures |Decimal(n)| == 2
  {
    assert |Decimal(n / 10)| == 1;
  }

  /** A reply whose rendering fits its buffer goes out whole and reads back as its status, its
      reason phrase and its body, with a `Content-Length` equal to the body's length. */
  lemma ReplyReadsBack(r: Reply)
    requires r.bufferSize >= 1 && '\r' !in r.reason
    requires |ResponseText(r.code, r.reason, r.body)| < r.bufferSize
    ensures Wire(r) == ResponseText(r.code, r.reason, r.body)
    ensures ParseResponse(Wire(r)) == Some(ParsedResponse(r.code, r.reason, |r.body|, r.body))
  {
    ResponseRoundTrip(r.code, r.reason, r.body);
  }

  /** The length of a rendering: the template's fixed text plus the four fields. */
  lemma ResponseLength(code: nat, reason: string, body: string)
    ensures |ResponseText(code, reason, body)|
            == 108 + |Decimal(code)| + |reason| + |Decimal(|body|)| + |body|
  {
  }

  /** The 403 fits its 2048-character buffer whole: the client reads status 403 `Forbidden`, the
      admin page as body, and a `Content-Length` equal to the page's length. */
  lemma ForbiddenReadsBack()
    ensures Wire(ForbiddenResponse()) == ResponseText(403, "Forbidden", FakeLoginHtml)
    ensures ParseResponse(Wire(ForbiddenResponse()))
            == Some(ParsedResponse(403, "Forbidden", |FakeLoginHtml|, FakeLoginHtml))
  {
    var r := ForbiddenResponse();
    assert |r.body| == 647;
    ThreeDigits(r.code);
    ThreeDigits(|r.body|);
    ResponseLength(r.code, r.reason, r.body);
    ReplyReadsBack(r);
  }

  /** The 400 fits its 512-character buffer whole: the client reads status 400 `Bad Request`,
      the error page as body, and a `Content-Length` equal to that page's length. */
  lemma BadRequestReadsBack()
    ensures Wire(BadRequestResponse()) == ResponseText(400, "Bad Request", ErrorBody)
    ensures ParseResponse(Wire(BadRequestResponse()))
            == Some(ParsedResponse(400, "Bad Request", |ErrorBody|, ErrorBody))
  {
    var r := BadRequestResponse();
    assert |r.body| == 65;
    ThreeDigits(r.code);
    TwoDigits(|r.body|);
    ResponseLength(r.code, r.reason, r.body);
    ReplyReadsBack(r);
  }
}
