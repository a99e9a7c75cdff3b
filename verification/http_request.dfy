/** `parse_http_request`: the length gate, the request-line scan and the header scan. */
module HttpRequest {
  import opened Text

  // ----- Request line: sscanf(data, "%15s %127s", method, path) -----

  /** `sizeof(method) - 1` and `sizeof(path) - 1`, the widths of the two conversions. */
  const MethodWidth: nat := 15
  const PathWidth: nat := 127

  /** The first index at or after `i` that does not hold whitespace. */
  function SkipSpace(s: string, i: nat): (r: nat)
    requires i <= |s|
    ensures i <= r <= |s|
    ensures forall k :: i <= k < r ==> IsSpace(s[k])
    ensures r < |s| ==> !IsSpace(s[r])
    decreases |s| - i
  {
    if i == |s| || !IsSpace(s[i]) then i else SkipSpace(s, i + 1)
  }

  /** Where a `%<width>s` conversion starting at `i` stops: at whitespace, at the end, or after
      `width` characters. */
  function TokenEnd(s: string, i: nat, width: nat): (r: nat)
    requires i <= |s|
    ensures i <= r <= |s| && r - i <= width
    ensures forall k :: i <= k < r ==> !IsSpace(s[k])
    ensures r < |s| && r - i < width ==> IsSpace(s[r])
    decreases width
  {
    if width == 0 || i == |s| || IsSpace(s[i]) then i else TokenEnd(s, i + 1, width - 1)
  }

  datatype RequestLine = RequestLine(verb: string, path: string)

  predicate NoSpace(s: string) {
    forall k :: 0 <= k < |s| ==> !IsSpace(s[k])
  }

  /** The two conversions of the request-line scan, into zero-filled fields. The return value of
      `sscanf` is not checked: a field whose conversion fails stays empty, and a method token
      longer than the first width runs on into the second field. */
  function ScanRequestLine(s: string): (r: RequestLine)
    ensures |r.verb| <= MethodWidth && |r.path| <= PathWidth
    ensures NoSpace(r.verb) && NoSpace(r.path)
    ensures r.verb == "" <==> forall k :: 0 <= k < |s| ==> IsSpace(s[k])
    ensures r.verb == "" ==> r.path == ""
  {
    var m0 := SkipSpace(s, 0);
    if m0 == |s| then RequestLine("", "")
    else
      var m1 := TokenEnd(s, m0, MethodWidth);
      var p0 := SkipSpace(s, m1);
      if p0 == |s| then RequestLine(s[m0..m1], "")
      else RequestLine(s[m0..m1], s[p0..TokenEnd(s, p0, PathWidth)])
  }

  /** A request line of the usual shape yields its method and its path. */
  lemma ScanWellFormedLine(m: string, p: string, rest: string)
    requires 0 < |m| <= MethodWidth && 0 < |p| <= PathWidth
    requires NoSpace(m) && NoSpace(p)
    requires |rest| > 0 ==> IsSpace(rest[0])
    ensures ScanRequestLine(m + " " + p + rest) == RequestLine(m, p)
  {
    var s := m + " " + p + rest;
    var a := |m| + 1;
    assert s[..|m|] == m;
    assert s[a..a + |p|] == p;
    assert s[|m|] == ' ';
    forall k | 0 <= k < |m| ensures !IsSpace(s[k]) {
      assert s[k] == m[k];
    }
    forall k | a <= k < a + |p| ensures !IsSpace(s[k]) {
      assert s[k] == p[k - a];
    }
    assert a + |p| < |s| ==> s[a + |p|] == rest[0];
    assert SkipSpace(s, 0) == 0;
    TokenEndAt(s, 0, MethodWidth, |m|);
    assert SkipSpace(s, a) == a;
    assert SkipSpace(s, |m|) == a;
    TokenEndAt(s, a, PathWidth, |p|);
  }

  lemma {:induction false} TokenEndAt(s: string, i: nat, width: nat, n: nat)
    requires i + n <= |s| && n <= width
    requires forall k :: i <= k < i + n ==> !IsSpace(s[k])
    requires i + n == |s| || n == width || IsSpace(s[i + n])
    ensures TokenEnd(s, i, width) == i + n
    decreases n
  {
    if n > 0 {
      TokenEndAt(s, i + 1, width - 1, n - 1);
    }
  }

  /** A method token longer than the first width spills its remainder into the path. */
  lemma MethodSpillsIntoPath(m: string, rest: string)
    requires MethodWidth < |m| <= MethodWidth + PathWidth
    requires NoSpace(m)
    requires |rest| > 0 ==> IsSpace(rest[0])
    ensures ScanRequestLine(m + rest) == RequestLine(m[..MethodWidth], m[MethodWidth..])
  {
    var s := m + rest;
    assert SkipSpace(s, 0) == 0;
    TokenEndAt(s, 0, MethodWidth, MethodWidth);
    assert SkipSpace(s, MethodWidth) == MethodWidth;
    TokenEndAt(s, MethodWidth, PathWidth, |m| - MethodWidth);
    assert s[0..MethodWidth] == m[..MethodWidth];
    assert s[MethodWidth..|m|] == m[MethodWidth..];
  }

  /** A request line of one token, such as a bare method, yields that method and an empty
      path: the second conversion fails and its field stays zero-filled. */
  lemma SingleTokenLine(m: string, ws: string)
    requires 0 < |m| <= MethodWidth && NoSpace(m)
    requires forall k :: 0 <= k < |ws| ==> IsSpace(ws[k])
    ensures ScanRequestLine(m + ws) == RequestLine(m, "")
  {
    var s := m + ws;
    forall k | 0 <= k < |m| ensures !IsSpace(s[k]) {
      assert s[k] == m[k];
    }
    forall k | |m| <= k < |s| ensures IsSpace(s[k]) {
      assert s[k] == ws[k - |m|];
    }
    assert SkipSpace(s, 0) == 0;
    TokenEndAt(s, 0, MethodWidth, |m|);
    assert s[0..|m|] == m;
  }

  /** A path of exactly the second width is read whole, whatever follows it. */
  lemma FullWidthPath(m: string, p: string, rest: string)
    requires 0 < |m| <= MethodWidth && |p| == PathWidth
    requires NoSpace(m) && NoSpace(p)
    ensures ScanRequestLine(m + " " + p + rest) == RequestLine(m, p)
  {
    var s := m + " " + p + rest;
    var a := |m| + 1;
    assert s[..|m|] == m;
    assert s[a..a + |p|] == p;
    assert s[|m|] == ' ';
    forall k | 0 <= k < |m| ensures !IsSpace(s[k]) {
      assert s[k] == m[k];
    }
    forall k | a <= k < a + |p| ensures !IsSpace(s[k]) {
      assert s[k] == p[k - a];
    }
    assert SkipSpace(s, 0) == 0;
    TokenEndAt(s, 0, MethodWidth, |m|);
    assert SkipSpace(s, a) == a;
    assert SkipSpace(s, |m|) == a;
    TokenEndAt(s, a, PathWidth, |p|);
  }

  /** A path longer than the second width is cut after 127 characters. */
  lemma LongPathCut(m: string, p: string, rest: string)
    requires 0 < |m| <= MethodWidth && PathWidth < |p|
    requires NoSpace(m) && NoSpace(p)
    ensures ScanRequestLine(m + " " + p + rest) == RequestLine(m, p[..PathWidth])
  {
    assert m + " " + p + rest == m + " " + p[..PathWidth] + (p[PathWidth..] + rest);
    FullWidthPath(m, p[..PathWidth], p[PathWidth..] + rest);
  }

  // ----- Header scan -----

  const Crlf: string := "\r\n"
  const UserAgentName: string := "User-Agent:"
  const AuthorizationName: string := "Authorization:"

  /** `sizeof(user_agent) - 1`: a header value is captured only when shorter than this. */
  const HeaderValueLimit: nat := 255

  /** Why the header loop ended: the text ran out, no further CRLF was found, or an empty line
      ended the header block. */
  datatype ScanStop = EndOfText | NoMoreLines | BlankLine

  datatype HeaderScan = HeaderScan(userAgent: string, authorization: string, stop: ScanStop)

  /** The first index at or after `i` that is not a space (only `' '` is skipped here). */
  function SkipBlanks(s: string, i: nat): (r: nat)
    requires i <= |s|
    ensures i <= r <= |s|
    ensures forall k :: i <= k < r ==> s[k] == ' '
    ensures r < |s| ==> s[r] != ' '
    decreases |s| - i
  {
    if i == |s| || s[i] != ' ' then i else SkipBlanks(s, i + 1)
  }

  predicate CrlfFree(v: string) {
    forall k :: 0 <= k < |v| ==> !OccursAt(v, Crlf, k)
  }

  /** `e` is where the first CRLF at or after `q` starts. */
  predicate FirstCrlfAt(s: string, q: nat, e: nat) {
    q <= e && OccursAt(s, Crlf, e) && forall k :: q <= k < e ==> !OccursAt(s, Crlf, k)
  }

  /** The first CRLF is the one the search finds. */
  lemma FirstCrlfFound(s: string, q: nat)
    ensures forall e: nat :: FirstCrlfAt(s, q, e) ==> Find(s, Crlf, q) == Some(e)
  {
  }

  /** A header value starting at `q`: everything up to the next CRLF, kept only when it is
      shorter than the limit; a longer value, or one with no CRLF after it, leaves the field
      with what it held. */
  function CaptureValue(s: string, q: nat, prior: string): (r: string)
    ensures r == prior || (|r| < HeaderValueLimit && CrlfFree(r))
    ensures forall e: nat :: FirstCrlfAt(s, q, e) ==>
              r == if e - q < HeaderValueLimit then s[q..e] else prior
    ensures (forall k :: q <= k ==> !OccursAt(s, Crlf, k)) ==> r == prior
  {
    FirstCrlfFound(s, q);
    match Find(s, Crlf, q)
    case Some(e) =>
      if e - q < HeaderValueLimit then
        ValueBeforeCrlf(s, q, e);
        s[q..e]
      else prior
    case None => prior
  }

  /** The text between `q` and the first CRLF after it holds no CRLF. */
  lemma ValueBeforeCrlf(s: string, q: nat, e: nat)
    requires Find(s, Crlf, q) == Some(e)
    ensures CrlfFree(s[q..e])
  {
    forall k | 0 <= k < e - q ensures !OccursAt(s[q..e], Crlf, k) {
      if k + 2 <= e - q {
        assert s[q + k..q + k + 2] == s[q..e][k..k + 2];
        assert !OccursAt(s, Crlf, q + k);
      }
    }
  }

  /** The header loop from position `from`: find the next CRLF, step over it, and look at the
      line that starts there. `User-Agent:` and `Authorization:` are matched ignoring case; an
      empty line ends the scan; any other line is skipped. After a matched name the scan goes on
      from the start of the value. */
  function ScanHeaders(s: string, from: nat, ua: string, auth: string): (r: HeaderScan)
    requires from <= |s|
    decreases |s| - from
  {
    if from == |s| then HeaderScan(ua, auth, EndOfText)
    else
      match Find(s, Crlf, from)
      case None => HeaderScan(ua, auth, NoMoreLines)
      case Some(j) =>
        var p := j + 2;
        if OccursAtCaseless(s, UserAgentName, p) then
          var q := SkipBlanks(s, p + |UserAgentName|);
          ScanHeaders(s, q, CaptureValue(s, q, ua), auth)
        else if OccursAtCaseless(s, AuthorizationName, p) then
          var q := SkipBlanks(s, p + |AuthorizationName|);
          ScanHeaders(s, q, ua, CaptureValue(s, q, auth))
        else if OccursAt(s, Crlf, p) then HeaderScan(ua, auth, BlankLine)
        else ScanHeaders(s, p, ua, auth)
  }

  /** Each field the header loop returns is either the value it started with or a captured
      value: shorter than the limit and free of CRLF. */
  lemma {:induction false} ScanHeadersBounded(s: string, from: nat, ua: string, auth: string)
    requires from <= |s|
    ensures var r := ScanHeaders(s, from, ua, auth);
            && (r.userAgent == ua || (|r.userAgent| < HeaderValueLimit && CrlfFree(r.userAgent)))
            && (r.authorization == auth || (|r.authorization| < HeaderValueLimit && CrlfFree(r.authorization)))
    decreases |s| - from
  {
    if from < |s| && Find(s, Crlf, from).Some? {
      var p := Find(s, Crlf, from).value + 2;
      if OccursAtCaseless(s, UserAgentName, p) {
        var q := SkipBlanks(s, p + |UserAgentName|);
        ScanHeadersBounded(s, q, CaptureValue(s, q, ua), auth);
      } else if OccursAtCaseless(s, AuthorizationName, p) {
        var q := SkipBlanks(s, p + |AuthorizationName|);
        ScanHeadersBounded(s, q, ua, CaptureValue(s, q, auth));
      } else if !OccursAt(s, Crlf, p) {
        ScanHeadersBounded(s, p, ua, auth);
      }
    }
  }

  datatype Request = Request(line: RequestLine, userAgent: string, authorization: string)

  /** `parse_http_request` on the request's C string: fewer than 10 characters is a parse
      failure (`None`); anything longer is accepted, whatever its shape. */
  function ParseRequest(s: string): (r: Option<Request>)
    ensures r.None? <==> |s| < 10
    ensures r.Some? ==> r.value.line == ScanRequestLine(s)
    ensures r.Some? ==> |r.value.userAgent| < HeaderValueLimit && |r.value.authorization| < HeaderValueLimit
  {
    if |s| < 10 then None
    else
      ScanHeadersBounded(s, 0, "", "");
      var h := ScanHeaders(s, 0, "", "");
      Some(Request(ScanRequestLine(s), h.userAgent, h.authorization))
  }

  // ----- The scan ends at the first empty line -----

  lemma CaselessExtend(s: string, t: string, pat: string, p: nat, j: nat)
    requires p <= j < |s| && s[j] == '\r'
    requires forall k :: 0 <= k < |pat| ==> Lower(pat[k]) != '\r'
    ensures OccursAtCaseless(s + t, pat, p) == OccursAtCaseless(s, pat, p)
  {
    if p + |pat| <= |s| {
      assert (s + t)[p..p + |pat|] == s[p..p + |pat|];
    } else if OccursAtCaseless(s + t, pat, p) {
      var k := j - p;
      SameCaselessAt((s + t)[p..p + |pat|], pat, k);
      assert false;
    }
  }

  /** A caseless match that lies inside `s` survives appending to `s`. */
  lemma CaselessAppend(s: string, t: string, pat: string, p: nat)
    requires OccursAtCaseless(s, pat, p)
    ensures OccursAtCaseless(s + t, pat, p)
  {
    assert (s + t)[p..p + |pat|] == s[p..p + |pat|];
  }

  lemma NamesHaveNoCr()
    ensures forall k :: 0 <= k < |UserAgentName| ==> Lower(UserAgentName[k]) != '\r'
    ensures forall k :: 0 <= k < |AuthorizationName| ==> Lower(AuthorizationName[k]) != '\r'
  {
  }

  lemma SkipBlanksExtend(s: string, t: string, i: nat)
    requires i <= |s| && SkipBlanks(s, i) < |s|
    ensures SkipBlanks(s + t, i) == SkipBlanks(s, i)
    decreases |s| - i
  {
    if s[i] == ' ' {
      SkipBlanksExtend(s, t, i + 1);
    }
  }

  /** A scan that ends at an empty line still has text and a CRLF ahead of it. */
  lemma BlankLineAhead(s: string, from: nat, ua: string, auth: string)
    requires from <= |s|
    requires ScanHeaders(s, from, ua, auth).stop == BlankLine
    ensures from < |s| && Find(s, Crlf, from).Some?
  {
  }

  lemma CaptureExtend(s: string, t: string, q: nat, prior: string)
    requires Find(s, Crlf, q).Some?
    ensures CaptureValue(s + t, q, prior) == CaptureValue(s, q, prior)
  {
    FindExtend(s, t, Crlf, q);
    var e := Find(s, Crlf, q).value;
    if e - q < HeaderValueLimit {
      assert (s + t)[q..e] == s[q..e];
    }
  }

  /** Neither header name can reach past a CR that lies inside `s`. */
  lemma NamesExtend(s: string, t: string, p: nat, j: nat)
    requires p <= j < |s| && s[j] == '\r'
    ensures OccursAtCaseless(s + t, UserAgentName, p) == OccursAtCaseless(s, UserAgentName, p)
    ensures OccursAtCaseless(s + t, AuthorizationName, p) == OccursAtCaseless(s, AuthorizationName, p)
  {
    NamesHaveNoCr();
    CaselessExtend(s, t, UserAgentName, p, j);
    CaselessExtend(s, t, AuthorizationName, p, j);
  }

  /** An empty line right after the next CRLF ends the scan of the longer text as well. */
  lemma BlankLineHere(s: string, t: string, from: nat, ua: string, auth: string)
    requires from < |s| && Find(s, Crlf, from).Some?
    requires var p := Find(s, Crlf, from).value + 2;
             && !OccursAtCaseless(s, UserAgentName, p) && !OccursAtCaseless(s, AuthorizationName, p)
             && OccursAt(s, Crlf, p)
    ensures ScanHeaders(s + t, from, ua, auth) == HeaderScan(ua, auth, BlankLine)
  {
    var u := s + t;
    FindExtend(s, t, Crlf, from);
    var p := Find(s, Crlf, from).value + 2;
    assert s[p] == '\r';
    NamesExtend(s, t, p, p);
    assert OccursAt(u, Crlf, p) by {
      assert u[p..p + 2] == s[p..p + 2];
    }
    UnfoldBlankLine(u, from, p, ua, auth);
  }

  /** One step of the header loop that lands on an empty line ends the scan there. */
  lemma UnfoldBlankLine(s: string, from: nat, p: nat, ua: string, auth: string)
    requires from < |s| && Find(s, Crlf, from) == Some(p - 2) && 2 <= p
    requires !OccursAtCaseless(s, UserAgentName, p) && !OccursAtCaseless(s, AuthorizationName, p)
    requires OccursAt(s, Crlf, p)
    ensures ScanHeaders(s, from, ua, auth) == HeaderScan(ua, auth, BlankLine)
  {
  }

  /** The CRLF that `Find` reports is there. */
  lemma FoundCrlf(s: string, from: nat)
    requires Find(s, Crlf, from).Some?
    ensures var j := Find(s, Crlf, from).value; j + 2 <= |s| && s[j] == '\r' && s[j + 1] == '\n'
  {
    var j := Find(s, Crlf, from).value;
    assert s[j..j + 2] == Crlf;
  }

  /** A line that has a CRLF ahead in `s` is classified the same way in the longer text. */
  lemma LineExtend(s: string, t: string, p: nat)
    requires p <= |s| && Find(s, Crlf, p).Some?
    ensures OccursAtCaseless(s + t, UserAgentName, p) == OccursAtCaseless(s, UserAgentName, p)
    ensures OccursAtCaseless(s + t, AuthorizationName, p) == OccursAtCaseless(s, AuthorizationName, p)
    ensures OccursAt(s + t, Crlf, p) == OccursAt(s, Crlf, p)
  {
    FoundCrlf(s, p);
    NamesExtend(s, t, p, Find(s, Crlf, p).value);
    assert (s + t)[p..p + 2] == s[p..p + 2];
  }

  /** A line that is neither header nor empty is skipped in the longer text as well. */
  lemma SkipLineStep(s: string, t: string, from: nat, ua: string, auth: string)
    requires from < |s| && Find(s, Crlf, from).Some?
    requires var p := Find(s, Crlf, from).value + 2;
             && p <= |s|
             && !OccursAtCaseless(s, UserAgentName, p) && !OccursAtCaseless(s, AuthorizationName, p)
             && !OccursAt(s, Crlf, p)
             && ScanHeaders(s, p, ua, auth).stop == BlankLine
    ensures ScanHeaders(s + t, from, ua, auth) == ScanHeaders(s + t, Find(s, Crlf, from).value + 2, ua, auth)
  {
    FindExtend(s, t, Crlf, from);
    var p := Find(s, Crlf, from).value + 2;
    BlankLineAhead(s, p, ua, auth);
    LineExtend(s, t, p);
  }

  /** A scan that stopped at an empty line does not look past it: whatever follows, the captured
      values are the same. */
  lemma {:induction false} BlankLineEndsScan(s: string, t: string, from: nat, ua: string, auth: string)
    requires from <= |s|
    requires ScanHeaders(s, from, ua, auth).stop == BlankLine
    ensures ScanHeaders(s + t, from, ua, auth) == ScanHeaders(s, from, ua, auth)
    decreases |s| - from
  {
    BlankLineAhead(s, from, ua, auth);
    var p := Find(s, Crlf, from).value + 2;
    if OccursAtCaseless(s, UserAgentName, p) {
      FindExtend(s, t, Crlf, from);
      UserAgentStep(s, t, from, p, ua, auth);
    } else if OccursAtCaseless(s, AuthorizationName, p) {
      FindExtend(s, t, Crlf, from);
      AuthorizationStep(s, t, from, p, ua, auth);
    } else if OccursAt(s, Crlf, p) {
      BlankLineHere(s, t, from, ua, auth);
    } else {
      assert ScanHeaders(s, from, ua, auth) == ScanHeaders(s, p, ua, auth);
      SkipLineStep(s, t, from, ua, auth);
      BlankLineEndsScan(s, t, p, ua, auth);
    }
  }

  lemma UnfoldUserAgent(s: string, from: nat, ua: string, auth: string)
    requires from < |s| && Find(s, Crlf, from).Some?
    requires OccursAtCaseless(s, UserAgentName, Find(s, Crlf, from).value + 2)
    ensures var q := SkipBlanks(s, Find(s, Crlf, from).value + 2 + |UserAgentName|);
            ScanHeaders(s, from, ua, auth) == ScanHeaders(s, q, CaptureValue(s, q, ua), auth)
  {
  }

  lemma UnfoldAuthorization(s: string, from: nat, ua: string, auth: string)
    requires from < |s| && Find(s, Crlf, from).Some?
    requires !OccursAtCaseless(s, UserAgentName, Find(s, Crlf, from).value + 2)
    requires OccursAtCaseless(s, AuthorizationName, Find(s, Crlf, from).value + 2)
    ensures var q := SkipBlanks(s, Find(s, Crlf, from).value + 2 + |AuthorizationName|);
            ScanHeaders(s, from, ua, auth) == ScanHeaders(s, q, ua, CaptureValue(s, q, auth))
  {
  }

  lemma {:induction false} UserAgentStep(s: string, t: string, from: nat, p: nat, ua: string, auth: string)
    requires from < |s| && Find(s, Crlf, from).Some? && p == Find(s, Crlf, from).value + 2
    requires Find(s + t, Crlf, from) == Find(s, Crlf, from)
    requires OccursAtCaseless(s, UserAgentName, p)
    requires ScanHeaders(s, from, ua, auth).stop == BlankLine
    ensures ScanHeaders(s + t, from, ua, auth) == ScanHeaders(s, from, ua, auth)
    decreases |s| - from, 0
  {
    NamesHaveNoCr();
    CaselessAppend(s, t, UserAgentName, p);
    var q := SkipBlanks(s, p + |UserAgentName|);
    var v := CaptureValue(s, q, ua);
    UnfoldUserAgent(s, from, ua, auth);
    BlankLineAhead(s, q, v, auth);
    SkipBlanksExtend(s, t, p + |UserAgentName|);
    CaptureExtend(s, t, q, ua);
    UnfoldUserAgent(s + t, from, ua, auth);
    BlankLineEndsScan(s, t, q, v, auth);
  }

  lemma {:induction false} AuthorizationStep(s: string, t: string, from: nat, p: nat, ua: string, auth: string)
    requires from < |s| && Find(s, Crlf, from).Some? && p == Find(s, Crlf, from).value + 2
    requires Find(s + t, Crlf, from) == Find(s, Crlf, from)
    requires !OccursAtCaseless(s, UserAgentName, p) && OccursAtCaseless(s, AuthorizationName, p)
    requires ScanHeaders(s, from, ua, auth).stop == BlankLine
    ensures ScanHeaders(s + t, from, ua, auth) == ScanHeaders(s, from, ua, auth)
    decreases |s| - from, 0
  {
    NamesHaveNoCr();
    SameCaselessAt(s[p..p + |AuthorizationName|], AuthorizationName, 0);
    assert Lower(s[p]) == 'a';
    assert !OccursAtCaseless(s + t, UserAgentName, p) by {
      if OccursAtCaseless(s + t, UserAgentName, p) {
        SameCaselessAt((s + t)[p..p + |UserAgentName|], UserAgentName, 0);
        assert false;
      }
    }
    CaselessAppend(s, t, AuthorizationName, p);
    var q := SkipBlanks(s, p + |AuthorizationName|);
    var v := CaptureValue(s, q, auth);
    UnfoldAuthorization(s, from, ua, auth);
    BlankLineAhead(s, q, ua, v);
    SkipBlanksExtend(s, t, p + |AuthorizationName|);
    CaptureExtend(s, t, q, auth);
    UnfoldAuthorization(s + t, from, ua, auth);
    BlankLineEndsScan(s, t, q, ua, v);
  }

  // ----- A well-formed header line is captured -----

  /** In `s`, the text `v` at `q` is followed by a CRLF and holds none: the next CRLF from `q`
      is the one right after `v`. */
  lemma CrlfAfter(s: string, q: nat, v: string)
    requires q + |v| + 2 <= |s| && s[q..q + |v|] == v && CrlfFree(v)
    requires s[q + |v|] == '\r' && s[q + |v| + 1] == '\n'
    ensures Find(s, Crlf, q) == Some(q + |v|)
  {
    assert OccursAt(s, Crlf, q + |v|) by {
      assert s[q + |v|..q + |v| + 2] == Crlf;
    }
    forall j | q <= j < q + |v| ensures !OccursAt(s, Crlf, j) {
      if j + 1 < q + |v| {
        assert v[j - q] == s[j] && v[j - q + 1] == s[j + 1];
        assert v[j - q..j - q + 2] == s[j..j + 2];
        assert !OccursAt(v, Crlf, j - q);
      } else {
        assert s[j + 1] == '\r';
      }
    }
  }

  /** A line that starts with a CR is neither header the scan looks for. */
  lemma NoNameAtCr(s: string, p: nat)
    requires p < |s| && s[p] == '\r'
    ensures !OccursAtCaseless(s, UserAgentName, p) && !OccursAtCaseless(s, AuthorizationName, p)
  {
  }

  /** An empty line right after the next CRLF ends the scan with the fields as they are. */
  lemma BlankLineNext(s: string, from: nat, ua: string, auth: string)
    requires from < |s| && Find(s, Crlf, from).Some?
    requires OccursAt(s, Crlf, Find(s, Crlf, from).value + 2)
    ensures ScanHeaders(s, from, ua, auth) == HeaderScan(ua, auth, BlankLine)
  {
    var p := Find(s, Crlf, from).value + 2;
    assert s[p] == '\r';
    NoNameAtCr(s, p);
  }

  /** The value of a header line followed by an empty line: it is captured whole when it is
      shorter than the limit (the field keeps what it held otherwise), and the scan ends at the
      empty line. */
  lemma ValueThenBlank(s: string, q: nat, v: string, prior: string, ua: string, auth: string)
    requires q + |v| + 4 <= |s| && s[q..q + |v|] == v && CrlfFree(v)
    requires s[q + |v|..q + |v| + 4] == Crlf + Crlf
    ensures CaptureValue(s, q, prior) == if |v| < HeaderValueLimit then v else prior
    ensures ScanHeaders(s, q, ua, auth) == HeaderScan(ua, auth, BlankLine)
  {
    DoubleCrlf(s, q + |v|);
    CrlfAfter(s, q, v);
    ValueBeforeCrlfCaptured(s, q, v, prior);
    BlankLineNext(s, q, ua, auth);
  }

  /** Two CRLFs at `e`: a CR and an LF, then a CRLF right behind them. */
  lemma DoubleCrlf(s: string, e: nat)
    requires e + 4 <= |s| && s[e..e + 4] == Crlf + Crlf
    ensures s[e] == '\r' && s[e + 1] == '\n' && OccursAt(s, Crlf, e + 2)
  {
    var w := s[e..e + 4];
    assert s[e] == w[0] && s[e + 1] == w[1];
    assert s[e + 2..e + 4] == w[2..4];
  }

  /** The value that the next CRLF ends is what the capture reads. */
  lemma ValueBeforeCrlfCaptured(s: string, q: nat, v: string, prior: string)
    requires q + |v| <= |s| && s[q..q + |v|] == v && Find(s, Crlf, q) == Some(q + |v|)
    ensures CaptureValue(s, q, prior) == if |v| < HeaderValueLimit then v else prior
  {
  }

  /** The request line, then the header line that starts right after its CRLF. */
  lemma FirstLine(s: string, line: string)
    requires CrlfFree(line) && |line| + 2 <= |s| && s[..|line|] == line
    requires s[|line|] == '\r' && s[|line| + 1] == '\n'
    ensures |s| > 0 && Find(s, Crlf, 0) == Some(|line|)
  {
    assert s[0..|line|] == line;
    CrlfAfter(s, 0, line);
  }

  /** A run of spaces, the only blanks the scan skips after a header name. */
  predicate Blanks(b: string) {
    forall k :: 0 <= k < |b| ==> b[k] == ' '
  }

  /** A request line, one header line `<name><blanks><v>`, an empty line, and whatever
      follows. The name carries its colon. */
  function OneHeader(line: string, name: string, blanks: string, v: string, rest: string): string {
    line + (Crlf + (name + (blanks + (v + (Crlf + Crlf + rest)))))
  }

  /** Where the pieces of a one-header request lie in `s`: the request line, its CRLF, the
      name at `|line| + 2`, the blanks, the value, and two CRLFs. */
  predicate HeaderLayout(s: string, line: string, name: string, blanks: string, v: string) {
    var p := |line| + 2;
    var b := p + |name|;
    var q := b + |blanks|;
    && q + |v| + 4 <= |s|
    && s[..|line|] == line && s[|line|] == '\r' && s[|line| + 1] == '\n'
    && s[p..b] == name && s[b..q] == blanks
    && s[q..q + |v|] == v && s[q + |v|..q + |v| + 4] == Crlf + Crlf
    && s[q + |v|] == '\r'
  }

  lemma OneHeaderLayout(line: string, name: string, blanks: string, v: string, rest: string)
    ensures HeaderLayout(OneHeader(line, name, blanks, v, rest), line, name, blanks, v)
  {
    var s := OneHeader(line, name, blanks, v, rest);
    LineLayout(s, line, name + (blanks + (v + (Crlf + Crlf + rest))));
    AfterLineLayout(s, line, name, blanks, v, rest);
  }

  /** The header line and what follows it, once the request line is in place. */
  lemma AfterLineLayout(s: string, line: string, name: string, blanks: string, v: string, rest: string)
    requires |line| + 2 <= |s| && s[..|line|] == line && s[|line|] == '\r' && s[|line| + 1] == '\n'
    requires s[|line| + 2..] == name + (blanks + (v + (Crlf + Crlf + rest)))
    ensures HeaderLayout(s, line, name, blanks, v)
  {
    var y := v + (Crlf + Crlf + rest);
    PieceLayout(s, |line| + 2, name, blanks + y);
    PieceLayout(s, |line| + 2 + |name|, blanks, y);
    ValueLayout(s, |line| + 2 + |name| + |blanks|, v, rest);
  }

  /** `line`, a CRLF, then `x`. */
  lemma LineLayout(s: string, line: string, x: string)
    requires s == line + (Crlf + x)
    ensures |line| + 2 <= |s| && s[..|line|] == line && s[|line|] == '\r' && s[|line| + 1] == '\n'
    ensures s[|line| + 2..] == x
  {
  }

  /** From `p` on: the piece `a`, then `y`. */
  lemma PieceLayout(s: string, p: nat, a: string, y: string)
    requires p <= |s| && s[p..] == a + y
    ensures p + |a| <= |s| && s[p..p + |a|] == a && s[p + |a|..] == y
  {
    assert s[p..p + |a|] == s[p..][..|a|];
    assert s[p + |a|..] == s[p..][|a|..];
  }

  /** From `q` on: the value, then two CRLFs. */
  lemma ValueLayout(s: string, q: nat, v: string, rest: string)
    requires q <= |s| && s[q..] == v + (Crlf + Crlf + rest)
    ensures q + |v| + 4 <= |s|
    ensures s[q..q + |v|] == v && s[q + |v|..q + |v| + 4] == Crlf + Crlf && s[q + |v|] == '\r'
  {
    assert s[q..q + |v|] == s[q..][..|v|];
    assert s[q + |v|..q + |v| + 4] == s[q..][|v|..|v| + 4];
    assert s[q + |v|] == s[q..][|v|];
  }

  /** Skipping spaces from `i` stops at `q` when everything in between is a space and `q` is
      not. */
  lemma {:induction false} SkipBlanksTo(s: string, i: nat, q: nat)
    requires i <= q <= |s| && (forall k :: i <= k < q ==> s[k] == ' ')
    requires q == |s| || s[q] != ' '
    ensures SkipBlanks(s, i) == q
    decreases q - i
  {
    if i < q {
      SkipBlanksTo(s, i + 1, q);
    }
  }

  /** The header value `v` at `q` starts right after the blanks behind the name, which end at
      `b`. */
  lemma ValueStart(s: string, b: nat, q: nat, v: string)
    requires b <= q && q + |v| < |s| && Blanks(s[b..q]) && s[q..q + |v|] == v && s[q + |v|] == '\r'
    requires |v| > 0 ==> v[0] != ' '
    ensures SkipBlanks(s, b) == q
  {
    assert s[q] != ' ' by {
      if |v| > 0 {
        assert s[q] == v[0];
      }
    }
    forall k | b <= k < q ensures s[k] == ' ' {
      assert s[k] == s[b..q][k - b];
    }
    SkipBlanksTo(s, b, q);
  }

  /** A name written in `s` that equals `pat` ignoring case matches `pat` there. */
  lemma NameMatches(s: string, p: nat, name: string, pat: string)
    requires p + |name| <= |s| && s[p..p + |name|] == name && SameCaseless(name, pat)
    ensures OccursAtCaseless(s, pat, p)
  {
  }

  /** A line that starts with `Authorization:`, in any case, does not match `User-Agent:`. */
  lemma NotUserAgent(s: string, p: nat, name: string)
    requires p + |name| <= |s| && s[p..p + |name|] == name && SameCaseless(name, AuthorizationName)
    ensures !OccursAtCaseless(s, UserAgentName, p)
  {
    assert Lower(s[p]) == 'a' by {
      assert s[p] == name[0];
    }
    if p + |UserAgentName| <= |s| {
      assert s[p..p + |UserAgentName|][0] == s[p];
    }
  }

  /** A request whose first header is `User-Agent:` in any case, then any run of spaces and a
      value `v`, followed by an empty line, records `v` as the user agent when it is shorter
      than the limit and nothing otherwise. `v` does not start with a space: the spaces before
      it are `blanks`, so every such line has this shape. */
  lemma UserAgentCaptured(line: string, name: string, blanks: string, v: string, rest: string)
    requires SameCaseless(name, UserAgentName) && Blanks(blanks)
    requires CrlfFree(line) && CrlfFree(v)
    requires |v| > 0 ==> v[0] != ' '
    ensures ScanHeaders(OneHeader(line, name, blanks, v, rest), 0, "", "")
         == HeaderScan(if |v| < HeaderValueLimit then v else "", "", BlankLine)
  {
    OneHeaderLayout(line, name, blanks, v, rest);
    UserAgentLine(OneHeader(line, name, blanks, v, rest), line, name, blanks, v);
  }

  lemma UserAgentLine(s: string, line: string, name: string, blanks: string, v: string)
    requires HeaderLayout(s, line, name, blanks, v)
    requires SameCaseless(name, UserAgentName) && Blanks(blanks)
    requires CrlfFree(line) && CrlfFree(v)
    requires |v| > 0 ==> v[0] != ' '
    ensures ScanHeaders(s, 0, "", "") == HeaderScan(if |v| < HeaderValueLimit then v else "", "", BlankLine)
  {
    var q := |line| + 2 + |name| + |blanks|;
    var ua := CaptureValue(s, q, "");
    ValueThenBlank(s, q, v, "", ua, "");
    UserAgentFirst(s, line, name, blanks, v);
  }

  lemma UserAgentFirst(s: string, line: string, name: string, blanks: string, v: string)
    requires HeaderLayout(s, line, name, blanks, v)
    requires SameCaseless(name, UserAgentName) && Blanks(blanks)
    requires CrlfFree(line)
    requires |v| > 0 ==> v[0] != ' '
    ensures var q := |line| + 2 + |name| + |blanks|;
            ScanHeaders(s, 0, "", "") == ScanHeaders(s, q, CaptureValue(s, q, ""), "")
  {
    var b := |line| + 2 + |name|;
    var q := b + |blanks|;
    FirstLine(s, line);
    ValueStart(s, b, q, v);
    UserAgentAt(s, |line|, name, q);
  }

  /** The line after the first CRLF starts with `User-Agent:` in any case; its value starts
      at `q`. */
  lemma UserAgentAt(s: string, j: nat, name: string, q: nat)
    requires 0 < |s| && Find(s, Crlf, 0) == Some(j)
    requires j + 2 + |name| <= q <= |s| && s[j + 2..j + 2 + |name|] == name
    requires SameCaseless(name, UserAgentName)
    requires SkipBlanks(s, j + 2 + |name|) == q
    ensures ScanHeaders(s, 0, "", "") == ScanHeaders(s, q, CaptureValue(s, q, ""), "")
  {
    NameMatches(s, j + 2, name, UserAgentName);
    UnfoldUserAgent(s, 0, "", "");
  }

  /** The same for a first header `Authorization:` in any case, whose value becomes the
      authorization value. */
  lemma AuthorizationCaptured(line: string, name: string, blanks: string, v: string, rest: string)
    requires SameCaseless(name, AuthorizationName) && Blanks(blanks)
    requires CrlfFree(line) && CrlfFree(v)
    requires |v| > 0 ==> v[0] != ' '
    ensures ScanHeaders(OneHeader(line, name, blanks, v, rest), 0, "", "")
         == HeaderScan("", if |v| < HeaderValueLimit then v else "", BlankLine)
  {
    OneHeaderLayout(line, name, blanks, v, rest);
    AuthorizationLine(OneHeader(line, name, blanks, v, rest), line, name, blanks, v);
  }

  lemma AuthorizationLine(s: string, line: string, name: string, blanks: string, v: string)
    requires HeaderLayout(s, line, name, blanks, v)
    requires SameCaseless(name, AuthorizationName) && Blanks(blanks)
    requires CrlfFree(line) && CrlfFree(v)
    requires |v| > 0 ==> v[0] != ' '
    ensures ScanHeaders(s, 0, "", "") == HeaderScan("", if |v| < HeaderValueLimit then v else "", BlankLine)
  {
    var q := |line| + 2 + |name| + |blanks|;
    var auth := CaptureValue(s, q, "");
    ValueThenBlank(s, q, v, "", "", auth);
    AuthorizationFirst(s, line, name, blanks, v);
  }

  lemma AuthorizationFirst(s: string, line: string, name: string, blanks: string, v: string)
    requires HeaderLayout(s, line, name, blanks, v)
    requires SameCaseless(name, AuthorizationName) && Blanks(blanks)
    requires CrlfFree(line)
    requires |v| > 0 ==> v[0] != ' '
    ensures var q := |line| + 2 + |name| + |blanks|;
            ScanHeaders(s, 0, "", "") == ScanHeaders(s, q, "", CaptureValue(s, q, ""))
  {
    var b := |line| + 2 + |name|;
    var q := b + |blanks|;
    FirstLine(s, line);
    ValueStart(s, b, q, v);
    AuthorizationAt(s, |line|, name, q);
  }

  /** The line after the first CRLF starts with `Authorization:` in any case; its value starts
      at `q`. */
  lemma AuthorizationAt(s: string, j: nat, name: string, q: nat)
    requires 0 < |s| && Find(s, Crlf, 0) == Some(j)
    requires j + 2 + |name| <= q <= |s| && s[j + 2..j + 2 + |name|] == name
    requires SameCaseless(name, AuthorizationName)
    requires SkipBlanks(s, j + 2 + |name|) == q
    ensures ScanHeaders(s, 0, "", "") == ScanHeaders(s, q, "", CaptureValue(s, q, ""))
  {
    NameMatches(s, j + 2, name, AuthorizationName);
    NotUserAgent(s, j + 2, name);
    UnfoldAuthorization(s, 0, "", "");
  }
}
