/** The attack record (`attack_log_t`) and its one-line JSON export format. */
module AttackRecord {
  import opened Esp
  import opened Text

  /** One observed interaction. Every string field is the C string held in a fixed char array. */
  datatype AttackLog = AttackLog(
    timestamp: int,
    sourceIp: string,
    targetPort: nat,
    service: string,
    username: string,
    password: string,
    userAgent: string,
    payloadHash: string,
    metadata: string)

  /** A zero-filled record, `attack_log_t x = {0}`. */
  const ZeroLog := AttackLog(0, "", 0, "", "", "", "", "", "")

  /** The value of one export member: a `%s` string or a `%d` number. */
  datatype Value = Str(s: string) | Num(n: nat)

  /** The export format's members, in its fixed order. */
  const ExportKeys: seq<string> := ["timestamp", "source_ip", "target_port", "service", "username",
                                    "password", "user_agent", "payload_hash", "metadata"]

  /** The values the export format string is given, in order; the timestamp is the text
      `strftime` rendered, taken as given. */
  function ExportValues(log: AttackLog, timeText: string): (r: seq<Value>)
    ensures |r| == |ExportKeys|
  {
    [Str(timeText), Str(log.sourceIp), Num(log.targetPort), Str(log.service), Str(log.username),
     Str(log.password), Str(log.userAgent), Str(log.payloadHash), Str(log.metadata)]
  }

  /** One member as the format string writes it: `"key":"text"` for `%s`, `"key":N` for `%d`.
      A `%s` argument is printed up to its first NUL and without any escaping. */
  function Member(key: string, v: Value): string {
    match v
    case Str(s) => "\"" + key + "\":\"" + CStr(s) + "\""
    case Num(n) => "\"" + key + "\":" + Decimal(n)
  }

  /** Members joined by commas. */
  function Members(keys: seq<string>, vs: seq<Value>): string
    requires |keys| == |vs|
  {
    if |keys| == 0 then ""
    else if |keys| == 1 then Member(keys[0], vs[0])
    else Member(keys[0], vs[0]) + "," + Members(keys[1..], vs[1..])
  }

  /** The complete text the export `snprintf` produces before any truncation. */
  function JsonText(log: AttackLog, timeText: string): string {
    "{" + Members(ExportKeys, ExportValues(log, timeText)) + "}"
  }

  datatype JsonResult = JsonResult(err: EspErr, text: string)

  /** `attack_logger_format_json`: a missing record or buffer (`None`) is an invalid argument;
      otherwise the buffer holds what fits of the rendering, and a rendering that does not fit
      together with its terminating NUL is reported as an invalid size. */
  function FormatJson(log: Option<AttackLog>, bufferSize: Option<nat>, timeText: string): (r: JsonResult)
    ensures log.None? || bufferSize.None? ==> r.err == ErrInvalidArg
    ensures log.Some? && bufferSize.Some? ==>
              (r.err == EspOk <==> |JsonText(log.value, timeText)| < bufferSize.value)
    ensures log.Some? && bufferSize.Some? ==> r.err in {EspOk, ErrInvalidSize}
    ensures bufferSize.Some? && bufferSize.value > 0 ==> |r.text| < bufferSize.value
    ensures r.err == EspOk ==> r.text == JsonText(log.value, timeText)
    ensures r.err == ErrInvalidSize && bufferSize.value > 0 ==>
              r.text <= JsonText(log.value, timeText) && |r.text| == bufferSize.value - 1
    ensures r.err == ErrInvalidArg || (bufferSize.Some? && bufferSize.value == 0) ==> r.text == ""
    ensures r.err == EspOk && QuoteFree(ExportValues(log.value, timeText)) ==>
              ParseJson(r.text) == Some(Printed(ExportValues(log.value, timeText)))
  {
    if log.None? || bufferSize.None? then JsonResult(ErrInvalidArg, "")
    else
      var full := JsonText(log.value, timeText);
      var size := bufferSize.value;
      if |full| >= size then
        JsonResult(ErrInvalidSize, if size == 0 then "" else Truncate(full, size - 1))
      else if QuoteFree(ExportValues(log.value, timeText)) then
        JsonRoundTrip(log.value, timeText);
        JsonResult(EspOk, full)
      else
        JsonResult(EspOk, full)
  }

  // ----- Reading an export line back -----

  /** What a value looks like once printed: a string up to its first NUL. */
  function PrintedValue(v: Value): Value {
    if v.Str? then Str(CStr(v.s)) else v
  }

  function Printed(vs: seq<Value>): (r: seq<Value>)
    ensures |r| == |vs|
  {
    seq(|vs|, i requires 0 <= i < |vs| => PrintedValue(vs[i]))
  }

  /** No string value holds a double quote: the export applies no escaping, so this is what a
      reader needs to find where each value ends. */
  predicate QuoteFree(vs: seq<Value>) {
    forall i :: 0 <= i < |vs| && vs[i].Str? ==> '"' !in vs[i].s
  }

  function ExpectLit(s: string, lit: string): (r: Option<string>)
    ensures r.Some? ==> s == lit + r.value
  {
    if lit <= s then Some(s[|lit|..]) else None
  }

  /** Splits `s` at the first `c`: the text before it and the text after it. */
  function SplitAt(s: string, c: char): (r: Option<(string, string)>)
    ensures r.Some? ==> c !in r.value.0 && s == r.value.0 + [c] + r.value.1
  {
    if |s| == 0 then None
    else if s[0] == c then Some(("", s[1..]))
    else
      match SplitAt(s[1..], c)
      case None => None
      case Some(p) => Some(([s[0]] + p.0, p.1))
  }

  /** The longest prefix of decimal digits, and what follows it. */
  function TakeDigits(s: string): (r: (string, string))
    ensures AllDigits(r.0) && s == r.0 + r.1
  {
    if |s| == 0 || !IsDigit(s[0]) then ("", s)
    else
      var p := TakeDigits(s[1..]);
      ([s[0]] + p.0, p.1)
  }

  /** Reads one member `"key":` followed by a quoted string or a decimal number. */
  function ParseMember(s: string, key: string): Option<(Value, string)> {
    var r :- ExpectLit(s, "\"" + key + "\":");
    if |r| > 0 && r[0] == '"' then
      var p :- SplitAt(r[1..], '"');
      Some((Str(p.0), p.1))
    else
      var d := TakeDigits(r);
      if |d.0| > 0 then Some((Num(DecimalValue(d.0)), d.1)) else None
  }

  /** Reads comma-separated members with the given keys, in order. */
  function ParseMembers(s: string, keys: seq<string>): Option<(seq<Value>, string)>
    decreases |keys|
  {
    if |keys| == 0 then Some(([], s))
    else
      var m :- ParseMember(s, keys[0]);
      if |keys| == 1 then Some(([m.0], m.1))
      else
        var r :- ExpectLit(m.1, ",");
        var ms :- ParseMembers(r, keys[1..]);
        Some(([m.0] + ms.0, ms.1))
  }

  /** A reader for the export line: the nine members in the fixed order, nothing around them. */
  function ParseJson(s: string): Option<seq<Value>> {
    var r :- ExpectLit(s, "{");
    var ms :- ParseMembers(r, ExportKeys);
    if ms.1 == "}" then Some(ms.0) else None
  }

  lemma {:induction false} SplitAtRoundTrip(v: string, c: char, rest: string)
    requires c !in v
    ensures SplitAt(v + [c] + rest, c) == Some((v, rest))
  {
    var s := v + [c] + rest;
    if |v| > 0 {
      assert [v[0]] + v[1..] == v;
      assert s[0] == v[0] && v[0] != c;
      assert s[1..] == v[1..] + [c] + rest;
      SplitAtRoundTrip(v[1..], c, rest);
    } else {
      assert s == [c] + rest;
    }
  }

  lemma {:induction false} TakeDigitsRoundTrip(d: string, rest: string)
    requires AllDigits(d)
    requires |rest| > 0 ==> !IsDigit(rest[0])
    ensures TakeDigits(d + rest) == (d, rest)
  {
    if |d| > 0 {
      assert [d[0]] + d[1..] == d;
      assert (d + rest)[1..] == d[1..] + rest;
      TakeDigitsRoundTrip(d[1..], rest);
    } else {
      assert d + rest == rest;
    }
  }

  lemma CStrQuoteFree(s: string)
    requires '"' !in s
    ensures '"' !in CStr(s)
  {
    assert forall i :: 0 <= i < |CStr(s)| ==> CStr(s)[i] == s[i];
  }

  lemma MemberRoundTrip(key: string, v: Value, rest: string)
    requires v.Str? ==> '"' !in v.s
    requires |rest| > 0 ==> !IsDigit(rest[0])
    ensures ParseMember(Member(key, v) + rest, key) == Some((PrintedValue(v), rest))
  {
    match v
    case Str(s) => StrMemberRoundTrip(key, s, rest);
    case Num(n) => NumMemberRoundTrip(key, n, rest);
  }

  lemma ExpectKey(key: string, body: string)
    ensures ExpectLit("\"" + key + "\":" + body, "\"" + key + "\":") == Some(body)
  {
    var pre := "\"" + key + "\":";
    assert (pre + body)[|pre|..] == body;
  }

  lemma StrMemberRoundTrip(key: string, s: string, rest: string)
    requires '"' !in s
    ensures ParseMember(Member(key, Str(s)) + rest, key) == Some((Str(CStr(s)), rest))
  {
    var body := ['"'] + (CStr(s) + ['"'] + rest);
    assert Member(key, Str(s)) + rest == "\"" + key + "\":" + body;
    ExpectKey(key, body);
    CStrQuoteFree(s);
    assert body[1..] == CStr(s) + ['"'] + rest;
    SplitAtRoundTrip(CStr(s), '"', rest);
  }

  lemma NumMemberRoundTrip(key: string, n: nat, rest: string)
    requires |rest| > 0 ==> !IsDigit(rest[0])
    ensures ParseMember(Member(key, Num(n)) + rest, key) == Some((Num(n), rest))
  {
    var d := Decimal(n);
    var body := d + rest;
    assert Member(key, Num(n)) + rest == "\"" + key + "\":" + body;
    ExpectKey(key, body);
    assert body[0] != '"' by { assert IsDigit(d[0]); }
    TakeDigitsRoundTrip(d, rest);
    DecimalRoundTrip(n);
  }

  lemma ParseMembersStep(s: string, keys: seq<string>, v: Value, t: string, vs: seq<Value>, r: string)
    requires |keys| > 1
    requires ParseMember(s, keys[0]) == Some((v, "," + t))
    requires ParseMembers(t, keys[1..]) == Some((vs, r))
    ensures ParseMembers(s, keys) == Some(([v] + vs, r))
  {
    assert ExpectLit("," + t, ",") == Some(t);
  }

  lemma QuoteFreeTail(vs: seq<Value>)
    requires |vs| > 0 && QuoteFree(vs)
    ensures QuoteFree(vs[1..])
  {
    forall i | 0 <= i < |vs[1..]| && vs[1..][i].Str?
      ensures '"' !in vs[1..][i].s
    {
      assert vs[1..][i] == vs[i + 1];
    }
  }

  lemma MembersUnfold(keys: seq<string>, vs: seq<Value>, rest: string)
    requires |keys| == |vs| > 1
    ensures Members(keys, vs) + rest == Member(keys[0], vs[0]) + ("," + (Members(keys[1..], vs[1..]) + rest))
  {
    CommaAssoc(Member(keys[0], vs[0]), Members(keys[1..], vs[1..]), rest);
  }

  lemma CommaAssoc(a: string, b: string, rest: string)
    ensures a + "," + b + rest == a + ("," + (b + rest))
  {
  }

  lemma PrintedCons(vs: seq<Value>)
    requires |vs| > 0
    ensures Printed(vs) == [PrintedValue(vs[0])] + Printed(vs[1..])
  {
  }

  lemma {:induction false} MembersRoundTrip(keys: seq<string>, vs: seq<Value>, rest: string)
    requires |keys| == |vs| > 0
    requires QuoteFree(vs)
    requires |rest| > 0 ==> !IsDigit(rest[0])
    ensures ParseMembers(Members(keys, vs) + rest, keys) == Some((Printed(vs), rest))
    decreases |keys|
  {
    assert vs[0].Str? ==> '"' !in vs[0].s;
    PrintedCons(vs);
    if |keys| == 1 {
      MemberRoundTrip(keys[0], vs[0], rest);
      assert Printed(vs) == [PrintedValue(vs[0])];
    } else {
      QuoteFreeTail(vs);
      MembersRoundTrip(keys[1..], vs[1..], rest);
      MembersStep(keys, vs, rest);
    }
  }

  /** One more member in front of members that already read back. */
  lemma MembersStep(keys: seq<string>, vs: seq<Value>, rest: string)
    requires |keys| == |vs| > 1
    requires vs[0].Str? ==> '"' !in vs[0].s
    requires ParseMembers(Members(keys[1..], vs[1..]) + rest, keys[1..]) == Some((Printed(vs[1..]), rest))
    ensures ParseMembers(Members(keys, vs) + rest, keys) == Some(([PrintedValue(vs[0])] + Printed(vs[1..]), rest))
  {
    var tail := Members(keys[1..], vs[1..]) + rest;
    MembersUnfold(keys, vs, rest);
    MemberRoundTrip(keys[0], vs[0], "," + tail);
    ParseMembersStep(Members(keys, vs) + rest, keys, PrintedValue(vs[0]), tail, Printed(vs[1..]), rest);
  }

  /** Reading an export line back yields exactly the printed values, under the nine keys in the
      fixed order, as long as no string value contains a double quote. */
  lemma JsonRoundTrip(log: AttackLog, timeText: string)
    requires QuoteFree(ExportValues(log, timeText))
    ensures ParseJson(JsonText(log, timeText)) == Some(Printed(ExportValues(log, timeText)))
    ensures var ps := ParseJson(JsonText(log, timeText)).value;
            && |ps| == 9
            && ps[0] == Str(CStr(timeText)) && ps[1] == Str(CStr(log.sourceIp))
            && ps[2] == Num(log.targetPort) && ps[3] == Str(CStr(log.service))
            && ps[4] == Str(CStr(log.username)) && ps[5] == Str(CStr(log.password))
            && ps[6] == Str(CStr(log.userAgent)) && ps[7] == Str(CStr(log.payloadHash))
            && ps[8] == Str(CStr(log.metadata))
  {
    var vs := ExportValues(log, timeText);
    PrintedExport(log, timeText);
    MembersRoundTrip(ExportKeys, vs, "}");
    assert JsonText(log, timeText) == "{" + (Members(ExportKeys, vs) + "}");
  }

  /** The printed export values, field by field. */
  lemma PrintedExport(log: AttackLog, timeText: string)
    ensures var ps := Printed(ExportValues(log, timeText));
            && |ps| == 9
            && ps[0] == Str(CStr(timeText)) && ps[1] == Str(CStr(log.sourceIp))
            && ps[2] == Num(log.targetPort) && ps[3] == Str(CStr(log.service))
            && ps[4] == Str(CStr(log.username)) && ps[5] == Str(CStr(log.password))
            && ps[6] == Str(CStr(log.userAgent)) && ps[7] == Str(CStr(log.payloadHash))
            && ps[8] == Str(CStr(log.metadata))
  {
    var vs := ExportValues(log, timeText);
    assert vs == [Str(timeText), Str(log.sourceIp), Num(log.targetPort), Str(log.service),
                  Str(log.username), Str(log.password), Str(log.userAgent), Str(log.payloadHash),
                  Str(log.metadata)];
    PrintedAt(vs, 0); PrintedAt(vs, 1); PrintedAt(vs, 2);
    PrintedAt(vs, 3); PrintedAt(vs, 4); PrintedAt(vs, 5);
    PrintedAt(vs, 6); PrintedAt(vs, 7); PrintedAt(vs, 8);
  }

  lemma PrintedAt(vs: seq<Value>, i: nat)
    requires i < |vs|
    ensures Printed(vs)[i] == PrintedValue(vs[i])
  {
  }
}
