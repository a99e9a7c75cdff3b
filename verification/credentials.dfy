/** `extract_credentials_from_post`: form-field markers searched for in the request text. */
module Credentials {
  import opened Text
  import opened UrlCodec

  /** The username markers, tried in this order. */
  const UsernameMarkers: seq<string> := ["username=", "user=", "login=", "uname="]

  /** The password markers, tried in this order. */
  const PasswordMarkers: seq<string> := ["password=", "pass=", "pwd=", "passwd="]

  /** `sizeof(char *)` on the 32-bit ESP32: what `sizeof(username)` measures when `username` is a
      pointer parameter. */
  const PointerSize: nat := 4

  /** Where a value ends, counted from its start: the first `&` anywhere after the start; when
      there is none, the first space; when there is none either, the end of the text. */
  function ValueEnd(rest: string): (e: nat)
    ensures e <= |rest|
    ensures '&' !in rest[..e]
    ensures '&' in rest ==> e < |rest| && rest[e] == '&'
    ensures '&' !in rest ==> ' ' !in rest[..e] && (e == |rest| || rest[e] == ' ')
  {
    match IndexOf(rest, '&')
    case Some(i) => i
    case None =>
      match IndexOf(rest, ' ')
      case Some(i) => i
      case None => |rest|
  }

  /** The value after the first occurrence of `marker` (`strstr`), or `None` when the marker does
      not occur. */
  function MarkerValue(data: string, marker: string): (r: Option<string>)
    ensures r.None? <==> Find(data, marker, 0).None?
    ensures r.Some? ==> var start := Find(data, marker, 0).value + |marker|;
                        start <= |data| && r.value <= data[start..] && '&' !in r.value
  {
    match Find(data, marker, 0)
    case None => None
    case Some(i) =>
      var rest := data[i + |marker|..];
      Some(rest[..ValueEnd(rest)])
  }

  /** The values the markers find, in marker order. */
  function Values(data: string, markers: seq<string>): (r: seq<Option<string>>)
    ensures |r| == |markers|
    ensures forall k :: 0 <= k < |markers| ==> r[k] == MarkerValue(data, markers[k])
  {
    if |markers| == 0 then [] else [MarkerValue(data, markers[0])] + Values(data, markers[1..])
  }

  /** A found value short enough for the length test. */
  predicate Fits(v: Option<string>, limit: nat) {
    v.Some? && |v.value| < limit
  }

  /** What the destination holds after the copy and `url_decode` in place. */
  function Captured(v: string): (r: string)
    ensures |r| <= |v|
  {
    CStr(UrlDecode(v))
  }

  /** The field after one marker: a fitting value overwrites it, anything else leaves it. */
  function Step(v: Option<string>, limit: nat, field: string): (r: string)
    ensures r == field || |r| < limit
  {
    if Fits(v, limit) then Captured(v.value) else field
  }

  /** One of the two loops, over the markers' values in list order, updating the field. */
  function ApplyValues(vs: seq<Option<string>>, limit: nat, field: string): (r: string)
    ensures r == field || |r| < limit
    decreases |vs|
  {
    if |vs| == 0 then field else ApplyValues(vs[1..], limit, Step(vs[0], limit, field))
  }

  /** The reference reading of the loop: the index of the last fitting value. */
  function LastFit(vs: seq<Option<string>>, limit: nat): (r: Option<nat>)
    ensures r.Some? ==> r.value < |vs| && Fits(vs[r.value], limit)
    ensures r.Some? ==> forall j :: r.value < j < |vs| ==> !Fits(vs[j], limit)
    ensures r.None? ==> forall j :: 0 <= j < |vs| ==> !Fits(vs[j], limit)
    decreases |vs|
  {
    if |vs| == 0 then None
    else
      var t := LastFit(vs[1..], limit);
      if t.Some? then Some(t.value + 1)
      else if Fits(vs[0], limit) then Some(0)
      else None
  }

  /** Last match wins: the loop leaves the capture of the last fitting value in the field, or
      the field's prior value when no value fits. */
  lemma {:induction false} LastMatchWins(vs: seq<Option<string>>, limit: nat, field: string)
    ensures var k := LastFit(vs, limit);
            ApplyValues(vs, limit, field) == if k.Some? then Captured(vs[k.value].value) else field
    decreases |vs|
  {
    if |vs| > 0 {
      LastMatchWins(vs[1..], limit, Step(vs[0], limit, field));
      var t := LastFit(vs[1..], limit);
      if t.Some? {
        assert vs[1..][t.value] == vs[t.value + 1];
      }
    }
  }

  datatype Creds = Creds(username: string, password: string)

  /** Both loops, with the length limits of the username and password tests. */
  function Extract(data: string, userLimit: nat, passLimit: nat, prior: Creds): (r: Creds)
    ensures r.username == prior.username || |r.username| < userLimit
    ensures r.password == prior.password || |r.password| < passLimit
  {
    Creds(ApplyValues(Values(data, UsernameMarkers), userLimit, prior.username),
          ApplyValues(Values(data, PasswordMarkers), passLimit, prior.password))
  }

  /** The function as written: both tests compare against `sizeof(char *) - 1`, so a field is
      only ever replaced by a value of at most two characters. */
  function ExtractAsWritten(data: string, prior: Creds): (r: Creds)
    ensures r.username == prior.username || |r.username| <= 2
    ensures r.password == prior.password || |r.password| <= 2
  {
    Extract(data, PointerSize - 1, PointerSize - 1, prior)
  }

  /** The function as evidently intended: each test compares against the size of the record
      field it writes (`userSize`, `passSize` characters including the NUL), so every captured
      value fits its field. */
  function ExtractCorrected(data: string, userSize: nat, passSize: nat, prior: Creds): (r: Creds)
    requires userSize >= 1 && passSize >= 1
    ensures r.username == prior.username || |r.username| < userSize - 1
    ensures r.password == prior.password || |r.password| < passSize - 1
  {
    Extract(data, userSize - 1, passSize - 1, prior)
  }

  /** A value without escapes and without NUL is captured as it is. */
  lemma CapturedPlain(v: string)
    requires '%' !in v && '+' !in v && '\0' !in v
    ensures Captured(v) == v
  {
    DecodePlain(v);
  }

  /** The plain user name of the example form. */
  lemma CapturedName(v: string)
    requires v == "admin"
    ensures Captured(v) == "admin"
  {
    CapturedPlain(v);
  }

  /** The escaped password of the example form. */
  lemma CapturedEscaped(v: string)
    requires v == "sup+er%40"
    ensures Captured(v) == "sup er@"
  {
    DecodeExample(v);
    var d := UrlDecode(v);
    assert '\0' !in d;
  }

  // ----- The sizeof bug on a concrete form -----

  /** The example login form `username=admin&password=sup+er%40`, in its two fields. */
  const UserField: string := "username=admin&"
  const PassField: string := "password=sup+er%40"
  const LoginForm: string := UserField + PassField

  /** An occurrence ends with the pattern's last character. */
  lemma OccursAtLast(s: string, pat: string, k: nat)
    requires |pat| > 0 && OccursAt(s, pat, k)
    ensures s[k + |pat| - 1] == pat[|pat| - 1]
  {
    assert s[k..k + |pat|][|pat| - 1] == s[k + |pat| - 1];
  }

  /** In a text whose only `=` are at `a` and `b`, a pattern ending in `=` can only occur where
      it ends at one of them; when its first character is wrong at both places, it is absent. */
  lemma AbsentByEquals(s: string, pat: string, a: nat, b: nat)
    requires 0 < |pat| && pat[|pat| - 1] == '='
    requires a < |s| && b < |s|
    requires forall i :: 0 <= i < |s| && s[i] == '=' ==> i == a || i == b
    requires a + 1 >= |pat| ==> s[a + 1 - |pat|] != pat[0]
    requires b + 1 >= |pat| ==> s[b + 1 - |pat|] != pat[0]
    ensures MarkerValue(s, pat).None?
  {
    forall k: nat | OccursAt(s, pat, k) ensures false {
      OccursAtLast(s, pat, k);
    }
  }

  /** Nothing before `p` matches and `pat` occurs at `p`: the value starts right after it. */
  lemma FoundAt(s: string, pat: string, p: nat, e: nat)
    requires OccursAt(s, pat, p)
    requires forall k :: 0 <= k < p ==> !OccursAt(s, pat, k)
    requires p + |pat| + e <= |s|
    requires '&' !in s[p + |pat|..p + |pat| + e]
    requires p + |pat| + e < |s| && s[p + |pat| + e] == '&'
    ensures MarkerValue(s, pat) == Some(s[p + |pat|..p + |pat| + e])
  {
    var rest := s[p + |pat|..];
    assert rest[..e] == s[p + |pat|..p + |pat| + e];
    assert rest[e] == '&';
  }

  /** As `FoundAt`, for a value that runs to the end of the text. */
  lemma FoundAtEnd(s: string, pat: string, p: nat)
    requires OccursAt(s, pat, p)
    requires forall k :: 0 <= k < p ==> !OccursAt(s, pat, k)
    requires '&' !in s[p + |pat|..] && ' ' !in s[p + |pat|..]
    ensures MarkerValue(s, pat) == Some(s[p + |pat|..])
  {
    var rest := s[p + |pat|..];
    assert ValueEnd(rest) == |rest|;
    assert rest[..|rest|] == rest;
  }

  lemma LoginFormEquals(s: string)
    requires s == LoginForm
    ensures |s| == 33
    ensures forall i :: 0 <= i < |s| && s[i] == '=' ==> i == 8 || i == 23
  {
    forall i | 0 <= i < |s| && s[i] == '=' ensures i == 8 || i == 23 {
      if i < |UserField| {
        assert s[i] == UserField[i];
      } else {
        assert s[i] == PassField[i - |UserField|];
      }
    }
  }

  /** The characters where a marker ending at one of the two `=` would have to start. */
  lemma LoginFormStarts(s: string)
    requires s == LoginForm
    ensures |s| == 33
    ensures s[0] == 'u' && s[2] == 'e' && s[3] == 'r' && s[4] == 'n' && s[5] == 'a'
    ensures s[15] == 'p' && s[17] == 's' && s[18] == 's' && s[19] == 'w' && s[20] == 'o'
    ensures s[9] == 'a' && s[10] == 'd' && s[11] == 'm' && s[12] == 'i' && s[13] == 'n' && s[14] == '&'
  {
    assert s[..15] == UserField;
    assert s[15..] == PassField;
  }

  lemma UsernameInLoginForm(s: string)
    requires s == LoginForm
    ensures MarkerValue(s, "username=") == Some("admin")
  {
    assert s[0..9] == "username=";
    LoginFormStarts(s);
    assert s[9..14] == "admin";
    FoundAt(s, "username=", 0, 5);
  }

  lemma LoginFormPassword(s: string)
    requires s == LoginForm
    ensures s[15..24] == "password=" && s[24..] == "sup+er%40"
  {
    assert LoginForm[15..24] == LoginForm[15..][..9];
  }

  lemma PasswordInLoginForm(s: string)
    requires s == LoginForm
    ensures MarkerValue(s, "password=") == Some("sup+er%40")
  {
    LoginFormPassword(s);
    forall k | 0 <= k < 15 ensures !OccursAt(s, "password=", k) {
      if OccursAt(s, "password=", k) {
        LoginFormEquals(s);
        OccursAtLast(s, "password=", k);
        LoginFormStarts(s);
      }
    }
    FoundAtEnd(s, "password=", 15);
  }

  /** What the form looks like around its two `=`: enough to rule out the other markers. */
  predicate FormShape(s: string) {
    && |s| == 33
    && (forall i :: 0 <= i < |s| && s[i] == '=' ==> i == 8 || i == 23)
    && s[2] == 'e' && s[3] == 'r' && s[4] == 'n' && s[5] == 'a'
    && s[17] == 's' && s[18] == 's' && s[19] == 'w' && s[20] == 'o'
  }

  lemma LoginFormShape(s: string)
    requires s == LoginForm
    ensures FormShape(s)
  {
    LoginFormEquals(s);
    LoginFormStarts(s);
  }

  /** A marker ending in `=` whose first character is wrong where it would have to start. */
  lemma AbsentFromForm(s: string, pat: string)
    requires FormShape(s) && 0 < |pat| <= 9 && pat[|pat| - 1] == '='
    requires s[9 - |pat|] != pat[0] && s[24 - |pat|] != pat[0]
    ensures MarkerValue(s, pat).None?
  {
    AbsentByEquals(s, pat, 8, 23);
  }

  /** The username markers after the first are all absent from the form. */
  lemma OtherUsernameMarkersAbsent(s: string)
    requires FormShape(s)
    ensures forall k :: 1 <= k < |UsernameMarkers| ==> MarkerValue(s, UsernameMarkers[k]).None?
  {
    AbsentFromForm(s, UsernameMarkers[1]);
    AbsentFromForm(s, UsernameMarkers[2]);
    AbsentFromForm(s, UsernameMarkers[3]);
  }

  /** The password markers after the first are all absent from the form. */
  lemma OtherPasswordMarkersAbsent(s: string)
    requires FormShape(s)
    ensures forall k :: 1 <= k < |PasswordMarkers| ==> MarkerValue(s, PasswordMarkers[k]).None?
  {
    AbsentFromForm(s, PasswordMarkers[1]);
    AbsentFromForm(s, PasswordMarkers[2]);
    AbsentFromForm(s, PasswordMarkers[3]);
  }

  /** Four values, the first one found and the rest absent. */
  lemma FourValues(data: string, markers: seq<string>, v: string)
    requires |markers| == 4 && MarkerValue(data, markers[0]) == Some(v)
    requires forall k :: 1 <= k < |markers| ==> MarkerValue(data, markers[k]).None?
    ensures Values(data, markers) == [Some(v), None, None, None]
  {
    var vs := Values(data, markers);
    assert vs[0] == Some(v) && vs[1] == None && vs[2] == None && vs[3] == None;
  }

  /** The values the two marker lists find in the form. */
  lemma LoginFormValues(s: string)
    requires s == LoginForm
    ensures Values(s, UsernameMarkers) == [Some("admin"), None, None, None]
    ensures Values(s, PasswordMarkers) == [Some("sup+er%40"), None, None, None]
  {
    LoginFormShape(s);
    UsernameInLoginForm(s);
    OtherUsernameMarkersAbsent(s);
    FourValues(s, UsernameMarkers, "admin");
    PasswordInLoginForm(s);
    OtherPasswordMarkersAbsent(s);
    FourValues(s, PasswordMarkers, "sup+er%40");
  }

  /** As written, the login form leaves both fields at their defaults: `admin` has five
      characters and `sup+er%40` nine, and neither is below 3. */
  lemma AsWrittenDropsCredentials(form: string)
    requires form == LoginForm
    ensures ExtractAsWritten(form, Creds("N/A", "N/A")) == Creds("N/A", "N/A")
  {
    LoginFormValues(form);
    var us: seq<Option<string>> := [Some("admin"), None, None, None];
    var ps: seq<Option<string>> := [Some("sup+er%40"), None, None, None];
    LastMatchWins(us, 3, "N/A");
    LastMatchWins(ps, 3, "N/A");
  }

  /** Corrected, the same form yields `admin` and `sup er@` once the fields can hold them. */
  lemma CorrectedKeepsCredentials(form: string, userSize: nat, passSize: nat)
    requires form == LoginForm && userSize >= 7 && passSize >= 11
    ensures ExtractCorrected(form, userSize, passSize, Creds("N/A", "N/A")) == Creds("admin", "sup er@")
  {
    CorrectedUsername(form, userSize);
    CorrectedPassword(form, passSize);
  }

  lemma CorrectedUsername(form: string, userSize: nat)
    requires form == LoginForm && userSize >= 7
    ensures ApplyValues(Values(form, UsernameMarkers), userSize - 1, "N/A") == "admin"
  {
    LoginFormValues(form);
    FirstOnlyFits(Values(form, UsernameMarkers), userSize - 1, "admin");
    CapturedName("admin");
  }

  lemma CorrectedPassword(form: string, passSize: nat)
    requires form == LoginForm && passSize >= 11
    ensures ApplyValues(Values(form, PasswordMarkers), passSize - 1, "N/A") == "sup er@"
  {
    LoginFormValues(form);
    FirstOnlyFits(Values(form, PasswordMarkers), passSize - 1, "sup+er%40");
    CapturedEscaped("sup+er%40");
  }

  /** Only the first marker found a value, and it fits: the loop captures it. */
  lemma FirstOnlyFits(vs: seq<Option<string>>, limit: nat, v: string)
    requires vs == [Some(v), None, None, None] && |v| < limit
    ensures ApplyValues(vs, limit, "N/A") == Captured(v)
  {
    LastMatchWins(vs, limit, "N/A");
    assert LastFit(vs, limit) == Some(0);
  }
}
