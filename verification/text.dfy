/** Character-string helpers that give the C library's string functions a meaning on `seq<char>`. */
module Text {

  datatype Option<T> = None | Some(value: T) {
    predicate IsFailure() {
      None?
    }

    function PropagateFailure<U>(): Option<U>
      requires None?
    {
      None
    }

    function Extract(): T
      requires Some?
    {
      value
    }
  }

  function Min(a: int, b: int): int {
    if a < b then a else b
  }

  /** The C string held by a character buffer: everything before the first NUL. */
  function CStr(s: string): (r: string)
    ensures r <= s
    ensures '\0' !in r
    ensures |r| < |s| ==> s[|r|] == '\0'
  {
    if |s| == 0 || s[0] == '\0' then "" else [s[0]] + CStr(s[1..])
  }

  /** What `strncpy(dst, src, n)` leaves in a zero-filled buffer of `n + 1` characters. */
  function Truncate(s: string, n: nat): (r: string)
    ensures r <= s
    ensures |r| == Min(|s|, n)
  {
    if |s| <= n then s else s[..n]
  }

  /** `pat` occurs in `s` starting at index `i`. */
  predicate OccursAt(s: string, pat: string, i: nat) {
    i + |pat| <= |s| && s[i..i + |pat|] == pat
  }

  /** `strstr(s + from, pat)`: the first index at or after `from` where `pat` occurs. */
  function Find(s: string, pat: string, from: nat): (r: Option<nat>)
    decreases |s| - from
    ensures r.Some? ==> from <= r.value && OccursAt(s, pat, r.value)
    ensures r.Some? ==> forall k :: from <= k < r.value ==> !OccursAt(s, pat, k)
    ensures r.None? ==> forall k :: from <= k ==> !OccursAt(s, pat, k)
  {
    if from + |pat| > |s| then None
    else if OccursAt(s, pat, from) then Some(from)
    else Find(s, pat, from + 1)
  }

  /** `strchr(s, c)` for a character other than NUL: the index of the first `c`. */
  function IndexOf(s: string, c: char): (r: Option<nat>)
    ensures r.Some? ==> r.value < |s| && s[r.value] == c && c !in s[..r.value]
    ensures r.None? ==> c !in s
  {
    if |s| == 0 then None
    else if s[0] == c then Some(0)
    else
      match IndexOf(s[1..], c)
      case None => None
      case Some(i) => Some(i + 1)
  }

  /** Appending text never changes an occurrence that was already found. */
  lemma {:induction false} FindExtend(s: string, t: string, pat: string, from: nat)
    requires Find(s, pat, from).Some?
    ensures Find(s + t, pat, from) == Find(s, pat, from)
    decreases |s| - from
  {
    assert OccursAt(s, pat, from) ==> (s + t)[from..from + |pat|] == s[from..from + |pat|];
    if !OccursAt(s, pat, from) {
      assert (s + t)[from..from + |pat|] == s[from..from + |pat|];
      FindExtend(s, t, pat, from + 1);
    }
  }

  /** ASCII `tolower`, as `strncasecmp` applies it in the C locale. */
  function Lower(c: char): char {
    if 'A' <= c <= 'Z' then (c as int + 32) as char else c
  }

  /** Two strings of the same length that agree character by character once lowered. */
  predicate SameCaseless(a: string, b: string) {
    |a| == |b| && (|a| == 0 || (Lower(a[0]) == Lower(b[0]) && SameCaseless(a[1..], b[1..])))
  }

  /** `SameCaseless` read position by position. */
  lemma {:induction false} SameCaselessAt(a: string, b: string, k: nat)
    requires SameCaseless(a, b) && k < |a|
    ensures Lower(a[k]) == Lower(b[k])
  {
    if k > 0 {
      SameCaselessAt(a[1..], b[1..], k - 1);
    }
  }

  /** Every string matches itself ignoring case. */
  lemma {:induction false} SameCaselessRefl(a: string)
    ensures SameCaseless(a, a)
  {
    if |a| > 0 {
      SameCaselessRefl(a[1..]);
    }
  }

  /** `strncasecmp(s + i, pat, |pat|) == 0`. */
  predicate OccursAtCaseless(s: string, pat: string, i: nat) {
    i + |pat| <= |s| && SameCaseless(s[i..i + |pat|], pat)
  }

  /** `isspace` in the C locale. */
  predicate IsSpace(c: char) {
    c == ' ' || c == '\t' || c == '\n' || c == '\U{0B}' || c == '\U{0C}' || c == '\r'
  }

  predicate IsDigit(c: char) {
    '0' <= c <= '9'
  }

  predicate AllDigits(s: string) {
    forall i :: 0 <= i < |s| ==> IsDigit(s[i])
  }

  /** The decimal text `%d` prints for a non-negative value. */
  function Decimal(n: nat): (r: string)
    ensures |r| >= 1
    ensures AllDigits(r)
    ensures n < 10 <==> |r| == 1
  {
    if n < 10 then [('0' as int + n) as char]
    else Decimal(n / 10) + [('0' as int + n % 10) as char]
  }

  /** The value of a string of decimal digits. */
  function DecimalValue(s: string): nat
    requires AllDigits(s)
  {
    if |s| == 0 then 0
    else DecimalValue(s[..|s| - 1]) * 10 + (s[|s| - 1] as int - '0' as int)
  }

  /** Reading back what `%d` printed gives the printed value. */
  lemma {:induction false} DecimalRoundTrip(n: nat)
    ensures DecimalValue(Decimal(n)) == n
  {
    if n >= 10 {
      var r := Decimal(n);
      assert r[..|r| - 1] == Decimal(n / 10);
      DecimalRoundTrip(n / 10);
    }
  }
}
