/** The request-handling conventions of api.php that the vote ledger relies
    on: decoded request values, PHP's trim(), intval() and string
    truthiness, the trimming loop of get_request_data, and the routing of
    an action name to a handler. */
module Php {
  import opened Text

  const INT64_MIN: int := -0x8000_0000_0000_0000
  const INT64_MAX: int := 0x7FFF_FFFF_FFFF_FFFF

  /** PHP's native integer on a 64-bit build. */
  type Int64 = i: int | INT64_MIN <= i <= INT64_MAX

  /** A decoded request value: form fields are strings, a JSON body may
      also carry integers and null. */
  datatype Value = Null | Int(i: Int64) | Str(s: string)

  /** The request after decoding: field name to value. */
  type Request = map<string, Value>

  /** The six characters PHP's trim() strips by default. */
  predicate IsTrimChar(c: char) {
    c == ' ' || c == '\t' || c == '\n' || c == '\r' || c == '\0' || c == '\U{B}'
  }

  function PhpTrim(s: string): (r: string)
    ensures |r| <= |s|
    ensures r == [] || (!IsTrimChar(r[0]) && !IsTrimChar(r[|r| - 1]))
  {
    Trim(s, IsTrimChar)
  }

  /** `!$s` for a string: only "" and "0" are falsy in PHP. */
  predicate Falsy(s: string) {
    s == "" || s == "0"
  }

  // ---------------------------------------------------------------------
  // Integer <-> string conversions

  predicate IsDigit(c: char) {
    '0' <= c <= '9'
  }

  /** Whitespace that PHP skips before a leading-numeric string. */
  predicate IsNumericSpace(c: char) {
    c == ' ' || c == '\t' || c == '\n' || c == '\r' || c == '\U{B}' || c == '\U{C}'
  }

  /** The longest prefix of `s` made of decimal digits. */
  function LeadingDigits(s: string): (d: string)
    ensures |d| <= |s| && d == s[..|d|]
    ensures All(d, IsDigit)
    ensures |d| == |s| || !IsDigit(s[|d|])
  {
    if s != [] && IsDigit(s[0]) then
      var d := LeadingDigits(s[1..]);
      assert [s[0]] + d == s[..|d| + 1];
      [s[0]] + d
    else []
  }

  /** The number that a string of decimal digits denotes. */
  function DigitsValue(d: string): (n: nat)
    requires All(d, IsDigit)
  {
    if d == [] then 0
    else
      assert All(d[..|d| - 1], IsDigit);
      DigitsValue(d[..|d| - 1]) * 10 + (d[|d| - 1] as int - '0' as int)
  }

  /** Out-of-range values clamp to the nearest int64, as intval() does. */
  function Saturate(n: int): Int64 {
    if n < INT64_MIN then INT64_MIN else if n > INT64_MAX then INT64_MAX else n
  }

  /** `intval($s)` for a string: skip leading whitespace, read an optional
      sign and the digits that follow, ignore the rest; no digits read as 0. */
  function StringToInt(s: string): (n: Int64) {
    var t := TrimStart(s, IsNumericSpace);
    if t != [] && (t[0] == '-' || t[0] == '+') then
      var n: int := DigitsValue(LeadingDigits(t[1..]));
      Saturate(if t[0] == '-' then -n else n)
    else
      Saturate(DigitsValue(LeadingDigits(t)))
  }

  function DigitChar(d: nat): (c: char)
    requires d < 10
    ensures IsDigit(c) && c as int - '0' as int == d
  {
    ('0' as int + d) as char
  }

  /** The decimal spelling of a natural number, without leading zeros. */
  function NatString(n: nat): (r: string)
    ensures 1 <= |r| && All(r, IsDigit)
    ensures n < 10 <==> |r| == 1
  {
    if n < 10 then [DigitChar(n)] else NatString(n / 10) + [DigitChar(n % 10)]
  }

  /** `(string)$i` for an integer. */
  function IntString(i: int): (r: string) {
    if i < 0 then "-" + NatString(-i) else NatString(i)
  }

  lemma {:induction false} NatStringValue(n: nat)
    ensures DigitsValue(NatString(n)) == n
  {
    if n >= 10 {
      var r := NatString(n);
      assert r[..|r| - 1] == NatString(n / 10);
      NatStringValue(n / 10);
    }
  }

  lemma {:induction false} LeadingDigitsOfDigits(d: string)
    requires All(d, IsDigit)
    ensures LeadingDigits(d) == d
  {
    if d != [] {
      LeadingDigitsOfDigits(d[1..]);
    }
  }

  /** A string that starts with a digit or a minus sign has no leading
      whitespace to skip. */
  lemma NoLeadingSpace(s: string)
    requires s != [] && (IsDigit(s[0]) || s[0] == '-')
    ensures TrimStart(s, IsNumericSpace) == s
  {
    assert !IsNumericSpace(s[0]);
  }

  /** intval() of a sign-less digit string. */
  lemma StringToIntOfDigits(d: string)
    requires d != [] && All(d, IsDigit)
    ensures StringToInt(d) == Saturate(DigitsValue(d))
  {
    LeadingDigitsOfDigits(d);
    NoLeadingSpace(d);
  }

  /** intval() of a minus sign followed by digits. */
  lemma StringToIntOfNegatedDigits(d: string, m: string)
    requires d != [] && All(d, IsDigit)
    requires m == ['-'] + d
    ensures StringToInt(m) == Saturate(-(DigitsValue(d) as int))
  {
    var t := TrimStart(m, IsNumericSpace);
    assert t != [] && t[0] == '-' && LeadingDigits(t[1..]) == d by {
      NoLeadingSpace(m);
      assert m[1..] == d;
      LeadingDigitsOfDigits(d);
    }
  }

  /** Reading back the decimal spelling of an int64 gives the int64. */
  lemma IntStringRoundTrip(i: Int64)
    ensures StringToInt(IntString(i)) == i
  {
    if i < 0 {
      var n: nat := -(i as int);
      NatStringValue(n);
      StringToIntOfNegatedDigits(NatString(n), IntString(i));
    } else {
      NatStringValue(i);
      StringToIntOfDigits(NatString(i));
    }
  }

  /** intval() of a string without a single digit is 0, whatever its
      signs and spaces. */
  lemma NoDigitsReadsZero(s: string)
    requires forall k :: 0 <= k < |s| ==> !IsDigit(s[k])
    ensures StringToInt(s) == 0
  {
    var t := TrimStart(s, IsNumericSpace);
    forall k | 0 <= k < |t|
      ensures !IsDigit(t[k])
    {
      assert t[k] == s[|s| - |t| + k];
    }
    if t != [] {
      assert t[1..] == [] || t[1..][0] == t[1];
    }
  }

  /** The spelling of an integer is falsy exactly for zero. */
  lemma IntStringFalsy(i: int)
    ensures Falsy(IntString(i)) <==> i == 0
  {
    if 0 < i < 10 {
      assert IntString(i) == [DigitChar(i)];
    }
  }

  // ---------------------------------------------------------------------
  // Reading request fields

  /** `$data[key] ?? $default`: a missing key and an explicit null both
      fall back to the default. */
  function Coalesce(req: Request, key: string, default: Value): (v: Value)
    ensures key !in req || req[key].Null? ==> v == default
    ensures key in req && !req[key].Null? ==> v == req[key]
    ensures v.Null? ==> default.Null?
  {
    if key in req && !req[key].Null? then req[key] else default
  }

  /** PHP's conversion of a scalar to a string. */
  function ToPhpString(v: Value): (r: string) {
    match v
    case Null => ""
    case Int(i) => IntString(i)
    case Str(s) => s
  }

  /** PHP's intval() of a scalar. */
  function ToPhpInt(v: Value): (n: int) {
    match v
    case Null => 0
    case Int(i) => i
    case Str(s) => StringToInt(s)
  }

  /** `trim($data[key] ?? '')`. */
  function TrimParam(req: Request, key: string): (r: string)
    ensures key !in req || req[key].Null? ==> r == ""
    ensures key in req && req[key].Str? ==> r == PhpTrim(req[key].s)
    ensures r == [] || (!IsTrimChar(r[0]) && !IsTrimChar(r[|r| - 1]))
  {
    PhpTrim(ToPhpString(Coalesce(req, key, Str(""))))
  }

  /** `intval($data[key] ?? 0)`. */
  function IntParam(req: Request, key: string): (n: int)
    ensures INT64_MIN <= n <= INT64_MAX
    ensures key !in req || req[key].Null? ==> n == 0
    ensures key in req && req[key].Int? ==> n == req[key].i
    ensures key in req && req[key].Str? ==> n == StringToInt(req[key].s)
  {
    ToPhpInt(Coalesce(req, key, Int(0)))
  }

  /** A missing field, a null field and a field of whitespace all read as
      the empty, falsy string. */
  lemma MissingFieldIsFalsy(req: Request, key: string)
    requires key !in req || req[key].Null? || (req[key].Str? && All(req[key].s, IsTrimChar))
    ensures TrimParam(req, key) == ""
  {
    var s := ToPhpString(Coalesce(req, key, Str("")));
    if Trim(s, IsTrimChar) != [] {
      TrimKeeps(s, IsTrimChar, |s| - |TrimStart(s, IsTrimChar)|);
    }
  }

  // ---------------------------------------------------------------------
  // get_request_data, form branch

  /** What the form branch stores for one posted value: strings trimmed,
      anything else copied. */
  function TrimValue(v: Value): (r: Value)
    ensures r.Str? <==> v.Str?
    ensures v.Str? ==> r.s == PhpTrim(v.s)
    ensures !v.Str? ==> r == v
  {
    if v.Str? then Str(PhpTrim(v.s)) else v
  }

  /** The foreach loop of the form branch: every posted field is kept under
      its own name, strings trimmed and other values copied. */
  method NormalizeForm(post: Request) returns (out: Request)
    ensures out.Keys == post.Keys
    ensures forall k :: k in out ==> out[k] == TrimValue(post[k])
  {
    out := map[];
    var pending := post.Keys;
    while pending != {}
      invariant pending <= post.Keys
      invariant out.Keys == post.Keys - pending
      invariant forall k :: k in out ==> out[k] == TrimValue(post[k])
      decreases pending
    {
      var k :| k in pending;
      out := out[k := TrimValue(post[k])];
      pending := pending - {k};
    }
  }

  /** A handler that trims a field again after the form branch sees what
      it would have seen without the form branch's trimming. */
  lemma NormalizedTrimParam(post: Request, out: Request, key: string)
    requires out.Keys == post.Keys
    requires forall k :: k in out ==> out[k] == TrimValue(post[k])
    ensures TrimParam(out, key) == TrimParam(post, key)
  {
    if key in post && post[key].Str? {
      var v := post[key].s;
      assert Coalesce(out, key, Str("")) == Str(PhpTrim(v));
      assert Coalesce(post, key, Str("")) == Str(v);
      TrimIdempotent(v, IsTrimChar);
    } else if key in post {
      assert out[key] == post[key];
    }
  }

  // ---------------------------------------------------------------------
  // Routing

  /** The handlers of the vote ledger; every other action, including the
      list/update/delete handlers, is outside this model. */
  datatype Route = CreateVoterRoute | CastVoteRoute | ResultsRoute | OtherRoute

  /** The alias `register_voter` is rewritten to `create_voter` before
      dispatch; each ledger handler answers one HTTP method only. */
  function RouteOf(action: string, httpMethod: string): (r: Route)
    ensures r == CreateVoterRoute <==>
      (action == "create_voter" || action == "register_voter") && httpMethod == "POST"
    ensures r == CastVoteRoute <==> action == "cast_vote" && httpMethod == "POST"
    ensures r == ResultsRoute <==> action == "results" && httpMethod == "GET"
  {
    var canonical := if action == "register_voter" then "create_voter" else action;
    if canonical == "create_voter" && httpMethod == "POST" then CreateVoterRoute
    else if canonical == "cast_vote" && httpMethod == "POST" then CastVoteRoute
    else if canonical == "results" && httpMethod == "GET" then ResultsRoute
    else OtherRoute
  }
}
