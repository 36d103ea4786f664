/** Header field names and values (packages/protocol/src/headers.ts). */
module Headers {
  import opened Octets
  import opened Reasons

  datatype Field = Field(name: Bytes, value: Bytes)

  const CONTENT_LENGTH: Bytes := "content-length"
  const CONTENT_TYPE: Bytes := "content-type"
  const REQUEST_ID: Bytes := "request-id"
  const SESSION_ID: Bytes := "session-id"

  // ---------------------------------------------------------------- character classes

  predicate IsDigit(c: char) { '0' <= c <= '9' }

  predicate IsUpper(c: char) { 'A' <= c <= 'Z' }

  predicate IsNameChar(c: char) { IsUpper(c) || 'a' <= c <= 'z' || IsDigit(c) || c == '-' || c == '_' }

  predicate IsPrintable(c: char) { ' ' <= c <= '~' }

  /** What `trim` removes, among the ASCII characters. */
  predicate IsSpace(c: char) { c == ' ' || '\t' <= c <= '\r' }

  predicate ValidName(name: Bytes) {
    name != [] && forall i | 0 <= i < |name| :: IsNameChar(name[i])
  }

  predicate IsValueChar(c: char) { c == '\t' || IsPrintable(c) }

  predicate ValidValue(value: Bytes) { forall i | 0 <= i < |value| :: IsValueChar(value[i]) }

  predicate AllDigits(s: Bytes) { forall i | 0 <= i < |s| :: IsDigit(s[i]) }

  /** The character classes by code: names, values, and what `trim` takes away. */
  lemma CharacterCodes(c: char)
    ensures IsNameChar(c) <==> var n := c as int;
                               48 <= n <= 57 || 65 <= n <= 90 || 97 <= n <= 122 || n == 45 || n == 95
    ensures IsValueChar(c) <==> c as int == 9 || 32 <= c as int <= 126
    ensures IsSpace(c) <==> 9 <= c as int <= 13 || c as int == 32
  {}

  // ---------------------------------------------------------------- case

  function LowerChar(c: char): char { if IsUpper(c) then c + 32 as char else c }

  function UpperChar(c: char): char { if 'a' <= c <= 'z' then c - 32 as char else c }

  function Lower(s: Bytes): (r: Bytes)
    ensures |r| == |s| && forall i | 0 <= i < |s| :: r[i] == LowerChar(s[i])
  {
    seq(|s|, i requires 0 <= i < |s| => LowerChar(s[i]))
  }

  /** First letter of each hyphen segment upper case, the rest lower case. */
  function TitleCase(s: Bytes): (r: Bytes)
    ensures |r| == |s|
    ensures forall i | 0 <= i < |s| ::
              r[i] == if i == 0 || s[i - 1] == '-' then UpperChar(s[i]) else LowerChar(s[i])
  {
    seq(|s|, i requires 0 <= i < |s| =>
      if i == 0 || s[i - 1] == '-' then UpperChar(s[i]) else LowerChar(s[i]))
  }

  /** The registered spellings; keys are lower case. */
  const CANONICAL_NAMES: map<Bytes, Bytes> := map[
    "request-id" := "Request-ID",
    "session-id" := "Session-ID",
    "content-length" := "Content-Length",
    "content-type" := "Content-Type",
    "timestamp" := "Timestamp",
    "connection" := "Connection",
    "response-delay" := "Response-Delay",
    "matched-rule-id" := "Matched-Rule-ID",
    "result-id" := "Result-ID",
    "reason" := "Reason",
    "server" := "Server",
    "retry-after" := "Retry-After"
  ]

  function CanonicalName(name: Bytes): Bytes {
    var lower := Lower(name);
    if lower in CANONICAL_NAMES then CANONICAL_NAMES[lower] else TitleCase(name)
  }

  /** Canonical spelling changes case only, so it never changes which field a name denotes. */
  lemma CanonicalKeepsField(name: Bytes)
    ensures Lower(CanonicalName(name)) == Lower(name)
    ensures ValidName(CanonicalName(name)) <==> ValidName(name)
  {
    var lower, canon := Lower(name), CanonicalName(name);
    if lower in CANONICAL_NAMES { RegisteredSpelling(lower); }
    assert Lower(canon) == lower;
    forall i | 0 <= i < |name| ensures IsNameChar(canon[i]) == IsNameChar(name[i]) {
      assert LowerChar(canon[i]) == Lower(canon)[i] == LowerChar(name[i]);
    }
  }

  lemma RegisteredSpelling(lower: Bytes)
    requires lower in CANONICAL_NAMES
    ensures Lower(CANONICAL_NAMES[lower]) == lower
  {
    FramingSpelling();
    assert Lower("Timestamp") == "timestamp";
    assert Lower("Connection") == "connection";
    assert Lower("Response-Delay") == "response-delay";
    assert Lower("Matched-Rule-ID") == "matched-rule-id";
    assert Lower("Result-ID") == "result-id";
    assert Lower("Reason") == "reason";
    assert Lower("Server") == "server";
    assert Lower("Retry-After") == "retry-after";
  }

  lemma FramingSpelling()
    ensures Lower("Request-ID") == "request-id" && Lower("Session-ID") == "session-id"
    ensures Lower("Content-Length") == "content-length" && Lower("Content-Type") == "content-type"
  {}

  lemma LowerIdempotent(s: Bytes)
    ensures Lower(Lower(s)) == Lower(s)
  {}

  /** Canonical spelling is stable. */
  lemma CanonicalIdempotent(name: Bytes)
    ensures CanonicalName(CanonicalName(name)) == CanonicalName(name)
  {
    CanonicalKeepsField(name);
    if Lower(name) !in CANONICAL_NAMES {
      assert TitleCase(TitleCase(name)) == TitleCase(name);
    }
  }

  lemma TitleForgetsCase(a: Bytes, b: Bytes)
    requires Lower(a) == Lower(b)
    ensures TitleCase(a) == TitleCase(b)
  {
    forall i | 0 <= i < |a| ensures TitleCase(a)[i] == TitleCase(b)[i] {
      assert LowerChar(a[i]) == Lower(a)[i] == Lower(b)[i] == LowerChar(b[i]);
      if i > 0 { assert LowerChar(a[i - 1]) == Lower(a)[i - 1] == Lower(b)[i - 1] == LowerChar(b[i - 1]); }
    }
  }

  /** The spelling of a name depends on the field it denotes only. */
  lemma CanonicalForgetsCase(a: Bytes, b: Bytes)
    ensures CanonicalName(a) == CanonicalName(b) <==> Lower(a) == Lower(b)
  {
    if Lower(a) == Lower(b) {
      TitleForgetsCase(a, b);
    } else {
      CanonicalKeepsField(a);
      CanonicalKeepsField(b);
    }
  }

  /** An extension name is capitalised segment by segment. */
  lemma ExtensionSpelling(name: Bytes, i: nat)
    requires Lower(name) !in CANONICAL_NAMES && i < |name|
    ensures |CanonicalName(name)| == |name|
    ensures CanonicalName(name)[i] ==
            if i == 0 || name[i - 1] == '-' then UpperChar(name[i]) else LowerChar(name[i])
  {}

  // ---------------------------------------------------------------- trim

  function TrimStart(s: Bytes): Bytes {
    if s != [] && IsSpace(s[0]) then TrimStart(s[1..]) else s
  }

  function TrimEnd(s: Bytes): Bytes {
    if s != [] && IsSpace(s[|s| - 1]) then TrimEnd(s[..|s| - 1]) else s
  }

  function Trim(s: Bytes): Bytes { TrimEnd(TrimStart(s)) }

  /** Trimming keeps a contiguous part of the value. */
  lemma {:induction false} TrimEndPart(s: Bytes)
    ensures TrimEnd(s) <= s
    ensures TrimEnd(s) != [] ==> !IsSpace(TrimEnd(s)[|TrimEnd(s)| - 1])
    decreases |s|
  {
    if s != [] && IsSpace(s[|s| - 1]) { TrimEndPart(s[..|s| - 1]); }
  }

  lemma {:induction false} TrimStartPart(s: Bytes)
    ensures |TrimStart(s)| <= |s| && TrimStart(s) == s[|s| - |TrimStart(s)|..]
    ensures TrimStart(s) != [] ==> !IsSpace(TrimStart(s)[0])
  {
    if s != [] && IsSpace(s[0]) { TrimStartPart(s[1..]); }
  }

  /** Trimming keeps a value valid, leaves no space at either end, and is idempotent. */
  lemma TrimSound(s: Bytes)
    ensures ValidValue(s) ==> ValidValue(Trim(s))
    ensures Trim(s) != [] ==> !IsSpace(Trim(s)[0]) && !IsSpace(Trim(s)[|Trim(s)| - 1])
    ensures Trim(Trim(s)) == Trim(s)
  {
    TrimStartPart(s);
    TrimEndPart(TrimStart(s));
    TrimTight(Trim(s));
  }

  /** No space at either end: trimming is the identity. */
  lemma TrimTight(s: Bytes)
    requires s != [] ==> !IsSpace(s[0]) && !IsSpace(s[|s| - 1])
    ensures Trim(s) == s
  {}

  predicate AllSpace(s: Bytes) { forall i | 0 <= i < |s| :: IsSpace(s[i]) }

  predicate Tight(s: Bytes) { s != [] ==> !IsSpace(s[0]) && !IsSpace(s[|s| - 1]) }

  lemma {:induction false} TrimLeft(left: Bytes, s: Bytes)
    requires AllSpace(left)
    ensures TrimStart(left + s) == TrimStart(s)
  {
    if left == [] {
      assert left + s == s;
    } else {
      assert (left + s)[1..] == left[1..] + s;
      TrimLeft(left[1..], s);
    }
  }

  lemma {:induction false} TrimRight(s: Bytes, right: Bytes)
    requires AllSpace(right)
    ensures TrimEnd(s + right) == TrimEnd(s)
    decreases |right|
  {
    if right == [] {
      assert s + right == s;
    } else {
      assert (s + right)[..|s + right| - 1] == s + right[..|right| - 1];
      TrimRight(s, right[..|right| - 1]);
    }
  }

  /** Trimming takes away the spaces on either side, all of them, and nothing else. */
  lemma TrimExact(left: Bytes, s: Bytes, right: Bytes)
    requires AllSpace(left) && Tight(s) && AllSpace(right)
    ensures Trim(left + s + right) == s
  {
    assert left + s + right == left + (s + right);
    TrimLeft(left, s + right);
    if s == [] {
      assert s + right == right && right + [] == right;
      TrimLeft(right, []);
    } else {
      assert TrimStart(s + right) == s + right;
      TrimRight(s, right);
    }
  }

  // ---------------------------------------------------------------- lookup

  /** Case-insensitive lookup of the first value of a field. */
  function GetHeader(headers: seq<Field>, name: Bytes): Option<Bytes> {
    if headers == [] then None
    else if Lower(headers[0].name) == Lower(name) then Some(headers[0].value)
    else GetHeader(headers[1..], name)
  }

  // ---------------------------------------------------------------- decimal numerals

  /** `Number.parseInt` on a string of digits. */
  function ParseNat(s: Bytes): nat
    requires AllDigits(s)
  {
    if s == [] then 0
    else ParseNat(s[..|s| - 1]) * 10 + (s[|s| - 1] - '0') as nat
  }

  /** `String(n)`. */
  function Decimal(n: nat): (s: Bytes)
    ensures s != [] && AllDigits(s)
  {
    if n < 10 then [DigitChar(n)] else Decimal(n / 10) + [DigitChar(n % 10)]
  }

  function DigitChar(d: nat): (c: char)
    requires d < 10
    ensures IsDigit(c) && (c - '0') as nat == d
  {
    '0' + d as char
  }

  lemma {:induction false} DecimalRoundTrip(n: nat)
    ensures ParseNat(Decimal(n)) == n
  {
    if n >= 10 {
      DecimalRoundTrip(n / 10);
      var s := Decimal(n);
      assert s[..|s| - 1] == Decimal(n / 10);
    } else {
      assert Decimal(n)[..0] == [];
    }
  }
}
