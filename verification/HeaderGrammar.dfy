/** What the header parser accepts, stated as a grammar (packages/protocol/src/decoder.ts, lines 315-577). */
module HeaderGrammar {
  import opened Octets
  import opened Reasons
  import opened Headers
  import opened HeaderParser
  import opened Encoder
  import opened RoundTrip
  import opened Reencode

  // ---------------------------------------------------------------- start lines

  /** A start line is accepted exactly when it is the text of a valid start of the expected kind. */
  lemma StartLineIff(kind: Kind, line: Bytes, start: StartLine)
    ensures ParseStartLine(kind, line) == Ok(start)
            <==> line == StartLineText(start) && CheckStart(start) == None && Suits(kind, start)
  {
    if ParseStartLine(kind, line) == Ok(start) {
      ParsedStart(kind, line);
      AcceptedStart(kind, line);
    }
    if CheckStart(start) == None { ParseWrittenStart(kind, start); }
  }

  lemma AcceptedStart(kind: Kind, line: Bytes)
    requires ParseStartLine(kind, line).Ok?
    ensures line == StartLineText(ParseStartLine(kind, line).value)
  {
    var at := IndexOf(line, ' ');
    assert line == line[..at] + [' '] + line[at + 1..];
    AcceptedRemainder(kind, line[at + 1..]);
    assert VERSION + " " + line[at + 1..] == line;
  }

  /** An operation has at most 32 characters, and a digit or underscore may not come first. */
  lemma OperationLength(operation: Bytes)
    requires forall i | 0 <= i < |operation| :: 65 <= operation[i] as int <= 90
    ensures ValidOperation(operation) <==> 1 <= |operation| <= 32
    ensures !ValidOperation("_" + operation) && !ValidOperation("7" + operation)
  {
    assert ("_" + operation)[0] == '_' && ("7" + operation)[0] == '7';
  }

  function RemainderText(start: StartLine): Bytes {
    match start
    case RequestLine(operation) => operation
    case StatusLine(code, phrase) => Decimal(code) + " " + phrase
  }

  lemma AcceptedRemainder(kind: Kind, rest: Bytes)
    requires ParseRemainder(kind, rest).Ok?
    ensures rest == RemainderText(ParseRemainder(kind, rest).value)
  {
    var at := IndexOf(rest, ' ');
    var token, phrase := if at == -1 then rest else rest[..at], if at == -1 then [] else rest[at + 1..];
    if token != [] && IsDigit(token[0]) {
      AcceptedStatus(kind, token, phrase);
      WithSpace(rest, at);
    }
  }

  lemma WithSpace(rest: Bytes, at: int)
    requires 0 <= at < |rest| && rest[at] == ' '
    ensures rest == rest[..at] + " " + rest[at + 1..]
  {}

  lemma AcceptedStatus(kind: Kind, token: Bytes, phrase: Bytes)
    requires ParseStatusLine(kind, token, phrase).Ok?
    ensures var start := ParseStatusLine(kind, token, phrase).value;
            phrase != [] && start.StatusLine? && Decimal(start.code) == token && start.phrase == phrase
  {
    StatusCodeText(token);
  }

  /** A three-digit code from 100 on has no leading zero, so its numeral is the token. */
  lemma StatusCodeText(token: Bytes)
    requires |token| == 3 && AllDigits(token)
    ensures ParseNat(token) >= 100 ==> Decimal(ParseNat(token)) == token
  {
    assert token[..2][..1] == token[..1] && token[..1][..0] == [];
    assert ParseNat(token[..1]) == (token[0] - '0') as nat;
    assert ParseNat(token[..2]) == ParseNat(token[..1]) * 10 + (token[1] - '0') as nat;
    if token[0] != '0' { DigitsBack(token); }
  }

  /** Without a leading zero, writing a numeral's value gives the numeral back. */
  lemma {:induction false} DigitsBack(s: Bytes)
    requires s != [] && AllDigits(s) && (|s| > 1 ==> s[0] != '0')
    ensures Decimal(ParseNat(s)) == s && (s[0] != '0' ==> ParseNat(s) >= 1)
    decreases |s|
  {
    var init, last := s[..|s| - 1], s[|s| - 1];
    assert s == init + [last];
    var d := (last - '0') as nat;
    assert ParseNat(s) == ParseNat(init) * 10 + d;
    if |s| > 1 {
      DigitsBack(init);
      LastDigit(ParseNat(init), d);
    }
  }

  lemma LastDigit(q: nat, d: nat)
    requires q >= 1 && d < 10
    ensures q * 10 + d >= 10 && (q * 10 + d) / 10 == q && (q * 10 + d) % 10 == d
  {}

  // ---------------------------------------------------------------- header lines

  /** The line is a name, a colon and the value among spaces. */
  predicate Bears(line: Bytes, field: Field) {
    && ValidName(field.name) && ValidValue(field.value)
    && |field.name| < |line| && line[..|field.name|] == field.name && line[|field.name|] == ':'
    && Trim(line[|field.name| + 1..]) == field.value
  }

  predicate Repeats(field: Field, seen: set<Bytes>) { Lower(field.name) in SINGLE_VALUED && Lower(field.name) in seen }

  /** A header line is accepted as a field exactly when it bears it and does not repeat a single one. */
  lemma FieldIff(line: Bytes, seen: set<Bytes>, field: Field)
    ensures ParseField(line, seen) == Ok(field) <==> Bears(line, field) && !Repeats(field, seen)
  {
    if Bears(line, field) {
      NameEndsAt(line, field.name);
      assert IsNameChar(line[0]) by { assert line[0] == field.name[0]; }
    }
  }

  lemma NameEndsAt(line: Bytes, name: Bytes)
    requires ValidName(name) && |name| < |line| && line[..|name|] == name && line[|name|] == ':'
    ensures IndexOf(line, ':') == |name|
  {
    forall i | 0 <= i < |name| ensures line[i] != ':' {
      assert line[i] == line[..|name|][i] == name[i] && IsNameChar(name[i]);
    }
    IndexOfFirst(line, ':', |name|);
  }

  /** Behind a valid name and the colon, only the value without the spaces around it matters. */
  lemma ParseAnyField(name: Bytes, raw: Bytes, seen: set<Bytes>)
    requires ValidName(name)
    ensures ParseField(name + ":" + raw, seen) ==
            if !ValidValue(Trim(raw)) then Err(InvalidHeaderValue)
            else if Repeats(Field(name, raw), seen) then Err(DuplicateHeader)
            else Ok(Field(name, Trim(raw)))
  {
    var line := name + ":" + raw;
    assert line[..|name|] == name && line[|name|] == ':' && line[|name| + 1..] == raw;
    assert IsNameChar(line[0]) by { assert line[0] == name[0]; }
    NameEndsAt(line, name);
  }

  /** Spaces between the colon and the value make no difference. */
  lemma SpacesIrrelevant(name: Bytes, pad: Bytes, raw: Bytes, seen: set<Bytes>)
    requires ValidName(name) && AllSpace(pad)
    ensures ParseField(name + ":" + (pad + raw), seen) == ParseField(name + ":" + raw, seen)
  {
    TrimLeft(pad, raw);
    ParseAnyField(name, pad + raw, seen);
    ParseAnyField(name, raw, seen);
  }

  /** Header lines are accepted exactly when each bears its field and no single one is repeated. */
  lemma {:induction false} FieldsIff(lines: seq<Bytes>, seen: set<Bytes>, fields: seq<Field>)
    ensures ParseFields(lines, seen) == Ok(fields) <==>
              && |lines| == |fields| && SinglesOnce(fields, seen)
              && forall i | 0 <= i < |lines| :: Bears(lines[i], fields[i])
    decreases |lines|
  {
    if lines != [] && fields != [] {
      FieldIff(lines[0], seen, fields[0]);
      FieldsIff(lines[1..], seen + {Lower(fields[0].name)}, fields[1..]);
      BearTail(lines, fields);
      FirstThenRest(lines, seen, fields);
    } else if lines != [] {
      assert ParseFields(lines, seen) != Ok([]);
    }
  }

  lemma BearTail(lines: seq<Bytes>, fields: seq<Field>)
    requires lines != [] && fields != []
    ensures |lines| == |fields| ==>
              ((forall i | 0 <= i < |lines| :: Bears(lines[i], fields[i])) <==>
               Bears(lines[0], fields[0]) && forall i | 0 <= i < |lines[1..]| :: Bears(lines[1..][i], fields[1..][i]))
  {
    if |lines| == |fields| && Bears(lines[0], fields[0])
       && forall i | 0 <= i < |lines[1..]| :: Bears(lines[1..][i], fields[1..][i]) {
      forall i | 0 <= i < |lines| ensures Bears(lines[i], fields[i]) {
        if i > 0 { assert lines[i] == lines[1..][i - 1] && fields[i] == fields[1..][i - 1]; }
      }
    }
  }

  lemma FirstThenRest(lines: seq<Bytes>, seen: set<Bytes>, fields: seq<Field>)
    requires lines != [] && fields != []
    ensures ParseFields(lines, seen) == Ok(fields) <==>
              && ParseField(lines[0], seen) == Ok(fields[0])
              && ParseFields(lines[1..], seen + {Lower(fields[0].name)}) == Ok(fields[1..])
  {
    var first := ParseField(lines[0], seen);
    if first.Ok? {
      var rest := ParseFields(lines[1..], seen + {Lower(first.value.name)});
      if rest.Ok? { assert ([first.value] + rest.value)[1..] == rest.value; }
      assert fields == [fields[0]] + fields[1..];
    }
  }

  // ---------------------------------------------------------------- header blocks

  predicate Unbroken(line: Bytes) { '\r' !in line && '\n' !in line }

  predicate AllUnbroken(lines: seq<Bytes>) { forall i | 0 <= i < |lines| :: Unbroken(lines[i]) }

  lemma {:induction false} BareIff(lines: seq<Bytes>)
    ensures BareLineEnding(lines) == None <==> AllUnbroken(lines)
  {
    if lines != [] {
      BareIff(lines[1..]);
      if AllUnbroken(lines[1..]) && Unbroken(lines[0]) {
        forall i | 0 <= i < |lines| ensures Unbroken(lines[i]) {
          if i > 0 { assert lines[i] == lines[1..][i - 1]; }
        }
      }
    }
  }

  /** The lines of an accepted header block. */
  ghost predicate IsBlock(limits: Limits, kind: Kind, lines: seq<Bytes>, head: Head) {
    && lines != [] && AllUnbroken(lines)
    && lines[0] == StartLineText(head.start) && CheckStart(head.start) == None && Suits(kind, head.start)
    && |lines[0]| <= limits.maxStartLineBytes
    && |lines| == |head.headers| + 1 && |head.headers| <= limits.maxHeaderCount
    && SinglesOnce(head.headers, {})
    && forall i | 0 <= i < |head.headers| :: Bears(lines[i + 1], head.headers[i])
  }

  /**
   A header block is accepted exactly when it is lines joined by CR LF, a valid start line of the
   expected kind and then one line for each field, within the limits, no single-valued name twice.
   */
  lemma BlockIff(limits: Limits, kind: Kind, block: Bytes, head: Head)
    ensures ParseBlock(limits, kind, block) == Ok(head)
            <==> exists lines :: JoinLines(lines) == block && IsBlock(limits, kind, lines, head)
  {
    if ParseBlock(limits, kind, block) == Ok(head) {
      JoinSplit(block);
      LinesIff(limits, kind, SplitLines(block), head);
      BareIff(SplitLines(block));
    }
    if exists lines :: JoinLines(lines) == block && IsBlock(limits, kind, lines, head) {
      var lines :| JoinLines(lines) == block && IsBlock(limits, kind, lines, head);
      SplitJoin(lines);
      LinesIff(limits, kind, lines, head);
    }
  }

  lemma LinesIff(limits: Limits, kind: Kind, lines: seq<Bytes>, head: Head)
    requires lines != []
    ensures ParseLines(limits, kind, lines) == Ok(head) <==> IsBlock(limits, kind, lines, head)
  {
    BareIff(lines);
    StartLineIff(kind, lines[0], head.start);
    FieldsIff(lines[1..], {}, head.headers);
    LaterLines(lines, head.headers);
    StartIsNotEmpty(head.start);
  }

  lemma LaterLines(lines: seq<Bytes>, fields: seq<Field>)
    requires lines != []
    ensures |lines| == |fields| + 1 ==>
              ((forall i | 0 <= i < |lines[1..]| :: Bears(lines[1..][i], fields[i]))
               <==> forall i | 0 <= i < |fields| :: Bears(lines[i + 1], fields[i]))
  {
    assert forall i | 0 <= i < |lines[1..]| :: lines[1..][i] == lines[i + 1];
  }

  lemma StartIsNotEmpty(start: StartLine)
    ensures StartLineText(start) != []
  {}

  // ---------------------------------------------------------------- spaces in a block

  predicate Spaces(pad: Bytes) { forall i | 0 <= i < |pad| :: pad[i] == ' ' || pad[i] == '\t' }

  /** Header lines with a choice of spaces between each colon and value. */
  function Spaced(fields: seq<Field>, pads: seq<Bytes>): (lines: seq<Bytes>)
    requires |pads| == |fields|
    ensures |lines| == |fields|
    ensures forall i | 0 <= i < |lines| :: lines[i] == fields[i].name + ":" + (pads[i] + fields[i].value)
  {
    seq(|fields|, i requires 0 <= i < |fields| => fields[i].name + ":" + (pads[i] + fields[i].value))
  }

  ghost predicate Writable(fields: seq<Field>, pads: seq<Bytes>) {
    && |pads| == |fields|
    && forall i | 0 <= i < |fields| :: ValidName(fields[i].name) && Unbroken(fields[i].value) && Spaces(pads[i])
  }

  lemma {:induction false} SpacedFields(fields: seq<Field>, p: seq<Bytes>, q: seq<Bytes>, seen: set<Bytes>)
    requires Writable(fields, p) && Writable(fields, q)
    ensures ParseFields(Spaced(fields, p), seen) == ParseFields(Spaced(fields, q), seen)
    decreases |fields|
  {
    if fields != [] {
      SpacesIrrelevant(fields[0].name, p[0], fields[0].value, seen);
      SpacesIrrelevant(fields[0].name, q[0], fields[0].value, seen);
      SpacedTail(fields, p);
      SpacedTail(fields, q);
      var first := ParseField(Spaced(fields, p)[0], seen);
      if first.Ok? { SpacedFields(fields[1..], p[1..], q[1..], seen + {Lower(first.value.name)}); }
    }
  }

  lemma SpacedTail(fields: seq<Field>, pads: seq<Bytes>)
    requires Writable(fields, pads) && fields != []
    ensures Spaced(fields, pads)[1..] == Spaced(fields[1..], pads[1..])
  {}

  lemma SpacedUnbroken(fields: seq<Field>, pads: seq<Bytes>)
    requires Writable(fields, pads)
    ensures AllUnbroken(Spaced(fields, pads))
  {
    var lines := Spaced(fields, pads);
    forall i | 0 <= i < |lines| ensures Unbroken(lines[i]) {
      NameUnbroken(fields[i].name);
      assert Unbroken(pads[i]) && Unbroken(pads[i] + fields[i].value);
    }
  }

  lemma NameUnbroken(name: Bytes)
    requires ValidName(name)
    ensures Unbroken(name)
  {
    assert forall i | 0 <= i < |name| :: IsNameChar(name[i]);
  }

  /** A header block means the same whatever spaces and tabs stand between its colons and values. */
  lemma BlockSpacesIrrelevant(
    limits: Limits, kind: Kind, start: Bytes, fields: seq<Field>, p: seq<Bytes>, q: seq<Bytes>)
    requires Unbroken(start) && Writable(fields, p) && Writable(fields, q)
    ensures ParseBlock(limits, kind, JoinLines([start] + Spaced(fields, p)))
            == ParseBlock(limits, kind, JoinLines([start] + Spaced(fields, q)))
  {
    SpacedUnbroken(fields, p);
    SpacedUnbroken(fields, q);
    var a, b := [start] + Spaced(fields, p), [start] + Spaced(fields, q);
    SplitJoin(a);
    SplitJoin(b);
    SpacedFields(fields, p, q, {});
    assert a[1..] == Spaced(fields, p) && b[1..] == Spaced(fields, q);
    assert AllUnbroken(a) && AllUnbroken(b);
    SameLines(limits, kind, a, b);
  }

  lemma SameLines(limits: Limits, kind: Kind, a: seq<Bytes>, b: seq<Bytes>)
    requires a != [] && |a| == |b| && a[0] == b[0] && AllUnbroken(a) && AllUnbroken(b)
    requires ParseFields(a[1..], {}) == ParseFields(b[1..], {})
    ensures ParseLines(limits, kind, a) == ParseLines(limits, kind, b)
  {
    BareIff(a);
    BareIff(b);
  }

  // ---------------------------------------------------------------- spaces the grammar does not know

  /** The line as the grammar of the protocol has it: only spaces and tabs around the value. */
  ghost predicate Strictly(line: Bytes, field: Field) {
    exists left, right :: Spaces(left) && Spaces(right) && line == field.name + ":" + (left + field.value + right)
  }

  lemma TrimParts(raw: Bytes) returns (left: Bytes, right: Bytes)
    ensures raw == left + Trim(raw) + right && AllSpace(left) && AllSpace(right)
  {
    var l := StartSpaces(raw);
    var r := EndSpaces(TrimStart(raw));
    left, right := l, r;
    assert raw == left + (Trim(raw) + right);
  }

  lemma {:induction false} StartSpaces(s: Bytes) returns (left: Bytes)
    ensures s == left + TrimStart(s) && AllSpace(left)
  {
    if s != [] && IsSpace(s[0]) {
      var rest := StartSpaces(s[1..]);
      left := [s[0]] + rest;
      assert s == [s[0]] + s[1..];
    } else {
      left := [];
    }
  }

  lemma {:induction false} EndSpaces(s: Bytes) returns (right: Bytes)
    ensures s == TrimEnd(s) + right && AllSpace(right)
    decreases |s|
  {
    if s != [] && IsSpace(s[|s| - 1]) {
      var rest := EndSpaces(s[..|s| - 1]);
      right := rest + [s[|s| - 1]];
      assert s == s[..|s| - 1] + [s[|s| - 1]];
    } else {
      right := [];
    }
  }

  predicate HasFeed(s: Bytes) { 11 as char in s || 12 as char in s }

  /**
   An accepted header line is one of the grammar exactly when it holds no vertical tab and no form
   feed: the parser trims those like spaces, though the grammar knows only spaces and tabs there.
   */
  lemma StrictIff(line: Bytes, field: Field)
    requires Bears(line, field) && Unbroken(line)
    ensures Strictly(line, field) <==> !HasFeed(line)
  {
    var raw := line[|field.name| + 1..];
    assert line == field.name + ":" + raw;
    NoFeeds(field);
    var left, right := TrimParts(raw);
    if !HasFeed(line) {
      PartsOf(left, field.value, right);
      assert Spaces(left) && Spaces(right);
    }
    if Strictly(line, field) {
      var l, r :| Spaces(l) && Spaces(r) && line == field.name + ":" + (l + field.value + r);
    }
  }

  lemma NoFeeds(field: Field)
    requires ValidName(field.name) && ValidValue(field.value)
    ensures !HasFeed(field.name) && !HasFeed(field.value)
  {
    assert forall i | 0 <= i < |field.name| :: IsNameChar(field.name[i]);
    assert forall i | 0 <= i < |field.value| :: IsValueChar(field.value[i]);
  }

  lemma PartsOf(a: Bytes, b: Bytes, c: Bytes)
    ensures forall x | x in a || x in c :: x in a + b + c
  {}

  // ---------------------------------------------------------------- which fault is reported

  /** The first line with a bare ending decides; within it a bare LF is named before a bare CR. */
  lemma {:induction false} BareFault(lines: seq<Bytes>) returns (at: nat)
    requires BareLineEnding(lines).Some?
    ensures at < |lines| && AllUnbroken(lines[..at]) && !Unbroken(lines[at])
    ensures BareLineEnding(lines) == Some(if '\n' in lines[at] then BareLineFeed else BareCarriageReturn)
  {
    if !Unbroken(lines[0]) { return 0; }
    var rest := BareFault(lines[1..]);
    forall i | 0 <= i <= rest ensures Unbroken(lines[i]) {
      if i > 0 { assert lines[i] == lines[1..][..rest][i - 1]; }
    }
    return rest + 1;
  }

  /** A faulty header line: folding, then a missing name, then the name itself. */
  lemma FieldFaults(line: Bytes, seen: set<Bytes>)
    ensures var r, folded := ParseField(line, seen), line != [] && (line[0] == ' ' || line[0] == '\t');
            && (r == Err(ObsoleteLineFolding) <==> folded)
            && (r == Err(MalformedHeaderLine) <==> !folded && (':' !in line || line[0] == ':'))
  {}

  lemma NameFault(name: Bytes, raw: Bytes, seen: set<Bytes>)
    requires name != [] && ':' !in name && name[0] != ' ' && name[0] != '\t'
    ensures ParseField(name + ":" + raw, seen) == Err(InvalidHeaderName) <==> !ValidName(name)
  {
    var line := name + ":" + raw;
    assert line[..|name|] == name && line[|name|] == ':';
    forall i | 0 <= i < |name| ensures line[i] != ':' { assert line[i] == name[i]; }
    IndexOfFirst(line, ':', |name|);
  }

  /** The version is looked at before anything behind it, and a status by a decoder of requests is no status. */
  lemma StartFaults(kind: Kind, version: Bytes, rest: Bytes)
    requires ' ' !in version
    ensures var r := ParseStartLine(kind, version + " " + rest);
            && (r == Err(UnsupportedProtocolVersion) <==> version != VERSION)
            && (version == VERSION && rest != [] && IsDigit(rest[0]) && kind == Requests ==>
                  r == Err(UnexpectedMessageKind))
            && (version == VERSION && rest != [] && rest[0] != ' ' && !IsDigit(rest[0]) && kind == Responses ==>
                  r == Err(UnexpectedMessageKind))
  {
    var line := version + " " + rest;
    assert line[..|version|] == version && line[|version| + 1..] == rest;
    forall i | 0 <= i < |version| ensures line[i] != ' ' { assert line[i] == version[i]; }
    IndexOfFirst(line, ' ', |version|);
    RemainderKinds(kind, rest);
  }

  lemma RemainderKinds(kind: Kind, rest: Bytes)
    ensures ParseRemainder(kind, rest) != Err(UnsupportedProtocolVersion)
    ensures rest != [] && IsDigit(rest[0]) && kind == Requests ==>
              ParseRemainder(kind, rest) == Err(UnexpectedMessageKind)
    ensures rest != [] && rest[0] != ' ' && !IsDigit(rest[0]) && kind == Responses ==>
              ParseRemainder(kind, rest) == Err(UnexpectedMessageKind)
  {
    if rest != [] && rest[0] != ' ' {
      var at := IndexOf(rest, ' ');
      assert at != 0;
    }
  }

  lemma AfterVersion(kind: Kind, rest: Bytes)
    ensures ParseStartLine(kind, VERSION + " " + rest) == ParseRemainder(kind, rest)
  {
    VersionSplits(rest);
  }

  predicate GoodCode(token: Bytes) { |token| == 3 && AllDigits(token) && 100 <= ParseNat(token) <= 599 }

  /** A faulty status line: the code is named first, then a missing phrase, then a bad one. */
  lemma StatusFaults(kind: Kind, token: Bytes, phrase: Bytes)
    requires kind != Requests && token != [] && IsDigit(token[0]) && ' ' !in token
    ensures var r, bare := ParseStartLine(kind, VERSION + " " + (token + " " + phrase)),
                           ParseStartLine(kind, VERSION + " " + token);
            && (r == Err(InvalidStatusCode) <==> !GoodCode(token))
            && (r == Err(MissingStatusPhrase) <==> GoodCode(token) && phrase == [])
            && (r == Err(InvalidStatusPhrase) <==> GoodCode(token) && phrase != [] && !ValidPhrase(phrase))
            && bare == if GoodCode(token) then Err(MissingStatusPhrase) else Err(InvalidStatusCode)
  {
    AfterVersion(kind, token + " " + phrase);
    AfterVersion(kind, token);
    StatusRest(kind, token, phrase);
    StatusParts(kind, token, phrase);
    StatusParts(kind, token, []);
  }

  lemma StatusRest(kind: Kind, token: Bytes, phrase: Bytes)
    requires token != [] && IsDigit(token[0]) && ' ' !in token
    ensures ParseRemainder(kind, token + " " + phrase) == ParseStatusLine(kind, token, phrase)
    ensures ParseRemainder(kind, token) == ParseStatusLine(kind, token, [])
  {
    var rest := token + " " + phrase;
    assert rest[..|token|] == token && rest[|token|] == ' ' && rest[|token| + 1..] == phrase;
    forall i | 0 <= i < |token| ensures rest[i] != ' ' { assert rest[i] == token[i]; }
    IndexOfFirst(rest, ' ', |token|);
    assert rest[0] == token[0];
  }

  lemma StatusParts(kind: Kind, token: Bytes, phrase: Bytes)
    requires kind != Requests
    ensures var r := ParseStatusLine(kind, token, phrase);
            && (r == Err(InvalidStatusCode) <==> !GoodCode(token))
            && (r == Err(MissingStatusPhrase) <==> GoodCode(token) && phrase == [])
            && (r == Err(InvalidStatusPhrase) <==> GoodCode(token) && phrase != [] && !ValidPhrase(phrase))
  {}

  /** A faulty request line: nothing behind the version, something behind the operation, a bad operation. */
  lemma OperationFaults(kind: Kind, operation: Bytes, tail: Bytes)
    requires kind != Responses && ' ' !in operation && (operation != [] ==> !IsDigit(operation[0]))
    ensures ParseStartLine(kind, VERSION + " " + []) == Err(MalformedStartLine)
    ensures ParseStartLine(kind, VERSION + " " + (operation + " " + tail)) == Err(MalformedStartLine)
    ensures operation != [] ==>
              (ParseStartLine(kind, VERSION + " " + operation) == Err(InvalidOperationToken)
               <==> !ValidOperation(operation))
  {
    var rest := operation + " " + tail;
    AfterVersion(kind, []);
    AfterVersion(kind, rest);
    AfterVersion(kind, operation);
    assert rest[..|operation|] == operation && rest[|operation|] == ' ';
    forall i | 0 <= i < |operation| ensures rest[i] != ' ' { assert rest[i] == operation[i]; }
    IndexOfFirst(rest, ' ', |operation|);
  }

  /** What is wrong with the lines as a whole: an empty start line, one too long, no space in it, too many fields. */
  lemma BlockFaults(limits: Limits, kind: Kind, lines: seq<Bytes>)
    requires lines != [] && AllUnbroken(lines)
    ensures var r, first := ParseBlock(limits, kind, JoinLines(lines)), lines[0];
            && (r == Err(EmptyStartLine) <==> first == [])
            && (r == Err(StartLineTooLarge) <==> first != [] && |first| > limits.maxStartLineBytes)
            && (first != [] && |first| <= limits.maxStartLineBytes && ' ' !in first ==> r == Err(MalformedStartLine))
            && (r == Err(TooManyHeaders) <==>
                  && first != [] && |first| <= limits.maxStartLineBytes && ParseStartLine(kind, first).Ok?
                  && |lines| - 1 > limits.maxHeaderCount)
  {
    SplitJoin(lines);
    LinesFaults(limits, kind, lines);
  }

  lemma LinesFaults(limits: Limits, kind: Kind, lines: seq<Bytes>)
    requires lines != [] && AllUnbroken(lines)
    ensures var r, first := ParseLines(limits, kind, lines), lines[0];
            && (r == Err(EmptyStartLine) <==> first == [])
            && (r == Err(StartLineTooLarge) <==> first != [] && |first| > limits.maxStartLineBytes)
            && (first != [] && |first| <= limits.maxStartLineBytes && ' ' !in first ==> r == Err(MalformedStartLine))
            && (r == Err(TooManyHeaders) <==>
                  && first != [] && |first| <= limits.maxStartLineBytes && ParseStartLine(kind, first).Ok?
                  && |lines| - 1 > limits.maxHeaderCount)
  {
    BareIff(lines);
    NotOfBlocks(kind, lines[0], lines[1..]);
    if ' ' !in lines[0] { NoSpace(kind, lines[0]); }
  }

  lemma NoSpace(kind: Kind, line: Bytes)
    requires ' ' !in line
    ensures ParseStartLine(kind, line) == Err(MalformedStartLine)
  {}

  predicate OfBlocks(reason: Reason) { reason.EmptyStartLine? || reason.StartLineTooLarge? || reason.TooManyHeaders? }

  /** Start lines and fields have faults of their own. */
  lemma NotOfBlocks(kind: Kind, line: Bytes, lines: seq<Bytes>)
    ensures ParseStartLine(kind, line).Err? ==> !OfBlocks(ParseStartLine(kind, line).reason)
    ensures ParseFields(lines, {}).Err? ==> !OfBlocks(ParseFields(lines, {}).reason)
  {
    if ParseStartLine(kind, line).Err? && IndexOf(line, ' ') != -1 {
      NotOfRemainders(kind, line[IndexOf(line, ' ') + 1..]);
    }
    NotOfFields(lines, {});
  }

  lemma NotOfRemainders(kind: Kind, rest: Bytes)
    ensures ParseRemainder(kind, rest).Err? ==> !OfBlocks(ParseRemainder(kind, rest).reason)
  {
    var at := IndexOf(rest, ' ');
    NotOfStatus(kind, if at == -1 then rest else rest[..at], if at == -1 then [] else rest[at + 1..]);
  }

  lemma NotOfStatus(kind: Kind, token: Bytes, phrase: Bytes)
    ensures ParseStatusLine(kind, token, phrase).Err? ==> !OfBlocks(ParseStatusLine(kind, token, phrase).reason)
  {}

  lemma NotOfOneField(line: Bytes, seen: set<Bytes>)
    ensures ParseField(line, seen).Err? ==> !OfBlocks(ParseField(line, seen).reason)
  {}

  lemma {:induction false} NotOfFields(lines: seq<Bytes>, seen: set<Bytes>)
    ensures ParseFields(lines, seen).Err? ==> !OfBlocks(ParseFields(lines, seen).reason)
    decreases |lines|
  {
    if lines != [] {
      var field := ParseField(lines[0], seen);
      NotOfOneField(lines[0], seen);
      if field.Ok? {
        var more := seen + {Lower(field.value.name)};
        NotOfFields(lines[1..], more);
        assert ParseFields(lines, seen).Err? ==>
            && ParseFields(lines[1..], more).Err?
            && ParseFields(lines, seen).reason == ParseFields(lines[1..], more).reason;
      } else {
        assert ParseFields(lines, seen).Err? && ParseFields(lines, seen).reason == field.reason;
      }
    }
  }

  // ---------------------------------------------------------------- body length

  /** The declared length: the numeral of the first Content-Length, in range; none declares no body. */
  lemma LengthIff(limits: Limits, headers: seq<Field>, n: nat)
    ensures ContentLength(limits, headers) == Ok(n) <==>
              if GetHeader(headers, CONTENT_LENGTH) == None then n == 0
              else
                var digits := Trim(GetHeader(headers, CONTENT_LENGTH).value);
                && digits != [] && AllDigits(digits) && ParseNat(digits) == n
                && n <= MAX_SAFE_INTEGER && n <= limits.maxMessageBytes
  {}

  lemma LengthFaults(limits: Limits, headers: seq<Field>)
    ensures var r := ContentLength(limits, headers);
            if GetHeader(headers, CONTENT_LENGTH) == None then r.Ok?
            else
              var digits := Trim(GetHeader(headers, CONTENT_LENGTH).value);
              && (r == Err(NegativeContentLength) <==> ['-'] <= digits)
              && (r == Err(InvalidContentLength) <==> !(['-'] <= digits) && (digits == [] || !AllDigits(digits)))
              && (r == Err(ContentLengthTooLarge) <==> digits != [] && AllDigits(digits) && !r.Ok?)
  {
    assert !IsDigit('-');
  }

  /** Leading zeros do not change the length. */
  lemma {:induction false} LeadingZero(digits: Bytes)
    requires AllDigits(digits)
    ensures AllDigits("0" + digits) && ParseNat("0" + digits) == ParseNat(digits)
    decreases |digits|
  {
    var s := "0" + digits;
    if digits == [] {
      assert s[..0] == [];
    } else {
      assert s[..|s| - 1] == "0" + digits[..|digits| - 1];
      LeadingZero(digits[..|digits| - 1]);
    }
  }
}
