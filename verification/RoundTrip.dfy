/** The decoder undoes the encoder, for whole pipelines of messages under any chunking. */
module RoundTrip {
  import opened Octets
  import opened Reasons
  import opened Headers
  import opened HeaderParser
  import opened Framing
  import opened Encoder
  import opened Decoder

  // ---------------------------------------------------------------- lines

  /** A line the encoder writes: not empty and free of CR and LF. */
  predicate PlainLine(line: Bytes) { line != [] && '\r' !in line && '\n' !in line }

  predicate PlainLines(lines: seq<Bytes>) { forall i | 0 <= i < |lines| :: PlainLine(lines[i]) }

  lemma {:induction false} FindCrlfAfter(line: Bytes, rest: Bytes, start: nat)
    requires '\r' !in line && start <= |line|
    ensures FindCrlf(line, start) == -1
    ensures FindCrlf(line + CRLF + rest, start) == |line|
    decreases |line| - start
  {
    var s := line + CRLF + rest;
    if start < |line| {
      assert s[start] == line[start] && line[start] in line;
      FindCrlfAfter(line, rest, start + 1);
    } else {
      assert s[start] == '\r' && s[start + 1] == '\n';
    }
  }

  /** Splitting undoes joining. */
  lemma {:induction false} SplitJoin(lines: seq<Bytes>)
    requires lines != [] && forall i | 0 <= i < |lines| :: '\r' !in lines[i]
    ensures SplitLines(JoinLines(lines)) == lines
    decreases |lines|
  {
    var line := lines[0];
    if |lines| == 1 {
      FindCrlfAfter(line, [], 0);
    } else {
      var rest := JoinLines(lines[1..]);
      FindCrlfAfter(line, rest, 0);
      assert (line + CRLF + rest)[..|line|] == line;
      assert (line + CRLF + rest)[|line| + 2..] == rest;
      SplitJoin(lines[1..]);
    }
  }

  /** The first delimiter of an encoding ends its header block. */
  lemma {:induction false} FirstDelimiter(lines: seq<Bytes>, body: Bytes)
    requires lines != [] && PlainLines(lines)
    ensures FindDelimiter(JoinLines(lines) + CRLF + CRLF + body, 0) == |JoinLines(lines)|
    ensures JoinLines(lines) != [] && JoinLines(lines)[0] != '\r'
    decreases |lines|
  {
    var line, block := lines[0], JoinLines(lines);
    var s := block + CRLF + CRLF + body;
    forall i | 0 <= i < |line| ensures !DelimiterAt(s, i) {
      assert s[i] == line[i] && line[i] in line;
    }
    if |lines| == 1 {
      assert DelimiterAt(s, |block|);
    } else {
      FirstDelimiter(lines[1..], body);
      var rest := JoinLines(lines[1..]);
      var t := rest + CRLF + CRLF + body;
      assert s == line + CRLF + t;
      assert s[|line| + 2..] == t;
      ShiftDelimiter(s, line, t);
    }
  }

  lemma ShiftedAt(s: Bytes, n: nat, t: Bytes, i: nat)
    requires n <= |s| && s[n..] == t
    ensures DelimiterAt(s, n + i) == DelimiterAt(t, i)
  {
    assert forall j | 0 <= j < |t| :: t[j] == s[n + j];
  }

  lemma NoDelimiterInLine(s: Bytes, line: Bytes, i: nat)
    requires line + CRLF <= s && '\r' !in line && i < |line| + 2
    requires |s| > |line| + 2 ==> s[|line| + 2] != '\r'
    ensures !DelimiterAt(s, i)
  {
    if i < |line| {
      assert s[i] == (line + CRLF)[i] == line[i] && line[i] in line;
    } else {
      assert s[|line| + 1] == (line + CRLF)[|line| + 1] == '\n';
    }
  }

  /** In front of text that does not start with CR, one more line shifts the first delimiter. */
  lemma ShiftDelimiter(s: Bytes, line: Bytes, t: Bytes)
    requires line + CRLF <= s && s[|line| + 2..] == t && '\r' !in line
    requires FindDelimiter(t, 0) >= 0 && t[0] != '\r'
    ensures FindDelimiter(s, 0) == |line| + 2 + FindDelimiter(t, 0)
  {
    var n := |line| + 2;
    assert s[n] == t[0];
    forall i | 0 <= i < n ensures !DelimiterAt(s, i) { NoDelimiterInLine(s, line, i); }
    forall i | 0 <= i ensures DelimiterAt(s, n + i) == DelimiterAt(t, i) { ShiftedAt(s, n, t, i); }
    FindShifted(s, t, n);
  }

  lemma {:induction false} PlainHasNoBareEnding(lines: seq<Bytes>)
    requires PlainLines(lines)
    ensures BareLineEnding(lines) == None
  {
    if lines != [] { PlainHasNoBareEnding(lines[1..]); }
  }

  // ---------------------------------------------------------------- header fields

  predicate ValidField(field: Field) { ValidName(field.name) && ValidValue(field.value) }

  predicate ValidFields(fields: seq<Field>) { forall i | 0 <= i < |fields| :: ValidField(fields[i]) }

  /** A field as the decoder reports it. */
  function Trimmed(field: Field): Field { Field(field.name, Trim(field.value)) }

  function AllTrimmed(fields: seq<Field>): seq<Field> {
    if fields == [] then [] else [Trimmed(fields[0])] + AllTrimmed(fields[1..])
  }

  /** No single-valued field occurs twice, or once when already in `seen`. */
  predicate SinglesOnce(fields: seq<Field>, seen: set<Bytes>) {
    fields == [] ||
    (var lower := Lower(fields[0].name);
     !(lower in SINGLE_VALUED && lower in seen) && SinglesOnce(fields[1..], seen + {lower}))
  }

  lemma ValidLineIsPlain(field: Field)
    requires ValidField(field)
    ensures PlainLine(Line(field))
  {
    var line := Line(field);
    forall i | 0 <= i < |line| ensures line[i] != '\r' && line[i] != '\n' {
      if i < |field.name| {
        assert line[i] == field.name[i];
      } else if i >= |field.name| + 2 {
        assert line[i] == field.value[i - |field.name| - 2];
      }
    }
  }

  lemma WrittenFieldSplits(field: Field)
    requires ValidField(field)
    ensures IndexOf(Line(field), ':') == |field.name|
    ensures Line(field)[..|field.name|] == field.name
    ensures Line(field)[|field.name| + 1..] == [' '] + field.value
  {
    var line, n := Line(field), |field.name|;
    forall i | 0 <= i < n ensures line[i] != ':' {
      assert line[i] == field.name[i] && IsNameChar(field.name[i]);
    }
    IndexOfFirst(line, ':', n);
  }

  lemma TrimSkipsSpace(value: Bytes)
    ensures Trim([' '] + value) == Trim(value)
  {
    assert ([' '] + value)[1..] == value;
  }

  /** A written field line parses to the field, trimmed, unless it repeats a single-valued name. */
  lemma ParseWrittenField(field: Field, seen: set<Bytes>)
    requires ValidField(field)
    ensures ParseField(Line(field), seen) ==
            if Lower(field.name) in SINGLE_VALUED && Lower(field.name) in seen then Err(DuplicateHeader)
            else Ok(Trimmed(field))
  {
    var line := Line(field);
    assert line[0] == field.name[0] && IsNameChar(field.name[0]);
    WrittenFieldSplits(field);
    TrimSkipsSpace(field.value);
    TrimSound(field.value);
  }

  lemma {:induction false} ParseWrittenFields(fields: seq<Field>, seen: set<Bytes>)
    requires ValidFields(fields)
    ensures ParseFields(Lines(fields), seen) ==
            if SinglesOnce(fields, seen) then Ok(AllTrimmed(fields)) else Err(DuplicateHeader)
    decreases |fields|
  {
    if fields != [] {
      assert ValidField(fields[0]);
      ParseWrittenField(fields[0], seen);
      ParseWrittenFields(fields[1..], seen + {Lower(fields[0].name)});
    }
  }

  lemma {:induction false} LinesPlain(fields: seq<Field>)
    requires ValidFields(fields)
    ensures PlainLines(Lines(fields))
  {
    if fields != [] {
      ValidLineIsPlain(fields[0]);
      LinesPlain(fields[1..]);
    }
  }

  /** The fields an encodable message is written with are valid, and only the encoder's is a length. */
  lemma {:induction false} CallerFieldsValid(entries: seq<Entry>)
    requires CallerFields(entries).Ok?
    ensures ValidFields(CallerFields(entries).value)
    ensures GetHeader(AllTrimmed(CallerFields(entries).value), CONTENT_LENGTH) == None
  {
    if entries != [] {
      if entries[0].value != None { assert CallerFields(entries[1..]).Ok?; }
      CallerFieldsValid(entries[1..]);
      LowerOfLower();
    }
  }

  lemma LowerOfLower()
    ensures Lower(CONTENT_LENGTH) == CONTENT_LENGTH
    ensures Lower("Content-Length") == CONTENT_LENGTH && Lower("Content-Type") == CONTENT_TYPE
  {
    FramingSpelling();
  }

  lemma AddedFieldsValid(m: Outgoing)
    ensures ValidFields(AddedFields(m))
  {
    MediaFieldsValid();
    assert ValidValue(Decimal(|m.body|));
  }

  lemma MediaFieldsValid()
    ensures ValidField(Field("Content-Type", JSON_TYPE)) && ValidField(Field("Content-Type", TEXT_TYPE))
    ensures ValidName("Content-Length")
  {
    assert ValidValue("application/json");
    assert ValidValue("; charset=utf-8");
    assert ValidValue("text/plain");
  }

  lemma {:induction false} GetHeaderAppend(a: seq<Field>, b: seq<Field>, name: Bytes)
    ensures GetHeader(AllTrimmed(a + b), name) ==
            if GetHeader(AllTrimmed(a), name) == None then GetHeader(AllTrimmed(b), name)
            else GetHeader(AllTrimmed(a), name)
    decreases |a|
  {
    if a == [] {
      assert a + b == b;
    } else {
      assert (a + b)[1..] == a[1..] + b;
      GetHeaderAppend(a[1..], b, name);
      assert AllTrimmed(a)[1..] == AllTrimmed(a[1..]);
      assert AllTrimmed(a + b)[1..] == AllTrimmed(a[1..] + b);
    }
  }

  lemma AddedLength(m: Outgoing)
    ensures GetHeader(AllTrimmed(AddedFields(m)), CONTENT_LENGTH) ==
            if m.body == [] then None else Some(Decimal(|m.body|))
  {
    LowerOfLower();
    if m.body != [] {
      var digits := Decimal(|m.body|);
      assert IsDigit(digits[0]) && IsDigit(digits[|digits| - 1]);
      TrimTight(digits);
      var length := Field("Content-Length", digits);
      var media := Field("Content-Type", if m.json then JSON_TYPE else TEXT_TYPE);
      assert AllTrimmed([length]) == [length];
      assert [media, length][1..] == [length];
      assert AllTrimmed([media, length]) == [Trimmed(media)] + [length];
      assert CONTENT_LENGTH != CONTENT_TYPE;
      assert AddedFields(m) == [length] || AddedFields(m) == [media, length];
    }
  }

  /** The declared body length of an encodable message is the true one. */
  lemma WrittenLength(limits: Limits, m: Outgoing)
    requires Fields(m).Ok?
    ensures ContentLength(limits, AllTrimmed(Fields(m).value)) ==
            if |m.body| > MAX_SAFE_INTEGER || |m.body| > limits.maxMessageBytes
            then Err(ContentLengthTooLarge) else Ok(|m.body|)
  {
    var fields := CallerFields(m.headers).value;
    CallerFieldsValid(m.headers);
    GetHeaderAppend(fields, AddedFields(m), CONTENT_LENGTH);
    AddedLength(m);
    var digits := Decimal(|m.body|);
    assert IsDigit(digits[0]) && IsDigit(digits[|digits| - 1]);
    TrimTight(digits);
    DecimalRoundTrip(|m.body|);
  }

  // ---------------------------------------------------------------- start line

  lemma VersionSplits(rest: Bytes)
    ensures IndexOf(VERSION + " " + rest, ' ') == 8
    ensures (VERSION + " " + rest)[..8] == VERSION && (VERSION + " " + rest)[9..] == rest
  {
    var s := VERSION + " " + rest;
    assert s[..8] == VERSION;
    forall i | 0 <= i < 8 ensures s[i] != ' ' { assert s[i] == VERSION[i]; }
    IndexOfFirst(s, ' ', 8);
  }

  lemma ParseWrittenStart(kind: Kind, start: StartLine)
    requires CheckStart(start) == None
    ensures ParseStartLine(kind, StartLineText(start)) ==
            if Suits(kind, start) then Ok(start) else Err(UnexpectedMessageKind)
  {
    match start
    case RequestLine(operation) => ParseWrittenRequest(kind, operation);
    case StatusLine(code, phrase) => ParseWrittenStatus(kind, code, phrase);
  }

  lemma ParseWrittenRequest(kind: Kind, operation: Bytes)
    requires ValidOperation(operation)
    ensures ParseStartLine(kind, VERSION + " " + operation) ==
            if kind == Responses then Err(UnexpectedMessageKind) else Ok(RequestLine(operation))
  {
    VersionSplits(operation);
    forall i | 0 <= i < |operation| ensures operation[i] != ' ' {
      assert IsOperationChar(operation[i]);
    }
  }

  lemma StatusSplits(code: nat, phrase: Bytes)
    requires 100 <= code <= 599
    ensures var rest := Decimal(code) + " " + phrase;
            IndexOf(rest, ' ') == 3 && rest[..3] == Decimal(code) && rest[4..] == phrase
  {
    var rest := Decimal(code) + " " + phrase;
    ThreeDigits(code);
    forall i | 0 <= i < 3 ensures rest[i] != ' ' {
      assert rest[i] == Decimal(code)[i] && IsDigit(rest[i]);
    }
    IndexOfFirst(rest, ' ', 3);
  }

  lemma ParseWrittenStatus(kind: Kind, code: nat, phrase: Bytes)
    requires 100 <= code <= 599 && ValidPhrase(phrase)
    ensures ParseStartLine(kind, VERSION + " " + (Decimal(code) + " " + phrase)) ==
            if kind == Requests then Err(UnexpectedMessageKind) else Ok(StatusLine(code, phrase))
  {
    VersionSplits(Decimal(code) + " " + phrase);
    StatusRemainder(kind, code, phrase);
  }

  lemma StatusRemainder(kind: Kind, code: nat, phrase: Bytes)
    requires 100 <= code <= 599 && ValidPhrase(phrase)
    ensures ParseRemainder(kind, Decimal(code) + " " + phrase) ==
            if kind == Requests then Err(UnexpectedMessageKind) else Ok(StatusLine(code, phrase))
  {
    ThreeDigits(code);
    StatusSplits(code, phrase);
    assert IsDigit(Decimal(code)[0]);
    DecimalRoundTrip(code);
  }

  lemma ThreeDigits(code: nat)
    requires 100 <= code <= 599
    ensures |Decimal(code)| == 3
  {
    assert |Decimal(code / 10 / 10)| == 1;
    assert |Decimal(code / 10)| == 2;
  }

  lemma StartIsPlain(start: StartLine)
    requires CheckStart(start) == None
    ensures PlainLine(StartLineText(start))
  {
    var line := StartLineText(start);
    assert '\r' !in VERSION && '\n' !in VERSION;
    match start
    case RequestLine(operation) =>
      forall i | 0 <= i < |operation| ensures operation[i] != '\r' && operation[i] != '\n' {
        assert IsOperationChar(operation[i]);
      }
    case StatusLine(code, phrase) =>
      forall i | 0 <= i < |phrase| ensures phrase[i] != '\r' && phrase[i] != '\n' {
        assert IsPrintable(phrase[i]);
      }
      forall i | 0 <= i < |Decimal(code)| ensures Decimal(code)[i] != '\r' && Decimal(code)[i] != '\n' {
        assert IsDigit(Decimal(code)[i]);
      }
  }

  // ---------------------------------------------------------------- one message

  /** What a decoder should report for the encoding of `m`. */
  function Reported(m: Outgoing): Framed<Head>
    requires Fields(m).Ok?
  {
    Framed(Head(m.start, AllTrimmed(Fields(m).value)), m.body, Encode(m).value)
  }

  function HeaderBlock(m: Outgoing): Bytes
    requires Fields(m).Ok?
  {
    Block(m.start, Fields(m).value)
  }

  /** The decoder's limits and its single-valued rule admit the message. */
  predicate Fits(limits: Limits, kind: Kind, m: Outgoing)
    requires Fields(m).Ok?
  {
    var fields, block := Fields(m).value, HeaderBlock(m);
    && |StartLineText(m.start)| <= limits.maxStartLineBytes
    && Suits(kind, m.start)
    && |fields| <= limits.maxHeaderCount
    && SinglesOnce(fields, {})
    && |block| <= limits.maxHeaderBlockBytes
    && |block| + 4 + |m.body| <= limits.maxMessageBytes
    && |m.body| <= MAX_SAFE_INTEGER
  }

  lemma WrittenLines(m: Outgoing)
    requires Fields(m).Ok?
    ensures ValidFields(Fields(m).value)
    ensures PlainLines([StartLineText(m.start)] + Lines(Fields(m).value))
  {
    CallerFieldsValid(m.headers);
    AddedFieldsValid(m);
    LinesPlain(Fields(m).value);
    StartIsPlain(m.start);
  }

  /** What the parser makes of an encoded header block, in the order it checks. */
  lemma ParseWrittenBlock(limits: Limits, kind: Kind, m: Outgoing)
    requires Fields(m).Ok?
    ensures var fields := Fields(m).value;
            ParseBlock(limits, kind, HeaderBlock(m)) ==
            if |StartLineText(m.start)| > limits.maxStartLineBytes then Err(StartLineTooLarge)
            else if !Suits(kind, m.start) then Err(UnexpectedMessageKind)
            else if |fields| > limits.maxHeaderCount then Err(TooManyHeaders)
            else if !SinglesOnce(fields, {}) then Err(DuplicateHeader)
            else Ok(Head(m.start, AllTrimmed(fields)))
  {
    var fields := Fields(m).value;
    var lines := [StartLineText(m.start)] + Lines(fields);
    WrittenLines(m);
    SplitJoin(lines);
    assert lines[1..] == Lines(fields);
    PlainHasNoBareEnding(lines);
    ParseWrittenStart(kind, m.start);
    ParseWrittenFields(fields, {});
  }

  /** Where the header block and the body of an encoding are. */
  lemma WrittenLayout(m: Outgoing)
    requires Fields(m).Ok?
    ensures var e, block := Encode(m).value, HeaderBlock(m);
            && FindDelimiter(e, 0) == |block|
            && |e| == |block| + 4 + |m.body|
            && e[..|block|] == block
            && e[|block| + 4..] == m.body
  {
    WrittenLines(m);
    FirstDelimiter([StartLineText(m.start)] + Lines(Fields(m).value), m.body);
  }

  lemma HeadWritten(limits: Limits, kind: Kind, m: Outgoing)
    requires Fields(m).Ok?
    ensures var r := ParseHead(limits, kind, HeaderBlock(m));
            && (r.Parsed? <==> && |StartLineText(m.start)| <= limits.maxStartLineBytes
                               && Suits(kind, m.start)
                               && |Fields(m).value| <= limits.maxHeaderCount
                               && SinglesOnce(Fields(m).value, {})
                               && |m.body| <= MAX_SAFE_INTEGER && |m.body| <= limits.maxMessageBytes)
            && (r.Parsed? ==> r == Parsed(Head(m.start, AllTrimmed(Fields(m).value)), |m.body|))
  {
    ParseWrittenBlock(limits, kind, m);
    WrittenLength(limits, m);
  }

  /** The framing loop takes an encoding as one message exactly when the message fits. */
  lemma LookWritten(limits: Limits, kind: Kind, m: Outgoing)
    requires Fields(m).Ok?
    ensures var e, t := Encode(m).value, Look(SltpFramer(limits, kind), Encode(m).value);
            && FindDelimiter(e, 0) == |HeaderBlock(m)|
            && (t.Take? <==> Fits(limits, kind, m))
            && !t.Wait?
            && (t.Take? ==> t.total == |e| && Cut(e, t) == Reported(m))
  {
    WrittenLayout(m);
    HeadWritten(limits, kind, m);
    LookLaidOut(SltpFramer(limits, kind), Encode(m).value, HeaderBlock(m), m.body);
  }

  /**
   A message too large is refused as soon as its header block is there, before any of its body: for
   its declared length, or for the whole.
   */
  lemma OversizedRefusedEarly(limits: Limits, kind: Kind, m: Outgoing, k: nat)
    requires Fields(m).Ok? && |HeaderBlock(m)| <= limits.maxHeaderBlockBytes
    requires ParseBlock(limits, kind, HeaderBlock(m)).Ok?
    requires |HeaderBlock(m)| + 4 <= k <= |Encode(m).value| && |Encode(m).value| > limits.maxMessageBytes
    ensures Look(SltpFramer(limits, kind), Encode(m).value[..k])
            == Refuse(if |m.body| > limits.maxMessageBytes || |m.body| > MAX_SAFE_INTEGER then ContentLengthTooLarge
                      else MessageTooLarge)
  {
    var e, block := Encode(m).value, HeaderBlock(m);
    WrittenLayout(m);
    ParseWrittenBlock(limits, kind, m);
    WrittenLength(limits, m);
    FindInPrefix(e, k);
    assert e[..k][..|block|] == block;
  }

  /** One encoding in one push comes back as the message exactly when it fits. */
  lemma RoundTripIff(limits: Limits, kind: Kind, m: Outgoing)
    requires Fields(m).Ok?
    ensures Decode(SltpFramer(limits, kind), Encode(m).value) == Decoded([Reported(m)], Waiting([]))
            <==> Fits(limits, kind, m)
  {
    var e := Encode(m).value;
    LookWritten(limits, kind, m);
    assert e[|e|..] == [];
  }

  // ---------------------------------------------------------------- pipelines

  /** The message fits with its header block at least three octets under the limit. */
  predicate FitsSafely(limits: Limits, kind: Kind, m: Outgoing) {
    && Fields(m).Ok?
    && Fits(limits, kind, m)
    && |HeaderBlock(m)| + 3 <= limits.maxHeaderBlockBytes
  }

  predicate AllFitSafely(limits: Limits, kind: Kind, ms: seq<Outgoing>) {
    forall i | 0 <= i < |ms| :: FitsSafely(limits, kind, ms[i])
  }

  predicate AllEncodable(ms: seq<Outgoing>) { forall i | 0 <= i < |ms| :: Fields(ms[i]).Ok? }

  function Encodings(ms: seq<Outgoing>): (es: seq<Bytes>)
    requires AllEncodable(ms)
    ensures |es| == |ms|
  {
    if ms == [] then [] else [Encode(ms[0]).value] + Encodings(ms[1..])
  }

  function AllReported(ms: seq<Outgoing>): (reports: seq<Framed<Head>>)
    requires AllEncodable(ms)
    ensures |reports| == |ms|
  {
    if ms == [] then [] else [Reported(ms[0])] + AllReported(ms[1..])
  }

  lemma {:induction false} EncodingsAreFrames(limits: Limits, kind: Kind, ms: seq<Outgoing>)
    requires AllFitSafely(limits, kind, ms)
    ensures AllFrames(SltpFramer(limits, kind), Encodings(ms))
    ensures FramesOf(SltpFramer(limits, kind), Encodings(ms)) == AllReported(ms)
    decreases |ms|
  {
    if ms != [] {
      var es := Encodings(ms);
      assert FitsSafely(limits, kind, ms[0]);
      LookWritten(limits, kind, ms[0]);
      EncodingsAreFrames(limits, kind, ms[1..]);
      assert es[1..] == Encodings(ms[1..]);
      forall i | 0 <= i < |es| ensures IsFrame(SltpFramer(limits, kind), es[i]) {
        if i > 0 { assert es[i] == es[1..][i - 1]; }
      }
    }
  }

  /**
   Truncation is detected exactly. Cut a pipeline of encodings after `k` octets and push what is
   left in any chunks: the messages wholly before the cut come out, and `end` reports a truncated
   message exactly when the cut is inside a message.
   */
  lemma {:induction false} TruncationDetected(limits: Limits, kind: Kind, ms: seq<Outgoing>, k: nat, chunks: seq<Bytes>)
    requires AllFitSafely(limits, kind, ms)
    requires k <= |Concat(Encodings(ms))| && Concat(chunks) == Concat(Encodings(ms))[..k]
    ensures var es := Encodings(ms);
            var n, p, d := WholeFrames(es, k), CutPart(es, k), FeedAll(SltpFramer(limits, kind), chunks);
            && d == Decoded(AllReported(ms)[..n], Waiting(p))
            && End(d) == (if k == |Concat(es[..n])| then d
                          else d.(standing := Stopped(TruncatedMessage, p)))
  {
    EncodingsAreFrames(limits, kind, ms);
    CutStreamInChunks(SltpFramer(limits, kind), Encodings(ms), k, chunks);
  }

  /** A whole pipeline, in any chunks, comes back message by message and ends cleanly. */
  lemma {:induction false} PipelinedRoundTrip(limits: Limits, kind: Kind, ms: seq<Outgoing>, chunks: seq<Bytes>)
    requires AllFitSafely(limits, kind, ms)
    requires Concat(chunks) == Concat(Encodings(ms))
    ensures var d := FeedAll(SltpFramer(limits, kind), chunks);
            d == Decoded(AllReported(ms), Waiting([])) && End(d) == d
  {
    var f, es := SltpFramer(limits, kind), Encodings(ms);
    EncodingsAreFrames(limits, kind, ms);
    DecodeFrames(f, es, []);
    assert Concat(es) + [] == Concat(es);
    ChunksDoNotMatter(f, chunks);
  }

  /** No encoding that fits is a proper prefix of another. */
  lemma EncodingsPrefixFree(limits: Limits, kind: Kind, a: Outgoing, b: Outgoing)
    requires FitsSafely(limits, kind, a) && FitsSafely(limits, kind, b)
    requires Encode(a).value <= Encode(b).value
    ensures Encode(a) == Encode(b) && Reported(a) == Reported(b)
  {
    LookWritten(limits, kind, a);
    LookWritten(limits, kind, b);
    PrefixFree(SltpFramer(limits, kind), Encode(a).value, Encode(b).value);
  }

  /** Every partition of the encoding of `m` into chunks yields `m`. */
  ghost predicate SurvivesChunking(limits: Limits, kind: Kind, m: Outgoing)
    requires Fields(m).Ok?
  {
    forall chunks :: Concat(chunks) == Encode(m).value ==>
      FeedAll(SltpFramer(limits, kind), chunks) == Decoded([Reported(m)], Waiting([]))
  }

  /**
   A message that fits survives every chunking exactly when its header block is three octets
   under the limit; with 0 to 2 octets to spare, a chunk ending before the last LF of the
   delimiter makes the decoder refuse it.
   */
  lemma SurvivesChunkingIff(limits: Limits, kind: Kind, m: Outgoing)
    requires Fields(m).Ok? && Fits(limits, kind, m)
    ensures SurvivesChunking(limits, kind, m) <==> |HeaderBlock(m)| + 3 <= limits.maxHeaderBlockBytes
  {
    var f, e, k := SltpFramer(limits, kind), Encode(m).value, |HeaderBlock(m)| + 3;
    if k <= limits.maxHeaderBlockBytes {
      forall chunks | Concat(chunks) == e
        ensures FeedAll(f, chunks) == Decoded([Reported(m)], Waiting([]))
      {
        assert [m][1..] == [] && Encodings([m]) == [e] && AllReported([m]) == [Reported(m)];
        assert Concat([e]) == e;
        PipelinedRoundTrip(limits, kind, [m], chunks);
      }
    } else {
      WindowRefuses(limits, kind, m);
      assert !SurvivesChunking(limits, kind, m);
    }
  }

  lemma WindowRefuses(limits: Limits, kind: Kind, m: Outgoing)
    requires Fields(m).Ok? && Fits(limits, kind, m)
    requires limits.maxHeaderBlockBytes < |HeaderBlock(m)| + 3
    ensures var e, k := Encode(m).value, |HeaderBlock(m)| + 3;
            && k <= |e|
            && Concat([e[..k], e[k..]]) == e
            && FeedAll(SltpFramer(limits, kind), [e[..k], e[k..]])
               == Decoded([], Stopped(HeaderBlockTooLarge, e[..k]))
  {
    var f, e, k := SltpFramer(limits, kind), Encode(m).value, |HeaderBlock(m)| + 3;
    LookWritten(limits, kind, m);
    assert FindDelimiter(e, 0) + 3 == k && InWindow(f, e);
    WindowRefusesPrefix(f, e);
  }

  /** The chunking law at its documented generality fails: `SLTP/1.0 PING` under a 13-octet block limit. */
  lemma PingUnderTightLimit()
    ensures var limits, ping := Limits(100, 13, 100, 10), Outgoing(RequestLine("PING"), [], [], false);
            Fields(ping).Ok? && Fits(limits, Requests, ping) && !SurvivesChunking(limits, Requests, ping)
  {
    var limits, ping := Limits(100, 13, 100, 10), Outgoing(RequestLine("PING"), [], [], false);
    assert ValidOperation("PING");
    assert Fields(ping) == Ok([]);
    assert |HeaderBlock(ping)| == 13;
    SurvivesChunkingIff(limits, Requests, ping);
  }
}
