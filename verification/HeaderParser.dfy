/** Header-block parsing of the decoder (packages/protocol/src/decoder.ts, lines 315-659). */
module HeaderParser {
  import opened Octets
  import opened Reasons
  import opened Headers

  datatype Limits = Limits(maxMessageBytes: nat, maxHeaderBlockBytes: nat, maxStartLineBytes: nat, maxHeaderCount: nat)

  datatype Kind = Requests | Responses | Either

  const VERSION: Bytes := "SLTP/1.0"

  const MAX_SAFE_INTEGER: nat := 9_007_199_254_740_991

  datatype StartLine = RequestLine(operation: Bytes) | StatusLine(code: nat, phrase: Bytes)

  /** Whether a decoder set up for `kind` takes this start line. */
  predicate Suits(kind: Kind, start: StartLine) {
    match kind
    case Requests => start.RequestLine?
    case Responses => start.StatusLine?
    case Either => true
  }

  /** A parsed header block. */
  datatype Head = Head(start: StartLine, headers: seq<Field>)

  const SINGLE_VALUED: set<Bytes> := {CONTENT_LENGTH, CONTENT_TYPE, REQUEST_ID, SESSION_ID}

  predicate IsOperationChar(c: char) { IsUpper(c) || IsDigit(c) || c == '_' }

  /** The operation token grammar: a capital, then at most 31 capitals, digits or underscores. */
  predicate ValidOperation(op: Bytes) {
    && 1 <= |op| <= 32
    && IsUpper(op[0])
    && forall i | 0 <= i < |op| :: IsOperationChar(op[i])
  }

  predicate ValidPhrase(phrase: Bytes) {
    phrase != [] && forall i | 0 <= i < |phrase| :: IsPrintable(phrase[i])
  }

  function ParseStatusLine(kind: Kind, codeToken: Bytes, phrase: Bytes): Parse<StartLine> {
    if kind == Requests then Err(UnexpectedMessageKind)
    else if !(|codeToken| == 3 && AllDigits(codeToken)) then Err(InvalidStatusCode)
    else
      var code := ParseNat(codeToken);
      if code < 100 || code > 599 then Err(InvalidStatusCode)
      else if phrase == [] then Err(MissingStatusPhrase)
      else if !ValidPhrase(phrase) then Err(InvalidStatusPhrase)
      else Ok(StatusLine(code, phrase))
  }

  /** The version token, a space, then a status line or an operation. */
  function ParseStartLine(kind: Kind, line: Bytes): Parse<StartLine> {
    var firstSpace := IndexOf(line, ' ');
    if firstSpace == -1 then Err(MalformedStartLine)
    else if line[..firstSpace] != VERSION then Err(UnsupportedProtocolVersion)
    else ParseRemainder(kind, line[firstSpace + 1..])
  }

  function ParseRemainder(kind: Kind, remainder: Bytes): Parse<StartLine> {
    if remainder == [] then Err(MalformedStartLine)
    else
      var secondSpace := IndexOf(remainder, ' ');
      var token := if secondSpace == -1 then remainder else remainder[..secondSpace];
      if token != [] && IsDigit(token[0]) then
        ParseStatusLine(kind, token, if secondSpace == -1 then [] else remainder[secondSpace + 1..])
      else if kind == Responses then Err(UnexpectedMessageKind)
      else if secondSpace != -1 then Err(MalformedStartLine)
      else if !ValidOperation(token) then Err(InvalidOperationToken)
      else Ok(RequestLine(token))
  }

  /** The fault of the first line holding a bare LF or a bare CR, if any. */
  function BareLineEnding(lines: seq<Bytes>): Option<Reason> {
    if lines == [] then None
    else if '\n' in lines[0] then Some(BareLineFeed)
    else if '\r' in lines[0] then Some(BareCarriageReturn)
    else BareLineEnding(lines[1..])
  }

  function ParseField(line: Bytes, seen: set<Bytes>): Parse<Field> {
    if line != [] && (line[0] == ' ' || line[0] == '\t') then Err(ObsoleteLineFolding)
    else
      var colonAt := IndexOf(line, ':');
      if colonAt <= 0 then Err(MalformedHeaderLine)
      else
        var name := line[..colonAt];
        var value := Trim(line[colonAt + 1..]);
        if !ValidName(name) then Err(InvalidHeaderName)
        else if !ValidValue(value) then Err(InvalidHeaderValue)
        else if Lower(name) in SINGLE_VALUED && Lower(name) in seen then Err(DuplicateHeader)
        else Ok(Field(name, value))
  }

  /** The header lines in order; `seen` holds the folded names already met. */
  function ParseFields(lines: seq<Bytes>, seen: set<Bytes>): Parse<seq<Field>> {
    if lines == [] then Ok([])
    else
      var field :- ParseField(lines[0], seen);
      var rest :- ParseFields(lines[1..], seen + {Lower(field.name)});
      Ok([field] + rest)
  }

  function ParseBlock(limits: Limits, kind: Kind, block: Bytes): Parse<Head> {
    ParseLines(limits, kind, SplitLines(block))
  }

  /** What the parser does with the lines of a block. */
  function ParseLines(limits: Limits, kind: Kind, lines: seq<Bytes>): Parse<Head>
    requires lines != []
  {
    if lines[0] == [] then Err(EmptyStartLine)
    else if |lines[0]| > limits.maxStartLineBytes then Err(StartLineTooLarge)
    else
      match BareLineEnding(lines)
      case Some(reason) => Err(reason)
      case None =>
        var start :- ParseStartLine(kind, lines[0]);
        if |lines| - 1 > limits.maxHeaderCount then Err(TooManyHeaders)
        else
          var headers :- ParseFields(lines[1..], {});
          Ok(Head(start, headers))
  }

  /** The body length the first Content-Length declares; none means no body. */
  function ContentLength(limits: Limits, headers: seq<Field>): Parse<nat> {
    match GetHeader(headers, CONTENT_LENGTH)
    case None => Ok(0)
    case Some(raw) =>
      var trimmed := Trim(raw);
      if trimmed != [] && trimmed[0] == '-' then Err(NegativeContentLength)
      else if trimmed == [] || !AllDigits(trimmed) then Err(InvalidContentLength)
      else
        var value := ParseNat(trimmed);
        if value > MAX_SAFE_INTEGER || value > limits.maxMessageBytes then Err(ContentLengthTooLarge)
        else Ok(value)
  }

  // ---------------------------------------------------------------- the parser as written

  /** `parseHeaderBlock`. Its two loops are the two methods below. */
  method ParseHeaderBlock(limits: Limits, kind: Kind, block: Bytes) returns (r: Parse<Head>)
    ensures r == ParseBlock(limits, kind, block)
  {
    var lines := SplitLines(block);
    var startLine := lines[0];
    if startLine == [] {
      return Err(EmptyStartLine);
    }
    if |startLine| > limits.maxStartLineBytes {
      return Err(StartLineTooLarge);
    }
    var bare := CheckLineEndings(lines);
    if bare.Some? {
      return Err(bare.value);
    }
    var start :- ParseStartLine(kind, startLine);
    if |lines| - 1 > limits.maxHeaderCount {
      return Err(TooManyHeaders);
    }
    var headers :- CollectFields(lines[1..]);
    return Ok(Head(start, headers));
  }

  method CheckLineEndings(lines: seq<Bytes>) returns (fault: Option<Reason>)
    ensures fault == BareLineEnding(lines)
  {
    for i := 0 to |lines|
      invariant BareLineEnding(lines) == BareLineEnding(lines[i..])
    {
      if '\n' in lines[i] {
        return Some(BareLineFeed);
      }
      if '\r' in lines[i] {
        return Some(BareCarriageReturn);
      }
    }
    return None;
  }

  /** Grows `headers` and `seen` line by line, stopping at the first fault. */
  method CollectFields(headerLines: seq<Bytes>) returns (r: Parse<seq<Field>>)
    ensures r == ParseFields(headerLines, {})
  {
    var headers: seq<Field>, seen: set<Bytes> := [], {};
    assert headerLines[0..] == headerLines;
    assert forall all: seq<Field> :: headers + all == all;
    for i := 0 to |headerLines|
      invariant ParseFields(headerLines, {}) == Prepend(headers, ParseFields(headerLines[i..], seen))
    {
      PrependOne(headers, headerLines[i..], seen);
      var parsed := ParseField(headerLines[i], seen);
      if parsed.Err? {
        return Err(parsed.reason);
      }
      seen := seen + {Lower(parsed.value.name)};
      headers := headers + [parsed.value];
    }
    assert headers + [] == headers;
    return Ok(headers);
  }

  lemma PrependOne(headers: seq<Field>, lines: seq<Bytes>, seen: set<Bytes>)
    requires lines != []
    ensures var field := ParseField(lines[0], seen);
            Prepend(headers, ParseFields(lines, seen)) ==
            if field.Err? then Err(field.reason)
            else Prepend(headers + [field.value], ParseFields(lines[1..], seen + {Lower(field.value.name)}))
  {
    var field := ParseField(lines[0], seen);
    if field.Ok? {
      var rest := ParseFields(lines[1..], seen + {Lower(field.value.name)});
      if rest.Ok? {
        assert headers + ([field.value] + rest.value) == (headers + [field.value]) + rest.value;
      }
    }
  }

  /** Fields parsed so far in front of the fields still to come. */
  function Prepend(headers: seq<Field>, rest: Parse<seq<Field>>): Parse<seq<Field>> {
    match rest
    case Ok(fields) => Ok(headers + fields)
    case Err(reason) => Err(reason)
  }

  /** `resolveContentLength`: the first matching field decides. */
  method ResolveContentLength(limits: Limits, headers: seq<Field>) returns (r: Parse<nat>)
    ensures r == ContentLength(limits, headers)
  {
    var raw: Option<Bytes> := None;
    for i := 0 to |headers|
      invariant raw == None
      invariant GetHeader(headers, CONTENT_LENGTH) == GetHeader(headers[i..], CONTENT_LENGTH)
    {
      if Lower(headers[i].name) == Lower(CONTENT_LENGTH) {
        raw := Some(headers[i].value);
        break;
      }
    }
    if raw == None {
      return Ok(0);
    }
    var trimmed := Trim(raw.value);
    if trimmed != [] && trimmed[0] == '-' {
      return Err(NegativeContentLength);
    }
    if trimmed == [] || !AllDigits(trimmed) {
      return Err(InvalidContentLength);
    }
    var value := ParseNat(trimmed);
    if value > MAX_SAFE_INTEGER {
      return Err(ContentLengthTooLarge);
    }
    if value > limits.maxMessageBytes {
      return Err(ContentLengthTooLarge);
    }
    return Ok(value);
  }

  /** What a parsing fault can be: fatal, and about the content of the block rather than its size. */
  predicate ParseFault(reason: Reason) {
    IsFatal(reason) && reason != HeaderBlockTooLarge && reason != TruncatedMessage
  }

  lemma ParserReasons(limits: Limits, kind: Kind, block: Bytes)
    ensures var r := ParseBlock(limits, kind, block); r.Err? ==> ParseFault(r.reason)
  {
    var lines := SplitLines(block);
    BareReasons(lines);
    StartReasons(kind, lines[0]);
    FieldReasons(lines[1..], {});
  }

  lemma StartReasons(kind: Kind, line: Bytes)
    ensures var r := ParseStartLine(kind, line); r.Err? ==> ParseFault(r.reason)
  {
    var firstSpace := IndexOf(line, ' ');
    if firstSpace != -1 { RemainderReasons(kind, line[firstSpace + 1..]); }
  }

  lemma RemainderReasons(kind: Kind, remainder: Bytes)
    ensures var r := ParseRemainder(kind, remainder); r.Err? ==> ParseFault(r.reason)
  {
    var secondSpace := IndexOf(remainder, ' ');
    if secondSpace != -1 { StatusReasons(kind, remainder[..secondSpace], remainder[secondSpace + 1..]); }
    StatusReasons(kind, remainder, []);
  }

  lemma StatusReasons(kind: Kind, codeToken: Bytes, phrase: Bytes)
    ensures var r := ParseStatusLine(kind, codeToken, phrase); r.Err? ==> ParseFault(r.reason)
  {}

  lemma {:induction false} BareReasons(lines: seq<Bytes>)
    ensures var r := BareLineEnding(lines); r.Some? ==> ParseFault(r.value)
  {
    if lines != [] { BareReasons(lines[1..]); }
  }

  lemma {:induction false} FieldReasons(lines: seq<Bytes>, seen: set<Bytes>)
    ensures var r := ParseFields(lines, seen); r.Err? ==> ParseFault(r.reason)
  {
    if lines != [] && ParseField(lines[0], seen).Ok? {
      FieldReasons(lines[1..], seen + {Lower(ParseField(lines[0], seen).value.name)});
    }
  }
}
