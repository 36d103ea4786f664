/** The message encoder (packages/protocol/src/encoder.ts). */
module Encoder {
  import opened Octets
  import opened Reasons
  import opened Headers
  import opened HeaderParser

  /** One entry of a header record; `undefined` and `null` values are `None`. */
  datatype Entry = Entry(name: Bytes, value: Option<Bytes>)

  /** A message to encode. A missing body is an empty one. */
  datatype Outgoing = Outgoing(start: StartLine, headers: seq<Entry>, body: Bytes, json: bool)

  const JSON_TYPE: Bytes := "application/json" + "; charset=utf-8"
  const TEXT_TYPE: Bytes := "text/plain" + "; charset=utf-8"

  /** The start line of a valid request or response. */
  function StartLineText(start: StartLine): Bytes {
    match start
    case RequestLine(operation) => VERSION + " " + operation
    case StatusLine(code, phrase) => VERSION + " " + (Decimal(code) + " " + phrase)
  }

  /** The check `encodeRequest` and `encodeResponse` make before anything else. */
  function CheckStart(start: StartLine): Option<Reason> {
    match start
    case RequestLine(operation) => if ValidOperation(operation) then None else Some(InvalidOperationToken)
    case StatusLine(code, phrase) =>
      if code < 100 || code > 599 then Some(InvalidStatusCode)
      else if !ValidPhrase(phrase) then Some(InvalidStatusPhrase)
      else None
  }

  /** The fields the caller's record contributes; a Content-Length is checked, then dropped. */
  function CallerFields(entries: seq<Entry>): Parse<seq<Field>> {
    if entries == [] then Ok([])
    else
      var entry := entries[0];
      if entry.value == None then CallerFields(entries[1..])
      else
        var name := CanonicalName(entry.name);
        if !ValidName(name) then Err(InvalidHeaderName)
        else if !ValidValue(entry.value.value) then Err(InvalidHeaderValue)
        else
          var rest :- CallerFields(entries[1..]);
          Ok(if Lower(name) == CONTENT_LENGTH then rest else [Field(name, entry.value.value)] + rest)
  }

  predicate HasContentType(entries: seq<Entry>) {
    exists i | 0 <= i < |entries| :: Lower(entries[i].name) == CONTENT_TYPE
  }

  /** The fields the encoder adds for a non-empty body. */
  function AddedFields(m: Outgoing): seq<Field> {
    if m.body == [] then []
    else
      (if HasContentType(m.headers) then []
       else [Field("Content-Type", if m.json then JSON_TYPE else TEXT_TYPE)])
      + [Field("Content-Length", Decimal(|m.body|))]
  }

  function Line(field: Field): Bytes { field.name + ": " + field.value }

  function Lines(fields: seq<Field>): (lines: seq<Bytes>)
    ensures |lines| == |fields|
  {
    if fields == [] then [] else [Line(fields[0])] + Lines(fields[1..])
  }

  /** All fields an encodable message is written with. */
  function Fields(m: Outgoing): Parse<seq<Field>> {
    match CheckStart(m.start)
    case Some(reason) => Err(reason)
    case None =>
      var fields :- CallerFields(m.headers);
      Ok(fields + AddedFields(m))
  }

  function Block(start: StartLine, fields: seq<Field>): Bytes {
    JoinLines([StartLineText(start)] + Lines(fields))
  }

  function Encode(m: Outgoing): Parse<Bytes> {
    var fields :- Fields(m);
    Ok(Block(m.start, fields) + CRLF + CRLF + m.body)
  }

  // ---------------------------------------------------------------- the encoder as written

  /** `encodeRequest` / `encodeResponse`, then `encodeMessage`. */
  method EncodeMessage(m: Outgoing) returns (r: Parse<Bytes>)
    ensures r == Encode(m)
  {
    var fault := CheckStart(m.start);
    if fault.Some? {
      return Err(fault.value);
    }
    var caller := CallerLines(m.headers);
    if caller.Err? {
      return Err(caller.reason);
    }
    var lines := [StartLineText(m.start)] + caller.value;
    if !HasContentType(m.headers) && |m.body| > 0 {
      lines := lines + [Line(Field("Content-Type", if m.json then JSON_TYPE else TEXT_TYPE))];
    }
    if |m.body| > 0 {
      lines := lines + [Line(Field("Content-Length", Decimal(|m.body|)))];
    }
    ghost var fields := CallerFields(m.headers).value;
    AddedLines(m);
    LinesAppend(fields, AddedFields(m));
    assert lines == [StartLineText(m.start)] + Lines(fields + AddedFields(m));
    return Ok(JoinLines(lines) + CRLF + CRLF + m.body);
  }

  /** The loop over the caller's header record. */
  method CallerLines(entries: seq<Entry>) returns (r: Parse<seq<Bytes>>)
    ensures match CallerFields(entries)
            case Ok(fields) => r == Ok(Lines(fields))
            case Err(reason) => r == Err(reason)
  {
    var lines: seq<Bytes> := [];
    ghost var fields: seq<Field> := [];
    assert entries[0..] == entries;
    assert forall rest: seq<Field> :: fields + rest == rest;
    for i := 0 to |entries|
      invariant lines == Lines(fields)
      invariant CallerFields(entries) == Prepend(fields, CallerFields(entries[i..]))
    {
      PrependCaller(fields, entries[i..]);
      var entry := entries[i];
      if entry.value == None {
        continue;
      }
      var name := CanonicalName(entry.name);
      var value := entry.value.value;
      if !ValidName(name) {
        return Err(InvalidHeaderName);
      }
      if !ValidValue(value) {
        return Err(InvalidHeaderValue);
      }
      if Lower(name) == CONTENT_LENGTH {
        continue;
      }
      LinesSnoc(fields, Field(name, value));
      lines := lines + [Line(Field(name, value))];
      fields := fields + [Field(name, value)];
    }
    assert fields + [] == fields;
    return Ok(lines);
  }

  lemma AddedLines(m: Outgoing)
    ensures Lines(AddedFields(m)) ==
            if m.body == [] then []
            else (if HasContentType(m.headers) then []
                  else [Line(Field("Content-Type", if m.json then JSON_TYPE else TEXT_TYPE))])
                 + [Line(Field("Content-Length", Decimal(|m.body|)))]
  {
    if m.body != [] {
      var length := Field("Content-Length", Decimal(|m.body|));
      var media := Field("Content-Type", if m.json then JSON_TYPE else TEXT_TYPE);
      assert Lines([length]) == [Line(length)];
      LinesAppend([media], [length]);
      assert Lines([media]) == [Line(media)];
    }
  }

  lemma {:induction false} LinesAppend(a: seq<Field>, b: seq<Field>)
    ensures Lines(a + b) == Lines(a) + Lines(b)
  {
    if a == [] {
      assert a + b == b;
    } else {
      assert (a + b)[1..] == a[1..] + b;
      LinesAppend(a[1..], b);
    }
  }

  lemma LinesSnoc(a: seq<Field>, last: Field)
    ensures Lines(a + [last]) == Lines(a) + [Line(last)]
  {
    LinesAppend(a, [last]);
    assert Lines([last]) == [Line(last)];
  }

  lemma PrependCaller(fields: seq<Field>, entries: seq<Entry>)
    requires entries != []
    ensures var entry, rest := entries[0], CallerFields(entries[1..]);
            var name := CanonicalName(entry.name);
            Prepend(fields, CallerFields(entries)) ==
            if entry.value == None then Prepend(fields, rest)
            else if !ValidName(name) then Err(InvalidHeaderName)
            else if !ValidValue(entry.value.value) then Err(InvalidHeaderValue)
            else if Lower(name) == CONTENT_LENGTH then Prepend(fields, rest)
            else Prepend(fields + [Field(name, entry.value.value)], rest)
  {
    var entry, rest := entries[0], CallerFields(entries[1..]);
    if entry.value.Some? && rest.Ok? {
      var field := Field(CanonicalName(entry.name), entry.value.value);
      assert fields + ([field] + rest.value) == (fields + [field]) + rest.value;
    }
  }
}
