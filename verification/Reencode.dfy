/** Re-encoding a decoded message (packages/protocol/src/encoder.ts, lines 93-119). */
module Reencode {
  import opened Octets
  import opened Reasons
  import opened Headers
  import opened HeaderParser
  import opened Encoder
  import opened RoundTrip

  // ---------------------------------------------------------------- decoded messages are encodable

  /** Whatever the parser accepts obeys the grammars the encoder checks, and its values are trimmed. */
  lemma ParsedIsEncodable(limits: Limits, kind: Kind, block: Bytes)
    requires ParseBlock(limits, kind, block).Ok?
    ensures var head := ParseBlock(limits, kind, block).value;
            && CheckStart(head.start) == None && Suits(kind, head.start)
            && ValidFields(head.headers) && AllTrimmed(head.headers) == head.headers
            && SinglesOnce(head.headers, {})
            && |head.headers| <= limits.maxHeaderCount
  {
    var lines := SplitLines(block);
    ParsedStart(kind, lines[0]);
    ParsedFields(lines[1..], {});
  }

  lemma ParsedStart(kind: Kind, line: Bytes)
    requires ParseStartLine(kind, line).Ok?
    ensures CheckStart(ParseStartLine(kind, line).value) == None
    ensures Suits(kind, ParseStartLine(kind, line).value)
  {}

  lemma {:induction false} ParsedFields(lines: seq<Bytes>, seen: set<Bytes>)
    requires ParseFields(lines, seen).Ok?
    ensures var fields := ParseFields(lines, seen).value;
            && |fields| == |lines|
            && ValidFields(fields) && AllTrimmed(fields) == fields && SinglesOnce(fields, seen)
    decreases |lines|
  {
    if lines != [] {
      var field := ParseField(lines[0], seen).value;
      ParsedFields(lines[1..], seen + {Lower(field.name)});
      TrimSound(lines[0][IndexOf(lines[0], ':') + 1..]);
    }
  }

  // ---------------------------------------------------------------- the header record

  /** `record[name] = value`: a known name keeps its place, a new one goes last. */
  function Put(record: seq<Field>, field: Field): seq<Field> {
    if record == [] then [field]
    else if record[0].name == field.name then [field] + record[1..]
    else [record[0]] + Put(record[1..], field)
  }

  /** `headersToRecord` */
  function RecordOf(headers: seq<Field>): seq<Field> {
    if headers == [] then [] else Put(RecordOf(headers[..|headers| - 1]), headers[|headers| - 1])
  }

  /** The record holds the last value given for a name. */
  lemma {:induction false} LastValueWins(headers: seq<Field>, i: nat)
    requires i < |headers| && forall j | i < j < |headers| :: headers[j].name != headers[i].name
    ensures headers[i] in RecordOf(headers)
    decreases |headers|
  {
    var init, last := headers[..|headers| - 1], headers[|headers| - 1];
    if i == |headers| - 1 {
      PutHolds(RecordOf(init), last);
    } else {
      LastValueWins(init, i);
      PutSpares(RecordOf(init), last, headers[i]);
    }
  }

  lemma {:induction false} PutHolds(record: seq<Field>, field: Field)
    ensures field in Put(record, field)
  {
    if record != [] && record[0].name != field.name { PutHolds(record[1..], field); }
  }

  lemma {:induction false} PutSpares(record: seq<Field>, field: Field, f: Field)
    requires f in record && f.name != field.name
    ensures f in Put(record, field)
  {
    if record[0].name == field.name {
      assert f in record[1..];
    } else if f != record[0] {
      PutSpares(record[1..], field, f);
    }
  }

  method HeadersToRecord(headers: seq<Field>) returns (record: seq<Field>)
    ensures record == RecordOf(headers)
  {
    record := [];
    for i := 0 to |headers|
      invariant record == RecordOf(headers[..i])
    {
      assert headers[..i + 1][..i] == headers[..i];
      record := Put(record, headers[i]);
    }
    assert headers[..|headers|] == headers;
  }

  function Entries(record: seq<Field>): seq<Entry> {
    if record == [] then [] else [Entry(record[0].name, Some(record[0].value))] + Entries(record[1..])
  }

  /** What re-encoding passes to the encoder. */
  function Again(head: Head, body: Bytes): Outgoing {
    Outgoing(head.start, Entries(RecordOf(head.headers)), body, false)
  }

  function Reencoded(head: Head, body: Bytes): Parse<Bytes> { Encode(Again(head, body)) }

  predicate DistinctNames(fields: seq<Field>) {
    forall i, j | 0 <= i < j < |fields| :: fields[i].name != fields[j].name
  }

  lemma {:induction false} PutKeeps(record: seq<Field>, field: Field)
    requires DistinctNames(record)
    ensures DistinctNames(Put(record, field)) && field in Put(record, field)
    ensures forall f | f in Put(record, field) :: f in record || f == field
  {
    if record != [] && record[0].name != field.name {
      PutKeeps(record[1..], field);
      var rest := Put(record[1..], field);
      forall j | 0 <= j < |rest| ensures record[0].name != rest[j].name { assert rest[j] in rest; }
    }
  }

  /** Putting a field loses no name. */
  lemma {:induction false} PutKeepsName(record: seq<Field>, field: Field, f: Field)
    requires f in record
    ensures exists g :: g in Put(record, field) && g.name == f.name
  {
    var put := Put(record, field);
    if record[0].name == field.name {
      if f == record[0] { assert put[0] == field; } else { assert f in record[1..] && f in put; }
    } else if f == record[0] {
      assert put[0] == f;
    } else {
      PutKeepsName(record[1..], field, f);
      var g :| g in Put(record[1..], field) && g.name == f.name;
      assert g in put;
    }
  }

  lemma {:induction false} RecordSound(headers: seq<Field>)
    ensures DistinctNames(RecordOf(headers))
    ensures forall f | f in RecordOf(headers) :: f in headers
    ensures forall f | f in headers :: exists g :: g in RecordOf(headers) && g.name == f.name
    decreases |headers|
  {
    if headers != [] {
      var init, last := headers[..|headers| - 1], headers[|headers| - 1];
      RecordSound(init);
      PutKeeps(RecordOf(init), last);
      forall f | f in headers ensures exists g :: g in RecordOf(headers) && g.name == f.name {
        if f != last {
          assert f in init;
          var g :| g in RecordOf(init) && g.name == f.name;
          PutKeepsName(RecordOf(init), last, g);
        }
      }
    }
  }

  lemma {:induction false} PutNew(record: seq<Field>, field: Field)
    requires forall i | 0 <= i < |record| :: record[i].name != field.name
    ensures Put(record, field) == record + [field]
  {
    if record != [] { PutNew(record[1..], field); }
  }

  /** Distinct names: the record is the list. */
  lemma {:induction false} RecordOfDistinct(headers: seq<Field>)
    requires DistinctNames(headers)
    ensures RecordOf(headers) == headers
    decreases |headers|
  {
    if headers != [] {
      var init := headers[..|headers| - 1];
      RecordOfDistinct(init);
      PutNew(init, headers[|headers| - 1]);
    }
  }

  // ---------------------------------------------------------------- encoding a record again

  function WithoutLength(fields: seq<Field>): seq<Field> {
    if fields == [] then []
    else (if Lower(fields[0].name) == CONTENT_LENGTH then [] else [fields[0]]) + WithoutLength(fields[1..])
  }

  predicate CanonicalNames(fields: seq<Field>) {
    forall i | 0 <= i < |fields| :: CanonicalName(fields[i].name) == fields[i].name
  }

  lemma {:induction false} CallerFieldsOfRecord(record: seq<Field>)
    requires ValidFields(record)
    ensures CallerFields(Entries(record)).Ok?
    ensures CanonicalNames(record) ==> CallerFields(Entries(record)).value == WithoutLength(record)
    decreases |record|
  {
    if record != [] {
      assert ValidField(record[0]);
      CanonicalTail(record);
      CallerFieldsOfRecord(record[1..]);
      FirstOfRecord(record[0], Entries(record[1..]));
    }
  }

  lemma CanonicalTail(record: seq<Field>)
    requires record != []
    ensures CanonicalNames(record) ==> CanonicalNames(record[1..])
  {
    forall i | 0 <= i < |record[1..]| ensures record[1..][i] == record[i + 1] {}
  }

  /** A valid field in front of an encodable record. */
  lemma FirstOfRecord(field: Field, rest: seq<Entry>)
    requires ValidField(field) && CallerFields(rest).Ok?
    ensures var all := CallerFields([Entry(field.name, Some(field.value))] + rest);
            && all.Ok?
            && (CanonicalName(field.name) == field.name ==>
                  all.value == (if Lower(field.name) == CONTENT_LENGTH then [] else [field]) + CallerFields(rest).value)
  {
    CanonicalKeepsField(field.name);
    assert ([Entry(field.name, Some(field.value))] + rest)[1..] == rest;
  }

  lemma {:induction false} HasContentTypeOfRecord(record: seq<Field>)
    ensures HasContentType(Entries(record)) <==> exists f :: f in record && Lower(f.name) == CONTENT_TYPE
    ensures |Entries(record)| == |record|
    ensures forall i | 0 <= i < |record| :: Entries(record)[i] == Entry(record[i].name, Some(record[i].value))
    decreases |record|
  {
    if record != [] {
      HasContentTypeOfRecord(record[1..]);
      forall i | 0 <= i < |record| ensures Entries(record)[i] == Entry(record[i].name, Some(record[i].value)) {
        if i > 0 { assert record[i] == record[1..][i - 1]; }
      }
      if exists f :: f in record && Lower(f.name) == CONTENT_TYPE {
        var f :| f in record && Lower(f.name) == CONTENT_TYPE;
        var i :| 0 <= i < |record| && record[i] == f;
        assert Lower(Entries(record)[i].name) == CONTENT_TYPE;
      }
    }
  }

  /** Re-encoding a message the decoder produced never fails. */
  lemma ReencodingNeverFails(limits: Limits, kind: Kind, block: Bytes, body: Bytes)
    requires ParseBlock(limits, kind, block).Ok?
    ensures Reencoded(ParseBlock(limits, kind, block).value, body).Ok?
  {
    ParsedIsEncodable(limits, kind, block);
    RecordValid(ParseBlock(limits, kind, block).value.headers);
  }

  lemma RecordValid(headers: seq<Field>)
    requires ValidFields(headers)
    ensures ValidFields(RecordOf(headers)) && CallerFields(Entries(RecordOf(headers))).Ok?
  {
    RecordSound(headers);
    forall i | 0 <= i < |RecordOf(headers)| ensures ValidField(RecordOf(headers)[i]) {
      var f := RecordOf(headers)[i];
      assert f in headers;
    }
    CallerFieldsOfRecord(RecordOf(headers));
  }

  // ---------------------------------------------------------------- when the bytes come back

  predicate HasMedia(fields: seq<Field>) { exists i | 0 <= i < |fields| :: Lower(fields[i].name) == CONTENT_TYPE }

  predicate AllTight(fields: seq<Field>) { forall i | 0 <= i < |fields| :: Trim(fields[i].value) == fields[i].value }

  /** No name twice, no value with outer spaces, and a media type whenever there is a body. */
  predicate Normal(fields: seq<Field>, body: Bytes) {
    DistinctNames(fields) && AllTight(fields) && (body != [] ==> HasMedia(fields))
  }

  lemma {:induction false} TightIsTrimmed(fields: seq<Field>)
    ensures |AllTrimmed(fields)| == |fields|
    ensures forall i | 0 <= i < |fields| :: AllTrimmed(fields)[i] == Trimmed(fields[i])
    ensures AllTight(fields) ==> AllTrimmed(fields) == fields
  {
    if fields != [] {
      TightIsTrimmed(fields[1..]);
      forall i | 0 <= i < |fields| ensures AllTrimmed(fields)[i] == Trimmed(fields[i]) {
        if i > 0 { assert fields[i] == fields[1..][i - 1]; }
      }
    }
  }

  /** The names an encodable message is written with are canonical; a length comes from the encoder, last. */
  lemma {:induction false} CallerFieldsCanonical(entries: seq<Entry>)
    requires CallerFields(entries).Ok?
    ensures CanonicalNames(CallerFields(entries).value)
    ensures WithoutLength(CallerFields(entries).value) == CallerFields(entries).value
  {
    if entries != [] {
      if entries[0].value != None { assert CallerFields(entries[1..]).Ok?; }
      CallerFieldsCanonical(entries[1..]);
      CanonicalIdempotent(entries[0].name);
    }
  }

  lemma {:induction false} WithoutLengthAppend(a: seq<Field>, b: seq<Field>)
    ensures WithoutLength(a + b) == WithoutLength(a) + WithoutLength(b)
  {
    if a == [] {
      assert a + b == b;
    } else {
      assert (a + b)[1..] == a[1..] + b;
      WithoutLengthAppend(a[1..], b);
    }
  }

  lemma {:induction false} WithoutLengthPart(fields: seq<Field>)
    requires DistinctNames(fields)
    ensures DistinctNames(WithoutLength(fields))
    ensures forall f :: f in WithoutLength(fields) <==> f in fields && Lower(f.name) != CONTENT_LENGTH
  {
    if fields != [] {
      WithoutLengthPart(fields[1..]);
      var rest := WithoutLength(fields[1..]);
      forall j | 0 <= j < |rest| ensures rest[j].name != fields[0].name { assert rest[j] in rest; }
    }
  }

  lemma AddedCanonical()
    ensures CanonicalName("Content-Type") == "Content-Type" && CanonicalName("Content-Length") == "Content-Length"
    ensures Lower("Content-Type") == CONTENT_TYPE && Lower("Content-Length") == CONTENT_LENGTH
  {
    FramingSpelling();
  }

  /** The fields of an encodable message, seen from the end: a length exactly when there is a body. */
  lemma WrittenCanonical(m: Outgoing)
    requires Fields(m).Ok?
    ensures var fields := Fields(m).value;
            && ValidFields(fields) && CanonicalNames(fields)
            && fields == WithoutLength(fields) + LengthField(m.body)
  {
    var caller, added := CallerFields(m.headers).value, AddedFields(m);
    CallerFieldsValid(m.headers);
    CallerFieldsCanonical(m.headers);
    AddedFieldsValid(m);
    AddedCanonical();
    WithoutLengthAppend(caller, added);
    AddedShape(m);
    assert Fields(m).value == caller + added;
    assert caller + (WithoutLength(added) + LengthField(m.body)) == caller + WithoutLength(added) + LengthField(m.body);
  }

  function LengthField(body: Bytes): seq<Field> {
    if body == [] then [] else [Field("Content-Length", Decimal(|body|))]
  }

  lemma AddedShape(m: Outgoing)
    ensures AddedFields(m) == WithoutLength(AddedFields(m)) + LengthField(m.body)
    ensures CanonicalNames(AddedFields(m))
  {
    AddedCanonical();
    if m.body != [] {
      var media := Field("Content-Type", if m.json then JSON_TYPE else TEXT_TYPE);
      var length := LengthField(m.body);
      assert WithoutLength(length) == [];
      WithoutLengthAppend([media], length);
      assert WithoutLength([media]) == [media];
    }
  }

  /** The fields of the message encoded again. */
  lemma AgainFields(m: Outgoing, body: Bytes)
    requires Fields(m).Ok?
    ensures var fields := Fields(m).value;
            var record, again := RecordOf(AllTrimmed(fields)), Again(Reported(m).head, body);
            && ValidFields(record) && CanonicalNames(record) && DistinctNames(record)
            && Fields(again) == Ok(WithoutLength(record) + AddedFields(again))
  {
    var fields := Fields(m).value;
    var trimmed := AllTrimmed(fields);
    WrittenCanonical(m);
    TightIsTrimmed(fields);
    forall i | 0 <= i < |trimmed| ensures ValidField(trimmed[i]) && CanonicalName(trimmed[i].name) == trimmed[i].name {
      assert ValidField(fields[i]);
      TrimSound(fields[i].value);
    }
    RecordValid(trimmed);
    RecordSound(trimmed);
    var record := RecordOf(trimmed);
    forall i | 0 <= i < |record| ensures CanonicalName(record[i].name) == record[i].name {
      assert record[i] in trimmed;
    }
    CallerFieldsOfRecord(record);
  }

  /** A normal message comes back field by field. */
  lemma NormalReturns(m: Outgoing)
    requires Fields(m).Ok? && Normal(Fields(m).value, m.body)
    ensures Fields(Again(Reported(m).head, m.body)) == Fields(m)
  {
    var fields := Fields(m).value;
    NormalRecord(fields, m.body);
    AgainFields(m, m.body);
    WrittenCanonical(m);
    OnlyLengthAdded(Again(Reported(m).head, m.body));
  }

  lemma NormalRecord(fields: seq<Field>, body: Bytes)
    requires Normal(fields, body)
    ensures RecordOf(AllTrimmed(fields)) == fields
    ensures body != [] ==> HasContentType(Entries(fields))
  {
    TightIsTrimmed(fields);
    RecordOfDistinct(fields);
    if body != [] { MediaInEntries(fields); }
  }

  lemma OnlyLengthAdded(m: Outgoing)
    requires m.body != [] ==> HasContentType(m.headers)
    ensures AddedFields(m) == LengthField(m.body)
  {}

  lemma MediaInEntries(fields: seq<Field>)
    requires HasMedia(fields)
    ensures HasContentType(Entries(fields))
  {
    HasContentTypeOfRecord(fields);
    var i :| 0 <= i < |fields| && Lower(fields[i].name) == CONTENT_TYPE;
    assert fields[i] in fields;
  }

  lemma TightValues(m: Outgoing, f: Field)
    requires Fields(m).Ok?
    requires f in RecordOf(AllTrimmed(Fields(m).value))
    ensures Trim(f.value) == f.value
  {
    var fields := Fields(m).value;
    RecordSound(AllTrimmed(fields));
    TightIsTrimmed(fields);
    var i :| 0 <= i < |AllTrimmed(fields)| && AllTrimmed(fields)[i] == f;
    TrimSound(fields[i].value);
  }

  /** Encoding again always gives a normal message, so doing it twice changes nothing more. */
  lemma AgainIsNormal(m: Outgoing, body: Bytes)
    requires Fields(m).Ok?
    ensures Fields(Again(Reported(m).head, body)).Ok?
    ensures Normal(Fields(Again(Reported(m).head, body)).value, body)
  {
    var record, again := RecordOf(AllTrimmed(Fields(m).value)), Again(Reported(m).head, body);
    AgainFields(m, body);
    WithoutLengthPart(record);
    HasContentTypeOfRecord(record);
    AddedCanonical();
    var kept, added := WithoutLength(record), AddedFields(again);
    forall i | 0 <= i < |kept| ensures Trim(kept[i].value) == kept[i].value && Lower(kept[i].name) != CONTENT_LENGTH {
      assert kept[i] in kept;
      TightValues(m, kept[i]);
    }
    AddedNormal(again);
    NamesApart(kept, added, HasContentType(again.headers));
    if body != [] { MediaPresent(record, kept, added, again); }
  }

  lemma AddedNormal(m: Outgoing)
    ensures AllTight(AddedFields(m)) && DistinctNames(AddedFields(m))
    ensures forall f | f in AddedFields(m) ::
              f.name == "Content-Length" || (f.name == "Content-Type" && !HasContentType(m.headers))
    ensures m.body != [] && !HasContentType(m.headers) ==>
              |AddedFields(m)| == 2 && AddedFields(m)[0].name == "Content-Type"
  {
    AddedTight(m);
    assert "Content-Type" != "Content-Length";
  }

  lemma AddedTight(m: Outgoing)
    ensures AllTight(AddedFields(m))
  {
    var digits := Decimal(|m.body|);
    assert IsDigit(digits[0]) && IsDigit(digits[|digits| - 1]);
    TrimTight(digits);
    TrimTight(JSON_TYPE);
    TrimTight(TEXT_TYPE);
  }

  lemma NamesApart(kept: seq<Field>, added: seq<Field>, media: bool)
    requires DistinctNames(kept) && DistinctNames(added)
    requires forall i | 0 <= i < |kept| :: Lower(kept[i].name) != CONTENT_LENGTH
    requires !media ==> forall f | f in kept :: Lower(f.name) != CONTENT_TYPE
    requires forall f | f in added :: f.name == "Content-Length" || (f.name == "Content-Type" && !media)
    ensures DistinctNames(kept + added)
  {
    AddedCanonical();
    forall i, j | 0 <= i < |kept| && 0 <= j < |added| ensures kept[i].name != added[j].name {
      assert kept[i] in kept && added[j] in added;
    }
  }

  lemma MediaPresent(record: seq<Field>, kept: seq<Field>, added: seq<Field>, again: Outgoing)
    requires again.body != [] && added == AddedFields(again) && kept == WithoutLength(record) && DistinctNames(record)
    requires HasContentType(again.headers) <==> exists f :: f in record && Lower(f.name) == CONTENT_TYPE
    ensures HasMedia(kept + added)
  {
    AddedNormal(again);
    AddedCanonical();
    if HasContentType(again.headers) {
      var f :| f in record && Lower(f.name) == CONTENT_TYPE;
      WithoutLengthPart(record);
      assert CONTENT_TYPE != CONTENT_LENGTH;
      assert f in kept;
      var i :| 0 <= i < |kept| && kept[i] == f;
      assert (kept + added)[i] == f;
    } else {
      assert (kept + added)[|kept|] == added[0];
    }
  }

  // ---------------------------------------------------------------- encodings determine fields

  lemma {:induction false} LinesInjective(a: seq<Field>, b: seq<Field>)
    requires ValidFields(a) && ValidFields(b) && Lines(a) == Lines(b)
    ensures a == b
    decreases |a|
  {
    if a != [] {
      assert ValidField(a[0]) && ValidField(b[0]);
      assert Line(a[0]) == Lines(a)[0] == Lines(b)[0] == Line(b[0]);
      LineInjective(a[0], b[0]);
      assert Lines(a)[1..] == Lines(a[1..]) && Lines(b)[1..] == Lines(b[1..]);
      LinesInjective(a[1..], b[1..]);
    }
  }

  lemma LineInjective(a: Field, b: Field)
    requires ValidField(a) && ValidField(b) && Line(a) == Line(b)
    ensures a == b
  {
    WrittenFieldSplits(a);
    WrittenFieldSplits(b);
    assert ([' '] + a.value)[1..] == a.value && ([' '] + b.value)[1..] == b.value;
  }

  lemma StartInjective(a: StartLine, b: StartLine)
    requires CheckStart(a) == None && CheckStart(b) == None && StartLineText(a) == StartLineText(b)
    ensures a == b
  {
    ParseWrittenStart(Either, a);
    ParseWrittenStart(Either, b);
  }

  /** An encoding determines the start line, every written field and the body. */
  lemma EncodeInjective(a: Outgoing, b: Outgoing)
    requires Fields(a).Ok? && Fields(b).Ok?
    ensures Encode(a) == Encode(b) <==> a.start == b.start && Fields(a) == Fields(b) && a.body == b.body
  {
    if Encode(a) == Encode(b) {
      WrittenLayout(a);
      WrittenLayout(b);
      var la := [StartLineText(a.start)] + Lines(Fields(a).value);
      var lb := [StartLineText(b.start)] + Lines(Fields(b).value);
      WrittenLines(a);
      WrittenLines(b);
      SplitJoin(la);
      SplitJoin(lb);
      assert la[0] == lb[0];
      StartInjective(a.start, b.start);
      assert la[1..] == Lines(Fields(a).value) && lb[1..] == Lines(Fields(b).value);
      LinesInjective(Fields(a).value, Fields(b).value);
    }
  }

  // ---------------------------------------------------------------- the body as text

  /**
   The body of a decoded message is text. `text` is what decoding octets as UTF-8 and encoding the
   text again makes of them: octets that are not UTF-8 come back as replacement characters.
   */
  function TextAgain(text: Bytes -> Bytes, m: Outgoing): Outgoing
    requires Fields(m).Ok?
  {
    Again(Reported(m).head, text(m.body))
  }

  /**
   Decoding an encoding and encoding it again gives the same octets exactly when no field name was
   written twice, no value had outer spaces, a body came with a media type, and the body is
   unchanged by being read as text.
   */
  lemma ReencodingIff(text: Bytes -> Bytes, m: Outgoing)
    requires Fields(m).Ok?
    ensures Reencoded(Reported(m).head, text(m.body)) == Encode(m)
            <==> Normal(Fields(m).value, m.body) && text(m.body) == m.body
  {
    AgainIsNormal(m, text(m.body));
    EncodeInjective(TextAgain(text, m), m);
    if Normal(Fields(m).value, m.body) { NormalReturns(m); }
  }

  /** So re-encoding twice is re-encoding once, once reading as text settles. */
  lemma ReencodingStabilises(text: Bytes -> Bytes, m: Outgoing)
    requires Fields(m).Ok?
    requires text(text(m.body)) == text(m.body)
    ensures var again := TextAgain(text, m);
            Fields(again).Ok? && Reencoded(Reported(again).head, text(again.body)) == Encode(again)
  {
    AgainIsNormal(m, text(m.body));
    ReencodingIff(text, TextAgain(text, m));
  }
}
