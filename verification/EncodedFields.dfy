/** Which fields the encoder writes for a header record, and what a decoder reads of them. */
module EncodedFields {
  import opened Octets
  import opened Reasons
  import opened Headers
  import opened HeaderParser
  import opened Framing
  import opened Encoder
  import opened Decoder
  import opened RoundTrip
  import opened Reencode
  import opened RequestIds

  predicate ValidEntry(entry: Entry) {
    entry.value.Some? ==> ValidName(entry.name) && ValidValue(entry.value.value)
  }

  // ---------------------------------------------------------------- records

  /** A record can be encoded exactly when each entry with a value is valid. */
  lemma {:induction false} EncodableIff(record: seq<Entry>)
    ensures CallerFields(record).Ok? <==> forall i | 0 <= i < |record| :: ValidEntry(record[i])
    decreases |record|
  {
    if record != [] {
      EncodableIff(record[1..]);
      FirstEncodable(record);
      ValidTail(record);
    }
  }

  lemma FirstEncodable(record: seq<Entry>)
    requires record != []
    ensures CallerFields(record).Ok? <==> ValidEntry(record[0]) && CallerFields(record[1..]).Ok?
  {
    CanonicalKeepsField(record[0].name);
  }

  lemma ValidTail(record: seq<Entry>)
    requires record != []
    ensures (forall i | 0 <= i < |record| :: ValidEntry(record[i]))
            <==> ValidEntry(record[0]) && forall i | 0 <= i < |record[1..]| :: ValidEntry(record[1..][i])
  {
    assert forall i | 0 <= i < |record[1..]| :: record[1..][i] == record[i + 1];
    if ValidEntry(record[0]) && forall i | 0 <= i < |record[1..]| :: ValidEntry(record[1..][i]) {
      forall i | 0 <= i < |record| ensures ValidEntry(record[i]) {
        if i > 0 { assert record[i] == record[1..][i - 1]; }
      }
    }
  }

  /** The first invalid entry decides, its name before its value. */
  lemma {:induction false} FirstFault(record: seq<Entry>) returns (at: nat)
    requires CallerFields(record).Err?
    ensures at < |record| && !ValidEntry(record[at]) && forall i | 0 <= i < at :: ValidEntry(record[i])
    ensures CallerFields(record)
            == Err(if ValidName(record[at].name) then InvalidHeaderValue else InvalidHeaderName)
    decreases |record|
  {
    CanonicalKeepsField(record[0].name);
    if !ValidEntry(record[0]) { return 0; }
    var rest := FirstFault(record[1..]);
    forall i | 0 <= i <= rest ensures ValidEntry(record[i]) {
      if i > 0 { assert record[i] == record[1..][i - 1]; }
    }
    return rest + 1;
  }

  /** An invalid start is reported before any header: the operation, the code, then the phrase. */
  lemma StartFault(m: Outgoing)
    ensures m.start.RequestLine? ==> (Encode(m) == Err(InvalidOperationToken) <==> !ValidOperation(m.start.operation))
    ensures m.start.StatusLine? ==>
              && (Encode(m) == Err(InvalidStatusCode) <==> !(100 <= m.start.code <= 599))
              && (Encode(m) == Err(InvalidStatusPhrase) <==> 100 <= m.start.code <= 599 && !ValidPhrase(m.start.phrase))
  {
    if CallerFields(m.headers).Err? { var at := FirstFault(m.headers); }
  }

  /** What one entry is written as: nothing without a value or as a length, else its canonical field. */
  lemma OneEntry(entry: Entry)
    requires ValidEntry(entry)
    ensures CallerFields([entry]) ==
            Ok(if entry.value == None || Lower(entry.name) == CONTENT_LENGTH then []
               else [Field(CanonicalName(entry.name), entry.value.value)])
  {
    CanonicalKeepsField(entry.name);
    assert [entry][1..] == [] && CallerFields([]) == Ok([]);
    if entry.value.Some? {
      var f := Field(CanonicalName(entry.name), entry.value.value);
      assert [f] + [] == [f];
    }
  }

  /** Entries are written one after the other. */
  lemma {:induction false} RecordsAppend(a: seq<Entry>, b: seq<Entry>)
    requires CallerFields(a).Ok? && CallerFields(b).Ok?
    ensures CallerFields(a + b) == Ok(CallerFields(a).value + CallerFields(b).value)
    decreases |a|
  {
    if a == [] {
      assert a + b == b && CallerFields(a).value + CallerFields(b).value == CallerFields(b).value;
    } else {
      assert (a + b)[1..] == a[1..] + b;
      assert CallerFields(a[1..]).Ok?;
      RecordsAppend(a[1..], b);
      var f := Field(CanonicalName(a[0].name), if a[0].value.Some? then a[0].value.value else []);
      var x, y := CallerFields(a[1..]).value, CallerFields(b).value;
      assert [f] + (x + y) == ([f] + x) + y;
    }
  }

  /** Every entry with a value is written, but for a length. */
  lemma EntryWritten(m: Outgoing, i: nat)
    requires Fields(m).Ok? && i < |m.headers| && m.headers[i].value.Some?
    requires Lower(m.headers[i].name) != CONTENT_LENGTH
    ensures Field(CanonicalName(m.headers[i].name), m.headers[i].value.value) in Fields(m).value
  {
    var a, entry, b := m.headers[..i], m.headers[i], m.headers[i + 1..];
    assert m.headers == a + ([entry] + b);
    EncodableIff(m.headers);
    EncodableIff(a);
    EncodableIff(b);
    EncodableIff([entry] + b);
    EncodableIff([entry]);
    OneEntry(entry);
    RecordsAppend([entry], b);
    RecordsAppend(a, [entry] + b);
    assert CallerFields([entry]).value[0] in CallerFields(m.headers).value;
  }

  lemma {:induction false} Reads(fields: seq<Field>, f: Field)
    requires f in fields
    ensures Trimmed(f) in AllTrimmed(fields)
  {
    if f != fields[0] {
      Reads(fields[1..], f);
    }
  }

  /** Nothing else is written: each of the caller's fields comes from an entry. */
  lemma {:induction false} FieldFromEntry(record: seq<Entry>, f: Field)
    requires CallerFields(record).Ok? && f in CallerFields(record).value
    ensures exists entry :: && entry in record && entry.value == Some(f.value) && CanonicalName(entry.name) == f.name
                            && Lower(entry.name) != CONTENT_LENGTH
    decreases |record|
  {
    var entry := record[0];
    CanonicalKeepsField(entry.name);
    assert CallerFields(record[1..]).Ok?;
    if f in CallerFields(record[1..]).value {
      FieldFromEntry(record[1..], f);
      var e :| && e in record[1..] && e.value == Some(f.value) && CanonicalName(e.name) == f.name
               && Lower(e.name) != CONTENT_LENGTH;
      assert e in record;
    } else {
      assert entry in record;
    }
  }

  lemma {:induction false} ReadFrom(fields: seq<Field>, g: Field)
    requires g in AllTrimmed(fields)
    ensures exists f :: f in fields && g == Trimmed(f)
  {
    if g == Trimmed(fields[0]) {
      assert fields[0] in fields;
    } else {
      assert AllTrimmed(fields)[1..] == AllTrimmed(fields[1..]);
      ReadFrom(fields[1..], g);
      var f :| f in fields[1..] && g == Trimmed(f);
      assert f in fields;
    }
  }

  /** Each entry with a value is read under its name. */
  lemma EntryIsRead(m: Outgoing, i: nat)
    requires Fields(m).Ok? && i < |m.headers| && m.headers[i].value.Some?
    requires Lower(m.headers[i].name) != CONTENT_LENGTH
    ensures exists f :: f in Reported(m).head.headers && Lower(f.name) == Lower(m.headers[i].name)
  {
    var f := Field(CanonicalName(m.headers[i].name), m.headers[i].value.value);
    EntryWritten(m, i);
    Reads(Fields(m).value, f);
    CanonicalKeepsField(m.headers[i].name);
    assert Trimmed(f) in Reported(m).head.headers;
  }

  lemma AddedNames(m: Outgoing, f: Field)
    requires f in AddedFields(m)
    ensures Lower(f.name) == CONTENT_TYPE || Lower(f.name) == CONTENT_LENGTH
  {
    AddedNormal(m);
    AddedCanonical();
  }

  /** What a decoder reads under a name comes from an entry of that name, but for the media type and length. */
  lemma NothingElseRead(m: Outgoing, g: Field)
    requires Fields(m).Ok? && g in Reported(m).head.headers
    requires Lower(g.name) != CONTENT_TYPE && Lower(g.name) != CONTENT_LENGTH
    ensures exists entry :: entry in m.headers && entry.value.Some? && Lower(entry.name) == Lower(g.name)
                            && Trim(entry.value.value) == g.value
  {
    ReadFrom(Fields(m).value, g);
    var f :| f in Fields(m).value && g == Trimmed(f);
    if f in AddedFields(m) { AddedNames(m, f); }
    assert f in CallerFields(m.headers).value;
    FieldFromEntry(m.headers, f);
    var entry :| entry in m.headers && entry.value == Some(f.value) && CanonicalName(entry.name) == f.name;
    CanonicalKeepsField(entry.name);
  }

  /** A decoder whose limits the message fits reads its start, its body and each of its entries. */
  lemma ReadBack(limits: Limits, kind: Kind, m: Outgoing, i: nat)
    requires Fields(m).Ok? && Fits(limits, kind, m)
    requires i < |m.headers| && m.headers[i].value.Some? && Lower(m.headers[i].name) != CONTENT_LENGTH
    ensures var d := Decode(SltpFramer(limits, kind), Encode(m).value);
            && |d.messages| == 1 && d.standing == Waiting([])
            && d.messages[0].head.start == m.start && d.messages[0].body == m.body
            && Field(CanonicalName(m.headers[i].name), Trim(m.headers[i].value.value)) in d.messages[0].head.headers
  {
    RoundTripIff(limits, kind, m);
    EntryWritten(m, i);
    Reads(Fields(m).value, Field(CanonicalName(m.headers[i].name), m.headers[i].value.value));
  }

  // ---------------------------------------------------------------- the octets

  /** Each field on a line of its own: name, colon, space, value. */
  function FieldText(fields: seq<Field>): Bytes {
    if fields == [] then [] else "\r\n" + fields[0].name + ": " + fields[0].value + FieldText(fields[1..])
  }

  function StartText(start: StartLine): Bytes {
    match start
    case RequestLine(operation) => "SLTP/1.0 " + operation
    case StatusLine(code, phrase) => "SLTP/1.0 " + Decimal(code) + " " + phrase
  }

  /** The octets of a message, written out. */
  lemma WireFormat(m: Outgoing)
    requires Fields(m).Ok?
    ensures Encode(m).value == StartText(m.start) + FieldText(Fields(m).value) + "\r\n\r\n" + m.body
  {
    StartTextIs(m.start);
    JoinedText(StartLineText(m.start), Fields(m).value);
    EndText(StartText(m.start) + FieldText(Fields(m).value), m.body);
  }

  lemma StartTextIs(start: StartLine)
    ensures StartLineText(start) == StartText(start)
  {
    if start.StatusLine? {
      assert VERSION + " " + (Decimal(start.code) + " " + start.phrase)
          == "SLTP/1.0 " + Decimal(start.code) + " " + start.phrase;
    }
  }

  lemma EndText(block: Bytes, body: Bytes)
    ensures block + CRLF + CRLF + body == block + "\r\n\r\n" + body
  {}

  lemma {:induction false} JoinedText(line: Bytes, fields: seq<Field>)
    ensures JoinLines([line] + Lines(fields)) == line + FieldText(fields)
    decreases |fields|
  {
    if fields == [] {
      assert [line] + Lines(fields) == [line] && line + [] == line;
    } else {
      var first := Line(fields[0]);
      assert ([line] + Lines(fields))[1..] == [first] + Lines(fields[1..]);
      JoinedText(first, fields[1..]);
      Regroup(line, fields[0].name, fields[0].value, FieldText(fields[1..]));
    }
  }

  lemma Regroup(line: Bytes, name: Bytes, value: Bytes, rest: Bytes)
    ensures line + CRLF + ((name + ": " + value) + rest) == line + ("\r\n" + name + ": " + value + rest)
  {}

  // ---------------------------------------------------------------- the media type

  lemma {:induction false} NoMediaWritten(record: seq<Entry>)
    requires CallerFields(record).Ok? && !HasContentType(record)
    ensures GetHeader(AllTrimmed(CallerFields(record).value), CONTENT_TYPE) == None
    decreases |record|
  {
    AddedCanonical();
    if record != [] {
      assert Lower(record[0].name) != CONTENT_TYPE;
      forall i | 0 <= i < |record[1..]| ensures Lower(record[1..][i].name) != CONTENT_TYPE {
        assert record[1..][i] == record[i + 1];
      }
      CanonicalKeepsField(record[0].name);
      if record[0].value != None { assert CallerFields(record[1..]).Ok?; }
      NoMediaWritten(record[1..]);
    }
  }

  /** A body without a media type of the caller's gets JSON or plain text, as asked; no body gets none. */
  lemma MediaType(m: Outgoing)
    requires Fields(m).Ok? && !HasContentType(m.headers)
    ensures GetHeader(AllTrimmed(Fields(m).value), CONTENT_TYPE) ==
            if m.body == [] then None else Some(if m.json then JSON_TYPE else TEXT_TYPE)
  {
    NoMediaWritten(m.headers);
    GetHeaderAppend(CallerFields(m.headers).value, AddedFields(m), CONTENT_TYPE);
    if m.body != [] { AddedMedia(m); }
  }

  lemma AddedMedia(m: Outgoing)
    requires m.body != [] && !HasContentType(m.headers)
    ensures GetHeader(AllTrimmed(AddedFields(m)), CONTENT_TYPE) == Some(if m.json then JSON_TYPE else TEXT_TYPE)
  {
    AddedCanonical();
    MediaTight();
    var media := Field("Content-Type", if m.json then JSON_TYPE else TEXT_TYPE);
    assert AddedFields(m)[0] == media;
    assert AllTrimmed(AddedFields(m))[0] == media;
    assert Lower(CONTENT_TYPE) == CONTENT_TYPE by { LowerIdempotent("Content-Type"); }
  }

  lemma MediaTight()
    ensures Trim(JSON_TYPE) == JSON_TYPE && Trim(TEXT_TYPE) == TEXT_TYPE
  {
    TrimTight(JSON_TYPE);
    TrimTight(TEXT_TYPE);
  }

  /** A message encoded again without a media type is declared plain text. */
  lemma AgainIsText(head: Head, body: Bytes)
    requires Fields(Again(head, body)).Ok? && body != [] && !HasContentType(Entries(RecordOf(head.headers)))
    ensures GetHeader(AllTrimmed(Fields(Again(head, body)).value), CONTENT_TYPE) == Some(TEXT_TYPE)
  {
    MediaType(Again(head, body));
  }

  // ---------------------------------------------------------------- assigning entries

  lemma {:induction false} AssignPuts(record: seq<Entry>, name: Bytes, value: Option<Bytes>)
    ensures Entry(name, value) in Assign(record, name, value)
  {
    if record != [] && record[0].name != name { AssignPuts(record[1..], name, value); }
  }

  lemma {:induction false} AssignKeeps(record: seq<Entry>, name: Bytes, value: Option<Bytes>, entry: Entry)
    requires entry in record && entry.name != name
    ensures entry in Assign(record, name, value)
  {
    if record[0].name == name {
      assert entry in record[1..];
    } else if entry != record[0] {
      AssignKeeps(record[1..], name, value, entry);
    }
  }
}
