/** How a Request-ID gets into a message: assigned to a header record, then written by the encoder. */
module RequestIds {
  import opened Octets
  import opened Reasons
  import opened Headers
  import opened HeaderParser
  import opened Framing
  import opened Encoder
  import opened Decoder
  import opened RoundTrip
  import opened Reencode

  /** `record[name] = value` in an object literal: a known name keeps its place. */
  function Assign(record: seq<Entry>, name: Bytes, value: Option<Bytes>): seq<Entry> {
    if record == [] then [Entry(name, value)]
    else if record[0].name == name then [Entry(name, value)] + record[1..]
    else [record[0]] + Assign(record[1..], name, value)
  }

  /** A record has each key once. */
  predicate DistinctKeys(record: seq<Entry>) {
    forall i, j | 0 <= i < j < |record| :: record[i].name != record[j].name
  }

  /** All values of Request-ID fields, in order. */
  function IdValues(fields: seq<Field>): seq<Bytes> {
    if fields == [] then []
    else (if Lower(fields[0].name) == REQUEST_ID then [fields[0].value] else []) + IdValues(fields[1..])
  }

  /** The same for the record handed to the encoder. */
  function IdEntries(record: seq<Entry>): seq<Bytes> {
    if record == [] then []
    else
      (if Lower(record[0].name) == REQUEST_ID && record[0].value.Some? then [record[0].value.value] else [])
      + IdEntries(record[1..])
  }

  function Just(id: Option<Bytes>): seq<Bytes> { if id.Some? then [id.value] else [] }

  predicate OtherwiseSpelled(entry: Entry) {
    Lower(entry.name) == REQUEST_ID && entry.name != "Request-ID" && entry.value.Some?
  }

  /** An entry that names Request-ID in other letters, so that assigning the id does not replace it. */
  predicate OtherSpelling(record: seq<Entry>) { exists i | 0 <= i < |record| :: OtherwiseSpelled(record[i]) }

  // ---------------------------------------------------------------- from record to message

  lemma {:induction false} IdsWritten(entries: seq<Entry>)
    requires CallerFields(entries).Ok?
    ensures IdValues(CallerFields(entries).value) == IdEntries(entries)
    decreases |entries|
  {
    if entries != [] {
      IdsWritten(entries[1..]);
      CanonicalKeepsField(entries[0].name);
    }
  }

  lemma {:induction false} IdValuesAppend(a: seq<Field>, b: seq<Field>)
    ensures IdValues(a + b) == IdValues(a) + IdValues(b)
  {
    if a == [] {
      assert a + b == b;
    } else {
      assert (a + b)[1..] == a[1..] + b;
      IdValuesAppend(a[1..], b);
    }
  }

  lemma AddedHaveNoId(m: Outgoing)
    ensures IdValues(AddedFields(m)) == []
  {
    AddedCanonical();
    assert CONTENT_TYPE != REQUEST_ID && CONTENT_LENGTH != REQUEST_ID;
    if m.body != [] {
      var length := AddedFields(m)[|AddedFields(m)| - 1];
      assert length.name == "Content-Length" && [length][1..] == [];
      assert IdValues([length]) == [];
      if HasContentType(m.headers) {
        assert AddedFields(m) == [length];
      } else {
        assert AddedFields(m)[0].name == "Content-Type" && AddedFields(m)[1..] == [length];
      }
    }
  }

  /** An encodable message is written with the Request-ID values of its record. */
  lemma IdsOfMessage(m: Outgoing)
    requires Fields(m).Ok?
    ensures IdValues(Fields(m).value) == IdEntries(m.headers)
  {
    IdsWritten(m.headers);
    IdValuesAppend(CallerFields(m.headers).value, AddedFields(m));
    AddedHaveNoId(m);
  }

  // ---------------------------------------------------------------- assigning the id

  lemma {:induction false} AssignElsewhere(record: seq<Entry>, name: Bytes, value: Option<Bytes>)
    requires Lower(name) != REQUEST_ID
    ensures IdEntries(Assign(record, name, value)) == IdEntries(record)
  {
    if record != [] && record[0].name != name { AssignElsewhere(record[1..], name, value); }
  }

  /** Assigning the id leaves just it, unless another entry spells the name otherwise. */
  lemma {:induction false} AssignOwn(record: seq<Entry>, id: Option<Bytes>)
    requires DistinctKeys(record)
    ensures var ids := IdEntries(Assign(record, "Request-ID", id));
            if OtherSpelling(record) then |ids| > |Just(id)| else ids == Just(id)
  {
    FramingSpelling();
    if record != [] {
      OtherSpellingStep(record);
      if record[0].name == "Request-ID" {
        OtherIds(record[1..]);
      } else {
        AssignOwn(record[1..], id);
      }
    }
  }

  lemma OtherSpellingStep(record: seq<Entry>)
    requires record != []
    ensures OtherSpelling(record) <==> OtherwiseSpelled(record[0]) || OtherSpelling(record[1..])
  {
    if OtherSpelling(record[1..]) {
      var i :| 0 <= i < |record[1..]| && OtherwiseSpelled(record[1..][i]);
      assert record[i + 1] == record[1..][i];
    }
  }

  /** Without the registered spelling, Request-ID values come from other spellings. */
  lemma {:induction false} OtherIds(record: seq<Entry>)
    requires forall i | 0 <= i < |record| :: record[i].name != "Request-ID"
    ensures OtherSpelling(record) <==> IdEntries(record) != []
  {
    if record != [] {
      OtherSpellingStep(record);
      OtherIds(record[1..]);
    }
  }

  // ---------------------------------------------------------------- what a decoder makes of it

  /** At most one field named Request-ID, and none if it was seen before. */
  lemma {:induction false} SingleId(fields: seq<Field>, seen: set<Bytes>)
    requires SinglesOnce(fields, seen)
    ensures |IdValues(fields)| <= if REQUEST_ID in seen then 0 else 1
  {
    if fields != [] { SingleId(fields[1..], seen + {Lower(fields[0].name)}); }
  }

  /** A message with two ids is refused by every decoder. */
  lemma TwoIdsRefused(limits: Limits, kind: Kind, m: Outgoing)
    requires Fields(m).Ok? && |IdEntries(m.headers)| >= 2
    ensures var d := Decode(SltpFramer(limits, kind), Encode(m).value); d.messages == [] && d.standing.Stopped?
  {
    IdsOfMessage(m);
    if SinglesOnce(Fields(m).value, {}) { SingleId(Fields(m).value, {}); }
    LookWritten(limits, kind, m);
  }

  /** The id read is the first one written, without outer spaces. */
  lemma {:induction false} FirstId(fields: seq<Field>)
    ensures GetHeader(AllTrimmed(fields), REQUEST_ID)
            == if IdValues(fields) == [] then None else Some(Trim(IdValues(fields)[0]))
  {
    FramingSpelling();
    assert Lower(REQUEST_ID) == REQUEST_ID by { LowerIdempotent("Request-ID"); }
    if fields != [] {
      assert AllTrimmed(fields)[1..] == AllTrimmed(fields[1..]);
      FirstId(fields[1..]);
    }
  }
}
