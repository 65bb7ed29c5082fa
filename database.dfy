/** `save_to_db` (main.py:80-93) and the collection it writes to. The
    `messages` collection is the `records` sequence of a Store; opening and
    closing the client is not modelled. Whether the store accepts the insert
    is an input, like the clock reading.

    `save_to_db` never lets an exception out: a parse failure or a refused
    insert is logged and the submission is dropped. SaveToDb returns which of
    the three things happened, standing for what the source logs. */
module Database {
  import opened Results
  import opened FormData
  import opened Timestamp

  /** What became of one submission. */
  datatype SaveOutcome = Inserted | ParseFailed(error: ParseError) | InsertRefused

  /** The document `save_to_db` builds for a payload: the parsed fields with
      `date` set to the formatted clock reading. */
  function RecordOf(data: string, now: DateTime): (r: Result<Record, ParseError>)
    requires now.Valid()
    ensures r.Err? <==> Parse(data).Err?
    ensures r.Ok? ==> "date" in r.value && IsTimestamp(r.value["date"])
  {
    match Parse(data)
    case Err(e) => Err(e)
    case Ok(fields) =>
      Ok(fields["date" := FormatDate(now.year, now.month, now.day, now.hour, now.minute, now.second, now.microsecond)])
  }

  /** The document fails exactly when parsing does; otherwise it holds every
      parsed field and `date`, and its `date` is the clock reading, replacing
      any `date` the client sent. */
  lemma RecordOfFields(data: string, now: DateTime)
    requires now.Valid()
    ensures RecordOf(data, now).Err? <==> Parse(data).Err?
    ensures RecordOf(data, now).Err? ==> RecordOf(data, now).error == Parse(data).error
    ensures RecordOf(data, now).Ok? ==> RecordOf(data, now).value.Keys == Parse(data).value.Keys + {"date"}
    ensures RecordOf(data, now).Ok? ==> forall k :: k in Parse(data).value && k != "date" ==>
      RecordOf(data, now).value[k] == Parse(data).value[k]
    ensures RecordOf(data, now).Ok? ==> IsStored(RecordOf(data, now).value)
    ensures RecordOf(data, now).Ok? ==> ReadDate(RecordOf(data, now).value["date"]) == now
  {
    ReadFormatDate(now);
  }

  /** Saving the same payload at two clock readings gives documents with the
      same keys that differ at most in `date`. */
  lemma RecordsDifferOnlyInDate(data: string, t1: DateTime, t2: DateTime)
    requires t1.Valid() && t2.Valid() && Parse(data).Ok?
    ensures RecordOf(data, t1).Ok? && RecordOf(data, t2).Ok?
    ensures RecordOf(data, t1).value.Keys == RecordOf(data, t2).value.Keys
    ensures forall k :: k in RecordOf(data, t1).value && k != "date" ==>
      RecordOf(data, t1).value[k] == RecordOf(data, t2).value[k]
    ensures RecordOf(data, t1).value == RecordOf(data, t2).value <==> t1 == t2
  {
    RecordOfFields(data, t1);
    RecordOfFields(data, t2);
  }

  /** Every stored document carries a well-formed `date`. */
  predicate IsStored(r: Record) {
    "date" in r && IsTimestamp(r["date"])
  }

  class Store {
    /** The documents of the `messages` collection, in insertion order. */
    var records: seq<Record>

    ghost predicate Valid()
      reads this
    {
      forall i :: 0 <= i < |records| ==> IsStored(records[i])
    }

    constructor ()
      ensures Valid() && records == []
    {
      records := [];
    }

    /** One call of `save_to_db`: parse the payload, stamp it with the clock
        reading, insert it. Exactly one document is appended when the payload
        parses and the store accepts it, and nothing otherwise. */
    method SaveToDb(data: string, now: DateTime, insertAccepted: bool) returns (outcome: SaveOutcome)
      requires Valid() && now.Valid()
      modifies this
      ensures Valid()
      ensures Parse(data).Err? ==> outcome == ParseFailed(Parse(data).error)
      ensures Parse(data).Ok? ==> outcome == if insertAccepted then Inserted else InsertRefused
      ensures outcome == Inserted ==> records == old(records) + [RecordOf(data, now).value]
      ensures outcome != Inserted ==> records == old(records)
    {
      var parsed := Parse(data);
      if parsed.Err? {
        return ParseFailed(parsed.error);
      }
      var document := parsed.value;
      document := document["date" := FormatDate(now.year, now.month, now.day,
                                                 now.hour, now.minute, now.second, now.microsecond)];
      if !insertAccepted {
        return InsertRefused;
      }
      RecordOfFields(data, now);
      records := records + [document];
      return Inserted;
    }
  }
}
