/**
  backblaze_drive_stats_iceberg_to_avro.py: scan five columns of the drive-stats
  table batch by batch, turn every row into an Avro record and append each
  batch's records to a freshly truncated output file.

  The scan (`static_table.scan(...).to_arrow_batch_reader()`) is a library call;
  it is a parameter `scan` here that yields the batches of rows. The Avro binary
  encoding done by `fastavro.writer` is left out: the output file is modelled by
  the schema in its header and the record lists handed to each writer call.
*/
module IcebergToAvro {
  import opened Wrappers
  import opened IsoDate
  import DriveStatsIcebergTable

  /** Avro's `long`: a signed 64-bit integer. */
  const LongMin := -0x8000_0000_0000_0000
  const LongMax := 0x7FFF_FFFF_FFFF_FFFF

  type Int64 = x: int | -0x8000_0000_0000_0000 <= x <= 0x7FFF_FFFF_FFFF_FFFF

  /** One row of the scan, with the five selected columns. `failure` is the table's 0/1 integer. */
  datatype DriveRow = DriveRow(date: CalendarDate, serialNumber: string, model: string,
                               capacityBytes: Int64, failure: int)

  /** The columns passed to `scan(selected_fields=...)`, in order. */
  const SelectedFields: seq<string> := ["date", "serial_number", "model", "capacity_bytes", "failure"]

  datatype AvroType = AvroString | AvroLong | AvroBoolean

  datatype Field = Field(name: string, fieldType: AvroType)

  datatype RecordSchema = RecordSchema(name: string, fields: seq<Field>)

  /** `backblaze_drive_stats_avro_schema` */
  const DriveStatsSchema := RecordSchema("Backblaze Drive Stats Record", [
    Field("date", AvroString),
    Field("serial_number", AvroString),
    Field("model", AvroString),
    Field("capacity_bytes", AvroLong),
    Field("failure", AvroBoolean)
  ])

  function FieldNames(fields: seq<Field>): (names: seq<string>)
    ensures |names| == |fields|
    ensures forall i :: 0 <= i < |fields| ==> names[i] == fields[i].name
  {
    if fields == [] then [] else [fields[0].name] + FieldNames(fields[1..])
  }

  /** The scan projects exactly the schema's fields, in the schema's order. */
  lemma SelectedFieldsMatchSchema()
    ensures FieldNames(DriveStatsSchema.fields) == SelectedFields
  {
  }

  /** A value as the Python dict holds it before fastavro encodes it. */
  datatype AvroValue = StringValue(s: string) | LongValue(n: int) | BooleanValue(b: bool)

  /** One `avro_queue_entry` dict. */
  type AvroEntry = map<string, AvroValue>

  predicate HasType(v: AvroValue, t: AvroType)
  {
    match t
    case AvroString => v.StringValue?
    case AvroLong => v.LongValue? && LongMin <= v.n <= LongMax
    case AvroBoolean => v.BooleanValue?
  }

  /** The entry has exactly the schema's fields, each with a value of the declared type. */
  ghost predicate Conforms(entry: AvroEntry, schema: RecordSchema)
  {
    && entry.Keys == (set f | f in schema.fields :: f.name)
    && forall f :: f in schema.fields ==> f.name in entry && HasType(entry[f.name], f.fieldType)
  }

  /** Lines 132-141: the record one scanned row becomes. */
  function AvroQueueEntry(row: DriveRow): (e: AvroEntry)
    ensures e.Keys == {"date", "serial_number", "model", "capacity_bytes", "failure"}
    ensures e["failure"] == BooleanValue(true) <==> row.failure == 1
  {
    map["date" := StringValue(IsoFormat(row.date)),
        "serial_number" := StringValue(row.serialNumber),
        "model" := StringValue(row.model),
        "capacity_bytes" := LongValue(row.capacityBytes),
        "failure" := BooleanValue(row.failure == 1)]
  }

  /**
    Field by field: the date as its ISO string, the serial number, model and
    capacity unchanged, and `failure` true exactly when the source value is 1.
  */
  lemma AvroQueueEntryFields(row: DriveRow)
    ensures var e := AvroQueueEntry(row);
      && e.Keys == {"date", "serial_number", "model", "capacity_bytes", "failure"}
      && e["date"] == StringValue(IsoFormat(row.date))
      && e["serial_number"] == StringValue(row.serialNumber)
      && e["model"] == StringValue(row.model)
      && e["capacity_bytes"] == LongValue(row.capacityBytes)
      && (e["failure"] == BooleanValue(true) <==> row.failure == 1)
      && (e["failure"] == BooleanValue(false) <==> row.failure != 1)
  {
  }

  /** Every record fits the declared schema; in particular `capacity_bytes` is a valid `long`. */
  lemma AvroQueueEntryConforms(row: DriveRow)
    ensures Conforms(AvroQueueEntry(row), DriveStatsSchema)
  {
    var fs := DriveStatsSchema.fields;
    assert fs[0] in fs && fs[1] in fs && fs[2] in fs && fs[3] in fs && fs[4] in fs;
    assert (set f | f in fs :: f.name) == {"date", "serial_number", "model", "capacity_bytes", "failure"};
    AvroQueueEntryFields(row);
  }

  /** What a reader of the Avro file recovers from one record. */
  datatype ReadBack = ReadBack(date: CalendarDate, serialNumber: string, model: string,
                               capacityBytes: int, failed: bool)

  /** Reads one record back, failing on a missing field, a wrong type or a malformed date. */
  function DecodeEntry(e: AvroEntry): (r: Option<ReadBack>)
  {
    if && "date" in e && e["date"].StringValue?
       && "serial_number" in e && e["serial_number"].StringValue?
       && "model" in e && e["model"].StringValue?
       && "capacity_bytes" in e && e["capacity_bytes"].LongValue?
       && "failure" in e && e["failure"].BooleanValue?
    then
      match ParseIsoDate(e["date"].s)
      case None => None
      case Some(d) =>
        Some(ReadBack(d, e["serial_number"].s, e["model"].s, e["capacity_bytes"].n, e["failure"].b))
    else None
  }

  /** Reading a record back yields the row's date, fields and failure flag: nothing is lost. */
  lemma DecodeAvroQueueEntry(row: DriveRow)
    ensures DecodeEntry(AvroQueueEntry(row)) ==
            Some(ReadBack(row.date, row.serialNumber, row.model, row.capacityBytes, row.failure == 1))
  {
    IsoFormatRoundTrip(row.date);
  }

  /** The records of one batch, in row order. */
  function TranscodeRows(rows: seq<DriveRow>): (es: seq<AvroEntry>)
    ensures |es| == |rows|
    ensures forall i :: 0 <= i < |rows| ==> es[i] == AvroQueueEntry(rows[i])
  {
    if rows == [] then []
    else TranscodeRows(rows[..|rows| - 1]) + [AvroQueueEntry(rows[|rows| - 1])]
  }

  lemma TranscodeRowsAppend(a: seq<DriveRow>, b: seq<DriveRow>)
    ensures TranscodeRows(a + b) == TranscodeRows(a) + TranscodeRows(b)
  {
  }

  /**
    Lines 130-143: a fresh queue, one entry per row of the batch. The entry is built
    as the source builds it, the four copied fields first and `failure` set by
    the branch.
  */
  method BuildAvroQueue(batch: seq<DriveRow>) returns (avroQueue: seq<AvroEntry>)
    ensures |avroQueue| == |batch|
    ensures forall i :: 0 <= i < |batch| ==> avroQueue[i] == AvroQueueEntry(batch[i])
  {
    avroQueue := [];
    for i := 0 to |batch|
      invariant |avroQueue| == i
      invariant forall k :: 0 <= k < i ==> avroQueue[k] == AvroQueueEntry(batch[k])
    {
      var driveEntry := batch[i];
      var avroQueueEntry: AvroEntry := map[
        "date" := StringValue(IsoFormat(driveEntry.date)),
        "serial_number" := StringValue(driveEntry.serialNumber),
        "model" := StringValue(driveEntry.model),
        "capacity_bytes" := LongValue(driveEntry.capacityBytes)];
      if driveEntry.failure == 1 {
        avroQueueEntry := avroQueueEntry["failure" := BooleanValue(true)];
      } else {
        avroQueueEntry := avroQueueEntry["failure" := BooleanValue(false)];
      }
      assert avroQueueEntry == AvroQueueEntry(driveEntry);
      avroQueue := avroQueue + [avroQueueEntry];
    }
  }

  function Flatten<T>(bs: seq<seq<T>>): seq<T>
  {
    if bs == [] then [] else Flatten(bs[..|bs| - 1]) + bs[|bs| - 1]
  }

  /** The number of rows over all batches. */
  function TotalRows<T>(bs: seq<seq<T>>): nat
  {
    if bs == [] then 0 else TotalRows(bs[..|bs| - 1]) + |bs[|bs| - 1]|
  }

  lemma {:induction false} FlattenLength<T>(bs: seq<seq<T>>)
    ensures |Flatten(bs)| == TotalRows(bs)
  {
    if bs != [] {
      FlattenLength(bs[..|bs| - 1]);
    }
  }

  /** The record list of each `fastavro.writer` call, one per batch, in scan order. */
  function TranscodeBatches(bs: seq<seq<DriveRow>>): (out: seq<seq<AvroEntry>>)
    ensures |out| == |bs|
    ensures forall b :: 0 <= b < |bs| ==> out[b] == TranscodeRows(bs[b])
  {
    if bs == [] then [] else TranscodeBatches(bs[..|bs| - 1]) + [TranscodeRows(bs[|bs| - 1])]
  }

  /** All records written are the rows of all batches transcoded, in scan order. */
  lemma {:induction false} FlattenTranscodeBatches(bs: seq<seq<DriveRow>>)
    ensures Flatten(TranscodeBatches(bs)) == TranscodeRows(Flatten(bs))
  {
    if bs != [] {
      var init := bs[..|bs| - 1];
      FlattenTranscodeBatches(init);
      assert TranscodeBatches(bs)[..|bs| - 1] == TranscodeBatches(init);
      TranscodeRowsAppend(Flatten(init), bs[|bs| - 1]);
    }
  }

  /** As many records are written as the scan yielded rows, over all batches. */
  lemma WrittenRecordCount(bs: seq<seq<DriveRow>>)
    ensures |Flatten(TranscodeBatches(bs))| == TotalRows(bs)
  {
  }

  /** How the scan cuts the rows into batches does not change the records written. */
  lemma BatchingIrrelevant(bs1: seq<seq<DriveRow>>, bs2: seq<seq<DriveRow>>)
    requires Flatten(bs1) == Flatten(bs2)
    ensures Flatten(TranscodeBatches(bs1)) == Flatten(TranscodeBatches(bs2))
  {
    FlattenTranscodeBatches(bs1);
    FlattenTranscodeBatches(bs2);
  }

  /**
    The output Avro file: the schema in its header, if one was written, and the
    record list of every `fastavro.writer` call made on it, in order.
  */
  class AvroOutputFile {
    var header: Option<RecordSchema>
    var batches: seq<seq<AvroEntry>>

    /** A file as it may already exist before the run. */
    constructor (header: Option<RecordSchema>, batches: seq<seq<AvroEntry>>)
      ensures this.header == header && this.batches == batches
    {
      this.header := header;
      this.batches := batches;
    }

    /** All records in the file, in the order written. */
    function Records(): seq<AvroEntry>
      reads this
    {
      Flatten(batches)
    }

    /** Lines 116-117: `open(path, "wb")` and close, leaving an empty file. */
    method Truncate()
      modifies this
      ensures header == None && batches == []
    {
      header := None;
      batches := [];
    }

    /**
      `fastavro.writer(avro_handle, schema, records)` on a handle opened "a+b":
      an empty file receives the header first; a file that has one keeps it and
      the records are appended after those already there.
    */
    method Append(schema: RecordSchema, records: seq<AvroEntry>)
      modifies this
      ensures header == if old(header).None? then Some(schema) else old(header)
      ensures batches == old(batches) + [records]
    {
      if header.None? {
        header := Some(schema);
      }
      batches := batches + [records];
    }
  }

  /**
    Lines 116-145: truncate the output, then for each batch build its queue and
    append it. The file ends up holding the transcoded batches in scan order; it
    has a header only if at least one batch was scanned.
  */
  method WriteBatches(out: AvroOutputFile, batches: seq<seq<DriveRow>>)
    modifies out
    ensures out.batches == TranscodeBatches(batches)
    ensures out.header == if batches == [] then None else Some(DriveStatsSchema)
    ensures out.Records() == TranscodeRows(Flatten(batches))
    ensures |out.Records()| == TotalRows(batches)
  {
    out.Truncate();
    var b := 0;
    while b < |batches|
      invariant 0 <= b <= |batches|
      invariant out.batches == TranscodeBatches(batches[..b])
      invariant out.header == if b == 0 then None else Some(DriveStatsSchema)
    {
      var avroQueue := BuildAvroQueue(batches[b]);
      assert avroQueue == TranscodeRows(batches[b]);
      assert batches[..b + 1][..b] == batches[..b];
      out.Append(DriveStatsSchema, avroQueue);
      b := b + 1;
    }
    assert batches[..b] == batches;
    FlattenTranscodeBatches(batches);
    WrittenRecordCount(batches);
  }

  /**
    `_main` without its argument parsing and timing: locate the current metadata,
    open the table, scan the five columns and write them to `out`. If no metadata
    document is found the run stops before the output is touched.
  */
  method ExportDriveStatsToAvro(endpoint: string, region: string, bucket: string, tablePath: string,
                                accessKey: string, secretKey: string,
                                ls: string -> seq<string>,
                                scan: (DriveStatsIcebergTable.StaticTable, seq<string>) -> seq<seq<DriveRow>>,
                                out: AvroOutputFile)
    returns (r: Result<DriveStatsIcebergTable.StaticTable, DriveStatsIcebergTable.LocateError>)
    modifies out
    ensures var located := DriveStatsIcebergTable.LatestMetadataUri(
              ls(DriveStatsIcebergTable.MetadataListingPath(bucket, tablePath)));
      match located
      case Failure(e) =>
        r == Failure(e) && out.header == old(out.header) && out.batches == old(out.batches)
      case Success(uri) =>
        && r == Success(DriveStatsIcebergTable.OpenDriveStatsTable(endpoint, region, accessKey, secretKey, uri))
        && out.batches == TranscodeBatches(scan(r.value, SelectedFields))
        && out.header == if scan(r.value, SelectedFields) == [] then None else Some(DriveStatsSchema)
  {
    var currentSchemaUri := DriveStatsIcebergTable.CurrentMetadataFileS3Uri(bucket, tablePath, ls);
    if currentSchemaUri.Failure? {
      return Failure(currentSchemaUri.error);
    }
    var staticTable := DriveStatsIcebergTable.OpenDriveStatsTable(
      endpoint, region, accessKey, secretKey, currentSchemaUri.value);
    WriteBatches(out, scan(staticTable, SelectedFields));
    r := Success(staticTable);
  }
}
