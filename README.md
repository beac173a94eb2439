# Backblaze drive-stats Iceberg export, modelled in Dafny

These scripts find the current metadata document of the Backblaze drive-stats
Apache Iceberg table, which is stored in a Backblaze B2 bucket. They open a
read-only snapshot of the table and export five columns of it. This project
models the two pieces that hold real logic:

- **Locating the current metadata** (`drive_stats_iceberg_table.py`). The script
  lists `<bucket>/<table path>/metadata` and keeps the names ending in
  `.metadata.json`. It sorts them in Python's string order and returns the last
  one, prefixed with `s3://`. Module `DriveStatsIcebergTable` has the filtering loop
  as a method, `CurrentMetadataFileS3Uri`. That method is proved equal to a
  specification function, `LatestMetadataUri`. Lemmas about that function prove:
  - the returned name is a listed name ending in `.metadata.json`;
  - it is at least every other such name;
  - it is the only name with those two properties;
  - the order of the listing does not change it;
  - the result is an error exactly when nothing matches.

  The script raises an IndexError when nothing matches (`sorted([])[-1]`). The
  model returns `Failure(NoMetadataJsonFile)` instead. The file also builds the
  connection properties used to open the table (`SchemaProperties`,
  `OpenDriveStatsTable`).
- **Transcoding to Avro** (`backblaze_drive_stats_iceberg_to_avro.py`). Each
  scanned row becomes a five-field record:
  - the date becomes its ISO string;
  - serial number, model and capacity are copied unchanged;
  - `failure == 1` becomes `true` and every other value becomes `false`.

  Each batch's records go into a fresh queue. That queue is appended to an output
  file that was truncated first. Module `IcebergToAvro` models:
  - the per-batch queue loop (`BuildAvroQueue`);
  - the output file as a class whose fields the writes update (`AvroOutputFile`);
  - the batch loop (`WriteBatches`);
  - the whole run, from locating the metadata through writing the file
    (`ExportDriveStatsToAvro`).

Supporting modules:
- `LexOrder`: Python's string order (code point by code point, a prefix sorting
  first), `str.endswith`, and `sorted` on a list of strings. `sorted` is modelled
  as an insertion sort. This gives the same result as Python's sort, because
  under a total order the sorted list is unique.
- `Decimal`: zero-padded decimal numerals.
- `IsoDate`: `datetime.date` and `date.isoformat()`, with a parser proved inverse
  to it.
- `Wrappers`: `Option` and `Result`.

External calls are parameters of the model:
- the bucket listing `s3fs.S3FileSystem.ls` is `ls: string -> seq<string>`;
- the table scan `scan(selected_fields=...).to_arrow_batch_reader()` is
  `scan: (StaticTable, seq<string>) -> seq<seq<DriveRow>>`. It is given the
  opened table and the projected column names.

The credentials and endpoint given to `S3FileSystem` only affect what `ls`
returns, so they are part of that parameter.

Two consequences of the code's order of operations:
- **Empty scan.** `fastavro.writer` is only called inside the batch loop
  (line 145). An empty scan therefore leaves the truncated file with no Avro
  header: a reader expecting an empty container gets a zero-byte file.
  `WriteBatches` ensures `header == None` when there are no batches.
- **No metadata found.** The locator runs (line 50) before the output is
  truncated (line 116). When no metadata document is found, the output file is
  left as it was.

Why lexicographically last means current (the comment at
`drive_stats_iceberg_table.py:28`): this depends on how the metadata files are
named. `VersionedNames` states the naming assumption: every metadata name is its
directory, a zero-padded version number of one fixed width, then the rest of
the name. Nothing in the scripts checks this. Under that assumption,
`LatestIsNewestVersion` proves that the chosen document has the highest version.
`WiderVersionSortsFirst` shows what happens when the widths differ. With names
padded to at least five digits (`%05d-<uuid>.metadata.json`), version 100000 is
one digit wider than version 99999, and the locator picks version 99999.

## Model

| member | source | states |
|---|---|---|
| `LexOrder.EndsWith` | drive_stats_iceberg_table.py:25 | `str.endswith`: a string that ends with the suffix splits into a prefix followed by the suffix |
| `LexOrder.LexLe` | drive_stats_iceberg_table.py:29 | Python's `str <=`, which `sorted` compares by: code point by code point, a prefix sorting no later than any extension of it |
| `LexOrder.Sort` | drive_stats_iceberg_table.py:29 | `sorted(...)` returns a permutation of its argument (same multiset, same length) that is ascending in Python's string order |
| `LexOrder.LastOfSortedIsGreatest` | drive_stats_iceberg_table.py:29 | the element at index -1 of an ascending list is at least every element of the list |
| `DriveStatsIcebergTable.MetadataListingPath` | drive_stats_iceberg_table.py:18 | the listing path is the bucket, a '/', the table path, then "/metadata" |
| `DriveStatsIcebergTable.ListingPathInjective` | drive_stats_iceberg_table.py:18 | for bucket names without '/', the listing path determines the bucket and the table path |
| `DriveStatsIcebergTable.MetadataJsonFiles` | drive_stats_iceberg_table.py:22-26 | the candidate list built by the loop: no longer than the listing, and every entry ends with ".metadata.json" |
| `DriveStatsIcebergTable.MetadataJsonFilesMembership` | drive_stats_iceberg_table.py:22-26 | a name is a candidate if and only if it is listed and ends with ".metadata.json" |
| `DriveStatsIcebergTable.MetadataJsonFilesAppend` | drive_stats_iceberg_table.py:22-26 | filtering a concatenated listing gives the concatenated candidates, so candidates keep their listing order |
| `DriveStatsIcebergTable.MetadataJsonFilesSingleton` | drive_stats_iceberg_table.py:25-26 | a single listed name is kept exactly when it ends with ".metadata.json" |
| `DriveStatsIcebergTable.MetadataJsonFilesMultiset` | drive_stats_iceberg_table.py:22-26 | among the candidates, each matching name appears as often as it is listed, and a non-matching name never appears |
| `DriveStatsIcebergTable.LatestMetadataUri` | drive_stats_iceberg_table.py:18-31 | the locator's result for a listing: a failure exactly when the candidate list is empty (the IndexError of line 29), otherwise a URI that starts with "s3://" |
| `DriveStatsIcebergTable.LatestFailsIffNoCandidate` | drive_stats_iceberg_table.py:29 | the locator fails (IndexError in the source) exactly when no listed name ends with ".metadata.json" |
| `DriveStatsIcebergTable.LatestIsGreatestCandidate` | drive_stats_iceberg_table.py:25-29 | on success the URI is "s3://" + n, where n is listed, ends with ".metadata.json" and is at least every other such name |
| `DriveStatsIcebergTable.NonMatchingNeverChosen` | drive_stats_iceberg_table.py:25-29 | a listed name without the suffix is never returned |
| `DriveStatsIcebergTable.LatestIsUniqueGreatest` | drive_stats_iceberg_table.py:28-29 | any listed metadata name that is at least every other one is exactly the one returned |
| `DriveStatsIcebergTable.LatestIgnoresListingOrder` | drive_stats_iceberg_table.py:29 | any permutation of the listing gives the same result |
| `DriveStatsIcebergTable.CurrentMetadataFileS3Uri` | drive_stats_iceberg_table.py:6-31 | the list-filter-sort-take-last procedure, whose loop builds the candidate list, returns what `LatestMetadataUri` specifies for the listing of the table's metadata path |
| `DriveStatsIcebergTable.DigitOrderIsLexOrder` | drive_stats_iceberg_table.py:28 | digit strings of equal width compare as strings the way their numeric values compare, whatever follows them |
| `DriveStatsIcebergTable.NewerVersionSortsLater` | drive_stats_iceberg_table.py:28 | in one directory, the name with the higher zero-padded version sorts strictly later |
| `DriveStatsIcebergTable.VersionOrderFromLexOrder` | drive_stats_iceberg_table.py:28 | a name that sorts no later than another has no higher equal-width version |
| `DriveStatsIcebergTable.NameOrderBoundsVersion` | drive_stats_iceberg_table.py:28 | of two names with the same directory and equal-width versions, the one that sorts no later has no higher version |
| `DriveStatsIcebergTable.LatestIsNewestVersion` | drive_stats_iceberg_table.py:28-29 | when every metadata name carries a version of one fixed width, the chosen document has the highest version listed |
| `DriveStatsIcebergTable.LaterNameWins` | drive_stats_iceberg_table.py:24-29 | of two listed metadata names, the one that sorts last is returned, in both listing orders |
| `DriveStatsIcebergTable.WiderVersionSortsFirst` | drive_stats_iceberg_table.py:28-29 | with versions 99999 and 100000 (five-digit padding outgrown), the older document is chosen in either listing order |
| `DriveStatsIcebergTable.SchemaProperties` | drive_stats_iceberg_table.py:40-45 | the properties map has exactly the keys s3.endpoint, s3.region, s3.access-key-id and s3.secret-access-key, bound to endpoint, region, access key and secret key |
| `DriveStatsIcebergTable.SchemaPropertiesHasFourEntries` | drive_stats_iceberg_table.py:40-45 | the four keys are distinct, so the map has four entries |
| `DriveStatsIcebergTable.OpenDriveStatsTable` | drive_stats_iceberg_table.py:34-50 | the table handle is bound to the given metadata URI and carries exactly those four properties |
| `Decimal.PadDecimal` | backblaze_drive_stats_iceberg_to_avro.py:133 | the `%0Nd` padding inside `isoformat`: exactly N characters, all decimal digits |
| `Decimal.DecimalOfPad` | backblaze_drive_stats_iceberg_to_avro.py:133 | reading back a zero-padded numeral gives the number it was made from |
| `Decimal.PadOfDecimal` | backblaze_drive_stats_iceberg_to_avro.py:133 | a digit string is the zero-padded numeral of its own value |
| `IsoDate.IsoFormat` | backblaze_drive_stats_iceberg_to_avro.py:133 | `isoformat()` gives ten characters: four digits, '-', two digits, '-', two digits |
| `IsoDate.IsoFormatRoundTrip` | backblaze_drive_stats_iceberg_to_avro.py:133 | parsing the ISO string of any valid date gives that date back |
| `IsoDate.ParseIsoDateInverse` | backblaze_drive_stats_iceberg_to_avro.py:133 | every string that parses as a date is that date's ISO string, so the output strings are exactly the well-formed `YYYY-MM-DD` dates |
| `IsoDate.IsoFormatInjective` | backblaze_drive_stats_iceberg_to_avro.py:133 | distinct dates get distinct ISO strings |
| `IcebergToAvro.FieldNames` | backblaze_drive_stats_iceberg_to_avro.py:83-108 | the field-name list of a schema, one per field, in order |
| `IcebergToAvro.SelectedFieldsMatchSchema` | backblaze_drive_stats_iceberg_to_avro.py:80-128 | the scan projects exactly the schema's five fields, in the schema's order |
| `IcebergToAvro.AvroQueueEntry` | backblaze_drive_stats_iceberg_to_avro.py:132-141 | the record for one row has exactly the five keys date, serial_number, model, capacity_bytes and failure, and failure is true if and only if the source value is 1 |
| `IcebergToAvro.AvroQueueEntryFields` | backblaze_drive_stats_iceberg_to_avro.py:132-141 | a record has exactly the keys date, serial_number, model, capacity_bytes and failure; the date is its ISO string; the next three are copied; failure is true if and only if the source value is 1, and false otherwise |
| `IcebergToAvro.AvroQueueEntryConforms` | backblaze_drive_stats_iceberg_to_avro.py:80-109 | every record has exactly the schema's fields, each with a value of the declared type, so capacity_bytes is a signed 64-bit long |
| `IcebergToAvro.DecodeAvroQueueEntry` | backblaze_drive_stats_iceberg_to_avro.py:132-141 | reading a record back recovers the date, serial number, model, capacity and whether failure was 1 |
| `IcebergToAvro.TranscodeRows` | backblaze_drive_stats_iceberg_to_avro.py:130-143 | one record per row, the i-th being the transcoding of the i-th row |
| `IcebergToAvro.TranscodeRowsAppend` | backblaze_drive_stats_iceberg_to_avro.py:130-143 | transcoding preserves order across concatenation |
| `IcebergToAvro.BuildAvroQueue` | backblaze_drive_stats_iceberg_to_avro.py:130-143 | the queue starts empty; after the row loop it has one entry per row, the i-th being the transcoding of the batch's i-th row |
| `IcebergToAvro.TranscodeBatches` | backblaze_drive_stats_iceberg_to_avro.py:121-145 | one record list per batch, in scan order, each the transcoding of its batch |
| `IcebergToAvro.FlattenLength` | backblaze_drive_stats_iceberg_to_avro.py:121-131 | the rows of all batches together number the sum of the batch sizes |
| `IcebergToAvro.FlattenTranscodeBatches` | backblaze_drive_stats_iceberg_to_avro.py:121-145 | all records written, in order, are the scanned rows transcoded in scan order |
| `IcebergToAvro.WrittenRecordCount` | backblaze_drive_stats_iceberg_to_avro.py:121-145 | the number of records written equals the sum of the batch sizes |
| `IcebergToAvro.BatchingIrrelevant` | backblaze_drive_stats_iceberg_to_avro.py:121-145 | two batchings of the same rows write the same records |
| `IcebergToAvro.AvroOutputFile.Truncate` | backblaze_drive_stats_iceberg_to_avro.py:116-117 | opening in "wb" leaves a file with no header and no records |
| `IcebergToAvro.AvroOutputFile.Append` | backblaze_drive_stats_iceberg_to_avro.py:145 | a writer call on the "a+b" handle writes the header into an empty file and appends the records after those already there |
| `IcebergToAvro.WriteBatches` | backblaze_drive_stats_iceberg_to_avro.py:116-145 | after truncation and the batch loop, the file holds the transcoded batches in scan order, has a header exactly when some batch was scanned, and holds as many records as the batch sizes sum to |
| `IcebergToAvro.ExportDriveStatsToAvro` | backblaze_drive_stats_iceberg_to_avro.py:44-145 | if no metadata document is found, the run fails before the output is touched; otherwise it opens the table at the located URI, the file holds the transcoded scan of the five selected columns, and the file has a header exactly when the scan yielded some batch |

## Left out

- The S3 listing, `StaticTable.from_metadata` and the table scan are network and library calls. They are abstract parameters: `ls`, the `StaticTable` value, and `scan`. Their own failures (permissions, a missing bucket, schema errors) are not modelled.
- `fastavro.parse_schema` and the Avro binary encoding done by `fastavro.writer` come from another library. The model keeps only the header schema and the record lists handed to each writer call.
- Null column values are not modelled. Every row has a date, strings, a capacity and an integer failure flag. In the source, a null date would raise at `isoformat()`.
- `Decimal.PadDecimal` and `Decimal.DecimalValue` model Python's `%0Nd` only for non-negative numbers below 10^N. Those are the only numbers `isoformat` formats.
- `_parse_args`, the `print` progress output and the `time.perf_counter` timings are command-line and I/O plumbing, so they are left out. So is `pathlib.Path(...).name`, which is only printed.
- The `_main` of `drive_stats_iceberg_table.py` only prints the schema, so it is left out.
- `backblaze_drive_stats_iceberg_to_csv.py` is not part of this model: its only logic is inside `pyarrow.csv.write_csv`.
- `drive_distribution_by_mfr.py` is not part of this model. It locates the metadata, opens the table and runs the whole `scan(...).to_pandas()` (lines 50-87). It then raises NameError at line 89 on the undefined `results_table`. Beyond progress output it produces nothing.
- Closing the file handles (the `with` blocks) is not modelled.
