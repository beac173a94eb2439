/**
  drive_stats_iceberg_table.py: finding the current metadata document of the
  drive-stats Iceberg table in its bucket, and the connection properties the
  table is opened with.

  The bucket listing (`s3fs.S3FileSystem.ls`) is a network call; it is a
  parameter `ls` here, a function from a listing path to the object names it
  returns. The credentials and endpoint handed to `S3FileSystem` only decide what
  `ls` sees, so they are part of that parameter.
*/
module DriveStatsIcebergTable {
  import opened Wrappers
  import opened LexOrder
  import opened Decimal

  /** The suffix that marks a table metadata document. */
  const MetadataSuffix := ".metadata.json"

  /** The scheme put in front of the chosen object name. */
  const S3Scheme := "s3://"

  /** `sorted(metadata_json_files)[-1]` on an empty list raises IndexError. */
  datatype LocateError = NoMetadataJsonFile

  /** `f"{s3_bucket_name}/{table_path}/metadata"` */
  function MetadataListingPath(bucket: string, tablePath: string): (p: string)
    ensures |p| == |bucket| + 1 + |tablePath| + 9
    ensures p[..|bucket|] == bucket && p[|bucket|] == '/'
    ensures p[|bucket| + 1..|p| - 9] == tablePath
    ensures EndsWith(p, "/metadata")
  {
    bucket + "/" + tablePath + "/metadata"
  }

  /**
    A bucket name holds no '/', so the listing path determines both the bucket and
    the table path: two tables never share a listing.
  */
  lemma ListingPathInjective(bucket1: string, tablePath1: string, bucket2: string, tablePath2: string)
    requires '/' !in bucket1 && '/' !in bucket2
    requires MetadataListingPath(bucket1, tablePath1) == MetadataListingPath(bucket2, tablePath2)
    ensures bucket1 == bucket2 && tablePath1 == tablePath2
  {
  }

  /**
    The loop of lines 22-26: the listed names ending in ".metadata.json", in
    listing order. Defined by peeling off the last name, as the loop appends.
  */
  function MetadataJsonFiles(files: seq<string>): (c: seq<string>)
    ensures |c| <= |files|
    ensures forall i :: 0 <= i < |c| ==> EndsWith(c[i], MetadataSuffix)
  {
    if files == [] then []
    else
      var init := MetadataJsonFiles(files[..|files| - 1]);
      var last := files[|files| - 1];
      if EndsWith(last, MetadataSuffix) then init + [last] else init
  }

  /** A name is a candidate if and only if it is listed and has the suffix. */
  lemma {:induction false} MetadataJsonFilesMembership(files: seq<string>, x: string)
    ensures x in MetadataJsonFiles(files) <==> x in files && EndsWith(x, MetadataSuffix)
  {
    if files != [] {
      var init := files[..|files| - 1];
      MetadataJsonFilesMembership(init, x);
      assert files == init + [files[|files| - 1]];
    }
  }

  /** Filtering distributes over concatenation: candidates keep their listing order. */
  lemma {:induction false} MetadataJsonFilesAppend(a: seq<string>, b: seq<string>)
    ensures MetadataJsonFiles(a + b) == MetadataJsonFiles(a) + MetadataJsonFiles(b)
    decreases |b|
  {
    if b == [] {
      assert a + b == a;
    } else {
      var b' := b[..|b| - 1];
      MetadataJsonFilesAppend(a, b');
      assert MetadataJsonFiles(a + b') == MetadataJsonFiles(a) + MetadataJsonFiles(b');
      assert (a + b)[..|a + b| - 1] == a + b';
      assert (a + b)[|a + b| - 1] == b[|b| - 1];
    }
  }

  /** A lone listed name is kept exactly when it has the suffix. */
  lemma MetadataJsonFilesSingleton(x: string)
    ensures MetadataJsonFiles([x]) == if EndsWith(x, MetadataSuffix) then [x] else []
  {
  }

  /** Each name occurs among the candidates as often as it is listed, or not at all. */
  lemma {:induction false} MetadataJsonFilesMultiset(files: seq<string>, x: string)
    ensures multiset(MetadataJsonFiles(files))[x] ==
            if EndsWith(x, MetadataSuffix) then multiset(files)[x] else 0
  {
    if files != [] {
      var init := files[..|files| - 1];
      MetadataJsonFilesMultiset(init, x);
      assert files == init + [files[|files| - 1]];
    }
  }

  /**
    What `current_metadata_file_s3_uri` returns for the listing `files`: the last
    of the sorted candidates behind "s3://", or the IndexError of an empty list.
  */
  function LatestMetadataUri(files: seq<string>): (r: Result<string, LocateError>)
    ensures r.Failure? <==> MetadataJsonFiles(files) == []
    ensures r.Success? ==> |r.value| >= |S3Scheme| && r.value[..|S3Scheme|] == S3Scheme
  {
    var candidates := MetadataJsonFiles(files);
    if candidates == [] then Failure(NoMetadataJsonFile)
    else
      var sorted := Sort(candidates);
      Success(S3Scheme + sorted[|sorted| - 1])
  }

  /** The locator fails exactly when no listed name has the suffix. */
  lemma LatestFailsIffNoCandidate(files: seq<string>)
    ensures LatestMetadataUri(files).Failure? <==>
            forall n :: n in files ==> !EndsWith(n, MetadataSuffix)
  {
    var candidates := MetadataJsonFiles(files);
    if candidates != [] {
      MetadataJsonFilesMembership(files, candidates[0]);
    } else {
      forall n | n in files
        ensures !EndsWith(n, MetadataSuffix)
      {
        MetadataJsonFilesMembership(files, n);
      }
    }
  }

  /**
    On success the URI is "s3://" followed by a listed name that has the suffix and
    is at least every listed name that has it.
  */
  lemma LatestIsGreatestCandidate(files: seq<string>)
    requires LatestMetadataUri(files).Success?
    ensures var u := LatestMetadataUri(files).value;
      |u| >= |S3Scheme| && u[..|S3Scheme|] == S3Scheme &&
      var n := u[|S3Scheme|..];
      n in files && EndsWith(n, MetadataSuffix) &&
      forall m :: m in files && EndsWith(m, MetadataSuffix) ==> LexLe(m, n)
  {
    var candidates := MetadataJsonFiles(files);
    var sorted := Sort(candidates);
    var n := sorted[|sorted| - 1];
    var u := LatestMetadataUri(files).value;
    assert u == S3Scheme + n;
    assert u[|S3Scheme|..] == n;
    assert n in multiset(sorted);
    MetadataJsonFilesMembership(files, n);
    forall m | m in files && EndsWith(m, MetadataSuffix)
      ensures LexLe(m, n)
    {
      MetadataJsonFilesMembership(files, m);
      assert m in multiset(sorted);
      LastOfSortedIsGreatest(sorted, m);
    }
  }

  /** A listed name without the suffix is never the one chosen. */
  lemma NonMatchingNeverChosen(files: seq<string>, n: string)
    requires n in files && !EndsWith(n, MetadataSuffix)
    ensures LatestMetadataUri(files) != Success(S3Scheme + n)
  {
    if LatestMetadataUri(files) == Success(S3Scheme + n) {
      LatestIsGreatestCandidate(files);
      assert false;
    }
  }

  /**
    The greatest candidate determines the result: whichever listed name has the
    suffix and is at least every other such name is the one returned.
  */
  lemma LatestIsUniqueGreatest(files: seq<string>, n: string)
    requires n in files && EndsWith(n, MetadataSuffix)
    requires forall m :: m in files && EndsWith(m, MetadataSuffix) ==> LexLe(m, n)
    ensures LatestMetadataUri(files) == Success(S3Scheme + n)
  {
    MetadataJsonFilesMembership(files, n);
    LatestIsGreatestCandidate(files);
    var u := LatestMetadataUri(files).value;
    var chosen := u[|S3Scheme|..];
    assert u == S3Scheme + chosen;
    LexLeAntisymmetric(chosen, n);
  }

  /** The order in which the bucket lists its objects does not matter. */
  lemma LatestIgnoresListingOrder(files1: seq<string>, files2: seq<string>)
    requires multiset(files1) == multiset(files2)
    ensures LatestMetadataUri(files1) == LatestMetadataUri(files2)
  {
    forall x ensures x in files1 <==> x in files2 {
      assert x in files1 <==> x in multiset(files1);
    }
    LatestFailsIffNoCandidate(files1);
    LatestFailsIffNoCandidate(files2);
    if LatestMetadataUri(files1).Success? {
      LatestIsGreatestCandidate(files1);
      var n := LatestMetadataUri(files1).value[|S3Scheme|..];
      LatestIsUniqueGreatest(files2, n);
    }
  }

  /**
    `current_metadata_file_s3_uri`: list the table's metadata directory, keep the
    names ending in ".metadata.json", and return the last of them in sorted order
    behind "s3://".
  */
  method CurrentMetadataFileS3Uri(bucket: string, tablePath: string, ls: string -> seq<string>)
    returns (r: Result<string, LocateError>)
    ensures r == LatestMetadataUri(ls(MetadataListingPath(bucket, tablePath)))
  {
    var bucketPath := MetadataListingPath(bucket, tablePath);
    var files := ls(bucketPath);
    var metadataJsonFiles: seq<string> := [];
    var i := 0;
    while i < |files|
      invariant 0 <= i <= |files|
      invariant metadataJsonFiles == MetadataJsonFiles(files[..i])
    {
      var currFile := files[i];
      assert files[..i + 1][..i] == files[..i];
      if EndsWith(currFile, MetadataSuffix) {
        metadataJsonFiles := metadataJsonFiles + [currFile];
      }
      i := i + 1;
    }
    assert files[..|files|] == files;
    if metadataJsonFiles == [] {
      r := Failure(NoMetadataJsonFile);
    } else {
      var sorted := Sort(metadataJsonFiles);
      r := Success(S3Scheme + sorted[|sorted| - 1]);
    }
  }

  /** The snapshot handle `StaticTable.from_metadata` returns, as far as this code can see it. */
  datatype StaticTable = StaticTable(metadataLocation: string, properties: map<string, string>)

  /** The `schema_properties` dict of `open_drive_stats_table`. */
  function SchemaProperties(endpoint: string, region: string, accessKey: string, secretKey: string)
    : (props: map<string, string>)
    ensures props.Keys == {"s3.endpoint", "s3.region", "s3.access-key-id", "s3.secret-access-key"}
    ensures props["s3.endpoint"] == endpoint && props["s3.region"] == region
    ensures props["s3.access-key-id"] == accessKey && props["s3.secret-access-key"] == secretKey
  {
    map["s3.endpoint" := endpoint,
        "s3.region" := region,
        "s3.access-key-id" := accessKey,
        "s3.secret-access-key" := secretKey]
  }

  /** The four property keys are distinct, so no argument overwrites another. */
  lemma SchemaPropertiesHasFourEntries(endpoint: string, region: string, accessKey: string, secretKey: string)
    ensures |SchemaProperties(endpoint, region, accessKey, secretKey)| == 4
  {
  }

  /** `open_drive_stats_table`: a read-only table bound to the given metadata URI. */
  function OpenDriveStatsTable(endpoint: string, region: string, accessKey: string, secretKey: string,
                               currentSchemaUri: string): (t: StaticTable)
    ensures t.metadataLocation == currentSchemaUri
    ensures t.properties.Keys == {"s3.endpoint", "s3.region", "s3.access-key-id", "s3.secret-access-key"}
    ensures t.properties["s3.endpoint"] == endpoint && t.properties["s3.region"] == region
    ensures t.properties["s3.access-key-id"] == accessKey && t.properties["s3.secret-access-key"] == secretKey
  {
    StaticTable(currentSchemaUri, SchemaProperties(endpoint, region, accessKey, secretKey))
  }

  /*
    Why the last name in sorted order is the current metadata (the comment at
    line 28) rests on a naming assumption, `VersionedNames` below: every metadata
    name is the directory, a zero-padded version number of one fixed width, then
    the rest of the name. Under it, string order is version order.
  */

  /** Equal-width digit strings compare as strings the way their values compare. */
  lemma {:induction false} DigitOrderIsLexOrder(a: string, b: string, rest1: string, rest2: string)
    requires AllDigits(a) && AllDigits(b) && |a| == |b|
    requires DecimalValue(a) < DecimalValue(b)
    ensures LexLe(a + rest1, b + rest2) && !LexLe(b + rest2, a + rest1)
    decreases |a|
  {
    if a == [] {
      assert false;
    } else {
      DecimalValueFront(a);
      DecimalValueFront(b);
      var p := Pow10(|a| - 1);
      var da, db := a[0] as int - '0' as int, b[0] as int - '0' as int;
      assert (a + rest1)[0] == a[0] && (b + rest2)[0] == b[0];
      if a[0] == b[0] {
        assert (a + rest1)[1..] == a[1..] + rest1 && (b + rest2)[1..] == b[1..] + rest2;
        DigitOrderIsLexOrder(a[1..], b[1..], rest1, rest2);
      } else if b[0] < a[0] {
        LeadingDigitDominates(db, da, p, DecimalValue(b[1..]), DecimalValue(a[1..]));
        assert false;
      }
    }
  }

  lemma LeadingDigitDominates(d1: int, d2: int, p: int, r1: int, r2: int)
    requires d1 < d2 && 0 <= r1 < p && 0 <= r2
    ensures d1 * p + r1 < d2 * p + r2
  {
    assert d2 * p >= (d1 + 1) * p;
  }

  /** Of two names of one directory, the one with the higher padded version sorts last. */
  lemma NewerVersionSortsLater(dir: string, v1: nat, v2: nat, width: nat, rest1: string, rest2: string)
    requires v1 < v2 < Pow10(width)
    ensures var n1, n2 := dir + PadDecimal(v1, width) + rest1, dir + PadDecimal(v2, width) + rest2;
      LexLe(n1, n2) && !LexLe(n2, n1)
  {
    var a, b := PadDecimal(v1, width), PadDecimal(v2, width);
    DecimalOfPad(v1, width);
    DecimalOfPad(v2, width);
    DigitOrderIsLexOrder(a, b, rest1, rest2);
    assert dir + a + rest1 == dir + (a + rest1) && dir + b + rest2 == dir + (b + rest2);
    LexLeCommonPrefix(dir, a + rest1, b + rest2);
    LexLeCommonPrefix(dir, b + rest2, a + rest1);
  }

  /** Every metadata name in `files` is `dir`, a `width`-digit version, then the rest. */
  ghost predicate VersionedNames(files: seq<string>, dir: string, width: nat)
  {
    forall m :: m in files && EndsWith(m, MetadataSuffix) ==>
      |dir| + width <= |m| && m[..|dir|] == dir && AllDigits(m[|dir|..|dir| + width])
  }

  function VersionOf(m: string, dir: string, width: nat): int
    requires |dir| + width <= |m| && AllDigits(m[|dir|..|dir| + width])
  {
    DecimalValue(m[|dir|..|dir| + width])
  }

  /** With equal-width versions, the chosen document has the highest version listed. */
  lemma LatestIsNewestVersion(files: seq<string>, dir: string, width: nat)
    requires VersionedNames(files, dir, width)
    requires LatestMetadataUri(files).Success?
    ensures var n := LatestMetadataUri(files).value[|S3Scheme|..];
      n in files && EndsWith(n, MetadataSuffix) &&
      forall m :: m in files && EndsWith(m, MetadataSuffix) ==>
        VersionOf(m, dir, width) <= VersionOf(n, dir, width)
  {
    LatestIsGreatestCandidate(files);
    var n := LatestMetadataUri(files).value[|S3Scheme|..];
    assert n in files && EndsWith(n, MetadataSuffix);
    forall m | m in files && EndsWith(m, MetadataSuffix)
      ensures VersionOf(m, dir, width) <= VersionOf(n, dir, width)
    {
      assert LexLe(m, n);
      NameOrderBoundsVersion(m, n, dir, width);
    }
  }

  /** Splits two versioned names into directory, version and rest, and compares their versions. */
  lemma NameOrderBoundsVersion(m: string, n: string, dir: string, width: nat)
    requires |dir| + width <= |m| && m[..|dir|] == dir && AllDigits(m[|dir|..|dir| + width])
    requires |dir| + width <= |n| && n[..|dir|] == dir && AllDigits(n[|dir|..|dir| + width])
    requires LexLe(m, n)
    ensures VersionOf(m, dir, width) <= VersionOf(n, dir, width)
  {
    var k := |dir| + width;
    assert m == dir + m[|dir|..k] + m[k..];
    assert n == dir + n[|dir|..k] + n[k..];
    VersionOrderFromLexOrder(dir, m[|dir|..k], m[k..], n[|dir|..k], n[k..]);
  }

  /** A name that sorts no later than another has no higher version. */
  lemma VersionOrderFromLexOrder(dir: string, vm: string, rm: string, vn: string, rn: string)
    requires AllDigits(vm) && AllDigits(vn) && |vm| == |vn|
    requires LexLe(dir + vm + rm, dir + vn + rn)
    ensures DecimalValue(vm) <= DecimalValue(vn)
  {
    if DecimalValue(vn) < DecimalValue(vm) {
      DigitOrderIsLexOrder(vn, vm, rn, rm);
      assert dir + vm + rm == dir + (vm + rm) && dir + vn + rn == dir + (vn + rn);
      LexLeCommonPrefix(dir, vm + rm, vn + rn);
      assert false;
    }
  }

  /**
    Without one fixed width the assumption fails: with names padded to at least
    five digits (`%05d`), version 100000 is one digit wider than version 99999,
    and string order picks the older document.
  */
  lemma WiderVersionSortsFirst(older: string, newer: string)
    requires older == "m/99999-a.metadata.json" && newer == "m/100000-b.metadata.json"
    ensures LatestMetadataUri([older, newer]) == Success(S3Scheme + older)
    ensures LatestMetadataUri([newer, older]) == Success(S3Scheme + older)
  {
    assert LexLe("100000-b.metadata.json", "99999-a.metadata.json");
    LexLeCommonPrefix("m/", "100000-b.metadata.json", "99999-a.metadata.json");
    LaterNameWins(older, newer);
    LatestIgnoresListingOrder([older, newer], [newer, older]);
  }

  /** Of two listed metadata names, the one that sorts last is chosen, whatever their order. */
  lemma LaterNameWins(first: string, second: string)
    requires EndsWith(first, MetadataSuffix) && EndsWith(second, MetadataSuffix)
    requires LexLe(second, first)
    ensures LatestMetadataUri([first, second]) == Success(S3Scheme + first)
    ensures LatestMetadataUri([second, first]) == Success(S3Scheme + first)
  {
    LexLeReflexive(first);
    LatestIsUniqueGreatest([first, second], first);
    LatestIsUniqueGreatest([second, first], first);
  }
}
