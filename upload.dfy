/**
 * The upload endpoint of the backend: the allowed-origins setting, the
 * per-file extension dispatch and summaries, the 200 x 200 cap on 2D arrays,
 * and the fail-fast aggregation of all files keyed by file name.
 *
 * `np.load` and `tolist()` are foreign calls: they appear as the two decoders
 * of `Decoders`, which turn the bytes of a file into arrays or fail with the
 * text of the exception they raise.
 */
module Upload {
  import opened Wrappers
  import opened Text
  import opened OrderedDict
  import opened Arrays

  const MaxRows: nat := 200
  const MaxCols: nat := 200

  // ---------------------------------------------------------------------
  // ALLOWED_ORIGINS

  /**
   * The CORS origins: the environment variable (empty when unset) split on
   * commas, with the empty pieces removed when there are any.
   */
  function AllowedOrigins(env: Option<string>): seq<string>
  {
    var origins := Split(env.GetOr(""), ',');
    if "" in origins then NonEmpty(origins) else origins
  }

  /** The origins are exactly the non-empty comma-separated pieces, in order; unset means none. */
  lemma AllowedOriginsArePieces(env: Option<string>)
    ensures AllowedOrigins(env) == NonEmpty(Split(env.GetOr(""), ','))
    ensures forall i :: 0 <= i < |AllowedOrigins(env)| ==>
      AllowedOrigins(env)[i] != "" && ',' !in AllowedOrigins(env)[i]
    ensures env.None? ==> AllowedOrigins(env) == []
  {
    var pieces := Split(env.GetOr(""), ',');
    if "" !in pieces {
      NonEmptyIdentity(pieces);
    }
    assert Split("", ',') == [""];
  }

  /** A list of origins written out with commas between them is read back unchanged. */
  lemma AllowedOriginsRoundTrip(origins: seq<string>)
    requires |origins| >= 1
    requires forall i :: 0 <= i < |origins| ==> origins[i] != "" && ',' !in origins[i]
    ensures AllowedOrigins(Some(Join(origins, ","))) == origins
  {
    SplitJoin(origins, ',');
    assert "" !in origins;
  }

  // ---------------------------------------------------------------------
  // One file

  datatype UploadedFile = UploadedFile(filename: string, content: seq<bv8>)

  /** An `HTTPException`: the status code and the `detail` text. */
  datatype HttpError = HttpError(status: nat, detail: string)

  /** `np.load` followed by `tolist()`, for an archive and for a single array. */
  datatype Decoders = Decoders(
    archive: seq<bv8> -> Result<seq<(string, NdArray)>, string>,
    single: seq<bv8> -> Result<NdArray, string>)

  /** The summaries of one file, keyed by array name. */
  type FileArrays = Dict<string, Summary>

  /** The response body: the summaries of every file, keyed by file name. */
  type Response = Result<Dict<string, FileArrays>, HttpError>

  function Summarize(a: NdArray): Summary
  {
    Summary(a.shape, |a.shape|, a.data)
  }

  /** The dict comprehension over the members of an archive. */
  function SummarizeMembers(members: seq<(string, NdArray)>): FileArrays
  {
    if |members| == 0 then []
    else
      var last := members[|members| - 1];
      Put(SummarizeMembers(members[..|members| - 1]), last.0, Summarize(last.1))
  }

  /** Member `i` is the last one carrying its name. */
  predicate LastOfName(members: seq<(string, NdArray)>, i: nat)
    requires i < |members|
  {
    forall j :: i < j < |members| ==> members[j].0 != members[i].0
  }

  /** No member carries the name `k`. */
  predicate NoMemberNamed(members: seq<(string, NdArray)>, k: string)
  {
    forall i :: 0 <= i < |members| ==> members[i].0 != k
  }

  lemma {:induction false} SummarizeMembersDistinct(members: seq<(string, NdArray)>)
    ensures DistinctKeys(SummarizeMembers(members))
  {
    if |members| > 0 {
      var n := |members| - 1;
      SummarizeMembersDistinct(members[..n]);
      PutDistinct(SummarizeMembers(members[..n]), members[n].0, Summarize(members[n].1));
    }
  }

  /** The last member with a given name decides the summary stored under that name. */
  lemma {:induction false} SummarizeMembersLast(members: seq<(string, NdArray)>, i: nat)
    requires i < |members| && LastOfName(members, i)
    ensures Get(SummarizeMembers(members), members[i].0) == Some(Summarize(members[i].1))
  {
    var n := |members| - 1;
    if i < n {
      var init := members[..n];
      assert init[i] == members[i];
      assert LastOfName(init, i) by {
        forall j | i < j < |init| ensures init[j].0 != init[i].0 {
          assert init[j] == members[j];
        }
      }
      SummarizeMembersLast(init, i);
      assert members[n].0 != members[i].0;
      var before := SummarizeMembers(init);
      assert SummarizeMembers(members) == Put(before, members[n].0, Summarize(members[n].1));
    }
  }

  /** A name that no member carries is not a key. */
  lemma {:induction false} SummarizeMembersAbsent(members: seq<(string, NdArray)>, k: string)
    requires NoMemberNamed(members, k)
    ensures Get(SummarizeMembers(members), k) == None
  {
    if |members| > 0 {
      var n := |members| - 1;
      var init := members[..n];
      assert members[n].0 != k;
      assert NoMemberNamed(init, k) by {
        forall i | 0 <= i < |init| ensures init[i].0 != k {
          assert init[i] == members[i];
        }
      }
      SummarizeMembersAbsent(init, k);
    }
  }

  /** Some member carrying a name is the last one to carry it. */
  lemma LastOccurrence(members: seq<(string, NdArray)>, m: nat)
    requires m < |members|
    ensures exists i :: m <= i < |members| && members[i].0 == members[m].0 && LastOfName(members, i)
  {
    var i := |members| - 1;
    while members[i].0 != members[m].0
      invariant m <= i < |members|
      invariant forall j :: i < j < |members| ==> members[j].0 != members[m].0
      decreases i
    {
      i := i - 1;
    }
    assert LastOfName(members, i);
  }

  function UnsupportedFormat(filename: string): HttpError
  {
    HttpError(400, "Unsupported file format for " + filename + ". Please upload .npz or .npy files.")
  }

  function ArrayTooLarge(key: string, filename: string): HttpError
  {
    HttpError(413, "Array '" + key + "' in file '" + filename + "' is too large. " +
      "Maximum allowed size is " + NatToString(MaxRows) + "x" + NatToString(MaxCols) + ".")
  }

  /** Any exception other than an `HTTPException`. */
  function InternalError(message: string): HttpError
  {
    HttpError(500, "An error occurred: " + message)
  }

  /** The extension dispatch: an archive, a single array under the key "array", or a 400. */
  function LoadArrays(file: UploadedFile, decoders: Decoders): Result<FileArrays, HttpError>
  {
    if EndsWith(file.filename, ".npz") then
      match decoders.archive(file.content)
      case Failure(message) => Failure(InternalError(message))
      case Success(members) => Success(SummarizeMembers(members))
    else if EndsWith(file.filename, ".npy") then
      match decoders.single(file.content)
      case Failure(message) => Failure(InternalError(message))
      case Success(a) => Success([("array", Summarize(a))])
    else
      Failure(UnsupportedFormat(file.filename))
  }

  /** Only 2D summaries are checked, against both bounds. */
  predicate TooLarge(s: Summary)
  {
    |s.size| == 2 && (s.size[0] > MaxRows || s.size[1] > MaxCols)
  }

  /** The position of the first array, in dict order, that exceeds the cap. */
  function FirstTooLarge(arrays: FileArrays): (r: Option<nat>)
    ensures r.Some? ==> (r.value < |arrays| && TooLarge(arrays[r.value].1) &&
      forall j :: 0 <= j < r.value ==> !TooLarge(arrays[j].1))
    ensures r.None? ==> forall j :: 0 <= j < |arrays| ==> !TooLarge(arrays[j].1)
  {
    if |arrays| == 0 then None
    else if TooLarge(arrays[0].1) then Some(0)
    else
      match FirstTooLarge(arrays[1..])
      case None => None
      case Some(k) => Some(k + 1)
  }

  /** What one file contributes to the response, or the error that ends the request. */
  function ProcessFile(file: UploadedFile, decoders: Decoders): Result<FileArrays, HttpError>
  {
    var arrays :- LoadArrays(file, decoders);
    match FirstTooLarge(arrays)
    case Some(k) => Failure(ArrayTooLarge(arrays[k].0, file.filename))
    case None => Success(arrays)
  }

  /** An unknown extension is refused with 400, whatever the content, before any decoding or size check. */
  lemma UnsupportedIsRefused(file: UploadedFile, decoders: Decoders)
    requires !EndsWith(file.filename, ".npz") && !EndsWith(file.filename, ".npy")
    ensures ProcessFile(file, decoders) == Failure(UnsupportedFormat(file.filename))
    ensures forall other: Decoders :: ProcessFile(file, other) == ProcessFile(file, decoders)
  {
  }

  /** A `.npy` file yields exactly one entry, "array", with the shape, its length and the data. */
  lemma NpyYieldsOneEntry(file: UploadedFile, decoders: Decoders, a: NdArray)
    requires EndsWith(file.filename, ".npy")
    requires decoders.single(file.content) == Success(a)
    ensures !TooLarge(Summarize(a)) ==>
      ProcessFile(file, decoders) == Success([("array", Summary(a.shape, |a.shape|, a.data))])
    ensures TooLarge(Summarize(a)) ==>
      ProcessFile(file, decoders) == Failure(ArrayTooLarge("array", file.filename))
  {
    assert !EndsWith(file.filename, ".npz") by {
      var s := file.filename;
      assert s[|s| - 4..][3] == 'y';
    }
  }

  /** A `.npz` file yields one entry per member name, each the summary of that member. */
  lemma NpzYieldsMembers(file: UploadedFile, decoders: Decoders, members: seq<(string, NdArray)>)
    requires EndsWith(file.filename, ".npz")
    requires decoders.archive(file.content) == Success(members)
    requires forall i :: 0 <= i < |members| ==> !TooLarge(Summarize(members[i].1))
    ensures ProcessFile(file, decoders).Success?
    ensures forall i :: 0 <= i < |members| && LastOfName(members, i) ==>
      Get(ProcessFile(file, decoders).value, members[i].0) ==
        Some(Summary(members[i].1.shape, |members[i].1.shape|, members[i].1.data))
    ensures forall k :: NoMemberNamed(members, k) ==> Get(ProcessFile(file, decoders).value, k) == None
  {
    var arrays := SummarizeMembers(members);
    SummarizeMembersDistinct(members);
    assert LoadArrays(file, decoders) == Success(arrays);
    forall j | 0 <= j < |arrays| ensures !TooLarge(arrays[j].1) {
      var key := arrays[j].0;
      LookupAt(arrays, j);
      if NoMemberNamed(members, key) {
        SummarizeMembersAbsent(members, key);
        assert false;
      }
      var m :| 0 <= m < |members| && members[m].0 == key;
      LastOccurrence(members, m);
      var i :| m <= i < |members| && members[i].0 == key && LastOfName(members, i);
      SummarizeMembersLast(members, i);
    }
    assert FirstTooLarge(arrays) == None;
    forall i | 0 <= i < |members| && LastOfName(members, i)
      ensures Get(arrays, members[i].0) == Some(Summarize(members[i].1))
    {
      SummarizeMembersLast(members, i);
    }
    forall k | NoMemberNamed(members, k) ensures Get(arrays, k) == None {
      SummarizeMembersAbsent(members, k);
    }
  }

  /** In a dict with distinct keys, looking up the key of entry `j` gives entry `j`'s value. */
  lemma {:induction false} LookupAt<K, V>(d: Dict<K, V>, j: nat)
    requires DistinctKeys(d) && j < |d|
    ensures Get(d, d[j].0) == Some(d[j].1)
  {
    if j > 0 {
      assert DistinctKeys(d[1..]) by {
        forall a, b | 0 <= a < b < |d[1..]| ensures d[1..][a].0 != d[1..][b].0 {
          assert d[1..][a] == d[a + 1] && d[1..][b] == d[b + 1];
        }
      }
      LookupAt(d[1..], j - 1);
      assert d[1..][j - 1] == d[j];
    }
  }

  /** The cap: a 2D array passes exactly when neither side exceeds 200; other arrays always pass. */
  lemma SizeCapBoundary(rows: nat, cols: nat, shape: seq<nat>, data: Nested)
    ensures !TooLarge(Summary([rows, cols], 2, data)) <==> rows <= 200 && cols <= 200
    ensures |shape| != 2 ==> !TooLarge(Summary(shape, |shape|, data))
  {
  }

  /** A decoder failure, of an archive or of a single array, becomes a 500 carrying the decoder's message. */
  lemma DecoderFailureIs500(file: UploadedFile, decoders: Decoders, message: string)
    requires
      || (EndsWith(file.filename, ".npz") && decoders.archive(file.content) == Failure(message))
      || (!EndsWith(file.filename, ".npz") && EndsWith(file.filename, ".npy") && decoders.single(file.content) == Failure(message))
    ensures ProcessFile(file, decoders) == Failure(HttpError(500, "An error occurred: " + message))
  {
  }

  // ---------------------------------------------------------------------
  // All files

  /** The files in order; the first one that fails ends the request with its error. */
  function Ingest(files: seq<UploadedFile>, decoders: Decoders): Response
  {
    if |files| == 0 then Success([])
    else
      var last := files[|files| - 1];
      var done :- Ingest(files[..|files| - 1], decoders);
      var arrays :- ProcessFile(last, decoders);
      Success(Put(done, last.filename, arrays))
  }

  /** Once a prefix fails, the whole request fails with the same error. */
  lemma {:induction false} IngestPrefixFailure(files: seq<UploadedFile>, decoders: Decoders, n: nat)
    requires n <= |files|
    requires Ingest(files[..n], decoders).Failure?
    ensures Ingest(files, decoders) == Ingest(files[..n], decoders)
    decreases |files| - n
  {
    if n < |files| {
      var m := |files| - 1;
      assert files[..m][..n] == files[..n];
      IngestPrefixFailure(files[..m], decoders, n);
    } else {
      assert files[..n] == files;
    }
  }

  /** The position of the first file that fails on its own, if any. */
  function FirstFailure(files: seq<UploadedFile>, decoders: Decoders): (r: Option<nat>)
    ensures r.Some? ==> (r.value < |files| && ProcessFile(files[r.value], decoders).Failure? &&
      forall j :: 0 <= j < r.value ==> ProcessFile(files[j], decoders).Success?)
    ensures r.None? ==> forall j :: 0 <= j < |files| ==> ProcessFile(files[j], decoders).Success?
  {
    if |files| == 0 then None
    else
      var n := |files| - 1;
      assert forall j :: 0 <= j < n ==> files[..n][j] == files[j];
      match FirstFailure(files[..n], decoders)
      case Some(i) => Some(i)
      case None => if ProcessFile(files[n], decoders).Failure? then Some(n) else None
  }

  /**
   * Fail-fast: the request fails exactly when some file fails, and then with
   * the error of the first failing file; no partial result is returned.
   */
  lemma {:induction false} IngestFailFast(files: seq<UploadedFile>, decoders: Decoders)
    ensures Ingest(files, decoders).Failure? <==> FirstFailure(files, decoders).Some?
    ensures FirstFailure(files, decoders).Some? ==>
      Ingest(files, decoders) == Failure(ProcessFile(files[FirstFailure(files, decoders).value], decoders).error)
  {
    if |files| > 0 {
      var n := |files| - 1;
      var init := files[..n];
      IngestFailFast(init, decoders);
      match FirstFailure(init, decoders)
      case Some(i) =>
        assert init[i] == files[i];
      case None =>
    }
  }

  /** File `i` is the last one uploaded under its name. */
  predicate LastNamed(files: seq<UploadedFile>, i: nat)
    requires i < |files|
  {
    forall j :: i < j < |files| ==> files[j].filename != files[i].filename
  }

  /** No uploaded file has the name `name`. */
  predicate NoFileNamed(files: seq<UploadedFile>, name: string)
  {
    forall i :: 0 <= i < |files| ==> files[i].filename != name
  }

  lemma {:induction false} IngestDistinct(files: seq<UploadedFile>, decoders: Decoders)
    requires Ingest(files, decoders).Success?
    ensures DistinctKeys(Ingest(files, decoders).value)
  {
    if |files| > 0 {
      var n := |files| - 1;
      IngestDistinct(files[..n], decoders);
      PutDistinct(Ingest(files[..n], decoders).value, files[n].filename, ProcessFile(files[n], decoders).value);
    }
  }

  /** A successful response maps each name to what the last file of that name contributed. */
  lemma {:induction false} IngestLast(files: seq<UploadedFile>, decoders: Decoders, i: nat)
    requires Ingest(files, decoders).Success?
    requires i < |files| && LastNamed(files, i)
    ensures ProcessFile(files[i], decoders).Success?
    ensures Get(Ingest(files, decoders).value, files[i].filename) == Some(ProcessFile(files[i], decoders).value)
  {
    var n := |files| - 1;
    var init := files[..n];
    IngestStep(files, decoders);
    var prev := Ingest(init, decoders).value;
    var arrays := ProcessFile(files[n], decoders).value;
    if i < n {
      assert init[i] == files[i];
      assert LastNamed(init, i) by {
        forall j | i < j < |init| ensures init[j].filename != init[i].filename {
          assert init[j] == files[j];
        }
      }
      IngestLast(init, decoders, i);
      assert files[n].filename != files[i].filename;
      PutOther(prev, files[n].filename, arrays, files[i].filename);
    } else {
      PutSame(prev, files[n].filename, arrays);
    }
  }

  /** A successful request extends the response to all but the last file by the last file's entry. */
  lemma IngestStep(files: seq<UploadedFile>, decoders: Decoders)
    requires |files| > 0 && Ingest(files, decoders).Success?
    ensures Ingest(files[..|files| - 1], decoders).Success?
    ensures ProcessFile(files[|files| - 1], decoders).Success?
    ensures Ingest(files, decoders).value ==
      Put(Ingest(files[..|files| - 1], decoders).value, files[|files| - 1].filename,
        ProcessFile(files[|files| - 1], decoders).value)
  {
  }

  /** Names of no uploaded file are absent from a successful response. */
  lemma {:induction false} IngestAbsent(files: seq<UploadedFile>, decoders: Decoders, name: string)
    requires Ingest(files, decoders).Success?
    requires NoFileNamed(files, name)
    ensures Get(Ingest(files, decoders).value, name) == None
  {
    if |files| > 0 {
      var n := |files| - 1;
      var init := files[..n];
      assert files[n].filename != name;
      assert NoFileNamed(init, name) by {
        forall i | 0 <= i < |init| ensures init[i].filename != name {
          assert init[i] == files[i];
        }
      }
      IngestAbsent(init, decoders, name);
    }
  }

  /** The size check over `arrays.items()`: the position of the first array over the cap, if any. */
  method CheckSizes(arrays: FileArrays) returns (tooLarge: Option<nat>)
    ensures tooLarge == FirstTooLarge(arrays)
  {
    var j := 0;
    while j < |arrays|
      invariant 0 <= j <= |arrays|
      invariant forall k :: 0 <= k < j ==> !TooLarge(arrays[k].1)
    {
      if TooLarge(arrays[j].1) {
        return Some(j);
      }
      j := j + 1;
    }
    return None;
  }

  /** One pass of the endpoint's loop body: load by extension, then check the sizes. */
  method LoadAndCheck(file: UploadedFile, decoders: Decoders) returns (result: Result<FileArrays, HttpError>)
    ensures result == ProcessFile(file, decoders)
  {
    var arrays: FileArrays;
    if EndsWith(file.filename, ".npz") {
      var data := decoders.archive(file.content);
      if data.Failure? {
        return Failure(InternalError(data.error));
      }
      arrays := SummarizeMembers(data.value);
    } else if EndsWith(file.filename, ".npy") {
      var decoded := decoders.single(file.content);
      if decoded.Failure? {
        return Failure(InternalError(decoded.error));
      }
      arrays := [("array", Summarize(decoded.value))];
    } else {
      return Failure(UnsupportedFormat(file.filename));
    }
    assert LoadArrays(file, decoders) == Success(arrays);
    var tooLarge := CheckSizes(arrays);
    if tooLarge.Some? {
      return Failure(ArrayTooLarge(arrays[tooLarge.value].0, file.filename));
    }
    return Success(arrays);
  }

  /** The endpoint: the loop over `files`, writing into `all_arrays` and raising at the first error. */
  method UploadFiles(files: seq<UploadedFile>, decoders: Decoders) returns (response: Response)
    ensures response == Ingest(files, decoders)
  {
    var allArrays: Dict<string, FileArrays> := [];
    var i := 0;
    while i < |files|
      invariant 0 <= i <= |files|
      invariant Ingest(files[..i], decoders) == Success(allArrays)
    {
      var file := files[i];
      assert files[..i + 1][..i] == files[..i];
      assert files[..i + 1][i] == file;
      var result := LoadAndCheck(file, decoders);
      if result.Failure? {
        response := Failure(result.error);
        IngestPrefixFailure(files, decoders, i + 1);
        return;
      }
      allArrays := Put(allArrays, file.filename, result.value);
      i := i + 1;
    }
    assert files[..i] == files;
    response := Success(allArrays);
  }
}
