/** The loader's main loop (main of load_schemas.py): pick the schema files out
    of the directory listing, derive each one's artifact id, and run read,
    injection and upload for each file on its own, so that a failure on one
    file does not stop the others. The file system and the registry are
    parameters: `read` gives the parsed contents of a file (or what reading
    and parsing raised), `reply(k)` the status the registry gives each request
    sent for the k-th schema file processed. */
module SchemaLoader {
  import opened Json
  import opened MetadataInjection
  import opened RegistryUpload

  const PROCESSED_GROUP_ID: string := "asel-schemas.processed-schemas"
  const SCHEMA_EXTENSION: string := ".avsc"

  /** Lower-casing of one character. Only ASCII letters are mapped; no other
      character lower-cases to one of ".avsc", so the file test is unaffected. */
  function LowerChar(c: char): (r: char)
    ensures r != c <==> 'A' <= c <= 'Z'
    ensures r != c ==> r as int == c as int + 32
    ensures !('A' <= r <= 'Z')
  {
    if 'A' <= c <= 'Z' then (c as int + 32) as char else c
  }

  /** `s.lower()`: every character lower-cased in place. */
  function Lower(s: string): (r: string)
    ensures |r| == |s|
    ensures forall i :: 0 <= i < |s| ==> r[i] == LowerChar(s[i])
    ensures forall i :: 0 <= i < |r| ==> !('A' <= r[i] <= 'Z')
  {
    seq(|s|, i requires 0 <= i < |s| => LowerChar(s[i]))
  }

  predicate EndsWith(s: string, suffix: string) {
    |suffix| <= |s| && s[|s| - |suffix|..] == suffix
  }

  /** `fname.lower().endswith(".avsc")`. */
  predicate IsSchemaFile(name: string) {
    EndsWith(Lower(name), SCHEMA_EXTENSION)
  }

  /** `s.rfind(c)`: the last position of `c` in `s`, or -1. */
  function LastIndexOf(s: string, c: char): (r: int)
    ensures -1 <= r < |s|
    ensures r >= 0 ==> s[r] == c
    ensures forall j :: r < j < |s| ==> s[j] != c
  {
    if s == [] then -1
    else if s[|s| - 1] == c then |s| - 1
    else LastIndexOf(s[..|s| - 1], c)
  }

  /** `os.path.splitext(name)[0]` for a name without a path separator: the
      name up to its last dot, unless only dots come before that dot (a
      leading dot starts a hidden name, not an extension). */
  function ArtifactId(name: string): (r: string)
    ensures |r| <= |name| && r == name[..|r|]
    ensures r != name ==> name[|r|] == '.' && forall j :: |r| < j < |name| ==> name[j] != '.'
    ensures r != name ==> exists i :: 0 <= i < |r| && r[i] != '.'
    ensures r == name ==> forall i :: 0 <= i < LastIndexOf(name, '.') ==> name[i] == '.'
  {
    var dot := LastIndexOf(name, '.');
    if exists i :: 0 <= i < dot && name[i] != '.' then name[..dot] else name
  }

  /** The names of the listing the loop processes, in listing order. */
  function SchemaFiles(listing: seq<string>): (r: seq<string>)
    ensures |r| <= |listing|
    ensures forall name :: name in r <==> name in listing && IsSchemaFile(name)
  {
    if listing == [] then []
    else
      var last := listing[|listing| - 1];
      SchemaFiles(listing[..|listing| - 1]) + (if IsSchemaFile(last) then [last] else [])
  }

  /** Extending the listing by one name extends the selection by that name
      exactly when it is a schema file. */
  lemma SchemaFilesStep(listing: seq<string>, i: nat)
    requires i < |listing|
    ensures SchemaFiles(listing[..i + 1]) ==
              SchemaFiles(listing[..i]) + if IsSchemaFile(listing[i]) then [listing[i]] else []
  {
    assert listing[..i + 1][..i] == listing[..i];
  }

  /** What happened to one schema file: its artifact id, the requests sent for
      it, and either the upload's outcome or the exception caught for it. */
  datatype FileReport = FileReport(artifactId: string, requests: seq<Request>, result: Result<Outcome>)

  /** The body of the loop's `try` for one file, given the replies the
      registry gives to that file's requests. */
  function ProcessFile(name: string, read: string -> Result<Value>, reply: Request -> int): (r: FileReport)
    ensures r.artifactId == ArtifactId(name)
    ensures r.requests != [] <==> read(name).Ok? && Injected(read(name).value).Ok?
    ensures read(name).Err? ==> r.result == Err(read(name).error)
    ensures read(name).Ok? && Injected(read(name).value).Err? ==> r.result == Err(Injected(read(name).value).error)
    ensures r.result.Ok? ==> r.requests != [] && (r.result.value.Succeeded() || !RaisesForStatus(r.result.value.status))
    ensures read(name).Ok? && Injected(read(name).value).Ok? ==>
              var u := CreateOrUpdate(PROCESSED_GROUP_ID, ArtifactId(name), Injected(read(name).value).value, reply);
              && r.requests == u.requests
              && r.result == (if u.Raised() then Err(HTTPError(u.outcome.status)) else Ok(u.outcome))
  {
    var id := ArtifactId(name);
    match read(name)
    case Err(e) => FileReport(id, [], Err(e))
    case Ok(schema) =>
      match Injected(schema)
      case Err(e) => FileReport(id, [], Err(e))
      case Ok(enriched) =>
        var u := CreateOrUpdate(PROCESSED_GROUP_ID, id, enriched, reply);
        FileReport(id, u.requests, if u.Raised() then Err(HTTPError(u.outcome.status)) else Ok(u.outcome))
  }

  /** The body of the loop's `try` for one schema file, as the steps the loop
      runs: read it, inject the metadata fields with the injection's own loop,
      upload the result; an exception on the way becomes the file's result.
      `ProcessFile` is the same step as a function, which `Reports` and the
      properties need since they cannot call a method; this method is the one
      the main loop calls, and it is proved to agree with it. */
  method HandleFile(name: string, read: string -> Result<Value>, reply: Request -> int)
    returns (report: FileReport)
    ensures report == ProcessFile(name, read, reply)
  {
    var artifactId := ArtifactId(name);
    var contents := read(name);
    if contents.Err? {
      return FileReport(artifactId, [], Err(contents.error));
    }
    var enriched := InjectMetadataFields(contents.value);
    if enriched.Err? {
      return FileReport(artifactId, [], Err(enriched.error));
    }
    var upload := CreateOrUpdate(PROCESSED_GROUP_ID, artifactId, enriched.value, reply);
    var result := if upload.Raised() then Err(HTTPError(upload.outcome.status)) else Ok(upload.outcome);
    report := FileReport(artifactId, upload.requests, result);
  }

  /** The reports of a sequence of schema files, each file handled on its own
      with the replies to its own requests. */
  function Reports(files: seq<string>, read: string -> Result<Value>, reply: nat -> Request -> int): (r: seq<FileReport>)
    ensures |r| == |files|
    ensures forall k :: 0 <= k < |files| ==> r[k] == ProcessFile(files[k], read, reply(k))
  {
    if files == [] then []
    else
      var n := |files| - 1;
      Reports(files[..n], read, reply) + [ProcessFile(files[n], read, reply(n))]
  }

  datatype RunResult =
    | DirectoryMissing                    // sys.exit before any file is looked at
    | Finished(reports: seq<FileReport>)  // one report per schema file, in listing order

  /** main: stops at once when the schema directory is missing; otherwise
      handles every schema file of the listing in turn, each inside its own
      `try`, so that each gets a report of its own whatever happened before. */
  method LoadSchemas(directoryExists: bool, listing: seq<string>,
                     read: string -> Result<Value>, reply: nat -> Request -> int)
    returns (r: RunResult)
    ensures !directoryExists <==> r == DirectoryMissing
    ensures directoryExists ==> r == Finished(Reports(SchemaFiles(listing), read, reply))
    ensures directoryExists ==>
              && |r.reports| == |SchemaFiles(listing)|
              && forall k :: 0 <= k < |r.reports| ==>
                   r.reports[k] == ProcessFile(SchemaFiles(listing)[k], read, reply(k))
  {
    if !directoryExists {
      return DirectoryMissing;
    }
    var reports: seq<FileReport> := [];
    ghost var files: seq<string> := [];
    for i := 0 to |listing|
      invariant files == SchemaFiles(listing[..i])
      invariant reports == Reports(files, read, reply)
    {
      var name := listing[i];
      SchemaFilesStep(listing, i);
      if !IsSchemaFile(name) {
        continue;
      }
      var report := HandleFile(name, read, reply(|reports|));
      assert (files + [name])[..|files|] == files;
      reports := reports + [report];
      files := files + [name];
    }
    assert listing[..|listing|] == listing;
    return Finished(reports);
  }

  // ---------------------------------------------------------------------------
  // Properties of file selection and artifact ids

  /** A schema file's artifact id is its name without the last five characters
      (the extension, in whatever case it was written), unless only dots
      precede the extension, in which case the whole name is kept. */
  lemma ArtifactIdOfSchemaFile(name: string)
    requires IsSchemaFile(name)
    ensures var stem := name[..|name| - |SCHEMA_EXTENSION|];
            ArtifactId(name) == if exists i :: 0 <= i < |stem| && stem[i] != '.' then stem else name
  {
    var n := |name| - |SCHEMA_EXTENSION|;
    assert Lower(name)[n..] == SCHEMA_EXTENSION;
    assert Lower(name)[n] == '.';
    assert name[n] == '.';
    forall j | n < j < |name|
      ensures name[j] != '.'
    {
      assert Lower(name)[j] == SCHEMA_EXTENSION[j - n];
    }
    assert LastIndexOf(name, '.') == n;
  }

  /** A schema file is a name that ends in a dot and the letters a, v, s, c,
      each in either case. */
  lemma SchemaFileSuffix(name: string)
    ensures IsSchemaFile(name) <==>
              |name| >= 5 && name[|name| - 5] == '.' &&
              name[|name| - 4] in "aA" && name[|name| - 3] in "vV" &&
              name[|name| - 2] in "sS" && name[|name| - 1] in "cC"
  {
    if |name| >= 5 {
      var n := |name| - 5;
      var tail := Lower(name)[n..];
      assert tail == [LowerChar(name[n]), LowerChar(name[n + 1]), LowerChar(name[n + 2]),
                      LowerChar(name[n + 3]), LowerChar(name[n + 4])];
    }
  }

  /** Lower-casing twice is lower-casing once, so a name is a schema file
      exactly when its lower-cased form is. */
  lemma {:induction false} SchemaFileIgnoresCase(name: string)
    ensures Lower(Lower(name)) == Lower(name)
    ensures IsSchemaFile(Lower(name)) <==> IsSchemaFile(name)
  {
    assert forall i :: 0 <= i < |name| ==> LowerChar(Lower(name)[i]) == Lower(name)[i];
  }

  /** How the names of a three-file directory are classified. */
  lemma ExampleNamesClassified()
    ensures IsSchemaFile("a.avsc") && IsSchemaFile("b.avsc") && !IsSchemaFile("c.txt")
  {
    SchemaFileSuffix("a.avsc");
    SchemaFileSuffix("b.avsc");
    SchemaFileSuffix("c.txt");
  }

  /** The selection of that directory: only the two schema files are picked,
      in listing order. */
  lemma SelectionExample()
    ensures SchemaFiles(["a.avsc", "b.avsc", "c.txt"]) == ["a.avsc", "b.avsc"]
  {
    var listing := ["a.avsc", "b.avsc", "c.txt"];
    ExampleNamesClassified();
    assert listing[..2] == ["a.avsc", "b.avsc"];
    assert listing[..2][..1] == ["a.avsc"];
    assert listing[..2][..1][..0] == [];
  }

  /** The artifact id of a lower-case schema file: the extension goes. */
  lemma ArtifactIdExample()
    ensures ArtifactId("a.avsc") == "a"
  {
    SchemaFileSuffix("a.avsc");
    ArtifactIdOfSchemaFile("a.avsc");
    assert "a.avsc"[..1] == "a" && "a"[0] != '.';
  }

  /** The artifact id of an upper-case schema file: the extension goes, in
      whatever case, and the case of the rest stays. */
  lemma ArtifactIdKeepsCase()
    ensures ArtifactId("Orders.AVSC") == "Orders"
  {
    SchemaFileSuffix("Orders.AVSC");
    ArtifactIdOfSchemaFile("Orders.AVSC");
    assert "Orders.AVSC"[..6] == "Orders" && "Orders"[0] != '.';
  }
}
