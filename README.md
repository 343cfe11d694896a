# Schema loader: metadata injection, create-or-version upload, per-file loop

This project is a Dafny model of the schema loader in
`data-sources/mongodb/v1/transformation/utilities/load_schemas.py`. The loader
lists a directory of Avro schema files and picks out the `.avsc` ones. For each
one it derives an artifact id and parses the schema. It appends the four common
metadata fields (`first_seen_date`, `ingestion_date`, `transformation_date`,
`source_system`) that the schema lacks. It then uploads the result to the
registry group `asel-schemas.processed-schemas`: it tries to create the
artifact, and on a 409 conflict it appends a new version instead.

Modules, one file each:

- `Json` (`json.dfy`): a parsed JSON value, the Python exceptions that can end
  the handling of one file, and a `Result` type.
- `MetadataInjection` (`metadata.dfy`): the metadata field list and the
  injection. `Injected` states the injection as a function on values.
  `InjectMetadataFields` is the source's loop over the metadata fields,
  proved equal to `Injected`. Lemmas prove what the injection promises.
- `RegistryUpload` (`registry.dfy`): the create-or-version decision over the
  status codes the registry returns, with the requests it issues.
- `SchemaLoader` (`loader.dfy`): the file filter and artifact-id derivation.
  It also holds `LoadSchemas`, the main loop. Each selected file is handled
  on its own, so a failure on one file does not stop the others.

The file system and the registry are parameters. `read(name)` gives the parsed
contents of a file, or the exception that reading or parsing raised.
`reply(k)(request)` gives the status code the registry returns for a request
sent while handling the k-th schema file.

Two behaviours of the code that are easy to misread:

- Only 200, 201 and 409 lead anywhere but failure, yet not every failure
  raises. The code calls `raise_for_status`, which raises only for 4xx and
  5xx. A reply such as 202 or 204 is printed as an error, but no exception is
  raised, and the file then counts as handled normally. The model keeps that
  outcome as `Ok(CreateFailed(s))` or `Ok(VersionFailed(s))` and raises
  `HTTPError(s)` only for 400 to 599 (`Upload.Raised`).
- The artifact id comes from `os.path.splitext`, which ignores leading dots.
  So `.avsc` and `..avsc` keep their whole name as the id
  (`ArtifactIdOfSchemaFile`).

## Model

| member | source | states |
|---|---|---|
| `MetadataInjection.FieldsArray` | data-sources/mongodb/v1/transformation/utilities/load_schemas.py:46-47 | the guard accepts exactly a dict with a list under `fields` and yields that list; a dict that fails it raises the ValueError with the source's message |
| `MetadataInjection.FieldName` | data-sources/mongodb/v1/transformation/utilities/load_schemas.py:49 | a field name is taken exactly when the field is a dict with a hashable `name`, and it is that value; a dict without `name` raises KeyError, anything else TypeError |
| `MetadataInjection.FieldNames` | data-sources/mongodb/v1/transformation/utilities/load_schemas.py:49 | the name set is built exactly when every field has a hashable name; otherwise the exception is that of the first field, in order, whose name cannot be taken |
| `MetadataInjection.FieldNamesMembers` | data-sources/mongodb/v1/transformation/utilities/load_schemas.py:49 | the collected set holds exactly the names of the schema's fields |
| `MetadataInjection.Injected` | data-sources/mongodb/v1/transformation/utilities/load_schemas.py:42-54 | a failed guard or name lookup is the result, with nothing appended; on success, every key of the schema other than `fields` is unchanged |
| `MetadataInjection.InjectMetadataFields` | data-sources/mongodb/v1/transformation/utilities/load_schemas.py:42-54 | the in-place append loop computes exactly `Injected` of the schema |
| `MetadataInjection.Missing` | data-sources/mongodb/v1/transformation/utilities/load_schemas.py:50-52 | the loop appends no more fields than the metadata list has, and each one appended is the record of a metadata field whose name was absent |
| `MetadataInjection.MetaFieldName` | data-sources/mongodb/v1/transformation/utilities/load_schemas.py:13-34 | each metadata record carries its own name under `name` |
| `MetadataInjection.MissingSelectsAbsent` | data-sources/mongodb/v1/transformation/utilities/load_schemas.py:50-52 | the loop appends exactly the metadata fields whose names were absent, at ascending positions of the canonical list |
| `MetadataInjection.MissingNames` | data-sources/mongodb/v1/transformation/utilities/load_schemas.py:50-52 | the appended fields' names are exactly the absent metadata names |
| `MetadataInjection.MissingCount` | data-sources/mongodb/v1/transformation/utilities/load_schemas.py:50-52 | with distinct metadata names, the loop appends one field per absent name, never more fields than the list has |
| `MetadataInjection.InjectFailsExactlyOnInvalidFields` | data-sources/mongodb/v1/transformation/utilities/load_schemas.py:46-49 | injection fails if and only if there is no `fields` list or some field's name cannot be taken |
| `MetadataInjection.InjectAppendsAbsentMetadata` | data-sources/mongodb/v1/transformation/utilities/load_schemas.py:49-52 | the original fields are an unchanged, in-order prefix of the result; the suffix is exactly the absent metadata fields, in canonical order |
| `MetadataInjection.InjectCompletesMetadata` | data-sources/mongodb/v1/transformation/utilities/load_schemas.py:49-52 | afterwards all four metadata names are present and the old names are kept; no name other than a metadata name has appeared |
| `MetadataInjection.InjectIdempotent` | data-sources/mongodb/v1/transformation/utilities/load_schemas.py:42-54 | injecting into an injected schema returns it unchanged |
| `MetadataInjection.InjectLength` | data-sources/mongodb/v1/transformation/utilities/load_schemas.py:50-52 | the field list grows by the number of absent metadata names, which is at most 4 |
| `RegistryUpload.CreateOrUpdate` | data-sources/mongodb/v1/transformation/utilities/load_schemas.py:57-84 | the first request is always the create POST. A second request is sent exactly on a 409, and it is the versions POST. 200/201 on create means created. 409 then 200/201 means version appended. A failure carries the status of the last reply, and it is the versions POST's failure exactly when two requests were sent |
| `RegistryUpload.RaisesForStatus` | data-sources/mongodb/v1/transformation/utilities/load_schemas.py:79-84 | `raise_for_status` raises exactly for the 4xx and 5xx classes, never for 200 or 201 |
| `RegistryUpload.Upload.Raised` | data-sources/mongodb/v1/transformation/utilities/load_schemas.py:79-84 | the upload raises exactly when it failed, on either request, with a status from 400 to 599 |
| `RegistryUpload.OutcomeFollowsLastReply` | data-sources/mongodb/v1/transformation/utilities/load_schemas.py:67-84 | the upload succeeds iff the last reply is 200/201; it raises iff that reply is 4xx/5xx |
| `RegistryUpload.OtherFirstStatusFails` | data-sources/mongodb/v1/transformation/utilities/load_schemas.py:82-84 | a first status other than 200, 201 and 409 sends one request only and fails with that status |
| `SchemaLoader.LowerChar` | data-sources/mongodb/v1/transformation/utilities/load_schemas.py:93 | lower-casing changes a character exactly when it is an upper-case ASCII letter, moving it to its lower-case letter; no result is an upper-case ASCII letter |
| `SchemaLoader.Lower` | data-sources/mongodb/v1/transformation/utilities/load_schemas.py:93 | `lower()` keeps the length and lower-cases each character in place |
| `SchemaLoader.SchemaFileSuffix` | data-sources/mongodb/v1/transformation/utilities/load_schemas.py:93 | a name is a schema file iff it ends in a dot followed by a, v, s, c, each in either case |
| `SchemaLoader.SchemaFileIgnoresCase` | data-sources/mongodb/v1/transformation/utilities/load_schemas.py:93 | lower-casing is idempotent, so a name and its lower-cased form are both schema files or both not |
| `SchemaLoader.SchemaFiles` | data-sources/mongodb/v1/transformation/utilities/load_schemas.py:92-94 | a name is selected iff it is listed and its lower-cased form ends in `.avsc` |
| `SchemaLoader.LastIndexOf` | data-sources/mongodb/v1/transformation/utilities/load_schemas.py:96 | the position `splitext` splits at is the last dot of the name, or -1 when there is none |
| `SchemaLoader.ArtifactIdOfSchemaFile` | data-sources/mongodb/v1/transformation/utilities/load_schemas.py:96 | a schema file's id is its name without the five-character extension, unless only dots precede the extension |
| `SchemaLoader.ArtifactId` | data-sources/mongodb/v1/transformation/utilities/load_schemas.py:96 | `splitext`'s root: the id is a prefix of the name, never case-mapped. When it is shorter, it stops at the last dot and holds a character other than a dot; when it is the whole name, only dots precede the last dot |
| `SchemaLoader.ExampleNamesClassified` | data-sources/mongodb/v1/transformation/utilities/load_schemas.py:93 | `a.avsc` and `b.avsc` are schema files and `c.txt` is not |
| `SchemaLoader.SelectionExample` | data-sources/mongodb/v1/transformation/utilities/load_schemas.py:92-94 | of `a.avsc`, `b.avsc`, `c.txt` only the first two are selected, in order |
| `SchemaLoader.ArtifactIdExample` | data-sources/mongodb/v1/transformation/utilities/load_schemas.py:96 | `a.avsc` gives id `a` |
| `SchemaLoader.ArtifactIdKeepsCase` | data-sources/mongodb/v1/transformation/utilities/load_schemas.py:96 | `Orders.AVSC` gives id `Orders`: the extension goes in whatever case, the rest keeps its case |
| `SchemaLoader.ProcessFile` | data-sources/mongodb/v1/transformation/utilities/load_schemas.py:96-108 | a file sends requests iff it is read and its injection succeeds. A read or injection failure is the file's caught exception. Otherwise the requests are exactly create-or-version's, with the enriched schema as the body, under the file's artifact id in the processed group; a 4xx/5xx failure is the HTTPError with that status, any other outcome is returned normally |
| `SchemaLoader.HandleFile` | data-sources/mongodb/v1/transformation/utilities/load_schemas.py:99-108 | the read, inject and upload steps of the `try` compute exactly `ProcessFile` of the file |
| `SchemaLoader.Reports` | data-sources/mongodb/v1/transformation/utilities/load_schemas.py:92-108 | there is one report per schema file, in order. The k-th report depends only on the k-th file, its contents and the replies to its own requests |
| `SchemaLoader.LoadSchemas` | data-sources/mongodb/v1/transformation/utilities/load_schemas.py:87-108 | a missing directory stops the run before any file. Otherwise every selected file gets its own report, in listing order, computed from that file alone, so one file's failure does not stop the rest |

## Left out

- JSON text: `json.loads` and `json.dumps(indent=2)` are library calls. A file's contents reach the model already parsed, and the upload body is the parsed value, not its text. JSON numbers are integers, since no number takes part in a decision.
- Python's equality across numbers and booleans inside the name set (`1 == True`): only string names are ever looked up, so it cannot change a decision.
- Lower-casing covers ASCII letters only. No other character lower-cases to any of `.avsc` (the only multi-character expansion, of `İ`, ends in a combining dot), so the file test is unaffected.
- `os.path.splitext` is modelled for names without a path separator, as directory entries are.
- The file system: `os.path.isdir` becomes the `directoryExists` parameter, `os.listdir` the `listing` sequence in whatever order it comes, and `open`/`read` the `read` parameter.
- HTTP: `requests.post` becomes the `reply` parameter, which gives every request a status code. Transport exceptions (refused connections, timeouts) are not modelled. Such an exception is caught per file like the others.
- Redirects: `requests.post` follows redirects, so `reply` stands for the status after that handling. The extra requests a redirect causes are not among the model's one or two requests per file.
- A failing `os.listdir` (for example a permission error): it runs outside the per-file `try`, so it ends `main` with an exception. The model has no such outcome; when the directory exists it always returns `Finished`.
- Printing, the `sys.exit` message, and the one-second `time.sleep` after each file that completes without an exception.
- The registry's own behaviour (what it stores, when it answers 409).
- `reset_schema_registry.py`: it is straight-line HTTP GET/DELETE calls with printing and `exit`. It has no logic beyond a status-code test.
