# WheelMUD SQLite provider: connection-string validation

WheelMUD's `WheelMudSqliteProvider` hands out SQLite connections through the ORMLite
connection factory. Before it opens a connection, `CreateDatabaseSession` calls
`VerifyValidSqLiteFile`. That check takes the database file name from the connection
string: the text after the first `=`, cut at the next `;`, trimmed. It then refuses a file
that does not exist or whose length is not positive. This project models that check and
the verify-then-open order in Dafny, and proves what each outcome means.

Files:

- `dotnet_string.dfy`, module `DotNetString`: the .NET string operations the check uses.
  These are `String.IndexOf(char)` (which returns -1 when the character is absent),
  `String.Trim()` and `Char.IsWhiteSpace`. `Substring` becomes slicing. The slice bounds
  Dafny proves are the range checks under which `Substring` would throw.
- `sqlite_provider.dfy`, module `SqliteProvider`: file-name extraction, the validation
  decision, session opening, and the provider class.
  - The file system is a parameter: a map from file name to length. A name that is not a
    key does not exist.
  - The connection factory is represented by the arguments it is built from:
    `Session(connectionString, SqliteDialect, true)`.
  - A null C# string is `None` of `Option<string>`.
  - The exceptions the source lets escape become `SessionError` values.
- `provider_properties.dfy`, module `ProviderProperties`: the properties that relate
  several inputs, plus the connection string the program ships with
  (`Data Source=Files\WheelMud.net.db;Version=3;`).

Behaviour on input the source does not handle:

- No `=` in the connection string: `IndexOf('=') + 1` is 0, so the whole string is
  searched for `;`.
- No `;` after that point: `Substring(0, -1)` throws `ArgumentOutOfRangeException`. The
  model returns `Err(MalformedConnectionString)`. This is the same point of failure with
  the same consequence: no file is inspected and no connection is opened.
- A connection string that was never set is null. `IndexOf` then throws
  `NullReferenceException`, modelled as `NullConnectionString`.
- A name that trims to the empty string makes `new FileInfo("")` throw
  `ArgumentException`. This is modelled as `EmptyPath`, which is checked before
  existence.
- The empty-file error carries only the file name, because the source's message holds
  nothing else (no size).
- The third argument of the factory is the literal `true`. In ORMLite's constructor that
  parameter is `setGlobalDialectProvider`, so the field has that name.
- `DatabaseName` is a function of the class that reads no state. It is `"SQLite"`
  whatever the connection string holds.

## Model

| member | source | states |
|---|---|---|
| `DotNetString.WhiteSpaceCategories` | src/Data.Sqlite/WheelMudSqliteProvider.cs:52 | `IsWhiteSpace`, the test `Trim` applies, accepts exactly the Zs/Zl/Zp characters plus U+0009–U+000D and U+0085 |
| `DotNetString.IndexOf` | src/Data.Sqlite/WheelMudSqliteProvider.cs:51-52 | -1 exactly when the character is absent; otherwise an index holding the character with no earlier occurrence |
| `DotNetString.LeadingWhiteSpace` | src/Data.Sqlite/WheelMudSqliteProvider.cs:52 | the index of the first character that is not white space, or the length when every character is white space |
| `DotNetString.Trim` | src/Data.Sqlite/WheelMudSqliteProvider.cs:52 | the result is the piece of the input starting at its first non-white-space index; everything dropped before and after it is white space, and it neither starts nor ends with white space |
| `DotNetString.TrimOfTrimmed` | src/Data.Sqlite/WheelMudSqliteProvider.cs:52 | a string without white space at its ends is returned unchanged |
| `DotNetString.TrimIdempotent` | src/Data.Sqlite/WheelMudSqliteProvider.cs:52 | trimming twice gives the same as trimming once |
| `DotNetString.IndexOfAfterPrefix` | src/Data.Sqlite/WheelMudSqliteProvider.cs:51-52 | the character is found right after a prefix that lacks it |
| `SqliteProvider.FieldStart` | src/Data.Sqlite/WheelMudSqliteProvider.cs:51 | one past the first `=`; 0 exactly when there is no `=`; never past the end, so `Substring(start)` cannot throw |
| `SqliteProvider.ExtractFileName` | src/Data.Sqlite/WheelMudSqliteProvider.cs:50-52 | fails (malformed) exactly when no `;` follows the start point; a returned name contains no `;` and has no white space at either end |
| `SqliteProvider.VerifyValidSqLiteFile` | src/Data.Sqlite/WheelMudSqliteProvider.cs:43-61 | passes exactly when the string is set, a name is extracted, the name is non-empty, the file exists and its length is > 0; null gives the null error; malformed gives the malformed error; missing file gives FileNotFound(name); an existing file of length <= 0 gives FileLoad(name); both file errors carry the extracted name |
| `SqliteProvider.OpenSession` | src/Data.Sqlite/WheelMudSqliteProvider.cs:34-39 | a connection is produced exactly when validation passes, built from the connection string, the SQLite dialect and `true`; otherwise the validation error is returned unchanged |
| `SqliteProvider.WheelMudSqliteProvider.DatabaseName` | src/Data.Sqlite/WheelMudSqliteProvider.cs:32 | `"SQLite"` for every instance, whatever the connection string holds or whether it is set |
| `SqliteProvider.WheelMudSqliteProvider.constructor` | src/Data.Sqlite/WheelMudSqliteProvider.cs:21-23 | the connection string starts out null |
| `SqliteProvider.WheelMudSqliteProvider.WithConnectionString` | src/Data.Sqlite/WheelMudSqliteProvider.cs:25-28 | the connection string is the one given |
| `SqliteProvider.WheelMudSqliteProvider.CreateDatabaseSession` | src/Data.Sqlite/WheelMudSqliteProvider.cs:34-39 | returns what `OpenSession` gives for the provider's current connection string; a connection is built from that same string |
| `ProviderProperties.FieldDeterminesName` | src/Data.Sqlite/WheelMudSqliteProvider.cs:50-52 | for `prefix = field ; rest` with no `=` in prefix and no `;` in field, the name is the trimmed field |
| `ProviderProperties.ExtractIgnoresTextOutsideField` | src/Data.Sqlite/WheelMudSqliteProvider.cs:50-52 | changing the text before the first `=` or after the ending `;` leaves the result unchanged |
| `ProviderProperties.NoEqualsSignUsesWholeString` | src/Data.Sqlite/WheelMudSqliteProvider.cs:51 | without any `=`, the name is the trimmed text before the first `;` |
| `ProviderProperties.ExtractedNameHasFieldShape` | src/Data.Sqlite/WheelMudSqliteProvider.cs:50-52 | every extracted name `n` comes from a split `prefix = field ; rest` (no `=` in prefix, no `;` in field) or, when the string has no `=`, from `field ; rest` (no `;` in field), with `n` the trimmed field |
| `ProviderProperties.ExampleConnectionString` | src/Data.Sqlite/WheelMudSqliteProvider.cs:49-52 | `Data Source=Files\WheelMud.net.db;Version=3;` yields `Files\WheelMud.net.db` |
| `ProviderProperties.ExampleWithoutDelimiters` | src/Data.Sqlite/WheelMudSqliteProvider.cs:51-52 | a string with neither `=` nor `;` is malformed, and no file is consulted whatever the file system holds |
| `ProviderProperties.ExampleSessions` | src/Data.Sqlite/WheelMudSqliteProvider.cs:34-61 | for the shipped string: no file gives FileNotFound, length <= 0 gives FileLoad, positive length gives a connection |
| `ProviderProperties.ValidationReadsOnlyNamedFile` | src/Data.Sqlite/WheelMudSqliteProvider.cs:53-61 | two file systems that agree on the extracted file give the same verdict |

## Left out

- Real file-system access through `FileInfo` (line 53). Existence and length are the map
  parameter. Path forms that `FileInfo` rejects other than the empty path (illegal
  characters, over-long paths) are not modelled, because they depend on the platform and
  runtime version.
- `OrmLiteConnectionFactory`, `SqliteOrmLiteDialectProvider.Instance` and
  `OpenDbConnection` (lines 37-38) are third-party code. They become the `Session`
  value. Failures inside them (not a SQLite file, permission denied) are not modelled.
- The MEF `[Export]` registration (line 17) and the `IWheelMudRelationalDbProvider`
  interface are composition glue.
- Exception types and `string.Format` messages (lines 56, 60) are reduced to the error
  kind and the file name.
- `DotNetString.IsWhiteSpace` is a fixed table of the Unicode white-space characters
  that .NET's `Char.IsWhiteSpace` accepts. Dafny characters are Unicode scalar values,
  not UTF-16 code units, so unpaired surrogates are not represented. Older runtimes that
  also counted U+180E are not followed.
- `SqliteProvider.WheelMudSqliteProvider.WithConnectionString` takes a non-null string.
  Passing null in C# gives the same state as the parameterless constructor.
- The `ConnectionString` property's getter and setter are plain reads and assignments
  of the `connectionString` field. Concurrent assignment while a session is being
  created is not modelled.
