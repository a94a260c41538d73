/** WheelMudSqliteProvider: before opening a SQLite connection, pull the database file
    name out of the connection string and refuse a file that is missing or empty.

    The file system is a map from file name to file length: a name that is not a key
    does not exist. The connection factory of the ORM library is represented by the
    arguments it is constructed with; a Session value stands for the connection that
    factory opens. */
module SqliteProvider {
  import opened DotNetString

  /** Why a session could not be created; each constructor is an exception the source
      lets escape, reduced to its kind and the file name it reports. */
  datatype SessionError =
    | NullConnectionString           // NullReferenceException: ConnectionString never set
    | MalformedConnectionString      // ArgumentOutOfRangeException from Substring(0, -1)
    | EmptyPath                      // ArgumentException from new FileInfo("")
    | FileNotFound(fileName: string) // FileNotFoundException "SQLite file is missing"
    | FileLoad(fileName: string)     // FileLoadException "SQLite file is unexpectedly empty"

  /** A C# string reference, which may be null. */
  datatype Option<T> = None | Some(value: T)

  datatype Result<T> = Ok(value: T) | Err(error: SessionError)

  datatype Outcome = Pass | Fail(error: SessionError)

  /** File name to length; absent names do not exist. */
  type FileSystem = map<string, int>

  /** The dialect descriptor handed to the connection factory. */
  datatype Dialect = SqliteDialect

  /** The connection opened by a factory built from these arguments. */
  datatype Session = Session(connectionString: string, dialect: Dialect, setGlobalDialectProvider: bool)

  /** Where the file name starts: one past the first '=', or 0 when there is none
      (IndexOf gives -1, and -1 + 1 is 0). Never past the end, so the first
      Substring cannot fail. */
  function FieldStart(cs: string): (r: nat)
    ensures r <= |cs|
    ensures r == 0 <==> '=' !in cs
    ensures r > 0 ==> cs[r - 1] == '=' && '=' !in cs[..r - 1]
  {
    IndexOf(cs, '=') + 1
  }

  /** The file name of a connection string: the text after the first '=', cut at the
      next ';', with surrounding white space trimmed. Without a ';' there the source's
      Substring(0, -1) throws. */
  function ExtractFileName(cs: string): (r: Result<string>)
    ensures r.Err? <==> ';' !in cs[FieldStart(cs)..]
    ensures r.Err? ==> r.error == MalformedConnectionString
    ensures r.Ok? ==> ';' !in r.value && IsTrimmed(r.value)
  {
    var rest := cs[FieldStart(cs)..];
    var semicolon := IndexOf(rest, ';');
    if semicolon < 0 then Err(MalformedConnectionString)
    else
      var name := Trim(rest[..semicolon]);
      assert ';' !in name by {
        if ';' in name { TrimKeepsOnlyInputChars(rest[..semicolon], ';'); }
      }
      Ok(name)
  }

  /** VerifyValidSqLiteFile: the checks run before a connection is opened, in the
      source's order: the string itself, the name, existence, then length. */
  function VerifyValidSqLiteFile(cs: Option<string>, files: FileSystem): (r: Outcome)
    ensures r == Pass <==>
      cs.Some? && ExtractFileName(cs.value).Ok? &&
      ExtractFileName(cs.value).value != "" &&
      ExtractFileName(cs.value).value in files &&
      files[ExtractFileName(cs.value).value] > 0
    ensures cs.None? ==> r == Fail(NullConnectionString)
    ensures cs.Some? && ExtractFileName(cs.value).Err? ==> r == Fail(MalformedConnectionString)
    ensures cs.Some? && ExtractFileName(cs.value).Ok? ==>
      var name := ExtractFileName(cs.value).value;
      (r == Fail(EmptyPath) <==> name == "") &&
      (r == Fail(FileNotFound(name)) <==> name != "" && name !in files) &&
      (r == Fail(FileLoad(name)) <==> name != "" && name in files && files[name] <= 0)
    ensures r.Fail? && (r.error.FileNotFound? || r.error.FileLoad?) ==>
      cs.Some? && ExtractFileName(cs.value) == Ok(r.error.fileName)
  {
    match cs
    case None => Fail(NullConnectionString)
    case Some(s) =>
      match ExtractFileName(s)
      case Err(e) => Fail(e)
      case Ok(name) =>
        if name == "" then Fail(EmptyPath)
        else if name !in files then Fail(FileNotFound(name))
        else if files[name] <= 0 then Fail(FileLoad(name))
        else Pass
  }

  /** CreateDatabaseSession: validate, and only when that passes build the connection
      factory from the connection string, the SQLite dialect and the flag true. */
  function OpenSession(cs: Option<string>, files: FileSystem): (r: Result<Session>)
    ensures r.Ok? <==> VerifyValidSqLiteFile(cs, files) == Pass
    ensures r.Ok? ==> cs.Some? && r.value == Session(cs.value, SqliteDialect, true)
    ensures r.Err? ==> VerifyValidSqLiteFile(cs, files) == Fail(r.error)
  {
    match VerifyValidSqLiteFile(cs, files)
    case Fail(e) => Err(e)
    case Pass => Ok(Session(cs.value, SqliteDialect, true))
  }

  /** The provider: a connection string that callers read and assign freely, and the
      engine label, which is the same whatever the connection string holds. */
  class WheelMudSqliteProvider {
    var connectionString: Option<string>

    /** The engine label. It reads no state, so it is the same for every instance,
        whatever the connection string holds and whether it is set at all. */
    function DatabaseName(): (name: string)
      ensures name == "SQLite"
    {
      "SQLite"
    }

    /** Leaves the connection string null. */
    constructor ()
      ensures connectionString == None
    {
      connectionString := None;
    }

    constructor WithConnectionString(cs: string)
      ensures connectionString == Some(cs)
    {
      connectionString := Some(cs);
    }

    /** Validates the file named by the current connection string and only then opens
        a connection through the factory. */
    method CreateDatabaseSession(files: FileSystem) returns (r: Result<Session>)
      ensures r == OpenSession(connectionString, files)
      ensures r.Ok? ==> r.value.connectionString == connectionString.value
    {
      r := OpenSession(connectionString, files);
    }
  }
}
