/** Properties of the SQLite provider's file name extraction and validation that relate
    several calls or fix concrete connection strings. */
module ProviderProperties {
  import opened DotNetString
  import opened SqliteProvider

  /** Only the text between the first '=' and the next ';' is read: the name is that
      text, trimmed. */
  lemma FieldDeterminesName(prefix: string, field: string, rest: string)
    requires '=' !in prefix && ';' !in field
    ensures ExtractFileName(prefix + ['='] + field + [';'] + rest) == Ok(Trim(field))
  {
    var tail := field + [';'] + rest;
    var cs := prefix + ['='] + tail;
    assert cs == prefix + ['='] + field + [';'] + rest;
    IndexOfAfterPrefix(prefix, '=', tail);
    assert FieldStart(cs) == |prefix| + 1;
    assert cs[FieldStart(cs)..] == tail;
    IndexOfAfterPrefix(field, ';', rest);
    assert tail[..|field|] == field;
  }

  /** Changing anything before the first '=' or after the ';' that ends the file name
      leaves the extracted name unchanged. */
  lemma ExtractIgnoresTextOutsideField(prefix1: string, prefix2: string, field: string,
                                       rest1: string, rest2: string)
    requires '=' !in prefix1 && '=' !in prefix2 && ';' !in field
    ensures ExtractFileName(prefix1 + ['='] + field + [';'] + rest1)
         == ExtractFileName(prefix2 + ['='] + field + [';'] + rest2)
  {
    FieldDeterminesName(prefix1, field, rest1);
    FieldDeterminesName(prefix2, field, rest2);
  }

  /** With no '=' at all extraction starts at index 0, so the name is the trimmed text
      before the first ';'. */
  lemma NoEqualsSignUsesWholeString(field: string, rest: string)
    requires '=' !in field && '=' !in rest && ';' !in field
    ensures ExtractFileName(field + [';'] + rest) == Ok(Trim(field))
  {
    var cs := field + [';'] + rest;
    assert '=' !in cs;
    assert FieldStart(cs) == 0;
    assert cs[FieldStart(cs)..] == cs;
    IndexOfAfterPrefix(field, ';', rest);
    assert cs[..|field|] == field;
  }

  /** A string is the part before position j, the character at j, and the part after. */
  lemma SplitAround(s: string, j: nat)
    requires j < |s|
    ensures s == s[..j] + [s[j]] + s[j + 1..]
  {
  }

  /** Re-brackets a string built from a prefix, '=', and a tail that is itself cut at ';'. */
  lemma JoinAtEquals(prefix: string, tail: string, field: string, rest: string)
    requires tail == field + [';'] + rest
    ensures prefix + ['='] + tail == prefix + ['='] + field + [';'] + rest
  {
  }

  /** Cuts a connection string that has a ';' after its start point into the text
      before the first '=', the field up to the next ';', and the rest. */
  lemma FieldParts(cs: string) returns (prefix: string, field: string, rest: string)
    requires ';' in cs[FieldStart(cs)..]
    ensures field == cs[FieldStart(cs)..][..IndexOf(cs[FieldStart(cs)..], ';')]
    ensures ';' !in field
    ensures '=' in cs ==> cs == prefix + ['='] + field + [';'] + rest && '=' !in prefix
    ensures '=' !in cs ==> cs == field + [';'] + rest
  {
    var start := FieldStart(cs);
    var tail := cs[start..];
    var semicolon := IndexOf(tail, ';');
    field, rest := tail[..semicolon], tail[semicolon + 1..];
    SplitAround(tail, semicolon);
    if start > 0 {
      prefix := cs[..start - 1];
      SplitAround(cs, start - 1);
      assert cs[start - 1 + 1..] == tail;
      JoinAtEquals(prefix, tail, field, rest);
    } else {
      prefix := [];
      assert cs == tail;
    }
  }

  /** Every extracted name comes from one of the two shapes above: the trimmed text
      between the first '=' and the next ';', or, with no '=' at all, the trimmed text
      before the first ';'. */
  lemma ExtractedNameHasFieldShape(cs: string, name: string)
    requires ExtractFileName(cs) == Ok(name)
    ensures '=' in cs ==> exists prefix, field, rest ::
      cs == prefix + ['='] + field + [';'] + rest &&
      '=' !in prefix && ';' !in field && name == Trim(field)
    ensures '=' !in cs ==> exists field, rest ::
      cs == field + [';'] + rest && ';' !in field && name == Trim(field)
  {
    var prefix, field, rest := FieldParts(cs);
    assert name == Trim(field);
  }

  /** The connection string the program ships with, and the file it names. */
  const ShippedConnectionString: string := "Data Source=Files\\WheelMud.net.db;Version=3;"
  const ShippedFileName: string := "Files\\WheelMud.net.db"

  /** The shipped connection string split at its first '=' and the ';' after it. */
  lemma ShippedConnectionStringParts()
    ensures ShippedConnectionString == "Data Source" + ['='] + ShippedFileName + [';'] + "Version=3;"
    ensures '=' !in "Data Source" && ';' !in ShippedFileName && IsTrimmed(ShippedFileName)
  {
  }

  /** The shipped connection string names its database file. */
  lemma ExampleConnectionString()
    ensures ExtractFileName(ShippedConnectionString) == Ok(ShippedFileName)
  {
    ShippedConnectionStringParts();
    FieldDeterminesName("Data Source", ShippedFileName, "Version=3;");
    TrimOfTrimmed(ShippedFileName);
  }

  /** A connection string with neither delimiter. */
  const NoDelimiters: string := "garbage-no-delimiters"

  /** A string without '=' and ';' is rejected before any file is looked at. */
  lemma ExampleWithoutDelimiters(files: FileSystem)
    ensures ExtractFileName(NoDelimiters) == Err(MalformedConnectionString)
    ensures OpenSession(Some(NoDelimiters), files) == Err(MalformedConnectionString)
  {
    assert '=' !in NoDelimiters && ';' !in NoDelimiters;
    assert NoDelimiters[FieldStart(NoDelimiters)..] == NoDelimiters;
  }

  /** The three outcomes of opening a session on the shipped connection string: a
      non-empty file opens, a missing one and an empty one are refused by name. */
  lemma ExampleSessions(length: int)
    ensures OpenSession(Some(ShippedConnectionString), map[]) == Err(FileNotFound(ShippedFileName))
    ensures length <= 0 ==>
      OpenSession(Some(ShippedConnectionString), map[ShippedFileName := length]) == Err(FileLoad(ShippedFileName))
    ensures length > 0 ==>
      OpenSession(Some(ShippedConnectionString), map[ShippedFileName := length])
      == Ok(Session(ShippedConnectionString, SqliteDialect, true))
  {
    ExampleConnectionString();
    assert ShippedFileName != "";
  }

  /** Validation inspects only the extracted file: two file systems that agree on it
      give the same verdict. */
  lemma ValidationReadsOnlyNamedFile(cs: string, files1: FileSystem, files2: FileSystem)
    requires ExtractFileName(cs).Ok?
    requires var name := ExtractFileName(cs).value;
      (name in files1 <==> name in files2) && (name in files1 ==> files1[name] == files2[name])
    ensures VerifyValidSqLiteFile(Some(cs), files1) == VerifyValidSqLiteFile(Some(cs), files2)
  {
  }
}
