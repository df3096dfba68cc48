/**
 * `ConnectionFactoryImpl`: the connection URL names the document format
 * and the file, as "excel:file:<name>" or "xls:file:<name>" for the binary
 * format and "ooxml:file:<name>" for the XML format.  The factory's
 * managed connections open that file in that format.
 */
module Connection {
  import opened Outcomes
  import opened JavaText

  /** What the constructor keeps: the file name and whether the document is OOXML. */
  datatype ConnectionFactory = ConnectionFactory(filename: string, ooxml: bool)

  /** The two kinds of managed connection, each over its file. */
  datatype ManagedConnection = XlsManagedConnection(file: string) | OoxmlManagedConnection(file: string)

  /**
   * The constructor's parse: no URL, an unknown prefix, or a remainder not
   * starting with "file:" is refused; the filename is everything after
   * "file:".
   */
  function ParseUrl(url: Option<string>): (r: Result<ConnectionFactory>)
    ensures url.None? ==> r == Failure(MissingUrl)
    ensures r.Failure? && url.Some? ==> r.fault == InvalidUrl(url.value)
    ensures r.Success? ==> (r.value.ooxml <==> StartsWith(url.value, "ooxml:"))
  {
    if url.None? then Failure(MissingUrl)
    else
      var u := url.value;
      if StartsWith(u, "excel:") then AfterPrefix(u, u[6..], false)
      else if StartsWith(u, "ooxml:") then AfterPrefix(u, u[6..], true)
      else if StartsWith(u, "xls:") then AfterPrefix(u, u[4..], false)
      else Failure(InvalidUrl(u))
  }

  /** The rest of URL `u` after its prefix must start with "file:"; the filename is what follows. */
  function AfterPrefix(u: string, rest: string, ooxml: bool): (r: Result<ConnectionFactory>)
    ensures r.Failure? ==> r.fault == InvalidUrl(u)
  {
    if !StartsWith(rest, "file:") then Failure(InvalidUrl(u))
    else Success(ConnectionFactory(rest[5..], ooxml))
  }

  /** `createManagedConnection`: an OOXML connection exactly when the URL said "ooxml:". */
  function CreateManagedConnection(f: ConnectionFactory): (c: ManagedConnection)
    ensures c.OoxmlManagedConnection? <==> f.ooxml
    ensures c.file == f.filename
  {
    if f.ooxml then OoxmlManagedConnection(f.filename) else XlsManagedConnection(f.filename)
  }

  /** The prefixes the constructor accepts, and the format each selects. */
  predicate FormatPrefix(prefix: string, ooxml: bool)
  {
    (prefix == "excel:" && !ooxml) || (prefix == "xls:" && !ooxml) || (prefix == "ooxml:" && ooxml)
  }

  /** Any accepted prefix, then "file:", then a name parses back to that name and format. */
  lemma ParseComposed(prefix: string, ooxml: bool, filename: string)
    requires FormatPrefix(prefix, ooxml)
    ensures ParseUrl(Some(prefix + "file:" + filename)) == Success(ConnectionFactory(filename, ooxml))
  {
    var u := prefix + "file:" + filename;
    assert u[..|prefix|] == prefix;
    assert u[|prefix|..] == "file:" + filename;
    assert (u[|prefix|..])[5..] == filename;
    if prefix == "xls:" {
      assert u[..6] != "excel:" && u[..6] != "ooxml:" by {
        assert u[0] == 'x';
      }
    } else if prefix == "ooxml:" {
      assert u[..6] != "excel:" by {
        assert u[0] == 'o';
      }
    }
  }

  /** Conversely, every URL the constructor accepts is an accepted prefix, "file:" and the filename. */
  lemma ParsedIsComposed(url: string)
    requires ParseUrl(Some(url)).Success?
    ensures var f := ParseUrl(Some(url)).value;
            exists prefix :: FormatPrefix(prefix, f.ooxml) && url == prefix + "file:" + f.filename
  {
    var f := ParseUrl(Some(url)).value;
    var prefix := if StartsWith(url, "excel:") then "excel:" else if StartsWith(url, "ooxml:") then "ooxml:" else "xls:";
    var rest := url[|prefix|..];
    assert url == prefix + rest;
    assert rest == "file:" + f.filename;
    assert FormatPrefix(prefix, f.ooxml);
  }
}
