/** Rows of the csv files the scraper appends to, what Python 2's csv writer can
    serialise, and the directory of output files as a map from file name to rows. */
module Csv {

  datatype Option<+T> = None | Some(value: T)

  /** One cell handed to `writer.writerow`: a string, or a list of strings that the
      writer turns into text with `str()` of the list. */
  datatype Cell = Text(s: string) | Items(items: seq<string>)

  type Row = seq<Cell>

  /** Python 2's csv writer converts a unicode cell with the ASCII codec. */
  predicate Ascii(s: string)
  {
    forall i :: 0 <= i < |s| ==> s[i] as int < 128
  }

  /** A cell the writer can serialise without raising. The text of a list is its
      `repr`, which escapes every non-ASCII character, so a list cell never fails. */
  predicate Encodable(c: Cell)
  {
    match c
    case Text(s) => Ascii(s)
    case Items(_) => true
  }

  /** `writerow` builds the whole line before writing it, so a row with one bad cell
      writes nothing at all. */
  predicate RowEncodable(row: Row)
  {
    forall i :: 0 <= i < |row| ==> Encodable(row[i])
  }

  /** The rows of a file; a file that was never written reads as empty. */
  function FileRows(files: map<string, seq<Row>>, name: string): seq<Row>
  {
    if name in files then files[name] else []
  }

  /** The directory after `rows` were appended to file `name` (a file opened
      with mode 'a'): every other file is untouched. */
  function Appended(files: map<string, seq<Row>>, name: string, rows: seq<Row>): (f: map<string, seq<Row>>)
    ensures FileRows(f, name) == FileRows(files, name) + rows
  {
    if rows == [] then files else files[name := FileRows(files, name) + rows]
  }

  /** Appending to one file leaves every other file as it was, and adds the file
      to the directory exactly when something is written to it. */
  lemma AppendedElsewhere(files: map<string, seq<Row>>, name: string, rows: seq<Row>)
    ensures forall n :: n != name ==> FileRows(Appended(files, name, rows), n) == FileRows(files, n)
    ensures Appended(files, name, rows).Keys == if rows == [] then files.Keys else files.Keys + {name}
  {
  }

  /** Two appends to one file are one append of both, in order. */
  lemma AppendedTwice(files: map<string, seq<Row>>, name: string, a: seq<Row>, b: seq<Row>)
    ensures Appended(Appended(files, name, a), name, b) == Appended(files, name, a + b)
  {
    if a == [] {
      assert a + b == b;
    } else if b == [] {
      assert a + b == a;
    } else {
      assert FileRows(files, name) + a + b == FileRows(files, name) + (a + b);
    }
  }
}
