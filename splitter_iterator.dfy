/**
 * The delimited-file iterator (class SplitterIterator): its extraction step reads one
 * line with `fgets`, trims carriage returns and line feeds from both ends, splits the
 * line with `str_getcsv` and trims the enclosure character from both ends of every field.
 */
module Splitter {
  import opened Wrappers
  import opened PhpStrings
  import opened Csv
  import Cursor

  /** The characters the line trim removes: carriage return and line feed. */
  const LineEndings: set<char> := {'\r', '\n'}

  /** The per-field map of `getLine`: every field trimmed of the enclosure character at both ends. */
  function TrimFields(fields: seq<string>, enc: char): (r: seq<string>)
    ensures |r| == |fields|
    ensures forall i :: 0 <= i < |r| ==> r[i] == Trim(fields[i], {enc})
  {
    seq(|fields|, i requires 0 <= i < |fields| => Trim(fields[i], {enc}))
  }

  /** The default field delimiter of the constructor. */
  const DefaultDelimiter: char := ','
  /** The default enclosure character of the constructor. */
  const DefaultEnclosure: char := '"'

  /**
   * The record `getLine` makes of one raw line: never empty, and one field for every
   * field of the split of the line trimmed of its line endings.
   */
  function DecodeLine(raw: string, delim: char, enc: char): (r: seq<string>)
    ensures |r| >= 1
    ensures |r| == |StrGetCsv(Trim(raw, LineEndings), delim, enc)|
  {
    TrimFields(StrGetCsv(Trim(raw, LineEndings), delim, enc), enc)
  }

  /**
   * An extraction step that reads one line as `fgets` does and makes a record of it
   * with `decode`: the raw line runs from the position through the next '\n' (or to the
   * end of data), and the stream is left just past it.
   */
  function FgetsStep<R>(decode: string -> R): (step: Cursor.Step<R>)
    ensures Cursor.StepContract(step)
  {
    var step := (data: string, pos: nat) requires pos < |data| =>
      (decode(data[pos..LineEnd(data, pos)]), LineEnd(data, pos));
    assert forall data: string, pos: nat :: pos < |data| ==> step.requires(data, pos) && step(data, pos).1 == LineEnd(data, pos);
    step
  }

  /** The record a raw line decodes to, as a function value. */
  function Decoder(delim: char, enc: char): string -> seq<string>
  {
    (raw: string) => DecodeLine(raw, delim, enc)
  }

  /** `getLine` of SplitterIterator as an extraction step. */
  function SplitStep(delim: char, enc: char): (step: Cursor.Step<seq<string>>)
    ensures Cursor.StepContract(step)
  {
    FgetsStep(Decoder(delim, enc))
  }

  /**
   * The scan `fgets` performs: from `start`, up to and including the next '\n', or to the
   * end of the data; the result is the position just past the line.
   */
  method ScanLine(data: string, start: nat) returns (e: nat)
    requires start < |data|
    ensures e == LineEnd(data, start)
  {
    e := start;
    while e < |data| && data[e] != '\n'
      invariant start <= e <= |data|
      invariant forall k :: start <= k < e ==> data[k] != '\n'
    {
      e := e + 1;
    }
    if e < |data| {
      LineEndAt(data, start, e - start);
      e := e + 1;
    }
  }

  class SplitterIterator {
    /** The field delimiter. */
    const delim: char
    /** The enclosure (quote) character. */
    const enclosure: char
    /** The cursor state this iterator drives with its extraction step. */
    const cursor: Cursor.BaseIterator<seq<string>>

    /** Constructed on an opened file, with ',' and '"' as the defaults; nothing is read yet. */
    constructor (filename: string, data: string, delim: char := DefaultDelimiter, enclosure: char := DefaultEnclosure)
      ensures this.delim == delim && this.enclosure == enclosure
      ensures fresh(cursor) && cursor.Valid() && cursor.OnTrack() && cursor.Unstarted() && cursor.open
      ensures cursor.filename == filename && cursor.data == data
      ensures cursor.getLine == SplitStep(delim, enclosure)
    {
      this.delim := delim;
      this.enclosure := enclosure;
      cursor := new Cursor.BaseIterator(filename, data, SplitStep(delim, enclosure));
    }

    /**
     * `getLine()` called on its own: read the raw line with `fgets`, scanning up to and
     * including the next '\n', and decode it; the stream position moves past the line and
     * the cursor's index, record and flag are untouched. At the end of the data `fgets`
     * returns false, which decodes as the empty line, and the position stays. Without an
     * open handle, fail and change nothing. The cursor stays coherent and valid, so it can
     * still advance and rewind; its record log no longer follows the position.
     */
    method GetLine() returns (r: Result<seq<string>, Cursor.Error>)
      requires cursor.pos <= |cursor.data|
      modifies cursor`pos
      ensures old(cursor.Coherent()) ==> cursor.Coherent()
      ensures old(cursor.Valid()) ==> cursor.Valid()
      ensures r.Failure? <==> !cursor.open
      ensures r.Failure? ==> r.error == Cursor.NoResourceError && cursor.pos == old(cursor.pos)
      ensures r.Success? && old(cursor.pos) < |cursor.data| ==>
        && cursor.pos == LineEnd(cursor.data, old(cursor.pos))
        && r.value == DecodeLine(cursor.data[old(cursor.pos)..cursor.pos], delim, enclosure)
      ensures r.Success? && old(cursor.pos) == |cursor.data| ==>
        cursor.pos == old(cursor.pos) && r.value == [""]
    {
      if !cursor.open {
        return Failure(Cursor.NoResourceError);
      }
      var data := cursor.data;
      var start := cursor.pos;
      if start == |data| {
        EmptyLineRecord(delim, enclosure);
        return Success(DecodeLine("", delim, enclosure));
      }
      var e := ScanLine(data, start);
      cursor.pos := e;
      r := Success(DecodeLine(data[start..e], delim, enclosure));
    }
  }

  /** Construction on a file system: a missing file is a `ResourceOpenError`. */
  method OpenSplitter(files: map<string, string>, filename: string,
                      delim: char := DefaultDelimiter, enclosure: char := DefaultEnclosure)
    returns (r: Result<SplitterIterator, Cursor.Error>)
    ensures filename !in files <==> r.Failure?
    ensures r.Failure? ==> r.error == Cursor.ResourceOpenError(filename)
    ensures r.Success? ==>
      && fresh(r.value) && fresh(r.value.cursor)
      && r.value.delim == delim && r.value.enclosure == enclosure
      && r.value.cursor.Valid() && r.value.cursor.OnTrack() && r.value.cursor.Unstarted() && r.value.cursor.open
      && r.value.cursor.filename == filename && r.value.cursor.data == files[filename]
      && r.value.cursor.getLine == SplitStep(delim, enclosure)
  {
    if filename !in files {
      return Failure(Cursor.ResourceOpenError(filename));
    }
    var it := new SplitterIterator(filename, files[filename], delim, enclosure);
    return Success(it);
  }

  /** Fields that neither begin nor end with the enclosure are left as they are. */
  lemma TrimFieldsUnchanged(fields: seq<string>, enc: char)
    requires forall i :: 0 <= i < |fields| ==> fields[i] == [] || (fields[i][0] != enc && fields[i][|fields[i]| - 1] != enc)
    ensures TrimFields(fields, enc) == fields
  {
    forall i | 0 <= i < |fields| ensures Trim(fields[i], {enc}) == fields[i] {
      TrimUntrimmed(fields[i], {enc});
    }
  }

  /** The per-field trim is idempotent: applying it again to a record changes nothing. */
  lemma TrimFieldsIdempotent(fields: seq<string>, enc: char)
    ensures TrimFields(TrimFields(fields, enc), enc) == TrimFields(fields, enc)
  {
    var r := TrimFields(fields, enc);
    forall i | 0 <= i < |r| ensures Trim(r[i], {enc}) == r[i] {
      TrimUntrimmed(r[i], {enc});
    }
  }

  /**
   * The record has one field per field of the split trimmed line, in order; each is that
   * field with the enclosure cut from both ends only, and so neither begins nor ends with it.
   * Re-trimming the record changes nothing.
   */
  lemma DecodedFieldsTrimmed(raw: string, delim: char, enc: char)
    ensures |DecodeLine(raw, delim, enc)| == |StrGetCsv(Trim(raw, LineEndings), delim, enc)|
    ensures forall i :: 0 <= i < |DecodeLine(raw, delim, enc)| ==>
      IsTrimOf(DecodeLine(raw, delim, enc)[i], StrGetCsv(Trim(raw, LineEndings), delim, enc)[i], {enc})
    ensures forall f :: f in DecodeLine(raw, delim, enc) ==> f == [] || (f[0] != enc && f[|f| - 1] != enc)
    ensures TrimFields(DecodeLine(raw, delim, enc), enc) == DecodeLine(raw, delim, enc)
  {
    var fs := StrGetCsv(Trim(raw, LineEndings), delim, enc);
    TrimFieldsAreTrims(fs, enc);
    TrimFieldsEnds(fs, enc);
    TrimFieldsIdempotent(fs, enc);
  }

  /** Helper: each field of the per-field trim is a trim of the field it came from. */
  lemma TrimFieldsAreTrims(fs: seq<string>, enc: char)
    ensures forall i :: 0 <= i < |fs| ==> IsTrimOf(TrimFields(fs, enc)[i], fs[i], {enc})
  {
  }

  /** Helper: no field of the per-field trim begins or ends with the enclosure. */
  lemma TrimFieldsEnds(fs: seq<string>, enc: char)
    ensures forall f :: f in TrimFields(fs, enc) ==> f == [] || (f[0] != enc && f[|f| - 1] != enc)
  {
    var r := TrimFields(fs, enc);
    forall f | f in r ensures f == [] || (f[0] != enc && f[|f| - 1] != enc) {
      var i :| 0 <= i < |r| && r[i] == f;
      assert f == Trim(fs[i], {enc});
    }
  }

  /** One application of the splitter's step: the raw line runs through the next '\n', and the stream is left just past it. */
  lemma SplitStepReadsLine(delim: char, enc: char, data: string, pos: nat)
    requires pos < |data|
    ensures SplitStep(delim, enc).requires(data, pos)
    ensures SplitStep(delim, enc)(data, pos).1 == LineEnd(data, pos)
    ensures SplitStep(delim, enc)(data, pos).0 == DecodeLine(data[pos..LineEnd(data, pos)], delim, enc)
  {
  }

  /**
   * Without enclosure characters in the trimmed line, the record is that line cut at
   * every delimiter: the fields hold no delimiter and join back to the trimmed line.
   */
  lemma DecodeWithoutEnclosure(raw: string, delim: char, enc: char)
    requires enc !in Trim(raw, LineEndings)
    ensures Join(DecodeLine(raw, delim, enc), delim) == Trim(raw, LineEndings)
    ensures forall f :: f in DecodeLine(raw, delim, enc) ==> delim !in f
  {
    var line := Trim(raw, LineEndings);
    var fs := StrGetCsv(line, delim, enc);
    SplitWithoutEnclosure(line, delim, enc);
    forall i | 0 <= i < |fs| ensures enc !in fs[i] { assert fs[i] in fs; }
    TrimFieldsUnchanged(fs, enc);
  }

  /**
   * Line endings at the end of a raw line make no difference to its record, so
   * "\n" and "\r\n" terminated lines decode alike.
   */
  lemma LineEndingIgnored(line: string, ending: string, delim: char, enc: char)
    requires forall k :: 0 <= k < |ending| ==> ending[k] in LineEndings
    ensures DecodeLine(line + ending, delim, enc) == DecodeLine(line, delim, enc)
  {
    TrimDropsSuffix(line, ending, LineEndings);
  }

  /**
   * A field the splitter reads back unchanged once written as an enclosed span: no line
   * feed inside (`fgets` would end the line there) and no enclosure character at either
   * end (the per-field trim would remove it).
   */
  ghost predicate FieldWritable(f: string, enc: char)
  {
    '\n' !in f && (f == [] || (f[0] != enc && f[|f| - 1] != enc))
  }

  /** A record the splitter reads back unchanged: at least one field, each of them writable. */
  ghost predicate RowWritable(row: seq<string>, enc: char)
  {
    |row| >= 1 && forall j :: 0 <= j < |row| ==> FieldWritable(row[j], enc)
  }

  /** Delimiter and enclosure that a written file can carry: distinct, and neither a line ending. */
  ghost predicate Dialect(delim: char, enc: char)
  {
    delim != enc && delim !in LineEndings && enc !in LineEndings
  }

  /**
   * A file of records written as the tests write theirs: each record a line of enclosed
   * fields, the lines joined by '\n', with no line feed after the last.
   */
  function EncodeFile(rows: seq<seq<string>>, delim: char, enc: char): string
  {
    if rows == [] then []
    else if |rows| == 1 then Encode(rows[0], delim, enc)
    else Encode(rows[0], delim, enc) + "\n" + EncodeFile(rows[1..], delim, enc)
  }

  /** One written line, with or without its line feed, read back through the splitter's decoding, is the record written. */
  lemma DecodeEncodedLine(row: seq<string>, delim: char, enc: char)
    requires Dialect(delim, enc) && RowWritable(row, enc)
    ensures DecodeLine(Encode(row, delim, enc), delim, enc) == row
    ensures DecodeLine(Encode(row, delim, enc) + "\n", delim, enc) == row
  {
    var line := Encode(row, delim, enc);
    LineEndingIgnored(line, "\n", delim, enc);
    EncodedUntouchedByLineTrim(row, delim, enc);
    ParseEncoded(row, delim, enc);
    WritableKeptByFieldTrim(row, enc);
    DecodeFromParts(line, row, delim, enc);
  }

  /** Helper: a written line begins and ends with the enclosure, so the line trim leaves it alone. */
  lemma EncodedUntouchedByLineTrim(row: seq<string>, delim: char, enc: char)
    requires Dialect(delim, enc) && |row| >= 1
    ensures Trim(Encode(row, delim, enc), LineEndings) == Encode(row, delim, enc)
  {
    EncodeEnclosed(row, delim, enc);
    TrimUntrimmed(Encode(row, delim, enc), LineEndings);
  }

  /** Helper: the per-field trim keeps a writable record. */
  lemma WritableKeptByFieldTrim(row: seq<string>, enc: char)
    requires RowWritable(row, enc)
    ensures TrimFields(row, enc) == row
  {
    assert forall j :: 0 <= j < |row| ==> FieldWritable(row[j], enc);
    TrimFieldsUnchanged(row, enc);
  }

  /** The encoded line holds no line feed, so `fgets` reads it whole. */
  lemma EncodedLineHasNoNewline(row: seq<string>, delim: char, enc: char)
    requires Dialect(delim, enc) && RowWritable(row, enc)
    ensures '\n' !in Encode(row, delim, enc)
  {
    forall f | f in row ensures '\n' !in f {
      var j :| 0 <= j < |row| && row[j] == f;
      assert FieldWritable(row[j], enc);
    }
    AbsentFromEncode(row, delim, enc, '\n');
  }

  /**
   * Reading a written file from any line boundary on: the splitter's step yields
   * exactly the records written, in order.
   */
  lemma {:induction false} ReadEncodedFrom(prefix: string, rows: seq<seq<string>>, delim: char, enc: char)
    requires Dialect(delim, enc) && |rows| >= 1
    requires forall i :: 0 <= i < |rows| ==> RowWritable(rows[i], enc)
    ensures Cursor.Records(SplitStep(delim, enc), prefix + EncodeFile(rows, delim, enc), |prefix|) == rows
    decreases |rows|
  {
    var step := SplitStep(delim, enc);
    var data := prefix + EncodeFile(rows, delim, enc);
    var line := Encode(rows[0], delim, enc);
    if |rows| == 1 {
      assert data == prefix + line;
      StepOverLastLine(prefix, rows[0], delim, enc);
      assert Cursor.Records(step, data, |data|) == [];
    } else {
      var next := prefix + line + "\n";
      var rest := EncodeFile(rows[1..], delim, enc);
      assert data == next + rest;
      StepOverEncodedLine(prefix, rows[0], rest, delim, enc);
      ReadEncodedFrom(next, rows[1..], delim, enc);
      assert rows == [rows[0]] + rows[1..];
    }
  }

  /** Helper: the line after `prefix` runs to the end of the data when `line` holds no line feed. */
  lemma LineToEnd(prefix: string, line: string)
    requires line != [] && '\n' !in line
    ensures LineEnd(prefix + line, |prefix|) == |prefix + line|
  {
    var data := prefix + line;
    var e := LineEnd(data, |prefix|);
    assert data[e - 1] == line[e - 1 - |prefix|];
  }

  /** Helper: one step of the splitter over a written last line yields its record and reaches the end of the data. */
  lemma StepOverLastLine(prefix: string, row: seq<string>, delim: char, enc: char)
    requires Dialect(delim, enc) && RowWritable(row, enc)
    ensures |prefix| < |prefix + Encode(row, delim, enc)|
    ensures SplitStep(delim, enc)(prefix + Encode(row, delim, enc), |prefix|)
      == (row, |prefix + Encode(row, delim, enc)|)
  {
    var line := Encode(row, delim, enc);
    var data := prefix + line;
    EncodeEnclosed(row, delim, enc);
    EncodedLineHasNoNewline(row, delim, enc);
    LineToEnd(prefix, line);
    assert data[|prefix|..|data|] == line;
    DecodeEncodedLine(row, delim, enc);
    SplitStepReadsLine(delim, enc, data, |prefix|);
  }

  /** Helper: the line after `prefix` runs through the first line feed when `line` holds none. */
  lemma LineAfterPrefix(prefix: string, line: string, rest: string)
    requires '\n' !in line
    ensures LineEnd(prefix + line + "\n" + rest, |prefix|) == |prefix| + |line| + 1
    ensures (prefix + line + "\n" + rest)[|prefix|..|prefix| + |line| + 1] == line + "\n"
  {
    var data := prefix + line + "\n" + rest;
    forall k | |prefix| <= k < |prefix| + |line| ensures data[k] != '\n' {
      assert data[k] == line[k - |prefix|];
    }
    assert data[|prefix| + |line|] == '\n';
    LineEndAt(data, |prefix|, |line|);
  }

  /** Helper: one step of the splitter over a written line yields its record and moves past the line feed. */
  lemma StepOverEncodedLine(prefix: string, row: seq<string>, rest: string, delim: char, enc: char)
    requires Dialect(delim, enc) && RowWritable(row, enc)
    ensures |prefix| < |prefix + Encode(row, delim, enc) + "\n" + rest|
    ensures SplitStep(delim, enc)(prefix + Encode(row, delim, enc) + "\n" + rest, |prefix|)
      == (row, |prefix + Encode(row, delim, enc) + "\n"|)
  {
    var line := Encode(row, delim, enc);
    var data := prefix + line + "\n" + rest;
    EncodedLineHasNoNewline(row, delim, enc);
    LineAfterPrefix(prefix, line, rest);
    DecodeEncodedLine(row, delim, enc);
    SplitStepReadsLine(delim, enc, data, |prefix|);
  }

  /**
   * Sequential correctness of the splitter: a file of one or more records, written line by
   * line with no line feed after the last, is read back as exactly those records, in order.
   */
  lemma ReadEncodedFile(rows: seq<seq<string>>, delim: char, enc: char)
    requires Dialect(delim, enc) && |rows| >= 1
    requires forall i :: 0 <= i < |rows| ==> RowWritable(rows[i], enc)
    ensures Cursor.Records(SplitStep(delim, enc), EncodeFile(rows, delim, enc), 0) == rows
  {
    ReadEncodedFrom([], rows, delim, enc);
    assert [] + EncodeFile(rows, delim, enc) == EncodeFile(rows, delim, enc);
  }

  /** The TSV case: `a<TAB>b<TAB>c` is the record `a`, `b`, `c`. */
  lemma TabSeparatedExample(raw: string)
    requires raw == "a\tb\tc\n"
    ensures DecodeLine(raw, '\t', '"') == ["a", "b", "c"]
  {
    var line := raw[..|raw| - 1];
    assert raw == line + "\n" && line == "a" + ['\t'] + "b" + ['\t'] + "c";
    LineEndingIgnored(line, "\n", '\t', '"');
    UntrimmedRecord("a", "b", "c", '\t', '"', line, ["a", "b", "c"]);
  }

  /** The CSV case with the default delimiter and enclosure: `a,b,"c,d"` is `a`, `b`, `c,d`. */
  lemma EnclosedDelimiterRecord(raw: string)
    requires raw == "a,b,\"c,d\"\r\n"
    ensures DecodeLine(raw, ',', '"') == ["a", "b", "c,d"]
  {
    var line := raw[..|raw| - 2];
    assert raw == line + "\r\n" && line == "a,b,\"c,d\"";
    LineEndingIgnored(line, "\r\n", ',', '"');
    assert Trim(line, LineEndings) == line by {
      TrimUntrimmed(line, LineEndings);
    }
    EnclosedDelimiterExample(line);
    UntrimmedFields("a", "b", "c,d", '"', ["a", "b", "c,d"]);
  }

  /** Helper for the examples: three fields that do not begin or end with the enclosure are kept. */
  lemma UntrimmedFields(u: string, v: string, w: string, enc: char, fs: seq<string>)
    requires fs == [u, v, w]
    requires u != [] && u[0] != enc && u[|u| - 1] != enc
    requires v != [] && v[0] != enc && v[|v| - 1] != enc
    requires w != [] && w[0] != enc && w[|w| - 1] != enc
    ensures TrimFields(fs, enc) == fs
  {
    TrimFieldsUnchanged(fs, enc);
  }

  /** Helper for the TSV example: a line of three bare fields decodes to those fields. */
  lemma UntrimmedRecord(u: string, v: string, w: string, delim: char, enc: char, line: string, fs: seq<string>)
    requires line == u + [delim] + v + [delim] + w && fs == [u, v, w]
    requires delim !in u && enc !in u && delim !in v && enc !in v && delim !in w && enc !in w
    requires u != [] && u[0] !in LineEndings && w != [] && w[|w| - 1] !in LineEndings
    ensures DecodeLine(line, delim, enc) == fs
  {
    UntouchedByLineTrim(u, v, w, delim, line);
    BareBareBare(u, v, w, delim, enc);
    KeptByFieldTrim(u, v, w, enc, fs);
    DecodeFromParts(line, fs, delim, enc);
  }

  /** Helper: a line that trims to itself and splits into fields the per-field trim keeps decodes to those fields. */
  lemma DecodeFromParts(line: string, fs: seq<string>, delim: char, enc: char)
    requires Trim(line, LineEndings) == line
    requires StrGetCsv(line, delim, enc) == fs
    requires TrimFields(fs, enc) == fs
    ensures DecodeLine(line, delim, enc) == fs
  {
  }

  /** Helper: a line that neither begins nor ends with a line ending is left alone by the line trim. */
  lemma UntouchedByLineTrim(u: string, v: string, w: string, delim: char, line: string)
    requires line == u + [delim] + v + [delim] + w
    requires u != [] && u[0] !in LineEndings && w != [] && w[|w| - 1] !in LineEndings
    ensures Trim(line, LineEndings) == line
  {
    assert line[0] == u[0];
    assert line[|line| - 1] == w[|w| - 1];
    TrimUntrimmed(line, LineEndings);
  }

  /** Helper: three fields free of the enclosure are left alone by the per-field trim. */
  lemma KeptByFieldTrim(u: string, v: string, w: string, enc: char, fs: seq<string>)
    requires fs == [u, v, w]
    requires enc !in u && enc !in v && enc !in w
    ensures TrimFields(fs, enc) == fs
  {
    forall i | 0 <= i < |fs|
      ensures fs[i] == [] || (fs[i][0] != enc && fs[i][|fs[i]| - 1] != enc)
    {
      assert enc !in fs[i];
    }
    TrimFieldsUnchanged(fs, enc);
  }

  /** An empty raw line (also what `trim(false, ...)` gives) decodes to the single empty field. */
  lemma EmptyLineRecord(delim: char, enc: char)
    ensures DecodeLine("", delim, enc) == [""]
  {
    var e: string := [];
    EmptyTrim(e, LineEndings);
    assert StrGetCsv(e, delim, enc) == [e];
    EmptyFieldKept(enc);
  }

  /** Helper: trimming the empty string gives the empty string. */
  lemma EmptyTrim(e: string, cs: set<char>)
    requires e == []
    ensures Trim(e, cs) == []
  {
    assert TrimLeft(e, cs) == [];
  }

  /** Helper: the per-field trim keeps the single empty field. */
  lemma EmptyFieldKept(enc: char)
    ensures TrimFields([""], enc) == [""]
  {
    TrimFieldsUnchanged([""], enc);
  }
}
