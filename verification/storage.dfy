/** `save_to_csv` of src/storage.py: the lines of a text file are stripped,
    blank ones dropped, and one single-column row made per remaining line;
    an empty result or a path without the ".csv" suffix is an error. Every
    error is caught inside the function and only reported, so the model
    returns it as a value. Writing the CSV file is left out. */
module Storage {
  import opened Base

  /** A CSV row as the dict handed to the table writer. */
  type Row = map<string, string>

  /** `not line.strip()`: the line is empty or all whitespace. */
  predicate Blank(line: string) {
    Strip(line) == []
  }

  /** A summary as export keeps it: non-empty, no whitespace at either end. */
  predicate StrippedNonBlank(s: string) {
    s != [] && !IsSpace(s[0]) && !IsSpace(s[|s| - 1])
  }

  /** `[f(line) for line in lines if f(line)]`: the non-empty images of
      the lines under `f`, in order. */
  function NonEmptyImages(f: string -> string, lines: seq<string>): (r: seq<string>)
    ensures |r| <= |lines|
    ensures forall i :: 0 <= i < |r| ==> r[i] != []
  {
    if lines == [] then []
    else
      var s := f(lines[0]);
      var rest := NonEmptyImages(f, lines[1..]);
      if s != [] then
        assert forall i :: 0 < i <= |rest| ==> ([s] + rest)[i] == rest[i - 1];
        [s] + rest
      else rest
  }

  /** Every kept image has any property that all non-empty images have. */
  lemma {:induction false} NonEmptyImagesHave(f: string -> string, p: string -> bool, lines: seq<string>)
    requires forall x :: f(x) != [] ==> p(f(x))
    ensures forall i :: 0 <= i < |NonEmptyImages(f, lines)| ==> p(NonEmptyImages(f, lines)[i])
  {
    if lines != [] {
      NonEmptyImagesHave(f, p, lines[1..]);
      var s, rest := f(lines[0]), NonEmptyImages(f, lines[1..]);
      if s != [] {
        assert forall i :: 0 < i <= |rest| ==> ([s] + rest)[i] == rest[i - 1];
      }
    }
  }

  /** Nothing is kept exactly when every image is empty. */
  lemma {:induction false} NonEmptyImagesNone(f: string -> string, lines: seq<string>)
    ensures NonEmptyImages(f, lines) == [] <==> forall i :: 0 <= i < |lines| ==> f(lines[i]) == []
  {
    if lines != [] {
      var tail := lines[1..];
      NonEmptyImagesNone(f, tail);
      if f(lines[0]) == [] && forall i :: 0 <= i < |tail| ==> f(tail[i]) == [] {
        forall i | 0 <= i < |lines| ensures f(lines[i]) == [] {
          if i > 0 { assert lines[i] == tail[i - 1]; }
        }
      }
    }
  }

  /** A string is kept exactly when it is the non-empty image of some line. */
  lemma {:induction false} NonEmptyImagesMembers(f: string -> string, lines: seq<string>, x: string)
    ensures x in NonEmptyImages(f, lines) <==>
              x != [] && exists i :: 0 <= i < |lines| && f(lines[i]) == x
  {
    if lines != [] {
      var tail := lines[1..];
      var s, rest := f(lines[0]), NonEmptyImages(f, tail);
      NonEmptyImagesMembers(f, tail, x);
      assert x in NonEmptyImages(f, lines) <==> (s != [] && x == s) || x in rest;
      if x in rest {
        var i :| 0 <= i < |tail| && f(tail[i]) == x;
        assert f(lines[i + 1]) == x;
      }
      if x != [] && x != s && exists i :: 0 <= i < |lines| && f(lines[i]) == x {
        var i :| 0 <= i < |lines| && f(lines[i]) == x;
        assert f(tail[i - 1]) == x;
      }
    }
  }

  /** The comprehension works line by line, so order is kept across blocks. */
  lemma {:induction false} NonEmptyImagesConcat(f: string -> string, a: seq<string>, b: seq<string>)
    ensures NonEmptyImages(f, a + b) == NonEmptyImages(f, a) + NonEmptyImages(f, b)
  {
    if a == [] {
      assert a + b == b;
    } else {
      assert (a + b)[1..] == a[1..] + b;
      NonEmptyImagesConcat(f, a[1..], b);
    }
  }

  /** When `f` leaves its own non-empty results alone, applying the
      comprehension twice is applying it once. */
  lemma {:induction false} NonEmptyImagesIdempotent(f: string -> string, lines: seq<string>)
    requires forall x :: f(x) != [] ==> f(f(x)) == f(x)
    ensures NonEmptyImages(f, NonEmptyImages(f, lines)) == NonEmptyImages(f, lines)
  {
    if lines != [] {
      NonEmptyImagesIdempotent(f, lines[1..]);
      var s, rest := f(lines[0]), NonEmptyImages(f, lines[1..]);
      if s != [] {
        assert ([s] + rest)[1..] == rest;
      }
    }
  }

  /** `[line.strip() for line in lines if line.strip()]`. */
  function NonBlankStripped(lines: seq<string>): (r: seq<string>)
    ensures |r| <= |lines|
    ensures forall i :: 0 <= i < |r| ==> StrippedNonBlank(r[i])
  {
    NonEmptyImagesHave(Strip, StrippedNonBlank, lines);
    NonEmptyImages(Strip, lines)
  }

  /** Nothing survives exactly when every line is blank. */
  lemma NonBlankStrippedEmpty(lines: seq<string>)
    ensures NonBlankStripped(lines) == [] <==> forall i :: 0 <= i < |lines| ==> Blank(lines[i])
  {
    NonEmptyImagesNone(Strip, lines);
  }

  /** A string is among the summaries exactly when it is the non-empty strip
      of some input line. */
  lemma NonBlankStrippedMembers(lines: seq<string>, x: string)
    ensures x in NonBlankStripped(lines) <==>
              x != [] && exists i :: 0 <= i < |lines| && Strip(lines[i]) == x
  {
    NonEmptyImagesMembers(Strip, lines, x);
  }

  /** The summaries of two blocks of lines are those of the first followed by
      those of the second. */
  lemma NonBlankStrippedConcat(a: seq<string>, b: seq<string>)
    ensures NonBlankStripped(a + b) == NonBlankStripped(a) + NonBlankStripped(b)
  {
    NonEmptyImagesConcat(Strip, a, b);
  }

  /** Filtering already filtered summaries changes nothing. */
  lemma NonBlankStrippedIdempotent(lines: seq<string>)
    ensures NonBlankStripped(NonBlankStripped(lines)) == NonBlankStripped(lines)
  {
    forall x | Strip(x) != [] ensures Strip(Strip(x)) == Strip(x) {
      StripStripped(Strip(x));
    }
    NonEmptyImagesIdempotent(Strip, lines);
  }

  /** One `{"Summary": s}` row per summary. */
  function Rows(summaries: seq<string>): (rows: seq<Row>)
    ensures |rows| == |summaries|
    ensures forall i :: 0 <= i < |rows| ==> rows[i].Keys == {"Summary"} && rows[i]["Summary"] == summaries[i]
  {
    seq(|summaries|, i requires 0 <= i < |summaries| => map["Summary" := summaries[i]])
  }

  /** `save_to_csv(path, csv_path)` up to the table writer: the rows that
      would be written, or the error that would be reported. The input file
      is checked first, then emptiness, then the output path. */
  function SaveToCsv(file: TextFile, csvPath: string): (r: Result<seq<Row>>)
    ensures file.Missing? ==> r == Err(FileNotFound)
    ensures file.Lines? && (forall i :: 0 <= i < |file.lines| ==> Blank(file.lines[i])) ==> r == Err(NoData)
    ensures r.Ok? <==>
              && file.Lines?
              && (exists i :: 0 <= i < |file.lines| && !Blank(file.lines[i]))
              && EndsWith(csvPath, ".csv")
    ensures r.Ok? ==>
              var summaries := NonBlankStripped(file.lines);
              && |r.value| == |summaries|
              && forall i :: 0 <= i < |r.value| ==>
                   r.value[i].Keys == {"Summary"} && r.value[i]["Summary"] == summaries[i]
  {
    match file
    case Missing => Err(FileNotFound)
    case Lines(lines) =>
      NonBlankStrippedEmpty(lines);
      var summaries := NonBlankStripped(lines);
      if summaries == [] then Err(NoData)
      else if !EndsWith(csvPath, ".csv") then Err(NotCsvPath)
      else Ok(Rows(summaries))
  }
}
