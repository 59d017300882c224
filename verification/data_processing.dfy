/** src/data_processing.py: reading the raw-data store back, cleaning each
    summary (whitespace collapse, then a character allow-list), and truncating
    lines to a maximum length with an ellipsis. File reads and writes are left
    to the caller: the store is a `StoreFile`, a text file its lines. */
module DataProcessing {
  import opened Base
  import opened JsonStore
  import ApiUtils

  // ---------------------------------------------------------------------------
  // clean_summary

  /** The characters `[a-zA-Z0-9.,!?'" ]` that cleaning keeps. */
  predicate Allowed(c: char) {
    || ('a' <= c <= 'z') || ('A' <= c <= 'Z') || ('0' <= c <= '9')
    || c == '.' || c == ',' || c == '!' || c == '?' || c == '\'' || c == '"' || c == ' '
  }

  /** The kept characters other than the space. */
  predicate Visible(c: char) {
    Allowed(c) && c != ' '
  }

  /** The only whitespace character the allow-list keeps is the space. */
  lemma AllowedHasNoOtherSpace(s: string)
    requires forall i :: 0 <= i < |s| ==> Allowed(s[i])
    ensures forall i :: 0 <= i < |s| && IsSpace(s[i]) ==> s[i] == ' '
  {
    forall i | 0 <= i < |s| && IsSpace(s[i]) ensures s[i] == ' ' {
      var c := s[i];
      assert c == ' ' || c == '\t' || c == '\n' || c == '\r' || '\U{000B}' <= c <= '\U{001F}';
    }
  }

  /** Only single spaces separate the non-whitespace of `s`. */
  predicate Collapsed(s: string) {
    && (forall i :: 0 <= i < |s| && IsSpace(s[i]) ==> s[i] == ' ')
    && (forall i, j :: 0 <= i && j == i + 1 < |s| && s[i] == ' ' ==> s[j] != ' ')
  }

  /** `re.sub(r'\s+', ' ', s)`: every maximal run of whitespace becomes one
      space. */
  function CollapseWhitespace(s: string): (r: string)
    ensures |r| <= |s|
    ensures s != [] ==> r != [] && r[0] == (if IsSpace(s[0]) then ' ' else s[0])
    decreases |s|
  {
    if s == [] then []
    else if IsSpace(s[0]) then [' '] + CollapseWhitespace(TrimStart(s[1..]))
    else [s[0]] + CollapseWhitespace(s[1..])
  }

  /** The result of collapsing uses only the space as whitespace and never
      has two spaces in a row. */
  lemma {:induction false} CollapseIsCollapsed(s: string)
    ensures Collapsed(CollapseWhitespace(s))
    decreases |s|
  {
    if s != [] {
      if IsSpace(s[0]) {
        var t := TrimStart(s[1..]);
        CollapseIsCollapsed(t);
        CollapsedCons(' ', CollapseWhitespace(t));
      } else {
        CollapseIsCollapsed(s[1..]);
        CollapsedCons(s[0], CollapseWhitespace(s[1..]));
      }
    }
  }

  /** Putting a space before a collapsed string that does not start with a
      space, or a non-whitespace character before any collapsed string,
      keeps it collapsed. */
  lemma CollapsedCons(c: char, r: string)
    requires Collapsed(r)
    requires c == ' ' || !IsSpace(c)
    requires c == ' ' && r != [] ==> r[0] != ' '
    ensures Collapsed([c] + r)
  {
    var t := [c] + r;
    forall i | 0 <= i < |t| && IsSpace(t[i]) ensures t[i] == ' ' {
      if i > 0 { assert t[i] == r[i - 1]; }
    }
    forall i, j | 0 <= i && j == i + 1 < |t| && t[i] == ' ' ensures t[j] != ' ' {
      assert t[j] == r[j - 1];
      if i > 0 { assert t[i] == r[i - 1]; }
    }
  }

  /** Collapsing only touches whitespace: the other characters survive, all
      of them and in order. */
  lemma {:induction false} CollapseKeepsNonSpace(s: string)
    ensures Filter(NotSpace, CollapseWhitespace(s)) == Filter(NotSpace, s)
    decreases |s|
  {
    if s != [] {
      if IsSpace(s[0]) {
        var t := TrimStart(s[1..]);
        CollapseKeepsNonSpace(t);
        FilterConcat(NotSpace, [' '], CollapseWhitespace(t));
        TrimStartKeepsNonSpace(s[1..]);
      } else {
        FilterConcat(NotSpace, [s[0]], CollapseWhitespace(s[1..]));
        CollapseKeepsNonSpace(s[1..]);
      }
    }
  }

  lemma {:induction false} TrimStartKeepsNonSpace(s: string)
    ensures Filter(NotSpace, TrimStart(s)) == Filter(NotSpace, s)
  {
    if s != [] && IsSpace(s[0]) {
      TrimStartKeepsNonSpace(s[1..]);
    }
  }

  /** A string is left unchanged by collapsing exactly when it is already
      collapsed. */
  lemma {:induction false} CollapseFixpoint(s: string)
    ensures CollapseWhitespace(s) == s <==> Collapsed(s)
    decreases |s|
  {
    if CollapseWhitespace(s) == s {
      CollapseIsCollapsed(s);
    }
    if s != [] && Collapsed(s) {
      CollapsedTail(s);
      CollapseFixpoint(s[1..]);
      if IsSpace(s[0]) {
        assert TrimStart(s[1..]) == s[1..] by {
          if |s| > 1 {
            assert s[0] == ' ';
            assert !IsSpace(s[1]);
          }
        }
      }
      assert s == [s[0]] + s[1..];
    }
  }

  /** Dropping the first character keeps a string collapsed. */
  lemma CollapsedTail(s: string)
    requires s != [] && Collapsed(s)
    ensures Collapsed(s[1..])
  {
    var t := s[1..];
    forall i | 0 <= i < |t| && IsSpace(t[i]) ensures t[i] == ' ' {
      assert t[i] == s[i + 1];
    }
    forall i, j | 0 <= i && j == i + 1 < |t| && t[i] == ' ' ensures t[j] != ' ' {
      assert s[i + 1] == ' ' && s[j + 1] == t[j];
    }
  }

  /** Collapsing twice is collapsing once. */
  lemma CollapseIdempotent(s: string)
    ensures CollapseWhitespace(CollapseWhitespace(s)) == CollapseWhitespace(s)
  {
    CollapseIsCollapsed(s);
    CollapseFixpoint(CollapseWhitespace(s));
  }

  /** Text without whitespace passes through collapsing untouched. */
  lemma {:induction false} CollapseWordPrefix(a: string, b: string)
    requires forall i :: 0 <= i < |a| ==> !IsSpace(a[i])
    ensures CollapseWhitespace(a + b) == a + CollapseWhitespace(b)
  {
    if a != [] {
      assert (a + b)[1..] == a[1..] + b;
      CollapseWordPrefix(a[1..], b);
      assert a == [a[0]] + a[1..];
    } else {
      assert a + b == b;
    }
  }

  /** A whole run of whitespace becomes a single space. */
  lemma CollapseSpaceRun(w: string, c: string)
    requires w != [] && AllSpace(w)
    requires c == [] || !IsSpace(c[0])
    ensures CollapseWhitespace(w + c) == [' '] + CollapseWhitespace(c)
  {
    assert (w + c)[1..] == w[1..] + c;
    TrimStartSpaceRun(w[1..], c);
  }

  lemma {:induction false} TrimStartSpaceRun(w: string, c: string)
    requires AllSpace(w)
    requires c == [] || !IsSpace(c[0])
    ensures TrimStart(w + c) == c
  {
    if w == [] {
      assert w + c == c;
    } else {
      assert (w + c)[1..] == w[1..] + c;
      TrimStartSpaceRun(w[1..], c);
    }
  }

  /** `clean_summary(summary)` on a string: an empty string raises; otherwise
      whitespace is collapsed, the ends are stripped, and every character
      outside the allow-list is deleted. */
  function CleanSummary(s: string): (r: Result<string>)
    ensures r.Err? <==> s == []
    ensures r.Err? ==> r.error == InvalidSummary
    ensures r.Ok? ==> forall i :: 0 <= i < |r.value| ==> Allowed(r.value[i])
    ensures r.Ok? ==> forall i :: 0 <= i < |r.value| && IsSpace(r.value[i]) ==> r.value[i] == ' '
    ensures r.Ok? ==> IsSubsequence(r.value, CollapseWhitespace(s)) && |r.value| <= |s|
  {
    if s == [] then Err(InvalidSummary)
    else
      var collapsed := CollapseWhitespace(s);
      var stripped := Strip(collapsed);
      var cleaned := Filter(Allowed, stripped);
      CleanedIsSubsequence(s);
      AllowedHasNoOtherSpace(cleaned);
      Ok(cleaned)
  }

  lemma CleanedIsSubsequence(s: string)
    ensures var collapsed := CollapseWhitespace(s);
            IsSubsequence(Filter(Allowed, Strip(collapsed)), collapsed)
            && |Filter(Allowed, Strip(collapsed))| <= |s|
  {
    var collapsed := CollapseWhitespace(s);
    var cleaned := Filter(Allowed, Strip(collapsed));
    FilterIsSubsequence(Allowed, Strip(collapsed));
    SubsequenceOfStrip(cleaned, collapsed);
    SubsequenceLength(cleaned, collapsed);
  }

  /** Cleaning deletes no kept character: the letters, digits and punctuation
      of the allow-list come out exactly as they went in, in order. */
  lemma CleanKeepsVisible(s: string)
    requires s != []
    ensures Filter(Visible, CleanSummary(s).value) == Filter(Visible, s)
  {
    var collapsed := CollapseWhitespace(s);
    var stripped := Strip(collapsed);
    assert forall c :: Visible(c) ==> Allowed(c);
    assert forall c :: Visible(c) ==> NotSpace(c);
    FilterNarrow(Visible, Allowed, stripped);
    FilterStrip(Visible, collapsed);
    FilterNarrow(Visible, NotSpace, collapsed);
    CollapseKeepsNonSpace(s);
    FilterNarrow(Visible, NotSpace, s);
  }

  /** Text that is already clean comes back unchanged: in particular the
      single spaces between words are kept. */
  lemma CleanKeepsCleanText(s: string)
    requires s != [] && Collapsed(s) && !IsSpace(s[0]) && !IsSpace(s[|s| - 1])
    requires forall i :: 0 <= i < |s| ==> Allowed(s[i])
    ensures CleanSummary(s) == Ok(s)
  {
    CollapseFixpoint(s);
    StripStripped(s);
    FilterAll(Allowed, s);
  }

  /** A word followed by a whitespace run: the word is kept and the run
      becomes one space. */
  lemma CollapseWordRun(a: string, w: string, t: string)
    requires w != [] && AllSpace(w)
    requires forall i :: 0 <= i < |a| ==> !IsSpace(a[i])
    requires t == [] || !IsSpace(t[0])
    ensures CollapseWhitespace(a + (w + t)) == a + ([' '] + CollapseWhitespace(t))
  {
    CollapseSpaceRun(w, t);
    CollapseWordPrefix(a, w + t);
  }

  /** Two words separated by any run of whitespace collapse to the words
      joined by exactly one space. */
  lemma CollapseTwoWords(a: string, w: string, b: string)
    requires w != [] && AllSpace(w)
    requires forall i :: 0 <= i < |a| ==> !IsSpace(a[i])
    requires forall i :: 0 <= i < |b| ==> !IsSpace(b[i])
    ensures CollapseWhitespace(a + w + b) == a + " " + b
  {
    assert CollapseWhitespace(a + (w + b)) == a + ([' '] + b) by {
      CollapseWordRun(a, w, b);
      CollapseWordPrefix(b, []);
      assert b + [] == b;
    }
    Associative(a, w, b);
    Associative(a, [' '], b);
  }

  /** Three words separated by two whitespace runs, as in the worked example
      below. */
  lemma CollapseThreeWords(a: string, w1: string, b: string, w2: string, c: string)
    requires w1 != [] && AllSpace(w1) && w2 != [] && AllSpace(w2)
    requires forall i :: 0 <= i < |a| ==> !IsSpace(a[i])
    requires b != [] && forall i :: 0 <= i < |b| ==> !IsSpace(b[i])
    requires forall i :: 0 <= i < |c| ==> !IsSpace(c[i])
    ensures CollapseWhitespace(a + (w1 + (b + (w2 + c)))) == a + ([' '] + (b + ([' '] + c)))
  {
    assert (b + (w2 + c))[0] == b[0];
    CollapseWordRun(a, w1, b + (w2 + c));
    CollapseWordRun(b, w2, c);
    CollapseWordPrefix(c, []);
    assert c + [] == c;
  }

  /** Two words separated by any run of whitespace clean to the words joined
      by exactly one space. */
  lemma CleanTwoWords(a: string, w: string, b: string)
    requires a != [] && b != [] && w != [] && AllSpace(w)
    requires forall i :: 0 <= i < |a| ==> Visible(a[i]) && !IsSpace(a[i])
    requires forall i :: 0 <= i < |b| ==> Visible(b[i]) && !IsSpace(b[i])
    ensures CleanSummary(a + w + b) == Ok(a + " " + b)
  {
    var c := a + " " + b;
    CollapseTwoWords(a, w, b);
    forall i | 0 <= i < |c| ensures Allowed(c[i]) {
      if i < |a| { assert c[i] == a[i]; }
      else if i > |a| { assert c[i] == b[i - |a| - 1]; }
    }
    assert c[|c| - 1] == b[|b| - 1];
    StripStripped(c);
    FilterAll(Allowed, c);
  }

  /** Worked example: `"Hello\n\nWorld!!  #1"` cleans to `"Hello World!! 1"`;
      both whitespace runs become one space and `#` is deleted. */
  lemma CleanExample()
    ensures CleanSummary("Hello\n\nWorld!!  #1") == Ok("Hello World!! 1")
  {
    ExampleCollapse();
    StripStripped("Hello World!! #1");
    ExampleFilter();
  }

  lemma ExampleCollapse()
    ensures CollapseWhitespace("Hello\n\nWorld!!  #1") == "Hello World!! #1"
  {
    ExampleWords();
    CollapseThreeWords("Hello", "\n\n", "World!!", "  ", "#1");
  }

  lemma ExampleWords()
    ensures "Hello" + ("\n\n" + ("World!!" + ("  " + "#1"))) == "Hello\n\nWorld!!  #1"
    ensures "Hello" + ([' '] + ("World!!" + ([' '] + "#1"))) == "Hello World!! #1"
  {
  }

  lemma ExampleFilter()
    ensures Filter(Allowed, "Hello World!! #1") == "Hello World!! 1"
  {
    ExampleSplit();
    ExampleFilterKept();
    ExampleFilterDropped();
    FilterConcat(Allowed, "Hello World!! ", "#1");
  }

  lemma ExampleSplit()
    ensures "Hello World!! " + "#1" == "Hello World!! #1"
    ensures "Hello World!! " + "1" == "Hello World!! 1"
  {
  }

  lemma ExampleFilterKept()
    ensures Filter(Allowed, "Hello World!! ") == "Hello World!! "
  {
    FilterAll(Allowed, "Hello World!! ");
  }

  lemma ExampleFilterDropped()
    ensures Filter(Allowed, "#1") == "1"
  {
  }

  /** A non-empty input made only of characters outside the allow-list (and
      no whitespace) cleans to the empty string, which is not an error. */
  lemma CleanMayBeEmpty(s: string)
    requires s != []
    requires forall i :: 0 <= i < |s| ==> !Allowed(s[i]) && !IsSpace(s[i])
    ensures CleanSummary(s) == Ok([])
  {
    CollapseFixpoint(s);
    StripStripped(s);
    FilterNone(Allowed, s);
  }

  // ---------------------------------------------------------------------------
  // truncate_summary

  /** The end index of the Python slice `s[:n]` for a string of length `len`:
      a negative `n` counts from the end. */
  function SliceEnd(len: nat, n: int): (e: nat)
    ensures e <= len
  {
    if n >= 0 then (if n < len then n else len)
    else if len + n > 0 then len + n else 0
  }

  /** One line of `truncate_summary`: a line longer than `maxLength` becomes
      its first `maxLength` characters, right-stripped, plus "..."; any other
      line is returned as it is. */
  function Truncate(s: string, maxLength: int): (r: string)
    ensures |s| <= maxLength ==> r == s
    ensures |s| > maxLength ==>
              && |r| >= 3 && r[|r| - 3..] == "..."
              && var head := r[..|r| - 3];
                 && head <= s[..SliceEnd(|s|, maxLength)]
                 && (head == [] || !IsSpace(head[|head| - 1]))
                 && AllSpace(s[|head|..SliceEnd(|s|, maxLength)])
    ensures maxLength >= 0 ==> |r| <= if |s| <= maxLength then |s| else maxLength + 3
  {
    if |s| > maxLength then
      var window := s[..SliceEnd(|s|, maxLength)];
      var head := TrimEnd(window);
      TrimEndRemovesSpace(window);
      assert (head + "...")[..|head|] == head;
      assert window[|head|..] == s[|head|..SliceEnd(|s|, maxLength)];
      head + "..."
    else s
  }

  /** Worked examples: a long line is cut and marked, a short one is kept. */
  lemma TruncateExamples()
    ensures Truncate("abcdefghij", 5) == "abcde..."
    ensures Truncate("abc", 5) == "abc"
    ensures Truncate("abc  def", 5) == "abc..."
  {
    assert "abc  def"[..5] == "abc  ";
    assert TrimEnd("abc  ") == "abc" by {
      assert "abc  "[..4] == "abc ";
      assert "abc "[..3] == "abc";
    }
  }

  /** The comprehension of `truncate_summary`: every line truncated, one
      output line per input line, in order. */
  function TruncateAll(lines: seq<string>, maxLength: int): (r: seq<string>)
    ensures |r| == |lines|
    ensures forall i :: 0 <= i < |r| ==> r[i] == Truncate(lines[i], maxLength)
  {
    if lines == [] then []
    else [Truncate(lines[0], maxLength)] + TruncateAll(lines[1..], maxLength)
  }

  /** `truncate_summary` on its input file: a missing file raises. */
  function TruncateSummary(file: TextFile, maxLength: int): (r: Result<seq<string>>)
    ensures r.Err? <==> file.Missing?
    ensures r.Err? ==> r.error == FileNotFound
    ensures r.Ok? ==> |r.value| == |file.lines|
    ensures r.Ok? ==> forall i :: 0 <= i < |r.value| ==> r.value[i] == Truncate(file.lines[i], maxLength)
  {
    match file
    case Missing => Err(FileNotFound)
    case Lines(lines) => Ok(TruncateAll(lines, maxLength))
  }

  /** The default limit of `truncate_summary`. */
  const DefaultMaxLength: int := 500

  /** Under the default limit, a file whose lines are all at most 500
      characters long is passed through unchanged. */
  lemma DefaultKeepsShortLines(lines: seq<string>)
    requires forall i :: 0 <= i < |lines| ==> |lines[i]| <= DefaultMaxLength
    ensures TruncateSummary(Lines(lines), DefaultMaxLength) == Ok(lines)
  {
    var t := TruncateSummary(Lines(lines), DefaultMaxLength);
    assert t.Ok?;
    var r := t.value;
    assert |r| == |lines|;
    forall i | 0 <= i < |lines| ensures r[i] == lines[i] {
      assert r[i] == Truncate(lines[i], DefaultMaxLength);
      assert |lines[i]| <= DefaultMaxLength;
    }
    assert r == lines;
  }

  // ---------------------------------------------------------------------------
  // read_raw_data and process_data

  /** `read_raw_data`: a missing file raises FileNotFoundError, text that is
      not JSON raises a decode error, and decoded data that is not a
      non-empty list raises ValueError. */
  function ReadRawData(file: StoreFile): (r: Result<seq<Json>>)
    ensures r.Ok? <==> IsList(file) && Items(file) != []
    ensures r.Ok? ==> r.value == Items(file)
    ensures file.Absent? ==> r == Err(FileNotFound)
    ensures file.Empty? || file.Undecodable? ==> r == Err(JsonDecodeError)
    ensures file.Decoded? && !(IsList(file) && Items(file) != []) ==> r == Err(InvalidRawData)
  {
    match file
    case Absent => Err(FileNotFound)
    case Empty => Err(JsonDecodeError)
    case Undecodable => Err(JsonDecodeError)
    case Decoded(v) => if v.JArr? && v.items != [] then Ok(v.items) else Err(InvalidRawData)
  }

  /** `clean_summary(item.get("Summary", ""))` for one list element: an
      element that is not a dict has no `.get`; a missing, non-string or empty
      summary is rejected by the cleaner. */
  function CleanItem(item: Json): (r: Result<string>)
    ensures r.Ok? <==>
              item.JObj? && "Summary" in item.fields
              && item.fields["Summary"].JStr? && item.fields["Summary"].s != []
    ensures !item.JObj? ==> r == Err(NotAnObject)
    ensures item.JObj? && r.Err? ==> r.error == InvalidSummary
    ensures r.Ok? ==> r == CleanSummary(item.fields["Summary"].s)
  {
    if !item.JObj? then Err(NotAnObject)
    else
      var v := if "Summary" in item.fields then item.fields["Summary"] else JStr("");
      if v.JStr? then CleanSummary(v.s) else Err(InvalidSummary)
  }

  /** `process_data`: read the store, then clean every element's summary,
      one per element and in order, the first failing element's error
      escaping. */
  function ProcessData(file: StoreFile): (r: Result<seq<string>>)
    ensures r.Ok? <==>
              IsList(file) && Items(file) != []
              && forall i :: 0 <= i < |Items(file)| ==> CleanItem(Items(file)[i]).Ok?
    ensures r.Ok? ==>
              && |r.value| == |Items(file)|
              && forall i :: 0 <= i < |r.value| ==> CleanItem(Items(file)[i]) == Ok(r.value[i])
    ensures r.Err? && IsList(file) && Items(file) != [] ==>
              exists i :: 0 <= i < |Items(file)| && CleanItem(Items(file)[i]) == Err(r.error)
                          && forall j :: 0 <= j < i ==> CleanItem(Items(file)[j]).Ok?
    ensures !(IsList(file) && Items(file) != []) ==> r == ReadRawData(file).PropagateFailure()
  {
    var items :- ReadRawData(file);
    MapAllPointwise(CleanItem, items);
    MapAllFirstError(CleanItem, items);
    MapAll(CleanItem, items)
  }

  /** Whatever the api_utils store step writes can be read back by
      `read_raw_data`, and holds the record just stored. */
  lemma StoredFileIsReadable(store: StoreFile, rec: Json)
    requires ApiUtils.StoreUpdate(store, rec).Ok?
    ensures ReadRawData(ApiUtils.StoreUpdate(store, rec).value).Ok?
    ensures rec in ReadRawData(ApiUtils.StoreUpdate(store, rec).value).value
  {
  }
}
