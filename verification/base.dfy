/** Shared vocabulary of the scraper model: the error taxonomy, a result type
    standing in for Python exceptions, Python's whitespace predicate, the
    `str.strip` family, and a few sequence utilities. */
module Base {

  /** Every exception the modelled code raises (or reports), one constructor each. */
  datatype Error =
    | InvalidTitle               // ValueError: empty or all-whitespace title
    | FetchFailed(message: string) // ValueError(result) raised from a fetcher error string
    | NoSummary                  // ValueError: the fetcher returned a falsy value
    | JsonDecodeError            // json.JSONDecodeError while loading a file
    | NotAList                   // ValueError: decoded store is not a list
    | NotAnObject                // AttributeError: `.get` on a list element that is not a dict
    | InvalidSummary             // ValueError from clean_summary
    | InvalidRawData             // ValueError from read_raw_data
    | FileNotFound               // FileNotFoundError
    | NoData                     // ValueError: no non-blank line to export
    | NotCsvPath                 // ValueError: output path does not end in ".csv"

  /** The outcome of an operation that may raise: `Err` means the exception
      escaped and, for the store operations, that no file was written. */
  datatype Result<+T> = Ok(value: T) | Err(error: Error) {
    predicate IsFailure() { Err? }
    function PropagateFailure<U>(): Result<U>
      requires Err?
    {
      Err(error)
    }
    function Extract(): T
      requires Ok?
    {
      value
    }
  }

  /** A text file read line by line: absent, or the lines it holds. */
  datatype TextFile = Missing | Lines(lines: seq<string>)

  /** Python's whitespace test (`\s` in a `str` regex, and what `str.strip`
      removes), restricted to the ASCII range. */
  predicate IsSpace(c: char) {
    || c == ' ' || c == '\t' || c == '\n' || c == '\r'
    || c == '\U{000B}' || c == '\U{000C}'
    || ('\U{001C}' <= c <= '\U{001F}')
  }

  predicate NotSpace(c: char) { !IsSpace(c) }

  predicate AllSpace(s: string) {
    forall i :: 0 <= i < |s| ==> IsSpace(s[i])
  }

  /** `s.lstrip()`: the suffix of `s` left after its leading whitespace. */
  function TrimStart(s: string): (r: string)
    ensures |r| <= |s| && r == s[|s| - |r|..]
    ensures r == [] || !IsSpace(r[0])
  {
    if s != [] && IsSpace(s[0]) then TrimStart(s[1..]) else s
  }

  /** What `TrimStart` removes is whitespace. */
  lemma {:induction false} TrimStartRemovesSpace(s: string)
    ensures forall i :: 0 <= i < |s| - |TrimStart(s)| ==> IsSpace(s[i])
  {
    if s != [] && IsSpace(s[0]) {
      TrimStartRemovesSpace(s[1..]);
      forall i | 0 < i < |s| - |TrimStart(s)| ensures IsSpace(s[i]) {
        assert s[i] == s[1..][i - 1];
      }
    }
  }

  /** `s.rstrip()`: the prefix of `s` left after its trailing whitespace. */
  function TrimEnd(s: string): (r: string)
    ensures |r| <= |s| && r == s[..|r|]
    ensures r == [] || !IsSpace(r[|r| - 1])
  {
    if s != [] && IsSpace(s[|s| - 1]) then TrimEnd(s[..|s| - 1]) else s
  }

  /** What `TrimEnd` removes is whitespace. */
  lemma {:induction false} TrimEndRemovesSpace(s: string)
    ensures forall i :: |TrimEnd(s)| <= i < |s| ==> IsSpace(s[i])
  {
    if s != [] && IsSpace(s[|s| - 1]) {
      TrimEndRemovesSpace(s[..|s| - 1]);
      forall i | |TrimEnd(s)| <= i < |s| - 1 ensures IsSpace(s[i]) {
        assert s[i] == s[..|s| - 1][i];
      }
    }
  }

  /** `s.strip()`: `s` without its leading and trailing whitespace. */
  function Strip(s: string): (r: string)
    ensures |r| <= |s|
    ensures r == [] || (!IsSpace(r[0]) && !IsSpace(r[|r| - 1]))
  {
    TrimEnd(TrimStart(s))
  }

  /** Strip leaves nothing exactly when `s` is all whitespace. */
  lemma StripEmpty(s: string)
    ensures Strip(s) == [] <==> AllSpace(s)
  {
    var t := TrimStart(s);
    TrimStartRemovesSpace(s);
    TrimEndRemovesSpace(t);
    if TrimEnd(t) == [] {
      assert t == [];
    }
  }

  /** Strip cuts `s` into whitespace, the result, and whitespace; `k` is the
      length of the leading whitespace. */
  lemma StripSplit(s: string) returns (k: nat)
    ensures k + |Strip(s)| <= |s|
    ensures s[k..k + |Strip(s)|] == Strip(s)
    ensures forall i :: 0 <= i < k ==> IsSpace(s[i])
    ensures forall i :: k + |Strip(s)| <= i < |s| ==> IsSpace(s[i])
  {
    TrimStartRemovesSpace(s);
    TrimEndRemovesSpace(TrimStart(s));
    k := SpaceWindow(s, TrimStart(s), Strip(s));
  }

  /** `r` as a prefix of the suffix `t` of `s` is a window of `s`; whitespace
      dropped on either side stays whitespace in `s`. */
  lemma SpaceWindow(s: string, t: string, r: string) returns (k: nat)
    requires |t| <= |s| && t == s[|s| - |t|..]
    requires |r| <= |t| && r == t[..|r|]
    requires forall i :: 0 <= i < |s| - |t| ==> IsSpace(s[i])
    requires forall i :: |r| <= i < |t| ==> IsSpace(t[i])
    ensures k == |s| - |t| && k + |r| <= |s|
    ensures s[k..k + |r|] == r
    ensures forall i :: 0 <= i < k ==> IsSpace(s[i])
    ensures forall i :: k + |r| <= i < |s| ==> IsSpace(s[i])
  {
    k := |s| - |t|;
    assert s[k..][..|r|] == s[k..k + |r|];
    forall i | k + |r| <= i < |s| ensures IsSpace(s[i]) {
      assert s[i] == t[i - k];
    }
  }

  /** Strip leaves an already stripped string alone. */
  lemma StripStripped(s: string)
    requires s == [] || (!IsSpace(s[0]) && !IsSpace(s[|s| - 1]))
    ensures Strip(s) == s
  {
    assert TrimStart(s) == s;
  }

  /** Concatenation regroups freely. */
  lemma Associative<T>(a: seq<T>, b: seq<T>, c: seq<T>)
    ensures a + (b + c) == a + b + c
  {
  }

  /** `s.endswith(suffix)`. */
  predicate EndsWith(s: string, suffix: string) {
    |suffix| <= |s| && s[|s| - |suffix|..] == suffix
  }

  /** The elements of `s` satisfying `p`, in their original order. */
  function Filter<T>(p: T -> bool, s: seq<T>): (r: seq<T>)
    ensures |r| <= |s|
    ensures forall i :: 0 <= i < |r| ==> p(r[i])
    ensures forall x :: x in r ==> x in s
  {
    if s == [] then [] else (if p(s[0]) then [s[0]] else []) + Filter(p, s[1..])
  }

  lemma {:induction false} FilterConcat<T>(p: T -> bool, a: seq<T>, b: seq<T>)
    ensures Filter(p, a + b) == Filter(p, a) + Filter(p, b)
  {
    if a == [] {
      assert a + b == b;
    } else {
      assert (a + b)[1..] == a[1..] + b;
      FilterConcat(p, a[1..], b);
    }
  }

  /** Filtering drops nothing that does not satisfy `p`... and keeps nothing
      when no element does. */
  lemma {:induction false} FilterNone<T>(p: T -> bool, s: seq<T>)
    requires forall i :: 0 <= i < |s| ==> !p(s[i])
    ensures Filter(p, s) == []
  {
    if s != [] {
      FilterNone(p, s[1..]);
    }
  }

  /** Filtering keeps everything when every element satisfies `p`. */
  lemma {:induction false} FilterAll<T>(p: T -> bool, s: seq<T>)
    requires forall i :: 0 <= i < |s| ==> p(s[i])
    ensures Filter(p, s) == s
  {
    if s != [] {
      FilterAll(p, s[1..]);
      assert s == [s[0]] + s[1..];
    }
  }

  /** Filtering with a stricter predicate after a looser one is filtering with
      the stricter one alone. */
  lemma {:induction false} FilterNarrow<T>(p: T -> bool, q: T -> bool, s: seq<T>)
    requires forall x :: p(x) ==> q(x)
    ensures Filter(p, Filter(q, s)) == Filter(p, s)
  {
    if s != [] {
      FilterNarrow(p, q, s[1..]);
      if q(s[0]) {
        assert Filter(q, s) == [s[0]] + Filter(q, s[1..]);
        FilterConcat(p, [s[0]], Filter(q, s[1..]));
      } else {
        assert !p(s[0]);
        assert Filter(q, s) == Filter(q, s[1..]);
        assert Filter(p, s) == Filter(p, s[1..]);
      }
    }
  }

  /** Stripping only removes whitespace, so it is invisible to a filter that
      never keeps whitespace. */
  lemma FilterStrip(p: char -> bool, s: string)
    requires forall c :: p(c) ==> !IsSpace(c)
    ensures Filter(p, Strip(s)) == Filter(p, s)
  {
    var k := StripSplit(s);
    FilterOutside(p, s, k, Strip(s));
  }

  /** Filtering `s` keeps nothing outside the window `s[k..k + |r|] == r`
      when everything outside it fails `p`. */
  lemma FilterOutside(p: char -> bool, s: string, k: nat, r: string)
    requires k + |r| <= |s| && s[k..k + |r|] == r
    requires forall i :: 0 <= i < k ==> !p(s[i])
    requires forall i :: k + |r| <= i < |s| ==> !p(s[i])
    ensures Filter(p, r) == Filter(p, s)
  {
    var lead, trail := s[..k], s[k + |r|..];
    assert s == lead + r + trail by {
      assert s == s[..k] + s[k..k + |r|] + s[k + |r|..];
    }
    forall i | 0 <= i < |lead| ensures !p(lead[i]) {
      assert lead[i] == s[i];
    }
    forall i | 0 <= i < |trail| ensures !p(trail[i]) {
      assert trail[i] == s[k + |r| + i];
    }
    FilterNone(p, lead);
    FilterNone(p, trail);
    FilterBetween(p, lead, r, trail);
  }

  /** Filtering drops outer parts that it empties entirely. */
  lemma FilterBetween<T>(p: T -> bool, a: seq<T>, b: seq<T>, c: seq<T>)
    requires Filter(p, a) == [] && Filter(p, c) == []
    ensures Filter(p, a + b + c) == Filter(p, b)
  {
    FilterConcat(p, a + b, c);
    FilterConcat(p, a, b);
    assert [] + Filter(p, b) + [] == Filter(p, b);
  }

  /** `a` is obtained from `b` by deleting elements (greedy matching). */
  predicate IsSubsequence<T(==)>(a: seq<T>, b: seq<T>)
    decreases |b|
  {
    if a == [] then true
    else if b == [] then false
    else if a[0] == b[0] then IsSubsequence(a[1..], b[1..])
    else IsSubsequence(a, b[1..])
  }

  lemma {:induction false} SubsequenceLength<T>(a: seq<T>, b: seq<T>)
    requires IsSubsequence(a, b)
    ensures |a| <= |b|
    decreases |b|
  {
    if a != [] && b != [] {
      if a[0] == b[0] { SubsequenceLength(a[1..], b[1..]); } else { SubsequenceLength(a, b[1..]); }
    }
  }

  lemma {:induction false} FilterIsSubsequence<T>(p: T -> bool, s: seq<T>)
    ensures IsSubsequence(Filter(p, s), s)
  {
    if s != [] {
      FilterIsSubsequence(p, s[1..]);
      if !p(s[0]) {
        assert Filter(p, s) == Filter(p, s[1..]);
        SubsequenceSkip(Filter(p, s[1..]), s[0], s[1..]);
      }
    }
  }

  /** Prepending one element to the larger sequence keeps a subsequence. */
  lemma {:induction false} SubsequenceSkip<T>(a: seq<T>, x: T, b: seq<T>)
    requires IsSubsequence(a, b)
    ensures IsSubsequence(a, [x] + b)
    decreases |a| + |b| + 1
  {
    if a != [] && a[0] == x {
      // [x] + b matches a[0] against x; a[1..] must be a subsequence of b
      SubsequenceTail(a, b);
    }
    assert ([x] + b)[1..] == b;
  }

  lemma {:induction false} SubsequenceTail<T>(a: seq<T>, b: seq<T>)
    requires a != [] && IsSubsequence(a, b)
    ensures IsSubsequence(a[1..], b)
    decreases |a| + |b|
  {
    if a[0] == b[0] {
      SubsequenceSkip(a[1..], b[0], b[1..]);
      assert [b[0]] + b[1..] == b;
    } else {
      SubsequenceTail(a, b[1..]);
      SubsequenceSkip(a[1..], b[0], b[1..]);
      assert [b[0]] + b[1..] == b;
    }
  }

  lemma {:induction false} SubsequencePrepend<T>(a: seq<T>, c: seq<T>, b: seq<T>)
    requires IsSubsequence(a, b)
    ensures IsSubsequence(a, c + b)
    decreases |c|
  {
    if c != [] {
      SubsequencePrepend(a, c[1..], b);
      SubsequenceSkip(a, c[0], c[1..] + b);
      assert [c[0]] + (c[1..] + b) == c + b;
    } else {
      assert c + b == b;
    }
  }

  lemma {:induction false} SubsequenceAppend<T>(a: seq<T>, b: seq<T>, c: seq<T>)
    requires IsSubsequence(a, b)
    ensures IsSubsequence(a, b + c)
    decreases |b|
  {
    if a != [] {
      assert (b + c)[1..] == b[1..] + c;
      if a[0] == b[0] { SubsequenceAppend(a[1..], b[1..], c); } else { SubsequenceAppend(a, b[1..], c); }
    }
  }

  /** A subsequence of a slice is a subsequence of the whole. */
  lemma SubsequenceOfSlice<T>(a: seq<T>, b: seq<T>, i: nat, j: nat)
    requires i <= j <= |b| && IsSubsequence(a, b[i..j])
    ensures IsSubsequence(a, b)
  {
    SubsequencePrepend(a, b[..i], b[i..j]);
    SubsequenceAppend(a, b[..i] + b[i..j], b[j..]);
    assert b[..i] + b[i..j] + b[j..] == b;
  }

  /** A subsequence of `Strip(s)` is a subsequence of `s`. */
  lemma SubsequenceOfStrip(a: string, s: string)
    requires IsSubsequence(a, Strip(s))
    ensures IsSubsequence(a, s)
  {
    var k := StripSplit(s);
    SubsequenceOfSlice(a, s, k, k + |Strip(s)|);
  }

  /** `[f(x) for x in xs]` where `f` may raise: the results in order, or the
      first exception. */
  function MapAll<A, B>(f: A -> Result<B>, xs: seq<A>): (r: Result<seq<B>>)
    ensures r.Ok? ==> |r.value| == |xs|
  {
    if xs == [] then Ok([])
    else
      var head :- f(xs[0]);
      var rest :- MapAll(f, xs[1..]);
      Ok([head] + rest)
  }

  /** `MapAll` succeeds exactly when `f` succeeds on every element, and then
      holds each element's result at that element's position. */
  lemma {:induction false} MapAllPointwise<A, B>(f: A -> Result<B>, xs: seq<A>)
    ensures MapAll(f, xs).Ok? <==> forall i :: 0 <= i < |xs| ==> f(xs[i]).Ok?
    ensures MapAll(f, xs).Ok? ==> forall i :: 0 <= i < |xs| ==> f(xs[i]) == Ok(MapAll(f, xs).value[i])
  {
    if xs != [] {
      var tail := xs[1..];
      MapAllPointwise(f, tail);
      assert forall i :: 1 <= i < |xs| ==> xs[i] == tail[i - 1];
      if f(xs[0]).Ok? && MapAll(f, tail).Ok? {
        var r := MapAll(f, xs).value;
        assert r == [f(xs[0]).value] + MapAll(f, tail).value;
        assert forall i :: 1 <= i < |xs| ==> r[i] == MapAll(f, tail).value[i - 1];
      }
    }
  }

  /** The error `MapAll` returns is the one of the first element that fails. */
  lemma {:induction false} MapAllFirstError<A, B>(f: A -> Result<B>, xs: seq<A>)
    ensures MapAll(f, xs).Err? ==>
              exists i :: 0 <= i < |xs| && f(xs[i]) == Err(MapAll(f, xs).error)
                          && forall j :: 0 <= j < i ==> f(xs[j]).Ok?
  {
    if MapAll(f, xs).Err? {
      if f(xs[0]).Ok? {
        var tail := xs[1..];
        MapAllFirstError(f, tail);
        var i :| 0 <= i < |tail| && f(tail[i]) == Err(MapAll(f, tail).error)
                 && forall j :: 0 <= j < i ==> f(tail[j]).Ok?;
        assert f(xs[i + 1]) == Err(MapAll(f, xs).error);
        forall j | 0 <= j < i + 1 ensures f(xs[j]).Ok? {
          if j > 0 { assert xs[j] == tail[j - 1]; }
        }
      } else {
        assert f(xs[0]) == Err(MapAll(f, xs).error);
      }
    }
  }

  predicate NoDuplicates<T(==)>(s: seq<T>) {
    forall i, j :: 0 <= i < j < |s| ==> s[i] != s[j]
  }
}
