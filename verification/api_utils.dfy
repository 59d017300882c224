/** The `wikipedia_scraper` of src/api_utils.py: title validation, the
    fetcher's two kinds of answer, and the append-with-dedup update of the
    raw-data JSON store. The HTTP fetch itself is an input. */
module ApiUtils {
  import opened Base
  import opened JsonStore

  /** `title and title.strip()`: the title has some non-whitespace. */
  predicate TitleValid(title: string) {
    Strip(title) != []
  }

  lemma TitleValidIff(title: string)
    ensures TitleValid(title) <==> exists i :: 0 <= i < |title| && !IsSpace(title[i])
  {
    StripEmpty(title);
  }

  /** What `fetch_wikipedia_page` hands back: a dict with the page id and
      summary as the API reported them, or an error message string. */
  datatype FetchResult =
    | Page(pageId: Json, summary: Json)
    | FetchError(message: string)

  /** The record `{"Title": ..., "Page_ID": ..., "Summary": ...}`. */
  function ApiRecord(title: string, pageId: Json, summary: Json): Json {
    JObj(map["Title" := JStr(title), "Page_ID" := pageId, "Summary" := summary])
  }

  /** The store step: a missing or zero-size file becomes `[rec]`; otherwise
      the file is decoded (a decode error escapes), must hold a list, and gets
      `rec` appended unless an equal element is already there. */
  function StoreUpdate(store: StoreFile, rec: Json): (r: Result<StoreFile>)
    ensures r.Err? <==> store.Undecodable? || (store.Decoded? && !IsList(store))
    ensures store.Undecodable? ==> r == Err(JsonDecodeError)
    ensures store.Decoded? && !IsList(store) ==> r == Err(NotAList)
    ensures store.Absent? || store.Empty? ==> r == Ok(ListFile([rec]))
    ensures r.Ok? ==> IsList(r.value) && rec in Items(r.value)
    ensures r.Ok? && store.Decoded? ==>
              && Items(store) <= Items(r.value)
              && |Items(r.value)| <= |Items(store)| + 1
              && (rec in Items(store) <==> r.value == store)
  {
    match store
    case Absent => Ok(ListFile([rec]))
    case Empty => Ok(ListFile([rec]))
    case Undecodable => Err(JsonDecodeError)
    case Decoded(v) =>
      if !v.JArr? then Err(NotAList)
      else if rec in v.items then Ok(store)
      else Ok(ListFile(v.items + [rec]))
  }

  /** When the record is new, the store grows by exactly that record at the
      end; earlier elements keep their values and order. */
  lemma StoreUpdateAppends(store: StoreFile, rec: Json)
    requires IsList(store) && rec !in Items(store)
    ensures StoreUpdate(store, rec) == Ok(ListFile(Items(store) + [rec]))
  {
    var r := StoreUpdate(store, rec).value;
    assert Items(r) == Items(store) + [rec] by {
      assert Items(store) == Items(r)[..|Items(store)|];
      assert |Items(r)| == |Items(store)| + 1;
      assert Items(r)[|Items(store)|] == rec;
    }
  }

  /** A second identical update changes nothing. */
  lemma StoreUpdateIdempotent(store: StoreFile, rec: Json)
    requires StoreUpdate(store, rec).Ok?
    ensures StoreUpdate(StoreUpdate(store, rec).value, rec) == StoreUpdate(store, rec)
  {
  }

  /** A duplicate-free list stays duplicate-free. */
  lemma StoreUpdateKeepsNoDuplicates(store: StoreFile, rec: Json)
    requires IsList(store) && NoDuplicates(Items(store))
    ensures StoreUpdate(store, rec).Ok?
    ensures NoDuplicates(Items(StoreUpdate(store, rec).value))
  {
    if rec !in Items(store) {
      StoreUpdateAppends(store, rec);
      var s := Items(store) + [rec];
      forall i, j | 0 <= i < j < |s| ensures s[i] != s[j] {
        if j == |s| - 1 {
          assert s[i] == Items(store)[i];
        } else {
          assert s[i] == Items(store)[i] && s[j] == Items(store)[j];
        }
      }
    }
  }

  /** The store after a sequence of calls, one record per call, stopping at
      the first error. */
  function StoreAll(store: StoreFile, recs: seq<Json>): Result<StoreFile>
    decreases |recs|
  {
    if recs == [] then Ok(store)
    else
      match StoreAll(store, recs[..|recs| - 1])
      case Err(e) => Err(e)
      case Ok(s) => StoreUpdate(s, recs[|recs| - 1])
  }

  /** Distinct records stored one after another into a fresh store end up in
      call order. */
  lemma {:induction false} DistinctRecordsKeepOrder(store: StoreFile, recs: seq<Json>)
    requires store.Absent? || store.Empty?
    requires recs != [] && NoDuplicates(recs)
    ensures StoreAll(store, recs) == Ok(ListFile(recs))
    decreases |recs|
  {
    var init, last := recs[..|recs| - 1], recs[|recs| - 1];
    if init == [] {
      assert recs == [last];
    } else {
      assert NoDuplicates(init) by {
        forall i, j | 0 <= i < j < |init| ensures init[i] != init[j] {
          assert init[i] == recs[i] && init[j] == recs[j];
        }
      }
      DistinctRecordsKeepOrder(store, init);
      assert last !in init by {
        forall i | 0 <= i < |init| ensures init[i] != last {
          assert init[i] == recs[i];
        }
      }
      StoreUpdateAppends(ListFile(init), last);
      assert init + [last] == recs;
    }
  }

  /** After a successful run of calls, every record passed is in the store. */
  lemma {:induction false} StoreAllContains(store: StoreFile, recs: seq<Json>)
    requires recs != [] && StoreAll(store, recs).Ok?
    ensures IsList(StoreAll(store, recs).value)
    ensures forall x :: x in recs ==> x in Items(StoreAll(store, recs).value)
    decreases |recs|
  {
    var init, last := recs[..|recs| - 1], recs[|recs| - 1];
    var s := StoreAll(store, init).value;
    var r := StoreUpdate(s, last).value;
    assert StoreAll(store, recs) == Ok(r);
    if init != [] {
      StoreAllContains(store, init);
      forall x | x in recs ensures x in Items(r) {
        if x != last {
          assert x in init by {
            var i :| 0 <= i < |recs| && recs[i] == x;
            assert init[i] == x;
          }
          assert x in Items(s);
        }
      }
    } else {
      assert recs == [last];
    }
  }

  /** Repeating a record that an earlier call already stored is a no-op, so
      interleaved duplicate calls never change the store. */
  lemma RepeatIsNoOp(store: StoreFile, recs: seq<Json>, x: Json)
    requires StoreAll(store, recs).Ok? && x in recs
    ensures StoreAll(store, recs + [x]) == StoreAll(store, recs)
  {
    StoreAllContains(store, recs);
    assert (recs + [x])[..|recs|] == recs;
  }

  /** What one run of `wikipedia_scraper` leaves behind: its return value and
      the store file. */
  datatype Scraped = Scraped(returned: Json, store: StoreFile)

  /** `wikipedia_scraper(title)` with the fetch answer and the store file
      given. The title is checked before anything else, and a fetch error is
      raised before the store is touched. */
  function Scrape(title: string, fetched: FetchResult, store: StoreFile): (r: Result<Scraped>)
    ensures !TitleValid(title) ==> r == Err(InvalidTitle)
    ensures TitleValid(title) && fetched.FetchError? ==> r == Err(FetchFailed(fetched.message))
    ensures r.Ok? <==>
              TitleValid(title) && fetched.Page? && !store.Undecodable? && (store.Decoded? ==> IsList(store))
    ensures r.Ok? ==>
              var rec := ApiRecord(title, fetched.pageId, fetched.summary);
              && r.value.returned == rec
              && IsList(r.value.store) && rec in Items(r.value.store)
              && StoreUpdate(store, rec) == Ok(r.value.store)
  {
    if !TitleValid(title) then Err(InvalidTitle)
    else
      match fetched
      case FetchError(message) => Err(FetchFailed(message))
      case Page(pageId, summary) =>
        var rec := ApiRecord(title, pageId, summary);
        var s :- StoreUpdate(store, rec);
        Ok(Scraped(rec, s))
  }
}
