/** The `wikipedia_scraper` of src/scraper.py: the same title check, a
    truthiness test on the fetch answer, and a store update that recovers from
    an undecodable file but tests membership of the one-element list
    `[record]` instead of the record itself. The text extracted from the
    markup is an input. */
module Scraper {
  import opened Base
  import opened JsonStore
  import ApiUtils

  /** `bool(raw_html)`: a dict answer always has two keys; an error message is
      truthy when non-empty. */
  predicate Truthy(fetched: ApiUtils.FetchResult) {
    fetched.Page? || fetched.message != []
  }

  /** The record `{"Title": ..., "Summary": ...}`. */
  function ScraperRecord(title: string, summary: string): Json {
    JObj(map["Title" := JStr(title), "Summary" := JStr(summary)])
  }

  /** The store step as written: missing, empty and undecodable files all
      become `[rec]`; a decoded non-list raises; otherwise `rec` is appended
      unless the list already holds the one-element list `[rec]`. */
  function StoreUpdate(store: StoreFile, rec: Json): (r: Result<StoreFile>)
    ensures r.Err? <==> store.Decoded? && !IsList(store)
    ensures r.Err? ==> r.error == NotAList
    ensures !store.Decoded? ==> r == Ok(ListFile([rec]))
    ensures r.Ok? ==> IsList(r.value)
    ensures r.Ok? && store.Decoded? ==>
              && Items(store) <= Items(r.value)
              && |Items(r.value)| <= |Items(store)| + 1
              && (JArr([rec]) in Items(store) <==> r.value == store)
              && (r.value != store ==> Items(r.value)[|Items(store)|] == rec)
  {
    match store
    case Absent => Ok(ListFile([rec]))
    case Empty => Ok(ListFile([rec]))
    case Undecodable => Ok(ListFile([rec]))
    case Decoded(v) =>
      if !v.JArr? then Err(NotAList)
      else if JArr([rec]) in v.items then Ok(store)
      else Ok(ListFile(v.items + [rec]))
  }

  /** Against a list of records (objects) the membership test never matches,
      so the record is appended even when an equal record is already stored. */
  lemma AppendsToRecordList(items: seq<Json>, rec: Json)
    requires forall i :: 0 <= i < |items| ==> items[i].JObj?
    ensures StoreUpdate(ListFile(items), rec) == Ok(ListFile(items + [rec]))
  {
    assert JArr([rec]) !in items by {
      forall i | 0 <= i < |items| ensures items[i] != JArr([rec]) {
        assert items[i].JObj?;
      }
    }
  }

  /** The concrete consequence: storing the same record twice from a fresh
      file leaves it in the list twice. */
  lemma DuplicateAppended(title: string, summary: string)
    ensures var rec := ScraperRecord(title, summary);
            && StoreUpdate(Absent, rec) == Ok(ListFile([rec]))
            && StoreUpdate(ListFile([rec]), rec) == Ok(ListFile([rec, rec]))
  {
    var rec := ScraperRecord(title, summary);
    AppendsToRecordList([rec], rec);
    assert [rec] + [rec] == [rec, rec];
  }

  /** The store step with the membership test the comment intends (`rec`
      itself), keeping the decode-error recovery. */
  function StoreUpdateCorrected(store: StoreFile, rec: Json): (r: Result<StoreFile>)
    ensures r.Err? <==> store.Decoded? && !IsList(store)
    ensures !store.Decoded? ==> r == Ok(ListFile([rec]))
    ensures r.Ok? ==> IsList(r.value) && rec in Items(r.value)
  {
    if store.Undecodable? then Ok(ListFile([rec])) else ApiUtils.StoreUpdate(store, rec)
  }

  /** The corrected step is idempotent and keeps a duplicate-free list
      duplicate-free. */
  lemma CorrectedIdempotent(store: StoreFile, rec: Json)
    requires StoreUpdateCorrected(store, rec).Ok?
    ensures StoreUpdateCorrected(StoreUpdateCorrected(store, rec).value, rec) == StoreUpdateCorrected(store, rec)
    ensures IsList(store) && NoDuplicates(Items(store)) ==>
              NoDuplicates(Items(StoreUpdateCorrected(store, rec).value))
  {
    if !store.Undecodable? {
      ApiUtils.StoreUpdateIdempotent(store, rec);
    }
    if IsList(store) && NoDuplicates(Items(store)) {
      ApiUtils.StoreUpdateKeepsNoDuplicates(store, rec);
    }
  }

  /** The as-written and corrected steps agree except on a list that holds
      exactly one of `rec` and `[rec]`: holding `rec` only, the as-written
      step appends a duplicate; holding `[rec]` only, it skips the append. */
  lemma AsWrittenVersusCorrected(store: StoreFile, rec: Json)
    ensures StoreUpdate(store, rec) != StoreUpdateCorrected(store, rec) <==>
              IsList(store) && (rec in Items(store) <==> JArr([rec]) !in Items(store))
  {
    if IsList(store) && rec in Items(store) && JArr([rec]) !in Items(store) {
      var r := StoreUpdate(store, rec).value;
      assert |Items(r)| == |Items(store)| + 1;
    }
  }

  /** `wikipedia_scraper(title)` of src/scraper.py with the fetch answer, the
      extracted summary text and the store file given. */
  function Scrape(title: string, fetched: ApiUtils.FetchResult, summary: string, store: StoreFile)
    : (r: Result<ApiUtils.Scraped>)
    ensures !ApiUtils.TitleValid(title) ==> r == Err(InvalidTitle)
    ensures ApiUtils.TitleValid(title) && !Truthy(fetched) ==> r == Err(NoSummary)
    ensures r.Ok? <==>
              ApiUtils.TitleValid(title) && Truthy(fetched) && !(store.Decoded? && !IsList(store))
    ensures r.Ok? ==> r.value.returned == JArr([ScraperRecord(title, summary)])
    ensures r.Ok? && store.Undecodable? ==> r.value.store == ListFile([ScraperRecord(title, summary)])
    ensures r.Ok? ==> StoreUpdate(store, ScraperRecord(title, summary)) == Ok(r.value.store)
  {
    if !ApiUtils.TitleValid(title) then Err(InvalidTitle)
    else if !Truthy(fetched) then Err(NoSummary)
    else
      var rec := ScraperRecord(title, summary);
      var s :- StoreUpdate(store, rec);
      Ok(ApiUtils.Scraped(JArr([rec]), s))
  }
}
