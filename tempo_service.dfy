/** Resolution of one date's tariff status: answer from the cache, or fetch
    the date and the next day from the provider, store everything it
    returned, and answer from the fetched entries. */
module TempoService {
  import opened Wrappers
  import opened Server
  import opened Cache
  import opened EdfApi

  const InvalidDateMessage := "Format de date invalide"
  const DateNotFoundMessage := "Date non trouvée dans la réponse API"

  /** The date library as the service uses it: `parse` reads a "%Y-%m-%d"
      string into a day number (None when the text is not a date), and
      `format` writes a day number back in the same format. Adding one day
      is adding one to the day number. */
  datatype DateFormat = DateFormat(parse: string -> Option<int>, format: int -> string)

  /** The status of the first entry of `batch` for `date`, or the
      not-found error. */
  function FindStatus(batch: Batch, date: string): (r: Result<TempoStatus>)
    ensures r.Err? <==> forall i :: 0 <= i < |batch| ==> batch[i].0 != date
    ensures r.Err? ==> r.error == DateNotFoundMessage
    ensures r.Ok? ==> exists i :: 0 <= i < |batch| && batch[i] == (date, r.value) &&
                        forall j :: 0 <= j < i ==> batch[j].0 != date
  {
    if batch == [] then Err(DateNotFoundMessage)
    else if batch[0].0 == date then Ok(batch[0].1)
    else
      var r := FindStatus(batch[1..], date);
      assert forall i :: 0 < i < |batch| ==> batch[i] == batch[1..][i - 1];
      r
  }

  /** A date the fetched entries answer for is in the cache afterwards, so
      the next request for it is a cache hit. */
  lemma FoundDateIsCached(m: map<string, TempoStatus>, batch: Batch, date: string)
    requires FindStatus(batch, date).Ok?
    ensures date in ApplyBatch(m, batch)
  {
    ApplyBatchAt(m, batch, date);
  }

  /** A date the fetched entries do not mention is left as it was: a miss
      that ends in the not-found error does not put that date in the cache. */
  lemma MissingDateNotCached(m: map<string, TempoStatus>, batch: Batch, date: string)
    requires FindStatus(batch, date).Err?
    ensures date in ApplyBatch(m, batch) <==> date in m
  {
    UnmentionedKeysUnchanged(m, batch, date);
  }

  /** When every entry for `date` in the fetched batch carries the same
      status, the status answered on the miss is the one the cache answers
      on the next request. */
  lemma RepeatAgreesWhenEntriesAgree(m: map<string, TempoStatus>, batch: Batch, date: string)
    requires FindStatus(batch, date).Ok?
    requires forall i, j :: 0 <= i < |batch| && 0 <= j < |batch| && batch[i].0 == date && batch[j].0 == date
               ==> batch[i].1 == batch[j].1
    ensures date in ApplyBatch(m, batch)
    ensures ApplyBatch(m, batch)[date] == FindStatus(batch, date).value
  {
    ApplyBatchAt(m, batch, date);
  }

  /** The answer on a miss is the FIRST entry for the date, while the cache
      keeps the LAST: with two differing entries for one date the first and
      the second request answer differently. */
  lemma FirstAnswerAndCacheCanDiffer(m: map<string, TempoStatus>, date: string)
    ensures FindStatus([(date, TempoBleu), (date, TempoRouge)], date) == Ok(TempoBleu)
    ensures ApplyBatch(m, [(date, TempoBleu), (date, TempoRouge)])[date] == TempoRouge
  {
  }

  /** `get_tempo_status_for_date`. */
  method GetTempoStatusForDate(cache: TempoCache, client: EdfClient, dates: DateFormat, date: string)
    returns (r: Result<TempoStatus>)
    modifies cache, client
    // hit: the cached status, no request, no write
    ensures date in old(cache.entries) ==>
              r == Ok(old(cache.entries)[date]) &&
              cache.entries == old(cache.entries) && client.calls == old(client.calls)
    // miss on a malformed date: rejected before any request or write
    ensures date !in old(cache.entries) && dates.parse(date).None? ==>
              r == Err(InvalidDateMessage) &&
              cache.entries == old(cache.entries) && client.calls == old(client.calls)
    // miss on a date: exactly one request, for the date and the next day
    ensures date !in old(cache.entries) && dates.parse(date).Some? ==>
              var tomorrow := dates.format(dates.parse(date).value + 1);
              var fetched := FetchResult(client.reply(date, tomorrow));
              && client.calls == old(client.calls) + [(date, tomorrow)]
              && (fetched.Err? ==> r == Err(fetched.error) && cache.entries == old(cache.entries))
              && (fetched.Ok? ==> cache.entries == ApplyBatch(old(cache.entries), fetched.value) &&
                                  r == FindStatus(fetched.value, date))
    // a status once answered is cached
    ensures r.Ok? ==> date in cache.entries
  {
    var cached := cache.Get(date);
    if cached.Some? {
      return Ok(cached.value);
    }
    var day := dates.parse(date);
    if day.None? {
      return Err(InvalidDateMessage);
    }
    var tomorrow := dates.format(day.value + 1);
    var fetched := client.FetchTempoCalendar(date, tomorrow);
    match fetched
    case Ok(entries) =>
      cache.InsertMultiple(entries);
      r := FindStatus(entries, date);
      if r.Ok? {
        FoundDateIsCached(old(cache.entries), entries, date);
      }
    case Err(error) =>
      r := Err(error);
  }

  /** Two requests in a row for the same date make at most one upstream
      call, and after a successful first one the second is answered from
      the cache. */
  method RequestTwice(cache: TempoCache, client: EdfClient, dates: DateFormat, date: string)
    returns (first: Result<TempoStatus>, second: Result<TempoStatus>)
    modifies cache, client
    ensures |client.calls| <= |old(client.calls)| + 2
    ensures first.Ok? ==> |client.calls| <= |old(client.calls)| + 1
    ensures first.Ok? ==> date in cache.entries && second == Ok(cache.entries[date])
  {
    first := GetTempoStatusForDate(cache, client, dates, date);
    second := GetTempoStatusForDate(cache, client, dates, date);
  }
}
