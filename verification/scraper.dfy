/** The two getters and the reads the routes make through the cache: `getJackpot`,
    `getWinnerNums`, `tryToFetchJackpot` and `tryToFetchWinnerSum`. The page fetch is its
    outcome, passed in: the selected jackpot text or the winning-numbers feed, or the
    error the request failed with. */
module Scraper {
  import opened Wrappers
  import opened Errors
  import opened Text
  import opened Jackpot
  import opened WinningNumbers
  import opened Cache

  const JackpotKey: string := "jackpot"
  const WinnumsKey: string := "winnums"

  /** What a getter resolves with, besides its `lastUpdate`: `{powerBallJackpot}` from
      `getJackpot`, `{winnersNums}` from `getWinnerNums`, or the empty object `{}` that
      `getWinnerNums` returns for a feed of a single line. */
  datatype Payload = PowerBallJackpot(cents: nat) | WinnersNums(numbers: seq<string>) | NoNumbers

  /** `getJackpot`: a failed fetch rejects with its error, a text that does not parse
      rejects with the parse error, and otherwise the jackpot in cents is stamped with the
      current time. */
  function GetJackpot(page: Result<string, Error>, now: int): (r: Result<Entry<Payload>, Error>)
    ensures page.Failure? ==> r == Failure(page.error)
    ensures page.Success? && (forall i :: 0 <= i < |page.value| ==> !IsDigit(page.value[i]))
            ==> r == Failure(ParseError)
    ensures r.Success? ==> page.Success? && exists i :: 0 <= i < |page.value| && IsDigit(page.value[i])
    ensures r.Success? ==> r.value.lastUpdate == Some(now)
    ensures r.Success? ==> r.value.value.PowerBallJackpot? && r.value.value.cents % CentsInDollar == 0
    ensures page.Success? && ParseJackpot(page.value).Success?
            ==> r == Success(Entry(PowerBallJackpot(ParseJackpot(page.value).value), Some(now)))
  {
    match page
    case Failure(err) => Failure(err)
    case Success(text) =>
      match ParseJackpot(text)
      case Failure(err) => Failure(err)
      case Success(cents) => Success(Entry(PowerBallJackpot(cents), Some(now)))
  }

  /** `getWinnerNums`: a failed fetch rejects with its error; a feed with a second line
      gives its numbers stamped with the current time; a feed of one line gives `{}`,
      which has neither numbers nor a `lastUpdate`. */
  function GetWinnerNums(feed: Result<string, Error>, now: int): (r: Result<Entry<Payload>, Error>)
    ensures r.Success? <==> feed.Success?
    ensures feed.Failure? ==> r == Failure(feed.error)
    ensures r.Success? ==> (r.value.value.WinnersNums? <==> Contains(feed.value, LineSeparator))
    ensures r.Success? ==> (r.value.lastUpdate.Some? <==> Contains(feed.value, LineSeparator))
    ensures r.Success? && r.value.lastUpdate.Some? ==> r.value.lastUpdate == Some(now)
    ensures r.Success? && !r.value.value.WinnersNums? ==> r.value == Entry(NoNumbers, None)
    ensures r.Success? && Contains(feed.value, LineSeparator)
            ==> r.value.value == WinnersNums(ExtractWinners(feed.value).value)
  {
    match feed
    case Failure(err) => Failure(err)
    case Success(text) =>
      match ExtractWinners(text)
      case Some(numbers) => Success(Entry(WinnersNums(numbers), Some(now)))
      case None => Success(Entry(NoNumbers, None))
  }

  /** `tryToFetchJackpot`: the cached read of the jackpot. */
  function TryToFetchJackpot(store: Store<Payload>, now: int, page: Result<string, Error>): (r: Read<Payload, Error>)
    ensures r.invoked <==> JackpotKey !in store || !IsFresh(store[JackpotKey], now)
    ensures r.result.Success? ==> JackpotKey in r.store && r.store[JackpotKey] == r.result.value
    ensures !r.invoked ==> r.result == Success(store[JackpotKey]) && r.store == store
    ensures r.invoked ==> r.result == GetJackpot(page, now)
    ensures r.result.Failure? ==> r.store == store
    ensures r.invoked && r.result.Success? ==> r.result.value.value.PowerBallJackpot?
  {
    FetchCached(store, JackpotKey, now, GetJackpot(page, now))
  }

  /** `tryToFetchWinnerSum`: the cached read of the winning numbers. */
  function TryToFetchWinnerSum(store: Store<Payload>, now: int, feed: Result<string, Error>): (r: Read<Payload, Error>)
    ensures r.invoked <==> WinnumsKey !in store || !IsFresh(store[WinnumsKey], now)
    ensures r.result.Success? ==> WinnumsKey in r.store && r.store[WinnumsKey] == r.result.value
    ensures !r.invoked ==> r.result == Success(store[WinnumsKey]) && r.store == store
    ensures r.invoked ==> r.result == GetWinnerNums(feed, now)
    ensures r.result.Failure? ==> r.store == store
    ensures r.invoked && r.result.Success? ==> r.result.value.value.WinnersNums? || r.result.value.value.NoNumbers?
  {
    FetchCached(store, WinnumsKey, now, GetWinnerNums(feed, now))
  }

  /** The two cached objects live under different keys. */
  lemma KeysDiffer()
    ensures JackpotKey != WinnumsKey
  {
    assert JackpotKey[0] != WinnumsKey[0];
  }

  /** Reading one of the two cached objects never disturbs the other. */
  lemma ReadsKeepTheOtherKey(store: Store<Payload>, now: int, fetched: Result<string, Error>)
    ensures var r := TryToFetchJackpot(store, now, fetched);
      (WinnumsKey in r.store <==> WinnumsKey in store)
      && (WinnumsKey in store ==> r.store[WinnumsKey] == store[WinnumsKey])
    ensures var r := TryToFetchWinnerSum(store, now, fetched);
      (JackpotKey in r.store <==> JackpotKey in store)
      && (JackpotKey in store ==> r.store[JackpotKey] == store[JackpotKey])
  {
    KeysDiffer();
  }

  /** A feed of a single line is cached as `{}` with no `lastUpdate`, and from then on every
      read of the winning numbers serves that `{}`: it is never refreshed. */
  lemma ShortFeedStaysCached(store: Store<Payload>, now: int, feed: string,
                             later: int, next: Result<string, Error>)
    requires WinnumsKey !in store
    requires '\n' !in feed
    ensures var first := TryToFetchWinnerSum(store, now, Success(feed));
      && first.result == Success(Entry(NoNumbers, None))
      && var second := TryToFetchWinnerSum(first.store, later, next);
      && !second.invoked
      && second.result == Success(Entry(NoNumbers, None))
      && second.store == first.store
  {
    ContainsChar(feed, '\n');
    assert ExtractWinners(feed).None?;
    var first := TryToFetchWinnerSum(store, now, Success(feed));
    assert first.store[WinnumsKey] == Entry(NoNumbers, None);
    UndatedNeverRefreshed(first.store, WinnumsKey, GetWinnerNums(next, later));
  }

  /** A failed page fetch while the cached jackpot is stale rejects with the fetch error
      and keeps the stale jackpot, neither updated nor removed. */
  lemma FailedFetchKeepsStaleJackpot(store: Store<Payload>, now: int, cause: string)
    requires JackpotKey in store && IsStale(store[JackpotKey], now)
    ensures var r := TryToFetchJackpot(store, now, Failure(FetchError(cause)));
      r.invoked && r.result == Failure(FetchError(cause)) && r.store == store
  {
  }

  /** A stale jackpot is replaced by the amount parsed from the page, stamped with the
      current time. */
  lemma StaleJackpotReparsed(store: Store<Payload>, now: int, text: string)
    requires JackpotKey in store && IsStale(store[JackpotKey], now)
    requires ParseJackpot(text).Success?
    ensures var r := TryToFetchJackpot(store, now, Success(text));
      var e := Entry(PowerBallJackpot(ParseJackpot(text).value), Some(now));
      r.invoked && r.result == Success(e) && r.store == store[JackpotKey := e]
  {
  }

  /** For a page showing the jackpot the way the site displays it ("$1,234 Million"), the
      stale jackpot is replaced by the displayed dollars in cents. */
  lemma StaleDisplayedJackpotReparsed(store: Store<Payload>, now: int, dollars: nat, inMillions: bool)
    requires JackpotKey in store && IsStale(store[JackpotKey], now)
    ensures var r := TryToFetchJackpot(store, now, Success(FormatJackpot(dollars, inMillions)));
      var cents := dollars * CentsInDollar * (if inMillions then Million else 1);
      r.invoked && r.result == Success(Entry(PowerBallJackpot(cents), Some(now)))
      && r.store == store[JackpotKey := Entry(PowerBallJackpot(cents), Some(now))]
  {
    ParseFormattedJackpot(dollars, inMillions);
    StaleJackpotReparsed(store, now, FormatJackpot(dollars, inMillions));
  }
}
