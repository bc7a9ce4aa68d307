/**
  The effect the redirect page runs when `/:code` is opened: look the
  code up, refuse unknown and expired codes, otherwise record one click
  and send the browser to the original URL.
 */
module Redirect {
  import opened Registry
  import opened Logging

  /** Where the page goes: back to the form with a message, or on to the URL. */
  datatype Outcome = NotFound | Expired | Found(url: string)

  datatype Visit = Visit(outcome: Outcome, urls: map<string, Entry>)

  /** `document.referrer || "direct"`. */
  function ClickSource(referrer: string): (src: string)
    ensures src != ""
    ensures referrer != "" ==> src == referrer
    ensures referrer == "" ==> src == "direct"
  {
    if referrer == "" then "direct" else referrer
  }

  /** Opening `code` at time `now`. An unknown code is NotFound and an
      entry whose expiry lies strictly before `now` is Expired; neither
      changes the registry. Otherwise the outcome is the entry's original
      URL and exactly one click is appended to that entry, with every
      other entry, every key and the entry's URL and expiry unchanged. */
  function Open(urls: map<string, Entry>, code: string, now: int, referrer: string): (v: Visit)
    ensures v.outcome == NotFound <==> code !in urls
    ensures v.outcome == Expired <==> code in urls && IsExpired(urls[code].expiry, now)
    ensures v.outcome.Found? ==> code in urls && v.outcome.url == urls[code].original
    ensures !v.outcome.Found? ==> v.urls == urls
    ensures v.urls.Keys == urls.Keys
    ensures forall c :: c in urls && c != code ==> v.urls[c] == urls[c]
    ensures v.outcome.Found? ==>
              && v.urls[code].original == urls[code].original
              && v.urls[code].expiry == urls[code].expiry
              && |v.urls[code].clicks| == |urls[code].clicks| + 1
              && v.urls[code].clicks[..|urls[code].clicks|] == urls[code].clicks
              && v.urls[code].clicks[|urls[code].clicks|] == Click(now, ClickSource(referrer))
  {
    if code !in urls then Visit(NotFound, urls)
    else
      var entry := urls[code];
      if IsExpired(entry.expiry, now) then Visit(Expired, urls)
      else
        var clicked := entry.(clicks := entry.clicks + [Click(now, ClickSource(referrer))]);
        Visit(Found(entry.original), urls[code := clicked])
  }

  /** The redirect effect on the shared store and log. */
  method Resolve(store: Store, logger: Logger, code: string, now: int, referrer: string)
    returns (outcome: Outcome)
    modifies store, logger
    ensures outcome == Open(old(store.urls), code, now, referrer).outcome
    ensures store.urls == Open(old(store.urls), code, now, referrer).urls
    ensures logger.logs == old(logger.logs)
              + if outcome.Found? then [LogEntry(RedirectMessage(code, outcome.url), Info)]
                else []
  {
    if code !in store.urls {
      return NotFound;
    }
    var entry := store.urls[code];
    if IsExpired(entry.expiry, now) {
      return Expired;
    }
    store.urls := store.urls[code := entry.(clicks := entry.clicks + [Click(now, ClickSource(referrer))])];
    logger.Log(RedirectMessage(code, entry.original), Info);
    outcome := Found(entry.original);
  }

  /** The boundary of the expiry test: a link whose expiry equals the
      current time still redirects; one millisecond later it has expired. */
  lemma ExpiryBoundary(urls: map<string, Entry>, code: string, t: int, referrer: string)
    requires code in urls && urls[code].expiry == At(t)
    ensures Open(urls, code, t, referrer).outcome == Found(urls[code].original)
    ensures Open(urls, code, t + 1, referrer).outcome == Expired
  {
  }
}
