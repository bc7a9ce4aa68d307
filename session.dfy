/**
  A session of the application as a sequence of user actions against the
  one registry it holds: presses of "Shorten" on the creation page and
  visits of `/:code`.
 */
module Session {
  import opened JsString
  import opened JsParseInt
  import opened Registry
  import opened Shortener
  import opened Redirect

  datatype Action =
    | Submit(rows: seq<Row>, envs: seq<RowEnv>)
    | OpenLink(code: string, now: int, referrer: string)

  /** A submit carries one environment (clock reading, generated code) per row. */
  predicate WellFormed(a: Action) {
    a.Submit? ==> |a.envs| == |a.rows|
  }

  predicate AllWellFormed(acts: seq<Action>) {
    forall i :: 0 <= i < |acts| ==> WellFormed(acts[i])
  }

  function Apply(urls: map<string, Entry>, a: Action, isValidUrl: string -> bool): map<string, Entry>
    requires WellFormed(a)
  {
    match a
    case Submit(rows, envs) => SubmitRows(urls, rows, envs, isValidUrl).urls
    case OpenLink(code, now, referrer) => Open(urls, code, now, referrer).urls
  }

  /** The registry after the actions, in order. */
  function Replay(urls: map<string, Entry>, acts: seq<Action>, isValidUrl: string -> bool)
    : map<string, Entry>
    requires AllWellFormed(acts)
  {
    if acts == [] then urls
    else
      var n := |acts| - 1;
      Apply(Replay(urls, acts[..n], isValidUrl), acts[n], isValidUrl)
  }

  /** How many of the visits of `code` among the actions were redirected. */
  function Redirects(urls: map<string, Entry>, acts: seq<Action>, code: string,
                     isValidUrl: string -> bool): nat
    requires AllWellFormed(acts)
  {
    if acts == [] then 0
    else
      var n := |acts| - 1;
      var before := Replay(urls, acts[..n], isValidUrl);
      Redirects(urls, acts[..n], code, isValidUrl)
        + match acts[n]
          case OpenLink(c, now, referrer) =>
            if c == code && Open(before, c, now, referrer).outcome.Found? then 1 else 0
          case Submit(_, _) => 0
  }

  /** The click count of a link is the clicks it had at the start plus one
      per redirect of its code; a code never registered was never
      redirected. */
  lemma {:induction false} ClicksCountRedirects(urls: map<string, Entry>, acts: seq<Action>,
                                                code: string, isValidUrl: string -> bool)
    requires AllWellFormed(acts)
    ensures var after := Replay(urls, acts, isValidUrl);
            var initial := if code in urls then |urls[code].clicks| else 0;
            code in after ==> |after[code].clicks| == initial + Redirects(urls, acts, code, isValidUrl)
    ensures code !in Replay(urls, acts, isValidUrl) ==>
              code !in urls && Redirects(urls, acts, code, isValidUrl) == 0
  {
    if acts != [] {
      var n := |acts| - 1;
      var before := Replay(urls, acts[..n], isValidUrl);
      assert AllWellFormed(acts[..n]) by {
        forall i | 0 <= i < n ensures WellFormed(acts[..n][i]) {
          assert acts[..n][i] == acts[i];
        }
      }
      assert WellFormed(acts[n]);
      ClicksCountRedirects(urls, acts[..n], code, isValidUrl);
      match acts[n]
      case Submit(rows, envs) =>
        SubmitRowsKeeps(before, rows, envs, isValidUrl);
        SubmitRowsFresh(before, rows, envs, isValidUrl);
      case OpenLink(c, now, referrer) =>
    }
  }

  /** A registry never loses a code, and an entry keeps its URL and expiry
      and only gains clicks at the end. */
  lemma {:induction false} ReplayKeeps(urls: map<string, Entry>, acts: seq<Action>,
                                       isValidUrl: string -> bool)
    requires AllWellFormed(acts)
    ensures var after := Replay(urls, acts, isValidUrl);
            forall c :: c in urls ==>
              && c in after
              && after[c].original == urls[c].original
              && after[c].expiry == urls[c].expiry
              && |urls[c].clicks| <= |after[c].clicks|
              && after[c].clicks[..|urls[c].clicks|] == urls[c].clicks
  {
    if acts != [] {
      var n := |acts| - 1;
      var before := Replay(urls, acts[..n], isValidUrl);
      assert AllWellFormed(acts[..n]) by {
        forall i | 0 <= i < n ensures WellFormed(acts[..n][i]) {
          assert acts[..n][i] == acts[i];
        }
      }
      assert WellFormed(acts[n]);
      ReplayKeeps(urls, acts[..n], isValidUrl);
      var after := Replay(urls, acts, isValidUrl);
      match acts[n]
      case Submit(rows, envs) =>
        SubmitRowsKeeps(before, rows, envs, isValidUrl);
      case OpenLink(code, now, referrer) =>
        forall c | c in urls
          ensures after[c].clicks[..|urls[c].clicks|] == urls[c].clicks
        {
          var k := |urls[c].clicks|;
          if c == code && Open(before, code, now, referrer).outcome.Found? {
            assert after[c].clicks[..|before[c].clicks|] == before[c].clicks;
            assert after[c].clicks[..k] == before[c].clicks[..k];
          }
        }
    }
  }

  /** Shortening one valid URL under a fresh custom code with a validity of
      `minutes` typed as a number: the code is registered with no clicks,
      and a visit redirects up to and including the expiry instant and is
      refused as expired from the next millisecond on. */
  lemma LinkLivesUntilExpiry(urls: map<string, Entry>, url: string, minutes: int, code: string,
                             created: int, generated: string, isValidUrl: string -> bool,
                             t: int, referrer: string)
    requires isValidUrl(url)
    requires code != [] && !IsJsWhitespace(code[0]) && !IsJsWhitespace(code[|code| - 1])
    requires code !in urls
    requires minutes > 0
    requires -MaxTimeValue <= created + minutes * MillisPerMinute <= MaxTimeValue
    ensures var acts := [Submit([Row(url, ToDecimal(minutes), code)], [RowEnv(created, generated)])];
            var after := Replay(urls, acts, isValidUrl);
            var expiry := created + minutes * MillisPerMinute;
            && code in after
            && after[code] == Entry(url, At(expiry), [])
            && Open(after, code, t, referrer).outcome == if t <= expiry then Found(url) else Expired
  {
    var row := Row(url, ToDecimal(minutes), code);
    var env := RowEnv(created, generated);
    var acts := [Submit([row], [env])];
    TrimKeeps(code);
    assert !AllWhitespace(code);
    assert EffectiveCode(code, generated) == code;
    MinutesOfInteger(minutes, []);
    assert ToDecimal(minutes) + [] == ToDecimal(minutes);
    assert ExpiryFor(row.validity, created) == At(created + minutes * MillisPerMinute);
    assert ShortenRow(urls, row, env, isValidUrl) == Shortened(code, At(created + minutes * MillisPerMinute));
    SubmitRowsLast(urls, [row], [env], isValidUrl);
    assert [row][..0] == [] && [env][..0] == [];
    assert acts[..0] == [];
  }

  /** A one-minute link under the custom code "abc12": a visit right after
      the submit redirects and records one direct click, and a visit 61
      seconds after creation, on the registry that click left behind, is
      refused as expired. */
  lemma OneMinuteLinkExample(url: string, created: int, generated: string,
                             isValidUrl: string -> bool)
    requires isValidUrl(url)
    requires 0 <= created <= MaxTimeValue - MillisPerMinute
    ensures var acts := [Submit([Row(url, "1", "abc12")], [RowEnv(created, generated)]),
                         OpenLink("abc12", created, "")];
            var after := Replay(map[], acts, isValidUrl);
            && "abc12" in after
            && after["abc12"].clicks == [Click(created, "direct")]
            && Open(after, "abc12", created + 61000, "").outcome == Expired
  {
    assert ToDecimal(1) == "1";
    var submit := Submit([Row(url, "1", "abc12")], [RowEnv(created, generated)]);
    var acts := [submit, OpenLink("abc12", created, "")];
    LinkLivesUntilExpiry(map[], url, 1, "abc12", created, generated, isValidUrl, created, "");
    assert acts[..1] == [submit];
    var first := Replay(map[], [submit], isValidUrl);
    assert Replay(map[], acts, isValidUrl) == Open(first, "abc12", created, "").urls;
  }
}
