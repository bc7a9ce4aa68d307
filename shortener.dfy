/**
  What one press of "Shorten" does to the registry, as values: each row
  of the form is checked, given a code, and either committed or
  rejected, in order, without stopping at a failed row.
 */
module Shortener {
  import opened JsString
  import opened JsParseInt
  import opened Registry

  /** One input row of the creation form; every field is the text typed in. */
  datatype Row = Row(url: string, validity: string, code: string)

  const BlankRow := Row("", "", "")

  /** The most rows the form holds. */
  const MaxRows := 5

  /** Validity used when the field is empty, not a number, or not positive. */
  const DefaultMinutes := 30

  const MillisPerMinute := 60000

  /** What a row reads from outside the registry: the clock at the moment
      the row is handled, and the code the random generator would produce
      for it (consulted only when the row has no custom code). */
  datatype RowEnv = RowEnv(now: int, generated: string)

  /** How one row ended. */
  datatype RowOutcome =
    | Shortened(code: string, expiry: Time)
    | InvalidUrl
    | Collision(code: string)

  /** `parseInt(validity || "30", 10)`, replaced by 30 when NaN or not
      positive. The result is always positive, and it is the parsed value
      exactly when that value is positive; the empty-field fallback "30"
      agrees with the NaN default. */
  function ResolveMinutes(validity: string): (m: int)
    ensures m > 0
    ensures m == match ParseInt10(validity)
                 case Num(v) => if v > 0 then v else DefaultMinutes
                 case NaN => DefaultMinutes
  {
    if validity == "" then ParseIntReadsDecimal(DefaultMinutes, ""); DefaultMinutes
    else
      var parsed := ParseInt10(validity);
      if parsed.NaN? || parsed.value <= 0 then DefaultMinutes else parsed.value
  }

  /** The expiry Date of a row handled at `now`. */
  function ExpiryFor(validity: string, now: int): (e: Time)
    ensures e.At? <==> -MaxTimeValue <= now + ResolveMinutes(validity) * MillisPerMinute <= MaxTimeValue
    ensures e.At? ==> e.ms == now + ResolveMinutes(validity) * MillisPerMinute && e.ms > now
  {
    TimeClip(now + ResolveMinutes(validity) * MillisPerMinute)
  }

  /** `r.code?.trim() || generateCode()`: the trimmed custom code, or the
      generated one when nothing but white space was typed. */
  function EffectiveCode(custom: string, generated: string): (code: string)
    ensures AllWhitespace(custom) ==> code == generated
    ensures !AllWhitespace(custom) ==> code == Trim(custom) && code != []
  {
    var t := Trim(custom);
    if t == [] then generated else t
  }

  /** The decision made for one row against the registry as it stands. */
  function ShortenRow(urls: map<string, Entry>, row: Row, env: RowEnv, isValidUrl: string -> bool)
    : (o: RowOutcome)
    ensures o == InvalidUrl <==> !isValidUrl(row.url)
    ensures o.Collision? ==> o.code in urls && o.code == EffectiveCode(row.code, env.generated)
    ensures o.Shortened? ==> o.code !in urls && o.code == EffectiveCode(row.code, env.generated)
                             && o.expiry == ExpiryFor(row.validity, env.now)
  {
    if !isValidUrl(row.url) then InvalidUrl
    else
      var code := EffectiveCode(row.code, env.generated);
      if code in urls then Collision(code)
      else Shortened(code, ExpiryFor(row.validity, env.now))
  }

  /** The registry after a row with outcome `o`: only a shortened row writes. */
  function Commit(urls: map<string, Entry>, row: Row, o: RowOutcome): (r: map<string, Entry>)
    ensures r.Keys == urls.Keys + (if o.Shortened? then {o.code} else {})
    ensures o.Shortened? ==> r[o.code] == Entry(row.url, o.expiry, [])
    ensures forall c :: c in urls && !(o.Shortened? && c == o.code) ==> r[c] == urls[c]
  {
    if o.Shortened? then urls[o.code := Entry(row.url, o.expiry, [])] else urls
  }

  /** The codes that a sequence of outcomes added to the registry. */
  function ShortenedCodes(outcomes: seq<RowOutcome>): set<string> {
    if outcomes == [] then {}
    else
      var last := outcomes[|outcomes| - 1];
      ShortenedCodes(outcomes[..|outcomes| - 1]) + (if last.Shortened? then {last.code} else {})
  }

  datatype Batch = Batch(urls: map<string, Entry>, outcomes: seq<RowOutcome>)

  /** All rows, in order, each against the registry left by the rows
      before it; one outcome per row. */
  function SubmitRows(urls: map<string, Entry>, rows: seq<Row>, envs: seq<RowEnv>,
                      isValidUrl: string -> bool): (b: Batch)
    requires |envs| == |rows|
    ensures |b.outcomes| == |rows|
    decreases |rows|
  {
    if rows == [] then Batch(urls, [])
    else
      var n := |rows| - 1;
      var before := SubmitRows(urls, rows[..n], envs[..n], isValidUrl);
      var o := ShortenRow(before.urls, rows[n], envs[n], isValidUrl);
      Batch(Commit(before.urls, rows[n], o), before.outcomes + [o])
  }

  /** The last step of a batch, unfolded. */
  lemma SubmitRowsLast(urls: map<string, Entry>, rows: seq<Row>, envs: seq<RowEnv>,
                       isValidUrl: string -> bool)
    requires |envs| == |rows| && rows != []
    ensures var n := |rows| - 1;
            var before := SubmitRows(urls, rows[..n], envs[..n], isValidUrl);
            var o := ShortenRow(before.urls, rows[n], envs[n], isValidUrl);
            && SubmitRows(urls, rows, envs, isValidUrl).outcomes == before.outcomes + [o]
            && SubmitRows(urls, rows, envs, isValidUrl).urls == Commit(before.urls, rows[n], o)
            && (o.Shortened? ==> o.code !in before.urls)
  {
  }

  /** Handling one more row of a batch, as the submit loop does. */
  lemma SubmitRowsStep(urls: map<string, Entry>, rows: seq<Row>, envs: seq<RowEnv>,
                       isValidUrl: string -> bool, i: nat)
    requires |envs| == |rows| && i < |rows|
    ensures var before := SubmitRows(urls, rows[..i], envs[..i], isValidUrl);
            var o := ShortenRow(before.urls, rows[i], envs[i], isValidUrl);
            && SubmitRows(urls, rows[..i + 1], envs[..i + 1], isValidUrl).outcomes == before.outcomes + [o]
            && SubmitRows(urls, rows[..i + 1], envs[..i + 1], isValidUrl).urls == Commit(before.urls, rows[i], o)
  {
    SubmitRowsLast(urls, rows[..i + 1], envs[..i + 1], isValidUrl);
    assert rows[..i + 1][..i] == rows[..i] && envs[..i + 1][..i] == envs[..i];
  }

  /** A batch never removes or rewrites an entry that was there before it. */
  lemma {:induction false} SubmitRowsKeeps(urls: map<string, Entry>, rows: seq<Row>, envs: seq<RowEnv>,
                                           isValidUrl: string -> bool)
    requires |envs| == |rows|
    ensures var b := SubmitRows(urls, rows, envs, isValidUrl);
            forall c :: c in urls ==> c in b.urls && b.urls[c] == urls[c]
    decreases |rows|
  {
    if rows != [] {
      var n := |rows| - 1;
      SubmitRowsKeeps(urls, rows[..n], envs[..n], isValidUrl);
      SubmitRowsLast(urls, rows, envs, isValidUrl);
    }
  }

  /** An entry a batch creates starts with no clicks. */
  lemma {:induction false} SubmitRowsFresh(urls: map<string, Entry>, rows: seq<Row>, envs: seq<RowEnv>,
                                           isValidUrl: string -> bool)
    requires |envs| == |rows|
    ensures var b := SubmitRows(urls, rows, envs, isValidUrl);
            forall c :: c in b.urls && c !in urls ==> b.urls[c].clicks == []
    decreases |rows|
  {
    if rows != [] {
      var n := |rows| - 1;
      SubmitRowsFresh(urls, rows[..n], envs[..n], isValidUrl);
      SubmitRowsLast(urls, rows, envs, isValidUrl);
    }
  }

  /** The keys a batch adds are exactly the codes of its shortened rows. */
  lemma {:induction false} SubmitRowsKeys(urls: map<string, Entry>, rows: seq<Row>, envs: seq<RowEnv>,
                                          isValidUrl: string -> bool)
    requires |envs| == |rows|
    ensures var b := SubmitRows(urls, rows, envs, isValidUrl);
            b.urls.Keys == urls.Keys + ShortenedCodes(b.outcomes)
    decreases |rows|
  {
    if rows != [] {
      var n := |rows| - 1;
      SubmitRowsKeys(urls, rows[..n], envs[..n], isValidUrl);
      SubmitRowsLast(urls, rows, envs, isValidUrl);
      var b := SubmitRows(urls, rows, envs, isValidUrl);
      assert b.outcomes[..n] == SubmitRows(urls, rows[..n], envs[..n], isValidUrl).outcomes;
    }
  }

  /** Every shortened row of a batch is in the registry afterwards, with
      its own URL and expiry and no clicks, even when rows after it failed
      or were shortened too. */
  lemma {:induction false} SubmitRowsStores(urls: map<string, Entry>, rows: seq<Row>, envs: seq<RowEnv>,
                                            isValidUrl: string -> bool, i: nat)
    requires |envs| == |rows| && i < |rows|
    requires SubmitRows(urls, rows, envs, isValidUrl).outcomes[i].Shortened?
    ensures var b := SubmitRows(urls, rows, envs, isValidUrl);
            b.outcomes[i].code in b.urls
            && b.urls[b.outcomes[i].code] == Entry(rows[i].url, b.outcomes[i].expiry, [])
    decreases |rows|
  {
    var n := |rows| - 1;
    var before := SubmitRows(urls, rows[..n], envs[..n], isValidUrl);
    var o := ShortenRow(before.urls, rows[n], envs[n], isValidUrl);
    var b := SubmitRows(urls, rows, envs, isValidUrl);
    SubmitRowsLast(urls, rows, envs, isValidUrl);
    if i < n {
      assert b.outcomes[i] == before.outcomes[i] && rows[..n][i] == rows[i];
      SubmitRowsStores(urls, rows[..n], envs[..n], isValidUrl, i);
      var c := before.outcomes[i].code;
      assert c in before.urls;
      assert o.Shortened? ==> o.code != c;
      assert b.urls[c] == before.urls[c];
    } else {
      assert b.outcomes[i] == o;
    }
  }

  lemma {:induction false} ShortenedCodesHas(outcomes: seq<RowOutcome>, i: int)
    requires 0 <= i < |outcomes| && outcomes[i].Shortened?
    ensures outcomes[i].code in ShortenedCodes(outcomes)
  {
    var n := |outcomes| - 1;
    if i < n {
      ShortenedCodesHas(outcomes[..n], i);
    }
  }

  /** Handling a batch row by row: the outcomes of a prefix of the rows
      are the prefix of the outcomes. */
  lemma {:induction false} SubmitRowsPrefix(urls: map<string, Entry>, rows: seq<Row>, envs: seq<RowEnv>,
                                            isValidUrl: string -> bool, k: nat)
    requires |envs| == |rows| && k <= |rows|
    ensures SubmitRows(urls, rows[..k], envs[..k], isValidUrl).outcomes
            == SubmitRows(urls, rows, envs, isValidUrl).outcomes[..k]
    decreases |rows|
  {
    if k == |rows| {
      assert rows[..k] == rows && envs[..k] == envs;
    } else {
      var n := |rows| - 1;
      var b := SubmitRows(urls, rows, envs, isValidUrl);
      var before := SubmitRows(urls, rows[..n], envs[..n], isValidUrl);
      assert b.outcomes == before.outcomes + [ShortenRow(before.urls, rows[n], envs[n], isValidUrl)];
      SubmitRowsPrefix(urls, rows[..n], envs[..n], isValidUrl, k);
      assert rows[..n][..k] == rows[..k] && envs[..n][..k] == envs[..k];
      assert b.outcomes[..k] == before.outcomes[..k];
    }
  }

  /** How row `i` of a batch ends is decided by that row alone and by the
      codes taken before it (the registry's keys and the codes of earlier
      shortened rows); an earlier row that failed has no influence. */
  lemma RowOutcomeInBatch(urls: map<string, Entry>, rows: seq<Row>, envs: seq<RowEnv>,
                          isValidUrl: string -> bool, i: nat)
    requires |envs| == |rows| && i < |rows|
    ensures var b := SubmitRows(urls, rows, envs, isValidUrl);
            var code := EffectiveCode(rows[i].code, envs[i].generated);
            var taken := urls.Keys + ShortenedCodes(b.outcomes[..i]);
            b.outcomes[i] == if !isValidUrl(rows[i].url) then InvalidUrl
                             else if code in taken then Collision(code)
                             else Shortened(code, ExpiryFor(rows[i].validity, envs[i].now))
  {
    var b := SubmitRows(urls, rows, envs, isValidUrl);
    var upTo := SubmitRows(urls, rows[..i + 1], envs[..i + 1], isValidUrl);
    var before := SubmitRows(urls, rows[..i], envs[..i], isValidUrl);
    SubmitRowsPrefix(urls, rows, envs, isValidUrl, i + 1);
    SubmitRowsPrefix(urls, rows, envs, isValidUrl, i);
    SubmitRowsKeys(urls, rows[..i], envs[..i], isValidUrl);
    SubmitRowsLast(urls, rows[..i + 1], envs[..i + 1], isValidUrl);
    assert rows[..i + 1][..i] == rows[..i] && envs[..i + 1][..i] == envs[..i];
    assert rows[..i + 1][i] == rows[i] && envs[..i + 1][i] == envs[i];
    assert before.urls.Keys == urls.Keys + ShortenedCodes(b.outcomes[..i]);
    assert b.outcomes[i] == upTo.outcomes[i]
                         == ShortenRow(before.urls, rows[i], envs[i], isValidUrl);
  }

  /** Two rows of one batch that end up with the same code: once the
      earlier one is stored, the later one (with a valid URL) collides. */
  lemma SameCodeCollides(urls: map<string, Entry>, rows: seq<Row>, envs: seq<RowEnv>,
                         isValidUrl: string -> bool, i: nat, j: nat)
    requires |envs| == |rows| && i < j < |rows|
    requires SubmitRows(urls, rows, envs, isValidUrl).outcomes[i].Shortened?
    requires EffectiveCode(rows[j].code, envs[j].generated)
             == EffectiveCode(rows[i].code, envs[i].generated)
    requires isValidUrl(rows[j].url)
    ensures SubmitRows(urls, rows, envs, isValidUrl).outcomes[j]
            == Collision(EffectiveCode(rows[i].code, envs[i].generated))
  {
    var b := SubmitRows(urls, rows, envs, isValidUrl);
    RowOutcomeInBatch(urls, rows, envs, isValidUrl, i);
    RowOutcomeInBatch(urls, rows, envs, isValidUrl, j);
    ShortenedCodesHas(b.outcomes[..j], i);
  }

  /** A freshly shortened link is live for its whole validity: it does
      not count as expired at any moment up to creation time plus the
      resolved number of minutes. */
  lemma FreshLinkIsLive(validity: string, created: int, t: int)
    requires t <= created + ResolveMinutes(validity) * MillisPerMinute
    ensures !IsExpired(ExpiryFor(validity, created), t)
  {
  }

  /** A validity so large that the expiry falls outside the Date range
      gives an Invalid Date, and such an entry never expires. */
  lemma HugeValidityNeverExpires(validity: string, created: int, t: int)
    requires created + ResolveMinutes(validity) * MillisPerMinute > MaxTimeValue
    ensures ExpiryFor(validity, created) == InvalidDate
    ensures !IsExpired(ExpiryFor(validity, created), t)
  {
  }

  /** A validity typed as an integer, possibly followed by text that
      does not start with a digit, gives that many minutes when it is
      positive and the default otherwise. */
  lemma MinutesOfInteger(n: int, rest: string)
    requires rest == [] || !IsDigit(rest[0])
    ensures ResolveMinutes(ToDecimal(n) + rest) == if n > 0 then n else DefaultMinutes
  {
    ParseIntReadsDecimal(n, rest);
  }

  /** A validity with no digit after its leading white space and sign
      (the empty field among them) gives the default. */
  lemma MinutesOfNonNumber(validity: string)
    requires var u := AfterSign(TrimStart(validity)); u == [] || !IsDigit(u[0])
    ensures ResolveMinutes(validity) == DefaultMinutes
  {
    ParseIntCases(validity);
  }

  /** An empty field, "0" and "-5" all give the 30-minute default. */
  lemma MinutesDefaultExamples()
    ensures ResolveMinutes("") == 30
    ensures ResolveMinutes("0") == 30
    ensures ResolveMinutes("-5") == 30
  {
    MinutesOfInteger(0, []);
    assert ToDecimal(0) + [] == "0";
    MinutesOfInteger(-5, []);
    assert ToDecimal(-5) + [] == "-5";
  }

  /** Text that is not a number, "abc", gives the default too. */
  lemma MinutesNotANumberExample()
    ensures ResolveMinutes("abc") == 30
  {
    assert AfterSign(TrimStart("abc")) == "abc" by {
      assert TrimStart("abc") == "abc";
    }
    MinutesOfNonNumber("abc");
  }
}
