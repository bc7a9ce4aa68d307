/**
  The creation page: the editable list of at most five rows, the alert
  text under it, and the submit handler that runs every row through the
  shortening rules against the shared store.
 */
module ShortenerView {
  import opened Registry
  import opened Logging
  import opened Shortener

  /** The three text fields of a row that `handleChange` can set. */
  datatype Field = UrlField | ValidityField | CodeField

  function FieldOf(row: Row, field: Field): string {
    match field
    case UrlField => row.url
    case ValidityField => row.validity
    case CodeField => row.code
  }

  /** `row[field] = val`: the named field takes the new text and the two
      others keep theirs. */
  function WithField(row: Row, field: Field, val: string): (r: Row)
    ensures FieldOf(r, field) == val
    ensures forall f :: f != field ==> FieldOf(r, f) == FieldOf(row, f)
  {
    match field
    case UrlField => row.(url := val)
    case ValidityField => row.(validity := val)
    case CodeField => row.(code := val)
  }

  /** `rows.filter((_, i) => i !== idx)`, one position at a time. */
  function WithoutIndex<T>(rows: seq<T>, idx: int): seq<T> {
    if rows == [] then []
    else
      var n := |rows| - 1;
      WithoutIndex(rows[..n], idx) + (if n == idx then [] else [rows[n]])
  }

  /** Filtering out one index drops exactly that position and keeps the
      others in order; an index outside the list changes nothing. */
  lemma {:induction false} WithoutIndexDrops<T>(rows: seq<T>, idx: int)
    ensures 0 <= idx < |rows| ==> WithoutIndex(rows, idx) == rows[..idx] + rows[idx + 1..]
    ensures !(0 <= idx < |rows|) ==> WithoutIndex(rows, idx) == rows
  {
    if rows != [] {
      var n := |rows| - 1;
      WithoutIndexDrops(rows[..n], idx);
      if 0 <= idx < n {
        assert rows[..n][..idx] == rows[..idx];
        assert rows[..n][idx + 1..] + [rows[n]] == rows[idx + 1..];
      } else if idx == n {
        assert rows[..n] == rows[..idx] + rows[idx + 1..];
      } else {
        assert rows[..n] + [rows[n]] == rows;
      }
    }
  }

  /** The message under the form; `NoAlert` is the empty string that
      hides it. */
  datatype Alert = NoAlert | InvalidUrlAlert | CollisionAlert(code: string) | SuccessAlert {
    /** The text shown. */
    function Text(): string {
      match this
      case NoAlert => ""
      case InvalidUrlAlert => "Invalid URL provided."
      case CollisionAlert(code) => "Shortcode \"" + code + "\" already exists."
      case SuccessAlert => "URLs shortened successfully!"
    }
  }

  /** The alert a failed row sets. */
  function FailureAlert(o: RowOutcome): Alert {
    match o
    case Collision(code) => CollisionAlert(code)
    case _ => InvalidUrlAlert
  }

  predicate AllShortened(outcomes: seq<RowOutcome>) {
    forall i :: 0 <= i < |outcomes| ==> outcomes[i].Shortened?
  }

  /** The alert after a run of rows: that of the last failed row, or
      `initial` when none failed (the last `setAlert` call wins). */
  function LastAlert(outcomes: seq<RowOutcome>, initial: Alert): Alert {
    if outcomes == [] then initial
    else
      var n := |outcomes| - 1;
      if outcomes[n].Shortened? then LastAlert(outcomes[..n], initial) else FailureAlert(outcomes[n])
  }

  /** The log line a row emits: one when it was shortened, none otherwise. */
  function ShortenLog(r: Row, o: RowOutcome): seq<LogEntry> {
    if o.Shortened? then [LogEntry(ShortenMessage(r.url, o.code), Info)] else []
  }

  /** The log lines a run of rows emits: one per shortened row, in order. */
  function ShortenLogs(rows: seq<Row>, outcomes: seq<RowOutcome>): seq<LogEntry>
    requires |rows| == |outcomes|
  {
    if outcomes == [] then []
    else
      var n := |outcomes| - 1;
      ShortenLogs(rows[..n], outcomes[..n]) + ShortenLog(rows[n], outcomes[n])
  }

  lemma ShortenLogsStep(rows: seq<Row>, outcomes: seq<RowOutcome>, i: nat, o: RowOutcome)
    requires i < |rows| && |outcomes| == i
    ensures ShortenLogs(rows[..i + 1], outcomes + [o])
            == ShortenLogs(rows[..i], outcomes) + ShortenLog(rows[i], o)
  {
    assert rows[..i + 1][..i] == rows[..i];
    assert (outcomes + [o])[..i] == outcomes;
  }

  lemma AppendAssoc<T>(a: seq<T>, b: seq<T>, c: seq<T>)
    ensures a + b + c == a + (b + c)
  {
  }

  lemma LastAlertStep(outcomes: seq<RowOutcome>, o: RowOutcome, initial: Alert)
    ensures LastAlert(outcomes + [o], initial)
            == if o.Shortened? then LastAlert(outcomes, initial) else FailureAlert(o)
    ensures AllShortened(outcomes + [o]) <==> AllShortened(outcomes) && o.Shortened?
  {
    assert (outcomes + [o])[..|outcomes|] == outcomes;
    assert (outcomes + [o])[|outcomes|] == o;
  }

  lemma CommitShortened(urls: map<string, Entry>, r: Row, code: string, expiry: Time)
    ensures Commit(urls, r, Shortened(code, expiry)) == urls[code := Entry(r.url, expiry, [])]
  {
  }

  class ShortenerPage {
    const store: Store
    const logger: Logger
    var rows: seq<Row>
    var alert: Alert

    /** The form never holds more than five rows. */
    ghost predicate Valid()
      reads this
    {
      |rows| <= MaxRows
    }

    constructor (store: Store, logger: Logger)
      ensures Valid()
      ensures this.store == store && this.logger == logger
      ensures rows == [BlankRow] && alert == NoAlert
    {
      this.store := store;
      this.logger := logger;
      rows := [BlankRow];
      alert := NoAlert;
    }

    /** Appends one blank row unless the form already holds five. */
    method AddRow()
      requires Valid()
      modifies this
      ensures Valid() && |rows| <= MaxRows
      ensures rows == if |old(rows)| >= MaxRows then old(rows) else old(rows) + [BlankRow]
      ensures alert == old(alert)
    {
      if |rows| >= MaxRows {
        return;
      }
      rows := rows + [BlankRow];
    }

    /** Drops the row at `idx`, keeping the rest in order. */
    method RemoveRow(idx: int)
      requires Valid()
      modifies this
      ensures Valid()
      ensures 0 <= idx < |old(rows)| ==> rows == old(rows)[..idx] + old(rows)[idx + 1..]
      ensures !(0 <= idx < |old(rows)|) ==> rows == old(rows)
      ensures alert == old(alert)
    {
      WithoutIndexDrops(rows, idx);
      rows := WithoutIndex(rows, idx);
    }

    /** Sets one field of one row; nothing else in the form changes. */
    method HandleChange(idx: int, field: Field, val: string)
      requires Valid()
      requires 0 <= idx < |rows|
      modifies this
      ensures Valid()
      ensures |rows| == |old(rows)|
      ensures FieldOf(rows[idx], field) == val
      ensures forall f :: f != field ==> FieldOf(rows[idx], f) == FieldOf(old(rows)[idx], f)
      ensures forall j :: 0 <= j < |rows| && j != idx ==> rows[j] == old(rows)[j]
      ensures alert == old(alert)
    {
      rows := rows[idx := WithField(rows[idx], field, val)];
    }

    /** The body of the `forEach` callback for one row. */
    method ShortenOne(r: Row, env: RowEnv, isValidUrl: string -> bool) returns (o: RowOutcome)
      modifies this`alert, store, logger
      ensures o == ShortenRow(old(store.urls), r, env, isValidUrl)
      ensures store.urls == Commit(old(store.urls), r, o)
      ensures alert == if o.Shortened? then old(alert) else FailureAlert(o)
      ensures logger.logs == old(logger.logs) + ShortenLog(r, o)
    {
      if !isValidUrl(r.url) {
        alert := InvalidUrlAlert;
        return InvalidUrl;
      }
      var code := EffectiveCode(r.code, env.generated);
      var taken := code in store.urls;
      if taken {
        alert := CollisionAlert(code);
        return Collision(code);
      }
      var minutes := ResolveMinutes(r.validity);
      var expiry := TimeClip(env.now + minutes * MillisPerMinute);
      CommitShortened(store.urls, r, code, expiry);
      store.urls := store.urls[code := Entry(r.url, expiry, [])];
      logger.Log(ShortenMessage(r.url, code), Info);
      o := Shortened(code, expiry);
    }

    /** The `forEach` over the rows: each row, in order, against the
        store. A failed row sets `ok` to false and the alert, and handling
        goes on with the next row; rows committed before or after a
        failure stay committed. */
    method ShortenAll(submitted: seq<Row>, envs: seq<RowEnv>, isValidUrl: string -> bool)
      returns (ok: bool, outcomes: seq<RowOutcome>)
      requires |envs| == |submitted|
      modifies this`alert, store, logger
      ensures store.urls == SubmitRows(old(store.urls), submitted, envs, isValidUrl).urls
      ensures outcomes == SubmitRows(old(store.urls), submitted, envs, isValidUrl).outcomes
      ensures ok <==> AllShortened(outcomes)
      ensures logger.logs == old(logger.logs) + ShortenLogs(submitted, outcomes)
      ensures alert == LastAlert(outcomes, old(alert))
    {
      ghost var urls0, logs0, alert0 := store.urls, logger.logs, alert;
      ok := true;
      outcomes := [];
      var i := 0;
      while i < |submitted|
        invariant 0 <= i <= |submitted|
        invariant SubmitRows(urls0, submitted[..i], envs[..i], isValidUrl) == Batch(store.urls, outcomes)
        invariant ok <==> AllShortened(outcomes)
        invariant alert == LastAlert(outcomes, alert0)
        invariant logger.logs == logs0 + ShortenLogs(submitted[..i], outcomes)
      {
        SubmitRowsStep(urls0, submitted, envs, isValidUrl, i);
        var o := ShortenOne(submitted[i], envs[i], isValidUrl);
        ShortenLogsStep(submitted, outcomes, i, o);
        AppendAssoc(logs0, ShortenLogs(submitted[..i], outcomes), ShortenLog(submitted[i], o));
        LastAlertStep(outcomes, o, alert0);
        ok := ok && o.Shortened?;
        outcomes := outcomes + [o];
        i := i + 1;
      }
      assert submitted[..i] == submitted && envs[..i] == envs;
    }

    /** The submit handler: all rows are handled, and on full success the
        form is reset to one blank row and the success alert is shown;
        otherwise the rows stay as typed and the last failure is shown. */
    method HandleSubmit(isValidUrl: string -> bool, envs: seq<RowEnv>)
      returns (ok: bool, outcomes: seq<RowOutcome>)
      requires Valid()
      requires |envs| == |rows|
      modifies this, store, logger
      ensures Valid()
      ensures store.urls == SubmitRows(old(store.urls), old(rows), envs, isValidUrl).urls
      ensures outcomes == SubmitRows(old(store.urls), old(rows), envs, isValidUrl).outcomes
      ensures ok <==> AllShortened(outcomes)
      ensures logger.logs == old(logger.logs) + ShortenLogs(old(rows), outcomes)
      ensures rows == if ok then [BlankRow] else old(rows)
      ensures alert == if ok then SuccessAlert else LastAlert(outcomes, old(alert))
    {
      ok, outcomes := ShortenAll(rows, envs, isValidUrl);
      if ok {
        rows := [BlankRow];
        alert := SuccessAlert;
      }
    }
  }
}
