/**
 * The handler of CheckVideoMessage: skip the health check for a file already
 * checked, otherwise run it and store its verdict, then fan out thumbnail and
 * hash work for a checked, consistent file. While the health check runs, every
 * output chunk passes through a callback that keeps the database connection
 * alive and reports progress.
 *
 * The health check itself is not modelled: a run is given as the chunks it
 * printed, each stamped with the wall-clock second (time()) at which it
 * arrived, and how it ended.
 */
module CheckVideoMessageHandler {
  import opened Wrappers
  import opened PhpStrings
  import opened Entities
  import opened Persistence
  import opened ProgressParser

  /** Seconds of silence after which the connection is pinged. */
  const KEEPALIVE_SECONDS: int := 30

  datatype StreamKind = Out | Err

  /** One output chunk of the health check and the second at which it arrived. */
  datatype Chunk = Chunk(kind: StreamKind, text: string, at: int)

  /** The health check returns the file with its verdict, or throws. */
  datatype ProbeResult = Verdict(checked: bool, consistent: bool) | Crashed

  datatype ProbeRun = ProbeRun(chunks: seq<Chunk>, result: ProbeResult)

  /** What the callback reports: to the logger, or to the message's own callback. */
  datatype Diagnostic =
    | KeepaliveLogged
    | ProgressLogged(mark: nat)
    | OutputLogged(text: string)
    | Forwarded(kind: StreamKind, text: string)

  datatype HandlerOutcome = Handled | ProbeFailed | FileNotFound

  predicate Fires(startTime: int, now: int) {
    now - startTime >= KEEPALIVE_SECONDS
  }

  /** The timer after a run of chunks: its current start and the seconds at which it fired. */
  datatype KeepaliveState = KeepaliveState(startTime: int, firings: seq<int>)

  /** The keepalive timer, started at `startTime`, checked on each chunk and reset when it fires. */
  function Keepalive(startTime: int, chunks: seq<Chunk>): KeepaliveState {
    if chunks == [] then KeepaliveState(startTime, [])
    else
      var prev := Keepalive(startTime, chunks[..|chunks| - 1]);
      var now := chunks[|chunks| - 1].at;
      if Fires(prev.startTime, now) then KeepaliveState(now, prev.firings + [now]) else prev
  }

  /**
   * The timer fires only when a chunk arrives, at least 30 seconds after it
   * was started and at least 30 seconds after its previous firing, and its
   * start is always the last firing.
   */
  lemma {:induction false} KeepaliveSpacing(startTime: int, chunks: seq<Chunk>)
    ensures var ks := Keepalive(startTime, chunks);
            var f := ks.firings;
            && |f| <= |chunks|
            && (forall k :: 0 <= k < |f| ==> exists j :: 0 <= j < |chunks| && chunks[j].at == f[k])
            && (|f| > 0 ==> f[0] - startTime >= KEEPALIVE_SECONDS)
            && (forall k :: 0 < k < |f| ==> f[k] - f[k - 1] >= KEEPALIVE_SECONDS)
            && ks.startTime == (if f == [] then startTime else f[|f| - 1])
  {
    if chunks != [] {
      var n := |chunks| - 1;
      KeepaliveSpacing(startTime, chunks[..n]);
      var prev := Keepalive(startTime, chunks[..n]);
      var f := Keepalive(startTime, chunks).firings;
      forall k | 0 <= k < |f|
        ensures exists j :: 0 <= j < |chunks| && chunks[j].at == f[k]
      {
        if k < |prev.firings| {
          var j :| 0 <= j < n && chunks[..n][j].at == prev.firings[k];
          assert chunks[j].at == f[k];
        } else {
          assert chunks[n].at == f[k];
        }
      }
    }
  }

  /**
   * As long as chunks keep arriving at most `gap` seconds apart, the timer
   * keeps up: each firing moves its start by at most 29 + gap seconds, and
   * the last chunk comes less than 30 seconds after the start.
   */
  lemma {:induction false} KeepaliveKeepsUp(startTime: int, chunks: seq<Chunk>, gap: nat)
    requires chunks != [] && chunks[0].at - startTime <= gap
    requires forall k :: 0 < k < |chunks| ==> chunks[k].at - chunks[k - 1].at <= gap
    ensures var ks := Keepalive(startTime, chunks);
            && ks.startTime - startTime <= |ks.firings| * (29 + gap)
            && chunks[|chunks| - 1].at - ks.startTime < KEEPALIVE_SECONDS
  {
    var n := |chunks| - 1;
    var prev := Keepalive(startTime, chunks[..n]);
    var ks := Keepalive(startTime, chunks);
    var now := chunks[n].at;
    if n == 0 {
      assert prev == KeepaliveState(startTime, []);
    } else {
      KeepaliveKeepsUp(startTime, chunks[..n], gap);
      assert chunks[..n][n - 1] == chunks[n - 1];
      assert now - prev.startTime <= 29 + gap;
    }
    if Fires(prev.startTime, now) {
      assert |ks.firings| == |prev.firings| + 1;
      BudgetStep(|prev.firings|, 29 + gap, now - prev.startTime, prev.startTime - startTime);
    }
  }

  /** One more firing adds one more allowance to the time budget. */
  lemma BudgetStep(count: nat, allowance: nat, step: int, spent: int)
    requires step <= allowance && spent <= count * allowance
    ensures step + spent <= (count + 1) * allowance
  {
    assert (count + 1) * allowance == count * allowance + allowance;
  }

  /**
   * A health check that runs 90 seconds while printing at least every 15
   * seconds pings the connection at least twice.
   */
  lemma KeepaliveFiresTwiceIn90Seconds(startTime: int, chunks: seq<Chunk>)
    requires chunks != [] && chunks[0].at - startTime <= 15
    requires forall k :: 0 < k < |chunks| ==> chunks[k].at - chunks[k - 1].at <= 15
    requires chunks[|chunks| - 1].at - startTime >= 90
    ensures |Keepalive(startTime, chunks).firings| >= 2
  {
    KeepaliveKeepsUp(startTime, chunks, 15);
  }

  /**
   * What goes to the logger for a chunk when the message has no callback:
   * the progress mark of a chunk containing " time=" (nothing if the pattern
   * does not match), otherwise the chunk verbatim.
   */
  function LoggedReport(text: string): seq<Diagnostic> {
    if Strpos(text, " time=").Some? then
      (match ProgressMark(text)
       case Some(mark) => [ProgressLogged(mark)]
       case None => [])
    else [OutputLogged(text)]
  }

  /**
   * What the callback reports for one chunk: the keepalive notice when the
   * timer fired, then the chunk itself to the message's callback if it has
   * one, or else what goes to the logger.
   */
  function ChunkDiagnostics(fired: bool, chunk: Chunk, hasCallback: bool): seq<Diagnostic> {
    (if fired then [KeepaliveLogged] else [])
    + (if hasCallback then [Forwarded(chunk.kind, chunk.text)] else LoggedReport(chunk.text))
  }

  /** What the callback reports over a whole run. */
  function OutputDiagnostics(startTime: int, chunks: seq<Chunk>, hasCallback: bool): seq<Diagnostic> {
    if chunks == [] then []
    else
      var n := |chunks| - 1;
      var prev := Keepalive(startTime, chunks[..n]);
      OutputDiagnostics(startTime, chunks[..n], hasCallback)
      + ChunkDiagnostics(Fires(prev.startTime, chunks[n].at), chunks[n], hasCallback)
  }

  /** The reports other than keepalive notices. */
  function Reports(ds: seq<Diagnostic>): seq<Diagnostic> {
    if ds == [] then []
    else Reports(ds[..|ds| - 1]) + (if ds[|ds| - 1].KeepaliveLogged? then [] else [ds[|ds| - 1]])
  }

  lemma {:induction false} ReportsAppend(a: seq<Diagnostic>, b: seq<Diagnostic>)
    ensures Reports(a + b) == Reports(a) + Reports(b)
    decreases |b|
  {
    if b == [] {
      assert a + b == a;
    } else {
      var n := |b| - 1;
      var last := if b[n].KeepaliveLogged? then [] else [b[n]];
      assert (a + b)[..|a + b| - 1] == a + b[..n];
      assert (a + b)[|a + b| - 1] == b[n];
      calc {
        Reports(a + b);
        Reports(a + b[..n]) + last;
        { ReportsAppend(a, b[..n]); }
        Reports(a) + Reports(b[..n]) + last;
        Reports(a) + Reports(b);
      }
    }
  }

  /** With a callback, one chunk is reported as exactly one forwarded entry. */
  lemma CallbackStep(fired: bool, chunk: Chunk)
    ensures Reports(ChunkDiagnostics(fired, chunk, true)) == [Forwarded(chunk.kind, chunk.text)]
  {
    var entry := Forwarded(chunk.kind, chunk.text);
    assert Reports([entry]) == Reports([]) + [entry];
    if fired {
      assert [KeepaliveLogged, entry][..1] == [KeepaliveLogged];
      assert Reports([KeepaliveLogged]) == Reports([]) + [];
    }
  }

  /** The last chunk's reports follow those of the chunks before it. */
  lemma OutputDiagnosticsStep(startTime: int, chunks: seq<Chunk>, hasCallback: bool)
    requires chunks != []
    ensures var n := |chunks| - 1;
            OutputDiagnostics(startTime, chunks, hasCallback)
            == OutputDiagnostics(startTime, chunks[..n], hasCallback)
               + ChunkDiagnostics(Fires(Keepalive(startTime, chunks[..n]).startTime, chunks[n].at), chunks[n], hasCallback)
  {
  }

  /** `rs` is every chunk forwarded, in order. */
  predicate ForwardsAll(rs: seq<Diagnostic>, chunks: seq<Chunk>) {
    |rs| == |chunks| && forall k :: 0 <= k < |rs| ==> rs[k] == Forwarded(chunks[k].kind, chunks[k].text)
  }

  lemma ForwardsAllSnoc(rs: seq<Diagnostic>, chunks: seq<Chunk>)
    requires chunks != [] && ForwardsAll(rs, chunks[..|chunks| - 1])
    ensures var c := chunks[|chunks| - 1];
            ForwardsAll(rs + [Forwarded(c.kind, c.text)], chunks)
  {
    var n := |chunks| - 1;
    var c := chunks[n];
    var rs' := rs + [Forwarded(c.kind, c.text)];
    forall k | 0 <= k < |rs'|
      ensures rs'[k] == Forwarded(chunks[k].kind, chunks[k].text)
    {
      if k < n {
        assert chunks[..n][k] == chunks[k];
      }
    }
  }

  /**
   * With a callback on the message, the callback receives every chunk, in
   * order, and nothing is parsed or logged besides the keepalive notices.
   */
  lemma {:induction false} CallbackReceivesEveryChunk(startTime: int, chunks: seq<Chunk>)
    ensures ForwardsAll(Reports(OutputDiagnostics(startTime, chunks, true)), chunks)
  {
    if chunks != [] {
      var n := |chunks| - 1;
      var fired := Fires(Keepalive(startTime, chunks[..n]).startTime, chunks[n].at);
      var before := OutputDiagnostics(startTime, chunks[..n], true);
      CallbackReceivesEveryChunk(startTime, chunks[..n]);
      OutputDiagnosticsStep(startTime, chunks, true);
      ReportsAppend(before, ChunkDiagnostics(fired, chunks[n], true));
      CallbackStep(fired, chunks[n]);
      ForwardsAllSnoc(Reports(before), chunks);
    }
  }

  /**
   * A report that can go to the logger: never forwarded; a verbatim line
   * comes from a chunk without " time=", a progress mark from a chunk with it.
   */
  predicate LoggedFrom(d: Diagnostic, c: Chunk) {
    && !d.Forwarded?
    && (d.OutputLogged? ==> c.text == d.text && Strpos(c.text, " time=").None?)
    && (d.ProgressLogged? ==> Strpos(c.text, " time=").Some? && ProgressMark(c.text) == Some(d.mark))
  }

  lemma LoggerStep(fired: bool, chunk: Chunk)
    ensures var ds := ChunkDiagnostics(fired, chunk, false);
            forall k :: 0 <= k < |ds| ==> ds[k].KeepaliveLogged? || LoggedFrom(ds[k], chunk)
  {
  }

  /**
   * Without a callback nothing is forwarded; every report other than a
   * keepalive notice is traced to a chunk of the run.
   */
  lemma {:induction false} LoggerReceivesChunks(startTime: int, chunks: seq<Chunk>)
    ensures var ds := OutputDiagnostics(startTime, chunks, false);
            forall k :: 0 <= k < |ds| ==>
              ds[k].KeepaliveLogged? || exists j :: 0 <= j < |chunks| && LoggedFrom(ds[k], chunks[j])
  {
    if chunks != [] {
      var n := |chunks| - 1;
      var prev := Keepalive(startTime, chunks[..n]);
      var fired := Fires(prev.startTime, chunks[n].at);
      var before := OutputDiagnostics(startTime, chunks[..n], false);
      var step := ChunkDiagnostics(fired, chunks[n], false);
      var ds := OutputDiagnostics(startTime, chunks, false);
      assert ds == before + step;
      LoggerReceivesChunks(startTime, chunks[..n]);
      LoggerStep(fired, chunks[n]);
      forall k | 0 <= k < |ds|
        ensures ds[k].KeepaliveLogged? || exists j :: 0 <= j < |chunks| && LoggedFrom(ds[k], chunks[j])
      {
        if k < |before| {
          assert ds[k] == before[k];
          if !ds[k].KeepaliveLogged? {
            assert before == OutputDiagnostics(startTime, chunks[..n], false);
            assert before[k].KeepaliveLogged? || exists j :: 0 <= j < |chunks[..n]| && LoggedFrom(before[k], chunks[..n][j]);
            var j :| 0 <= j < n && LoggedFrom(before[k], chunks[..n][j]);
            assert chunks[..n][j] == chunks[j];
          }
        } else {
          assert ds[k] == step[k - |before|];
          if !ds[k].KeepaliveLogged? {
            assert LoggedFrom(ds[k], chunks[n]);
          }
        }
      }
    }
  }

  /** The logger's reference output for a run: each chunk's logged report, in chunk order. */
  function LoggedAll(chunks: seq<Chunk>): seq<Diagnostic> {
    if chunks == [] then []
    else LoggedAll(chunks[..|chunks| - 1]) + LoggedReport(chunks[|chunks| - 1].text)
  }

  /** Without a callback, one chunk is reported as exactly what goes to the logger for it. */
  lemma LoggerStepExact(fired: bool, chunk: Chunk)
    ensures Reports(ChunkDiagnostics(fired, chunk, false)) == LoggedReport(chunk.text)
  {
    var logged := LoggedReport(chunk.text);
    var notice: seq<Diagnostic> := if fired then [KeepaliveLogged] else [];
    assert ChunkDiagnostics(fired, chunk, false) == notice + logged;
    ReportsAppend(notice, logged);
    if fired {
      assert Reports([KeepaliveLogged]) == Reports([]) + [];
    }
    if logged != [] {
      assert Reports(logged) == Reports([]) + logged;
    }
  }

  /**
   * Without a callback the logger receives, apart from the keepalive notices,
   * every chunk's report in chunk order: the chunk verbatim when it has no
   * " time=", otherwise its progress mark when the pattern matches.
   */
  lemma {:induction false} LoggerLogsEveryChunk(startTime: int, chunks: seq<Chunk>)
    ensures Reports(OutputDiagnostics(startTime, chunks, false)) == LoggedAll(chunks)
  {
    if chunks != [] {
      var n := |chunks| - 1;
      var fired := Fires(Keepalive(startTime, chunks[..n]).startTime, chunks[n].at);
      var before := OutputDiagnostics(startTime, chunks[..n], false);
      LoggerLogsEveryChunk(startTime, chunks[..n]);
      OutputDiagnosticsStep(startTime, chunks, false);
      ReportsAppend(before, ChunkDiagnostics(fired, chunks[n], false));
      LoggerStepExact(fired, chunks[n]);
    }
  }

  /** A chunk without " time=" is logged as it is. */
  lemma UnmarkedReport(text: string)
    requires Strpos(text, " time=").None?
    ensures LoggedReport(text) == [OutputLogged(text)]
  {
  }

  /** A chunk without " time=" reaches the logger verbatim. */
  lemma {:induction false} UnmarkedChunkIsLoggedVerbatim(chunks: seq<Chunk>, j: nat)
    requires j < |chunks| && Strpos(chunks[j].text, " time=").None?
    ensures OutputLogged(chunks[j].text) in LoggedAll(chunks)
  {
    var n := |chunks| - 1;
    var before := LoggedAll(chunks[..n]);
    var last := LoggedReport(chunks[n].text);
    assert LoggedAll(chunks) == before + last;
    if j < n {
      assert chunks[..n][j] == chunks[j];
      UnmarkedChunkIsLoggedVerbatim(chunks[..n], j);
      assert OutputLogged(chunks[j].text) in before;
    } else {
      UnmarkedReport(chunks[n].text);
      assert OutputLogged(chunks[j].text) in last;
    }
  }

  /** The keepalive messages of a run. */
  function FooMessages(count: nat): seq<Message> {
    seq(count, _ => FooMessage)
  }

  /** The work that follows a checked, consistent file. */
  function FanOut(id: nat): seq<Message> {
    [GenerateThumbnailMessage(id), CalculateFileHashesMessage(id, XxHash), CalculateFileHashesMessage(id, Md5)]
  }

  /**
   * The output callback for one chunk: ping the connection, dispatch a
   * FooMessage and restart the timer when it fires; then report the chunk.
   */
  method OnOutput(b: Backend, startTime: int, chunk: Chunk, hasCallback: bool)
    returns (newStartTime: int, diags: seq<Diagnostic>)
    modifies b`sent, b`pings
    ensures var fired := Fires(startTime, chunk.at);
            && newStartTime == (if fired then chunk.at else startTime)
            && b.pings == old(b.pings) + (if fired then 1 else 0)
            && b.sent == old(b.sent) + (if fired then [FooMessage] else [])
            && diags == ChunkDiagnostics(fired, chunk, hasCallback)
  {
    newStartTime, diags := startTime, [];
    if chunk.at - startTime >= KEEPALIVE_SECONDS {
      diags := [KeepaliveLogged];
      b.Ping();
      b.Dispatch(FooMessage);
      newStartTime := chunk.at;
    }
    if hasCallback {
      diags := diags + [Forwarded(chunk.kind, chunk.text)];
    } else if Strpos(chunk.text, " time=").Some? {
      var mark := ProgressMark(chunk.text);
      if mark.Some? {
        diags := diags + [ProgressLogged(mark.value)];
      }
    } else {
      diags := diags + [OutputLogged(chunk.text)];
    }
  }

  /** Thumbnail generation, then the XXHASH and the MD5 hash, for the file `id`. */
  method DispatchFollowUps(b: Backend, id: nat)
    modifies b`sent
    ensures b.sent == old(b.sent) + FanOut(id)
  {
    b.Dispatch(GenerateThumbnailMessage(id));
    b.Dispatch(CalculateFileHashesMessage(id, XxHash));
    b.Dispatch(CalculateFileHashesMessage(id, Md5));
  }

  /**
   * The health check handing its output, chunk by chunk, to the callback,
   * whose timer starts at `now`.
   */
  method FeedOutput(b: Backend, now: int, chunks: seq<Chunk>, hasCallback: bool)
    returns (diags: seq<Diagnostic>)
    modifies b`sent, b`pings
    ensures var n := |Keepalive(now, chunks).firings|;
            && b.pings == old(b.pings) + n
            && b.sent == old(b.sent) + FooMessages(n)
            && diags == OutputDiagnostics(now, chunks, hasCallback)
  {
    var startTime := now;
    diags := [];
    var i := 0;
    while i < |chunks|
      invariant 0 <= i <= |chunks|
      invariant var ks := Keepalive(now, chunks[..i]);
                && startTime == ks.startTime
                && b.pings == old(b.pings) + |ks.firings|
                && b.sent == old(b.sent) + FooMessages(|ks.firings|)
      invariant diags == OutputDiagnostics(now, chunks[..i], hasCallback)
    {
      assert chunks[..i + 1][..i] == chunks[..i];
      var reported;
      startTime, reported := OnOutput(b, startTime, chunks[i], hasCallback);
      diags := diags + reported;
      i := i + 1;
    }
    assert chunks[..i] == chunks;
  }

  /**
   * __invoke. `now` is time() when the message is handled and `probe` what
   * the health check does if it runs. A file already checked is not probed
   * and nothing is stored; otherwise the chunks pass through the callback,
   * and the verdict is stored and flushed unless the health check throws. Then the
   * three follow-up messages go out iff the file is checked and consistent.
   */
  method Invoke(b: Backend, message: Message, now: int, probe: ProbeRun)
    returns (outcome: HandlerOutcome, diags: seq<Diagnostic>)
    requires b.Valid() && message.CheckVideoMessage?
    modifies b`files, b`sent, b`flushes, b`pings
    ensures b.Valid()
    ensures var id := message.fileId;
            id >= |old(b.files)| ==>
              outcome == FileNotFound && diags == [] && unchanged(b)
    ensures var id := message.fileId;
            id < |old(b.files)| && old(b.files[id].checked) ==>
              && outcome == Handled && diags == []
              && b.files == old(b.files) && b.flushes == old(b.flushes) && b.pings == old(b.pings)
              && b.sent == old(b.sent) + (if old(b.files[id].consistent) then FanOut(id) else [])
    ensures var id := message.fileId;
            var ks := Keepalive(now, probe.chunks);
            var n := |ks.firings|;
            id < |old(b.files)| && !old(b.files[id].checked) ==>
              && diags == OutputDiagnostics(now, probe.chunks, message.hasCallback)
              && b.pings == old(b.pings) + n
              && (probe.result.Crashed? ==>
                    && outcome == ProbeFailed
                    && b.files == old(b.files) && b.flushes == old(b.flushes)
                    && b.sent == old(b.sent) + FooMessages(n))
              && (probe.result.Verdict? ==>
                    var v := probe.result;
                    && outcome == Handled
                    && b.files == old(b.files)[id := old(b.files[id]).(checked := v.checked, consistent := v.consistent)]
                    && b.flushes == old(b.flushes) + [|old(b.sent)| + n]
                    && b.sent == old(b.sent) + FooMessages(n)
                                 + (if v.checked && v.consistent then FanOut(id) else []))
  {
    var id := message.fileId;
    if id >= |b.files| {
      return FileNotFound, [];
    }
    var javFile := b.files[id];
    diags := [];
    if !javFile.checked {
      diags := FeedOutput(b, now, probe.chunks, message.hasCallback);
      if probe.result.Crashed? {
        return ProbeFailed, diags;
      }
      javFile := javFile.(checked := probe.result.checked, consistent := probe.result.consistent);
      b.PersistFile(javFile);
      b.Flush();
    }
    if javFile.checked && javFile.consistent {
      DispatchFollowUps(b, id);
    }
    return Handled, diags;
  }

  /**
   * Redelivering the message for a file whose check succeeded does not
   * probe again, stores nothing, and dispatches the follow-up work again.
   */
  method Redeliver(b: Backend, message: Message, now: int, probe: ProbeRun, later: int, reprobe: ProbeRun)
    returns (first: HandlerOutcome, second: HandlerOutcome, again: seq<Diagnostic>)
    requires b.Valid() && message.CheckVideoMessage? && message.fileId < |b.files|
    requires !b.files[message.fileId].checked && probe.result == Verdict(true, true)
    modifies b`files, b`sent, b`flushes, b`pings
    ensures b.Valid()
    ensures second == Handled && again == []
    ensures |b.flushes| == |old(b.flushes)| + 1 && message.fileId < |b.files| && b.files[message.fileId].checked && b.files[message.fileId].consistent
    ensures |b.sent| >= 3 && b.sent[|b.sent| - 3..] == FanOut(message.fileId)
  {
    var diags;
    first, diags := Invoke(b, message, now, probe);
    assert b.files[message.fileId].checked && b.files[message.fileId].consistent;
    ghost var sentBefore := b.sent;
    second, again := Invoke(b, message, later, reprobe);
    assert b.sent == sentBefore + FanOut(message.fileId);
  }
}
