/**
 * The background task `chat_stream` spawns: it owns the body stream and the
 * sending half of the channel, and decodes the body chunk by chunk. What
 * the source writes to standard error is kept in `log`.
 */
module Client {
  import opened Wrappers
  import opened Text
  import opened Decoding
  import opened Channel
  import Seqs

  class StreamTask<E> {
    /** The JSON deserialiser for stream events. */
    const parse: string -> Option<E>
    const tx: Sender<E>
    var log: seq<Diagnostic>

    constructor (parse: string -> Option<E>, tx: Sender<E>)
      ensures this.parse == parse && this.tx == tx && log == []
    {
      this.parse := parse;
      this.tx := tx;
      log := [];
    }

    /**
     * `process_chunk`: every line of the chunk that is non-empty and contains '{'
     * has its candidate parsed; parsed events are sent in line order, failures
     * are logged and skipped, and the method itself never fails.
     */
    method ProcessChunk(chunk: string)
      modifies this, tx
      ensures tx.receiverAlive == old(tx.receiverAlive)
      ensures tx.receiverAlive ==> tx.queue == old(tx.queue) + ChunkEvents(parse, chunk)
      ensures !tx.receiverAlive ==> tx.queue == old(tx.queue)
      ensures log == old(log) + ChunkDiagnostics(parse, tx.receiverAlive, chunk)
    {
      var lines := Split(chunk, '\n');
      ghost var alive, queue0, log0 := tx.receiverAlive, tx.queue, log;
      for i := 0 to |lines|
        invariant tx.receiverAlive == alive
        invariant alive ==> tx.queue == queue0 + Parsed(parse, Candidates(lines[..i]))
        invariant !alive ==> tx.queue == queue0
        invariant log == log0 + Diagnostics(parse, alive, Candidates(lines[..i]))
      {
        ghost var done := Candidates(lines[..i]);
        ProcessLine(lines[i]);
        CandidatesSnoc(lines, i);
        ParsedAppend(parse, done, LineCandidates(lines[i]));
        DiagnosticsAppend(parse, alive, done, LineCandidates(lines[i]));
        Seqs.ConcatAssoc(queue0, Parsed(parse, done), Parsed(parse, LineCandidates(lines[i])));
        Seqs.ConcatAssoc(log0, Diagnostics(parse, alive, done), Diagnostics(parse, alive, LineCandidates(lines[i])));
      }
      assert lines[..|lines|] == lines;
    }

    /** One iteration of the loop in `process_chunk`: the filter and `find('{')`. */
    method ProcessLine(line: string)
      modifies this, tx
      ensures tx.receiverAlive == old(tx.receiverAlive)
      ensures tx.receiverAlive ==> tx.queue == old(tx.queue) + Parsed(parse, LineCandidates(line))
      ensures !tx.receiverAlive ==> tx.queue == old(tx.queue)
      ensures log == old(log) + Diagnostics(parse, tx.receiverAlive, LineCandidates(line))
    {
      ghost var alive := tx.receiverAlive;
      if |line| > 0 && '{' in line {
        match FirstIndex(line, '{') {
          case Some(start) =>
            var candidate := Trim(line[start..]);
            KeptLineCandidate(line, start);
            SingleCandidate(parse, alive, candidate);
            ProcessCandidate(candidate);
          case None =>
            // "No valid JSON found": the filter already guarantees a '{'.
            assert false;
        }
      } else {
        assert LineCandidates(line) == [] && Parsed(parse, []) == [] && Diagnostics(parse, alive, []) == [];
      }
    }

    /** The parse of one candidate and the send of its event; each failure is logged. */
    method ProcessCandidate(candidate: string)
      modifies this, tx
      ensures tx.receiverAlive == old(tx.receiverAlive)
      ensures tx.receiverAlive ==> tx.queue == old(tx.queue) + CandidateEvents(parse, candidate)
      ensures !tx.receiverAlive ==> tx.queue == old(tx.queue)
      ensures log == old(log) + CandidateDiagnostics(parse, tx.receiverAlive, candidate)
    {
      match parse(candidate) {
        case Some(obj) =>
          var delivered := tx.Send(obj);
          if !delivered {
            log := log + [SendError];
          }
        case None =>
          log := log + [JsonDeserializeError(candidate)];
      }
    }

    /**
     * The `while let Some(chunk) = stream.next()` loop: successful chunks are
     * decoded in arrival order, each on its own; an error item is logged and the
     * loop goes on with the next item.
     */
    method Run(chunks: seq<ChunkResult>)
      modifies this, tx
      ensures tx.receiverAlive == old(tx.receiverAlive)
      ensures tx.receiverAlive ==> tx.queue == old(tx.queue) + StreamEvents(parse, chunks)
      ensures !tx.receiverAlive ==> tx.queue == old(tx.queue)
      ensures log == old(log) + StreamDiagnostics(parse, tx.receiverAlive, chunks)
    {
      ghost var alive, queue0, log0 := tx.receiverAlive, tx.queue, log;
      for i := 0 to |chunks|
        invariant tx.receiverAlive == alive
        invariant alive ==> tx.queue == queue0 + StreamEvents(parse, chunks[..i])
        invariant !alive ==> tx.queue == queue0
        invariant log == log0 + StreamDiagnostics(parse, alive, chunks[..i])
      {
        StreamSnoc(parse, alive, chunks, i);
        ghost var events, diagnostics := StreamEvents(parse, chunks[..i]), StreamDiagnostics(parse, alive, chunks[..i]);
        match chunks[i] {
          case Ok(bytes) =>
            ProcessChunk(bytes);
            assert ItemEvents(parse, chunks[i]) == ChunkEvents(parse, bytes);
            assert ItemDiagnostics(parse, alive, chunks[i]) == ChunkDiagnostics(parse, alive, bytes);
          case Err(e) =>
            log := log + [ChunkError(e)];
            assert ItemEvents(parse, chunks[i]) == [];
            assert ItemDiagnostics(parse, alive, chunks[i]) == [ChunkError(e)];
        }
        Seqs.ConcatAssoc(log0, diagnostics, ItemDiagnostics(parse, alive, chunks[i]));
        Seqs.ConcatAssoc(queue0, events, ItemEvents(parse, chunks[i]));
      }
      assert chunks[..|chunks|] == chunks;
    }
  }

  /**
   * `chat_stream` after the request has been sent: a fresh channel, a task that
   * owns its sending half and the response body, and the receiving half handed
   * back. Running the task to the end of the body leaves in the channel every
   * event the body yields, in order, and in the log every diagnostic.
   */
  method ChatStream<E>(parse: string -> Option<E>, body: seq<ChunkResult>) returns (channel: Sender<E>, task: StreamTask<E>)
    ensures fresh(channel) && fresh(task) && task.tx == channel && task.parse == parse
    ensures channel.receiverAlive && channel.queue == StreamEvents(parse, body)
    ensures task.log == StreamDiagnostics(parse, true, body)
  {
    channel := new Sender();
    task := new StreamTask(parse, channel);
    task.Run(body);
  }
}
