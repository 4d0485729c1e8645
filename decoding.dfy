/**
 * What the streaming decoder computes, as functions: which lines of a chunk are
 * kept, the JSON candidate taken from each kept line, the events the parser
 * accepts, the diagnostics written for the rest, and the same lifted to the
 * whole sequence of chunks a response body delivers.
 *
 * The JSON parser is the parameter `parse`: it maps a candidate text to the
 * event it denotes, or to `None` when deserialisation fails.
 */
module Decoding {
  import opened Wrappers
  import opened Text
  import Seqs

  /** One item of the response body stream: a decoded chunk, or a transport error. */
  datatype ChunkResult = Ok(text: string) | Err(error: string)

  /** What the decoder writes to standard error. */
  datatype Diagnostic =
    | JsonDeserializeError(candidate: string)  // the candidate did not parse
    | SendError                                 // the receiver was dropped
    | NoJsonFound                               // a kept line without '{' (never produced)
    | ChunkError(error: string)                 // the body stream yielded an error

  /** The line filter: non-empty and containing '{'. */
  predicate Kept(line: string) {
    |line| > 0 && '{' in line
  }

  /** The text handed to the parser: from the first '{' to the end of the line, trimmed. */
  function Candidate(line: string): string
    requires '{' in line
  {
    Trim(line[FirstIndex(line, '{').value..])
  }

  /**
   * The candidate of a line is the slice that starts at the line's first '{' and
   * runs to the end of the line less its trailing whitespace: the prefix before
   * that '{' (such as `data: `) is dropped, and the candidate is never empty.
   */
  lemma CandidateShape(line: string)
    requires '{' in line
    ensures var i := FirstIndex(line, '{').value; var c := Candidate(line);
      '{' !in line[..i] && i + |c| <= |line| && c == line[i..i + |c|]
      && |c| > 0 && c[0] == '{'
      && AllWhitespace(line[i + |c|..])
  {
    var i := FirstIndex(line, '{').value;
    var tail := line[i..];
    assert tail[0] == '{';
    PunctuationIsNotWhitespace();
    TrimFromNonSpace(tail);
    var c := Trim(tail);
    assert tail[..|c|] == line[i..i + |c|];
    assert tail[|c|..] == line[i + |c|..];
  }

  /** The lines that pass the filter, in order. */
  function KeptLines(lines: seq<string>): (kept: seq<string>)
    ensures |kept| <= |lines|
    ensures forall k :: 0 <= k < |kept| ==> Kept(kept[k])
  {
    if |lines| == 0 then []
    else (if Kept(lines[0]) then [lines[0]] else []) + KeptLines(lines[1..])
  }

  /** The candidates of the kept lines, in line order. */
  function Candidates(lines: seq<string>): seq<string>
  {
    if |lines| == 0 then [] else LineCandidates(lines[0]) + Candidates(lines[1..])
  }

  /** The candidate of one line, if the line is kept. */
  function LineCandidates(line: string): seq<string> {
    if Kept(line) then [Candidate(line)] else []
  }

  /** A kept line contributes the trimmed text from its first '{'. */
  lemma KeptLineCandidate(line: string, start: nat)
    requires Kept(line) && FirstIndex(line, '{') == Some(start)
    ensures LineCandidates(line) == [Trim(line[start..])]
  {
  }

  /** The lines of a chunk. */
  function Lines(chunk: string): seq<string> {
    Split(chunk, '\n')
  }

  /** The candidates of a chunk. */
  function ChunkCandidates(chunk: string): seq<string> {
    Candidates(Lines(chunk))
  }

  /** The events the parser accepts, in candidate order. */
  function Parsed<E>(parse: string -> Option<E>, cs: seq<string>): seq<E>
  {
    if |cs| == 0 then [] else CandidateEvents(parse, cs[0]) + Parsed(parse, cs[1..])
  }

  /** The event of one candidate, if it parses. */
  function CandidateEvents<E>(parse: string -> Option<E>, c: string): seq<E> {
    match parse(c)
    case Some(e) => [e]
    case None => []
  }

  /** The diagnostics for the candidates: a failed parse, or a failed send when the receiver is gone. */
  function Diagnostics<E>(parse: string -> Option<E>, alive: bool, cs: seq<string>): seq<Diagnostic>
  {
    if |cs| == 0 then []
    else CandidateDiagnostics(parse, alive, cs[0]) + Diagnostics(parse, alive, cs[1..])
  }

  /** The diagnostic of one candidate: a failed parse, or a failed send. */
  function CandidateDiagnostics<E>(parse: string -> Option<E>, alive: bool, c: string): seq<Diagnostic> {
    match parse(c)
    case None => [JsonDeserializeError(c)]
    case Some(_) => if alive then [] else [SendError]
  }

  /** The events one chunk yields. */
  function ChunkEvents<E>(parse: string -> Option<E>, chunk: string): seq<E> {
    Parsed(parse, ChunkCandidates(chunk))
  }

  /** The diagnostics one chunk yields. */
  function ChunkDiagnostics<E>(parse: string -> Option<E>, alive: bool, chunk: string): seq<Diagnostic> {
    Diagnostics(parse, alive, ChunkCandidates(chunk))
  }

  /** The events one body item yields: an error item yields none. */
  function ItemEvents<E>(parse: string -> Option<E>, item: ChunkResult): seq<E> {
    match item
    case Ok(text) => ChunkEvents(parse, text)
    case Err(_) => []
  }

  /** The diagnostics one body item yields: an error item yields exactly one. */
  function ItemDiagnostics<E>(parse: string -> Option<E>, alive: bool, item: ChunkResult): seq<Diagnostic> {
    match item
    case Ok(text) => ChunkDiagnostics(parse, alive, text)
    case Err(e) => [ChunkError(e)]
  }

  /** The events a sequence of body items yields, item by item. */
  function StreamEvents<E>(parse: string -> Option<E>, chunks: seq<ChunkResult>): seq<E>
  {
    if |chunks| == 0 then [] else ItemEvents(parse, chunks[0]) + StreamEvents(parse, chunks[1..])
  }

  /** The diagnostics a sequence of body items yields, item by item. */
  function StreamDiagnostics<E>(parse: string -> Option<E>, alive: bool, chunks: seq<ChunkResult>): seq<Diagnostic>
  {
    if |chunks| == 0 then []
    else ItemDiagnostics(parse, alive, chunks[0]) + StreamDiagnostics(parse, alive, chunks[1..])
  }

  // ---------------------------------------------------------------------------
  // Compositionality: every function above distributes over concatenation.

  lemma {:induction false} KeptLinesAppend(a: seq<string>, b: seq<string>)
    ensures KeptLines(a + b) == KeptLines(a) + KeptLines(b)
  {
    if |a| > 0 {
      assert (a + b)[1..] == a[1..] + b;
      KeptLinesAppend(a[1..], b);
    } else {
      assert a + b == b;
    }
  }

  lemma {:induction false} CandidatesAppend(a: seq<string>, b: seq<string>)
    ensures Candidates(a + b) == Candidates(a) + Candidates(b)
  {
    if |a| > 0 {
      assert (a + b)[1..] == a[1..] + b;
      CandidatesAppend(a[1..], b);
    } else {
      assert a + b == b;
    }
  }

  lemma {:induction false} ParsedAppend<E>(parse: string -> Option<E>, a: seq<string>, b: seq<string>)
    ensures Parsed(parse, a + b) == Parsed(parse, a) + Parsed(parse, b)
  {
    if |a| > 0 {
      assert (a + b)[1..] == a[1..] + b;
      ParsedAppend(parse, a[1..], b);
    } else {
      assert a + b == b;
    }
  }

  lemma {:induction false} DiagnosticsAppend<E>(parse: string -> Option<E>, alive: bool, a: seq<string>, b: seq<string>)
    ensures Diagnostics(parse, alive, a + b) == Diagnostics(parse, alive, a) + Diagnostics(parse, alive, b)
  {
    if |a| > 0 {
      assert (a + b)[1..] == a[1..] + b;
      DiagnosticsAppend(parse, alive, a[1..], b);
    } else {
      assert a + b == b;
    }
  }

  /** Adding one more line to the processed ones adds that line's candidate. */
  lemma CandidatesSnoc(lines: seq<string>, i: nat)
    requires i < |lines|
    ensures Candidates(lines[..i + 1]) == Candidates(lines[..i]) + LineCandidates(lines[i])
  {
    assert lines[..i + 1] == lines[..i] + [lines[i]];
    CandidatesAppend(lines[..i], [lines[i]]);
    assert Candidates([lines[i]]) == LineCandidates(lines[i]) + Candidates([]);
  }

  /** Adding one more candidate adds its event and its diagnostic. */
  lemma CandidateSnoc<E>(parse: string -> Option<E>, alive: bool, cs: seq<string>, c: string)
    ensures Parsed(parse, cs + [c]) == Parsed(parse, cs) + CandidateEvents(parse, c)
    ensures Diagnostics(parse, alive, cs + [c]) == Diagnostics(parse, alive, cs) + CandidateDiagnostics(parse, alive, c)
  {
    ParsedAppend(parse, cs, [c]);
    DiagnosticsAppend(parse, alive, cs, [c]);
    assert Parsed(parse, [c]) == CandidateEvents(parse, c) + Parsed(parse, []);
    assert Diagnostics(parse, alive, [c]) == CandidateDiagnostics(parse, alive, c) + Diagnostics(parse, alive, []);
  }

  /** Adding one more body item adds what that item yields. */
  lemma StreamItemSnoc<E>(parse: string -> Option<E>, alive: bool, chunks: seq<ChunkResult>, item: ChunkResult)
    ensures StreamEvents(parse, chunks + [item]) == StreamEvents(parse, chunks) + ItemEvents(parse, item)
    ensures StreamDiagnostics(parse, alive, chunks + [item])
         == StreamDiagnostics(parse, alive, chunks) + ItemDiagnostics(parse, alive, item)
  {
    StreamEventsAppend(parse, chunks, [item]);
    StreamDiagnosticsAppend(parse, alive, chunks, [item]);
    assert StreamEvents(parse, [item]) == ItemEvents(parse, item) + StreamEvents(parse, []);
    assert StreamDiagnostics(parse, alive, [item])
        == ItemDiagnostics(parse, alive, item) + StreamDiagnostics(parse, alive, []);
  }

  /** The same, for the prefixes a loop over the items goes through. */
  lemma StreamSnoc<E>(parse: string -> Option<E>, alive: bool, chunks: seq<ChunkResult>, i: nat)
    requires i < |chunks|
    ensures StreamEvents(parse, chunks[..i + 1]) == StreamEvents(parse, chunks[..i]) + ItemEvents(parse, chunks[i])
    ensures StreamDiagnostics(parse, alive, chunks[..i + 1])
         == StreamDiagnostics(parse, alive, chunks[..i]) + ItemDiagnostics(parse, alive, chunks[i])
  {
    assert chunks[..i + 1] == chunks[..i] + [chunks[i]];
    StreamItemSnoc(parse, alive, chunks[..i], chunks[i]);
  }

  /**
   * No state is carried from one body item to the next: the output of a sequence
   * of items is the output of its first part followed by that of the rest.
   */
  lemma {:induction false} StreamEventsAppend<E>(parse: string -> Option<E>, a: seq<ChunkResult>, b: seq<ChunkResult>)
    ensures StreamEvents(parse, a + b) == StreamEvents(parse, a) + StreamEvents(parse, b)
  {
    if |a| > 0 {
      assert (a + b)[1..] == a[1..] + b;
      StreamEventsAppend(parse, a[1..], b);
    } else {
      assert a + b == b;
    }
  }

  lemma {:induction false} StreamDiagnosticsAppend<E>(parse: string -> Option<E>, alive: bool, a: seq<ChunkResult>, b: seq<ChunkResult>)
    ensures StreamDiagnostics(parse, alive, a + b)
         == StreamDiagnostics(parse, alive, a) + StreamDiagnostics(parse, alive, b)
  {
    if |a| > 0 {
      assert (a + b)[1..] == a[1..] + b;
      StreamDiagnosticsAppend(parse, alive, a[1..], b);
    } else {
      assert a + b == b;
    }
  }

  // ---------------------------------------------------------------------------
  // Line extraction.

  /** A line is kept exactly when it passes the filter (both directions). */
  lemma {:induction false} KeptLinesExactly(lines: seq<string>, line: string)
    ensures line in KeptLines(lines) <==> line in lines && Kept(line)
  {
    if |lines| > 0 {
      KeptLinesExactly(lines[1..], line);
      assert lines == [lines[0]] + lines[1..];
    }
  }

  /** The candidates are the candidates of the kept lines, one each, in the same order. */
  lemma {:induction false} CandidatesOfKeptLines(lines: seq<string>)
    ensures |Candidates(lines)| == |KeptLines(lines)|
    ensures forall k :: 0 <= k < |KeptLines(lines)| ==> Candidates(lines)[k] == Candidate(KeptLines(lines)[k])
  {
    if |lines| > 0 {
      CandidatesOfKeptLines(lines[1..]);
      var rest := lines[1..];
      if Kept(lines[0]) {
        assert Candidates(lines) == [Candidate(lines[0])] + Candidates(rest);
        assert KeptLines(lines) == [lines[0]] + KeptLines(rest);
      } else {
        Seqs.EmptyConcat(Candidates(rest));
        Seqs.EmptyConcat(KeptLines(rest));
      }
    }
  }

  /** A chunk with no '{' in it has no candidates, hence no events and no diagnostics. */
  lemma {:induction false} NoBraceNoCandidates(chunk: string)
    requires '{' !in chunk
    ensures ChunkCandidates(chunk) == []
  {
    SplitPiecesWithout(chunk, '\n', '{');
    NoBraceLines(Lines(chunk));
  }

  lemma {:induction false} NoBraceLines(lines: seq<string>)
    requires forall k :: 0 <= k < |lines| ==> '{' !in lines[k]
    ensures Candidates(lines) == []
  {
    if |lines| > 0 {
      NoBraceLines(lines[1..]);
    }
  }

  /** A line that ends a chunk: the chunk's last character is the newline. */
  predicate EndsLine(text: string) {
    |text| > 0 && text[|text| - 1] == '\n'
  }

  /** The empty line after a final newline produces nothing. */
  lemma TrailingNewlineIgnored(chunk: string)
    ensures ChunkCandidates(chunk + "\n") == ChunkCandidates(chunk)
  {
    assert chunk + "\n" == chunk + ['\n'] + "";
    SplitConcat(chunk, "", '\n');
    CandidatesAppend(Lines(chunk), [""]);
  }

  /**
   * A line made of a prefix without '{' followed by a JSON text starting with '{'
   * hands exactly the trimmed JSON text to the parser.
   */
  lemma PrefixDropped(prefix: string, body: string)
    requires '{' !in prefix && '\n' !in prefix + body
    requires |body| > 0 && body[0] == '{'
    ensures ChunkCandidates(prefix + body) == [Trim(body)]
  {
    var line := prefix + body;
    SplitNoSeparator(line, '\n');
    assert Lines(line) == [line];
    FirstBraceAfterPrefix(prefix, body);
    assert Kept(line) by {
      assert line[|prefix|] == '{';
    }
    assert Candidates([line]) == [Candidate(line)] + Candidates([]);
  }

  /** The first '{' of `prefix + body` is the one that starts `body`. */
  lemma FirstBraceAfterPrefix(prefix: string, body: string)
    requires '{' !in prefix
    requires |body| > 0 && body[0] == '{'
    ensures '{' in prefix + body
    ensures FirstIndex(prefix + body, '{') == Some(|prefix|)
    ensures (prefix + body)[|prefix|..] == body
  {
    var line := prefix + body;
    assert line[|prefix|] == '{';
    assert line[..|prefix|] == prefix;
  }

  /** Every candidate comes from a kept line of the input. */
  lemma {:induction false} CandidatesOrigin(lines: seq<string>, c: string)
    requires c in Candidates(lines)
    ensures exists line :: line in lines && Kept(line) && c == Candidate(line)
  {
    if Kept(lines[0]) && c == Candidate(lines[0]) {
      assert lines[0] in lines;
    } else {
      CandidatesOrigin(lines[1..], c);
      var line :| line in lines[1..] && Kept(line) && c == Candidate(line);
      assert line in lines;
    }
  }

  /** Every parsed event comes from a candidate that parses to it. */
  lemma {:induction false} ParsedOrigin<E>(parse: string -> Option<E>, cs: seq<string>, e: E)
    requires e in Parsed(parse, cs)
    ensures exists c :: c in cs && parse(c) == Some(e)
  {
    if parse(cs[0]) == Some(e) {
      assert cs[0] in cs;
    } else {
      assert e in Parsed(parse, cs[1..]);
      ParsedOrigin(parse, cs[1..], e);
      var c :| c in cs[1..] && parse(c) == Some(e);
      assert c in cs;
    }
  }

  /**
   * Every event a chunk yields is what the parser makes of the candidate of one
   * of its lines, and that line is non-empty and contains '{'.
   */
  lemma EventOrigin<E>(parse: string -> Option<E>, chunk: string, e: E)
    requires e in ChunkEvents(parse, chunk)
    ensures exists line :: line in Lines(chunk) && Kept(line) && parse(Candidate(line)) == Some(e)
  {
    ParsedOrigin(parse, ChunkCandidates(chunk), e);
    var c :| c in ChunkCandidates(chunk) && parse(c) == Some(e);
    CandidatesOrigin(Lines(chunk), c);
  }

  /**
   * A candidate that fails to parse is logged and skipped: the candidates after
   * it are processed exactly as if it had not been there.
   */
  lemma ParseFailureSkipped<E>(parse: string -> Option<E>, alive: bool, a: seq<string>, c: string, b: seq<string>)
    requires parse(c).None?
    ensures Parsed(parse, a + [c] + b) == Parsed(parse, a) + Parsed(parse, b)
    ensures Diagnostics(parse, alive, a + [c] + b)
         == Diagnostics(parse, alive, a) + [JsonDeserializeError(c)] + Diagnostics(parse, alive, b)
  {
    CandidateSnoc(parse, alive, a, c);
    assert Parsed(parse, a + [c]) == Parsed(parse, a);
    ParsedAppend(parse, a + [c], b);
    DiagnosticsAppend(parse, alive, a + [c], b);
  }

  /**
   * With the receiver alive each candidate yields one event or one deserialise
   * error; once it is dropped each candidate still yields one diagnostic, the
   * events that would have been delivered becoming send errors.
   */
  lemma {:induction false} EveryCandidateAccounted<E>(parse: string -> Option<E>, cs: seq<string>)
    ensures |Parsed(parse, cs)| + |Diagnostics(parse, true, cs)| == |cs|
    ensures |Diagnostics(parse, false, cs)| == |cs|
    ensures forall k :: 0 <= k < |Diagnostics(parse, true, cs)| ==> Diagnostics(parse, true, cs)[k].JsonDeserializeError?
    ensures forall k :: 0 <= k < |Diagnostics(parse, false, cs)| ==> !Diagnostics(parse, false, cs)[k].NoJsonFound?
    ensures forall k :: 0 <= k < |cs| ==>
      Diagnostics(parse, false, cs)[k] == if parse(cs[k]).Some? then SendError else JsonDeserializeError(cs[k])
  {
    if |cs| > 0 {
      EveryCandidateAccounted(parse, cs[1..]);
      var d := Diagnostics(parse, false, cs);
      assert |CandidateDiagnostics(parse, false, cs[0])| == 1;
      assert forall k :: 1 <= k < |cs| ==> d[k] == Diagnostics(parse, false, cs[1..])[k - 1] && cs[k] == cs[1..][k - 1];
    }
  }

  /**
   * Every kept line of a chunk is accounted for: with the receiver alive it
   * yields one event or one deserialise error, so the events appended are
   * exactly the kept lines whose candidate parses.
   */
  lemma KeptLinesAccounted<E>(parse: string -> Option<E>, chunk: string)
    ensures |ChunkEvents(parse, chunk)| + |ChunkDiagnostics(parse, true, chunk)| == |KeptLines(Lines(chunk))|
    ensures |ChunkDiagnostics(parse, false, chunk)| == |KeptLines(Lines(chunk))|
    ensures var kept := KeptLines(Lines(chunk));
      ChunkCandidates(chunk) == seq(|kept|, k requires 0 <= k < |kept| => Candidate(kept[k]))
    ensures var kept := KeptLines(Lines(chunk));
      ChunkEvents(parse, chunk) == Parsed(parse, seq(|kept|, k requires 0 <= k < |kept| => Candidate(kept[k])))
    ensures var kept := KeptLines(Lines(chunk));
      forall k :: 0 <= k < |kept| ==>
        ChunkDiagnostics(parse, false, chunk)[k]
        == if parse(Candidate(kept[k])).Some? then SendError else JsonDeserializeError(Candidate(kept[k]))
  {
    var kept := KeptLines(Lines(chunk));
    var cs := ChunkCandidates(chunk);
    KeptCandidates(Lines(chunk));
    EveryCandidateAccounted(parse, cs);
    assert forall k :: 0 <= k < |kept| ==> cs[k] == Candidate(kept[k]);
  }

  /** The candidates of some lines, written as the candidates of their kept lines. */
  lemma KeptCandidates(lines: seq<string>)
    ensures |Candidates(lines)| == |KeptLines(lines)|
    ensures var kept := KeptLines(lines);
      Candidates(lines) == seq(|kept|, k requires 0 <= k < |kept| => Candidate(kept[k]))
  {
    CandidatesOfKeptLines(lines);
  }

  /** A transport error in the body stream is logged and skipped; the items around it are unaffected. */
  lemma ErrorItemSkipped<E>(parse: string -> Option<E>, alive: bool, a: seq<ChunkResult>, error: string, b: seq<ChunkResult>)
    ensures StreamEvents(parse, a + [Err(error)] + b) == StreamEvents(parse, a) + StreamEvents(parse, b)
    ensures StreamDiagnostics(parse, alive, a + [Err(error)] + b)
         == StreamDiagnostics(parse, alive, a) + [ChunkError(error)] + StreamDiagnostics(parse, alive, b)
  {
    var item: ChunkResult := Err(error);
    ErrorItemEvents(parse, a, item, b);
    ErrorItemDiagnostics(parse, alive, a, item, b);
  }

  lemma ErrorItemEvents<E>(parse: string -> Option<E>, a: seq<ChunkResult>, item: ChunkResult, b: seq<ChunkResult>)
    requires item.Err?
    ensures StreamEvents(parse, a + [item] + b) == StreamEvents(parse, a) + StreamEvents(parse, b)
  {
    StreamItemSnoc(parse, true, a, item);
    assert StreamEvents(parse, a + [item]) == StreamEvents(parse, a);
    StreamEventsAppend(parse, a + [item], b);
  }

  lemma ErrorItemDiagnostics<E>(parse: string -> Option<E>, alive: bool, a: seq<ChunkResult>, item: ChunkResult, b: seq<ChunkResult>)
    requires item.Err?
    ensures StreamDiagnostics(parse, alive, a + [item] + b)
         == StreamDiagnostics(parse, alive, a) + [ChunkError(item.error)] + StreamDiagnostics(parse, alive, b)
  {
    StreamItemSnoc(parse, alive, a, item);
    StreamDiagnosticsAppend(parse, alive, a + [item], b);
  }

  /** Cutting a chunk right after a newline does not change what it yields. */
  lemma RechunkAtLineEnd(a: string, b: string)
    requires EndsLine(a)
    ensures ChunkCandidates(a + b) == ChunkCandidates(a) + ChunkCandidates(b)
  {
    var a' := a[..|a| - 1];
    assert a == a' + ['\n'] + "";
    assert a + b == a' + ['\n'] + b;
    SplitConcat(a', b, '\n');
    SplitConcat(a', "", '\n');
    CandidatesAppend(Lines(a'), Lines(b));
    CandidatesAppend(Lines(a'), [""]);
  }

  /** The texts glued together. */
  function Concat(texts: seq<string>): string
  {
    if |texts| == 0 then "" else texts[0] + Concat(texts[1..])
  }

  /** The texts delivered as successful body items. */
  function AsChunks(texts: seq<string>): (chunks: seq<ChunkResult>)
    ensures |chunks| == |texts|
    ensures forall k :: 0 <= k < |texts| ==> chunks[k] == Ok(texts[k])
  {
    if |texts| == 0 then [] else [Ok(texts[0])] + AsChunks(texts[1..])
  }

  /**
   * Chunking invariance: when every chunk but the last ends at a line boundary
   * (no line, hence no JSON object, is split across chunks), the stream yields
   * what the whole text would yield as one chunk.
   */
  lemma {:induction false} ChunkingInvariance<E>(parse: string -> Option<E>, alive: bool, texts: seq<string>)
    requires forall k :: 0 <= k < |texts| - 1 ==> EndsLine(texts[k])
    ensures StreamEvents(parse, AsChunks(texts)) == ChunkEvents(parse, Concat(texts))
    ensures StreamDiagnostics(parse, alive, AsChunks(texts)) == ChunkDiagnostics(parse, alive, Concat(texts))
  {
    if |texts| == 0 {
      EmptyChunk(parse, alive);
    } else {
      var first, rest := texts[0], texts[1..];
      ChunkingInvariance(parse, alive, rest);
      assert AsChunks(texts) == [Ok(first)] + AsChunks(rest);
      assert Concat(texts) == first + Concat(rest);
      StreamEventsAppend(parse, [Ok(first)], AsChunks(rest));
      StreamDiagnosticsAppend(parse, alive, [Ok(first)], AsChunks(rest));
      SingleChunk(parse, alive, first);
      if |rest| == 0 {
        EmptyChunk(parse, alive);
        assert first + Concat(rest) == first;
      } else {
        RechunkAtLineEnd(first, Concat(rest));
        ParsedAppend(parse, ChunkCandidates(first), ChunkCandidates(Concat(rest)));
        DiagnosticsAppend(parse, alive, ChunkCandidates(first), ChunkCandidates(Concat(rest)));
      }
    }
  }

  /** An empty chunk, and an empty body, yield nothing. */
  lemma EmptyChunk<E>(parse: string -> Option<E>, alive: bool)
    ensures ChunkEvents(parse, "") == [] && ChunkDiagnostics(parse, alive, "") == []
    ensures StreamEvents(parse, []) == [] && StreamDiagnostics(parse, alive, []) == []
  {
    assert Lines("") == [""];
    assert Candidates([""]) == [];
  }

  /** A body of one successful item yields what that chunk yields. */
  lemma SingleChunk<E>(parse: string -> Option<E>, alive: bool, text: string)
    ensures StreamEvents(parse, [Ok(text)]) == ChunkEvents(parse, text)
    ensures StreamDiagnostics(parse, alive, [Ok(text)]) == ChunkDiagnostics(parse, alive, text)
  {
    var item: ChunkResult := Ok(text);
    assert StreamEvents(parse, [item]) == ItemEvents(parse, item) + StreamEvents(parse, []);
    assert StreamDiagnostics(parse, alive, [item])
        == ItemDiagnostics(parse, alive, item) + StreamDiagnostics(parse, alive, []);
  }

  /** The events and diagnostics of a two-item body are those of each item in turn. */
  lemma TwoChunks<E>(parse: string -> Option<E>, alive: bool, first: string, second: string)
    ensures StreamEvents(parse, [Ok(first), Ok(second)]) == ChunkEvents(parse, first) + ChunkEvents(parse, second)
    ensures StreamDiagnostics(parse, alive, [Ok(first), Ok(second)])
         == ChunkDiagnostics(parse, alive, first) + ChunkDiagnostics(parse, alive, second)
  {
    assert [Ok(first), Ok(second)] == [Ok(first)] + [Ok(second)];
    StreamEventsAppend(parse, [Ok(first)], [Ok(second)]);
    StreamDiagnosticsAppend(parse, alive, [Ok(first)], [Ok(second)]);
    SingleChunk(parse, alive, first);
    SingleChunk(parse, alive, second);
  }

  /** A parser that knows one event, the object `{"id":"1"}`, standing for any real one. */
  function IdOneParser(s: string): Option<int> {
    if s == "{\"id\":\"1\"}" then Some(1) else None
  }

  /**
   * No buffer survives from one chunk to the next: the event line
   * `data: {"id":"1"}` followed by a newline yields its event when it arrives as
   * one chunk, but nothing when it is cut inside the JSON object: the first
   * fragment is logged as a deserialise error and the second has no '{' at all.
   */
  lemma SplitObjectIsLost(prefix: string, head: string, rest: string)
    requires prefix == "data: " && head == "{\"id\":" && rest == "\"1\"}\n"
    ensures ChunkEvents(IdOneParser, prefix + head + rest) == [1]
    ensures StreamEvents(IdOneParser, [Ok(prefix + head), Ok(rest)]) == []
    ensures StreamDiagnostics(IdOneParser, true, [Ok(prefix + head), Ok(rest)]) == [JsonDeserializeError(head)]
  {
    var body := head + rest[..|rest| - 1];
    assert prefix + head + rest == prefix + body + "\n";
    WholeEventLine(prefix, body);
    FirstFragment(prefix, head);
    NoBraceNoCandidates(rest);
    TwoChunks(IdOneParser, true, prefix + head, rest);
  }

  lemma WholeEventLine(prefix: string, body: string)
    requires prefix == "data: " && body == "{\"id\":\"1\"}"
    ensures ChunkEvents(IdOneParser, prefix + body + "\n") == [1]
  {
    TrailingNewlineIgnored(prefix + body);
    EventLine(prefix, body);
    SingleCandidate(IdOneParser, true, body);
  }

  lemma FirstFragment(prefix: string, head: string)
    requires prefix == "data: " && head == "{\"id\":"
    ensures ChunkEvents(IdOneParser, prefix + head) == []
    ensures ChunkDiagnostics(IdOneParser, true, prefix + head) == [JsonDeserializeError(head)]
  {
    EventLine(prefix, head);
    SingleCandidate(IdOneParser, true, head);
  }

  /** The scenario's lines hand their JSON text, untrimmed, to the parser. */
  lemma EventLine(prefix: string, json: string)
    requires prefix == "data: " && (json == "{\"id\":" || json == "{\"id\":\"1\"}")
    ensures ChunkCandidates(prefix + json) == [json]
  {
    PrefixDropped(prefix, json);
    PunctuationIsNotWhitespace();
    TrimNothingToTrim(json);
  }

  /** One candidate yields its own event or diagnostic. */
  lemma SingleCandidate<E>(parse: string -> Option<E>, alive: bool, c: string)
    ensures Parsed(parse, [c]) == CandidateEvents(parse, c)
    ensures Diagnostics(parse, alive, [c]) == CandidateDiagnostics(parse, alive, c)
    ensures parse(c).Some? && alive ==> Parsed(parse, [c]) == [parse(c).value] && Diagnostics(parse, alive, [c]) == []
    ensures parse(c).Some? && !alive ==> Parsed(parse, [c]) == [parse(c).value] && Diagnostics(parse, alive, [c]) == [SendError]
    ensures parse(c).None? ==> Parsed(parse, [c]) == [] && Diagnostics(parse, alive, [c]) == [JsonDeserializeError(c)]
  {
    assert Parsed(parse, [c]) == CandidateEvents(parse, c) + Parsed(parse, []);
    assert Diagnostics(parse, alive, [c]) == CandidateDiagnostics(parse, alive, c) + Diagnostics(parse, alive, []);
  }

  /** The diagnostics other than send errors, in order. */
  function WithoutSendErrors(ds: seq<Diagnostic>): (r: seq<Diagnostic>)
    ensures |r| <= |ds|
    ensures forall d :: d in r <==> d in ds && !d.SendError?
  {
    if |ds| == 0 then []
    else (if ds[0].SendError? then [] else [ds[0]]) + WithoutSendErrors(ds[1..])
  }

  /** The number of send errors. */
  function SendErrorCount(ds: seq<Diagnostic>): (n: nat)
    ensures n + |WithoutSendErrors(ds)| == |ds|
  {
    if |ds| == 0 then 0
    else (if ds[0].SendError? then 1 else 0) + SendErrorCount(ds[1..])
  }

  lemma {:induction false} WithoutSendErrorsAppend(a: seq<Diagnostic>, b: seq<Diagnostic>)
    ensures WithoutSendErrors(a + b) == WithoutSendErrors(a) + WithoutSendErrors(b)
  {
    if |a| > 0 {
      assert (a + b)[1..] == a[1..] + b;
      WithoutSendErrorsAppend(a[1..], b);
      Seqs.ConcatAssoc(if a[0].SendError? then [] else [a[0]], WithoutSendErrors(a[1..]), WithoutSendErrors(b));
    } else {
      assert a + b == b;
    }
  }

  lemma {:induction false} SendErrorCountAppend(a: seq<Diagnostic>, b: seq<Diagnostic>)
    ensures SendErrorCount(a + b) == SendErrorCount(a) + SendErrorCount(b)
  {
    if |a| > 0 {
      assert (a + b)[1..] == a[1..] + b;
      SendErrorCountAppend(a[1..], b);
    } else {
      assert a + b == b;
    }
  }

  /**
   * With the receiver gone the candidates yield the same diagnostics as with it
   * alive, plus one send error for each event that would have been delivered.
   */
  lemma {:induction false} CandidatesReceiverDropped<E>(parse: string -> Option<E>, cs: seq<string>)
    ensures WithoutSendErrors(Diagnostics(parse, false, cs)) == Diagnostics(parse, true, cs)
    ensures SendErrorCount(Diagnostics(parse, false, cs)) == |Parsed(parse, cs)|
  {
    if |cs| > 0 {
      CandidatesReceiverDropped(parse, cs[1..]);
      WithoutSendErrorsAppend(CandidateDiagnostics(parse, false, cs[0]), Diagnostics(parse, false, cs[1..]));
      SendErrorCountAppend(CandidateDiagnostics(parse, false, cs[0]), Diagnostics(parse, false, cs[1..]));
    }
  }

  /**
   * Dropping the receiver stops delivery, not decoding: every event that would
   * have been delivered becomes a send error, one diagnostic per event.
   */
  lemma {:induction false} DroppedReceiverStillDecodes<E>(parse: string -> Option<E>, chunks: seq<ChunkResult>)
    ensures WithoutSendErrors(StreamDiagnostics(parse, false, chunks)) == StreamDiagnostics(parse, true, chunks)
    ensures SendErrorCount(StreamDiagnostics(parse, false, chunks)) == |StreamEvents(parse, chunks)|
    ensures |StreamDiagnostics(parse, false, chunks)|
         == |StreamEvents(parse, chunks)| + |StreamDiagnostics(parse, true, chunks)|
  {
    if |chunks| > 0 {
      DroppedReceiverStillDecodes(parse, chunks[1..]);
      WithoutSendErrorsAppend(ItemDiagnostics(parse, false, chunks[0]), StreamDiagnostics(parse, false, chunks[1..]));
      SendErrorCountAppend(ItemDiagnostics(parse, false, chunks[0]), StreamDiagnostics(parse, false, chunks[1..]));
      match chunks[0]
      case Ok(text) =>
        CandidatesReceiverDropped(parse, ChunkCandidates(text));
      case Err(e) =>
        assert WithoutSendErrors([ChunkError(e)]) == [ChunkError(e)];
    }
  }
}
