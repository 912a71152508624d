/**
 * The ingestion side of the vector store, in both of its copies (the `VDB`
 * methods and the backend's free functions, which agree line for line):
 * sanitising a chunk before it is embedded, storing the chunks of a
 * document under their `u16` numbers, and the chunk-number window of the
 * neighbour query.
 *
 * The embedder and the database are one abstract `backend`: given the
 * sanitised chunk it answers `None` when the row was embedded and stored,
 * or `Some(message)` with the error it raised.  Creating the content record
 * is a parameter too: `contentError` is `Some(message)` when it failed.
 */
module VectorStore {
  import opened Wrappers
  import opened Text
  import opened Chunking

  /** Rust's `u16`. */
  newtype u16 = x: int | 0 <= x < 0x1_0000

  const U16_MAX: int := 0xFFFF

  /** `i as u16` for a `usize` index: keeps the low 16 bits. */
  function AsU16(i: nat): (r: u16)
    ensures i <= U16_MAX ==> r as int == i
    ensures (i - r as int) % 0x1_0000 == 0
  {
    (i % 0x1_0000) as u16
  }

  /** The content record `insert_content` creates; its id is drawn by the database layer. */
  datatype Content = Content(id: string, title: string, text: string)

  /**
   * The stored row, without its embedding vector, metadata and timestamp
   * (floating point and database-generated values).
   */
  datatype VectorIndex = VectorIndex(contentId: string, chunkNumber: u16, contentChunk: string)

  /** The errors `insert_into_vdb` returns: the empty-chunk error, or one from the embedder or the database. */
  datatype InsertError = EmptyChunk | Backend(message: string)

  const EMPTY_CHUNK_MESSAGE: string := "content chunk is empty!"

  /** The error's `to_string()`. */
  function Message(e: InsertError): string {
    match e
    case EmptyChunk => EMPTY_CHUNK_MESSAGE
    case Backend(m) => m
  }

  /** `.chars().filter(|c| c.is_ascii()).collect::<String>()`. */
  function FilterAscii(s: string): (r: string)
    ensures AllAscii(r)
    ensures |r| <= |s|
  {
    if s == [] then []
    else (if IsAscii(s[0]) then [s[0]] else []) + FilterAscii(s[1..])
  }

  /** The filter keeps exactly the ASCII characters. */
  lemma {:induction false} FilterAsciiMembers(s: string, c: char)
    ensures c in FilterAscii(s) <==> c in s && IsAscii(c)
  {
    if s != [] {
      FilterAsciiMembers(s[1..], c);
      assert c in s <==> c == s[0] || c in s[1..];
    }
  }

  /** The filter works on each part of a string on its own: the kept characters stay in order. */
  lemma {:induction false} FilterAsciiAppend(a: string, b: string)
    ensures FilterAscii(a + b) == FilterAscii(a) + FilterAscii(b)
  {
    if a == [] {
      assert a + b == b;
    } else {
      var h := if IsAscii(a[0]) then [a[0]] else [];
      assert (a + b)[0] == a[0] && (a + b)[1..] == a[1..] + b;
      assert FilterAscii(a + b) == h + FilterAscii(a[1..] + b);
      FilterAsciiAppend(a[1..], b);
      Assoc(h, FilterAscii(a[1..]), FilterAscii(b));
    }
  }

  lemma Assoc<T>(x: seq<T>, y: seq<T>, z: seq<T>)
    ensures x + (y + z) == (x + y) + z
  {
  }

  /** One character is kept exactly when it is ASCII. */
  lemma FilterAsciiOne(c: char)
    ensures FilterAscii([c]) == if IsAscii(c) then [c] else []
  {
    assert [c][1..] == [];
  }

  /** An ASCII string passes the filter unchanged. */
  lemma {:induction false} FilterAsciiOfAscii(s: string)
    requires AllAscii(s)
    ensures FilterAscii(s) == s
  {
    if s != [] {
      FilterAsciiOfAscii(s[1..]);
      assert [s[0]] + s[1..] == s;
    }
  }

  /**
   * What `insert_into_vdb` embeds and stores for a chunk: the ASCII
   * characters, then trimmed.  The result is ASCII and has no whitespace
   * at its ends.
   */
  function Sanitize(chunk: string): (r: string)
    ensures AllAscii(r) && Trimmed(r)
    ensures |r| <= |chunk|
  {
    var a := FilterAscii(chunk);
    TrimShape(a);
    TrimStartShape(a);
    TrimEndShape(TrimStart(a));
    assert forall k :: 0 <= k < |Trim(a)| ==> Trim(a)[k] in a;
    Trim(a)
  }

  /** A chunk survives sanitising exactly when it holds an ASCII character that is not whitespace. */
  lemma SanitizeEmpty(chunk: string)
    ensures Sanitize(chunk) == [] <==> forall c :: c in chunk && IsAscii(c) ==> IsWhitespace(c)
  {
    var a := FilterAscii(chunk);
    TrimShape(a);
    forall c ensures c in a <==> c in chunk && IsAscii(c) {
      FilterAsciiMembers(chunk, c);
    }
  }

  /** Sanitising twice changes nothing. */
  lemma SanitizeIdempotent(chunk: string)
    ensures Sanitize(Sanitize(chunk)) == Sanitize(chunk)
  {
    var s := Sanitize(chunk);
    FilterAsciiOfAscii(s);
    TrimOfTrimmed(s);
  }

  /**
   * The filter runs before the trim: whitespace next to a dropped non-ASCII
   * character is trimmed too, which trimming first would have kept.
   */
  lemma FilterBeforeTrim()
    ensures Sanitize("é a") == "a"
    ensures FilterAscii(Trim("é a")) == " a"
  {
    assert FilterAscii("é a") == " a" by {
      assert "é a"[1..] == " a";
      assert " a"[1..] == "a";
      assert "a"[1..] == [];
    }
    assert TrimStart(" a") == "a" by {
      assert " a"[1..] == "a";
    }
    assert TrimEnd("a") == "a";
    assert TrimStart("é a") == "é a";
    assert TrimEnd("é a") == "é a";
  }

  /**
   * `insert_into_vdb`: the chunk is sanitised; an empty result is the
   * empty-chunk error, raised before the backend sees anything; otherwise
   * the sanitised text is embedded and stored under `chunkNumber`.
   */
  function InsertIntoVdb(contentId: string, chunkNumber: u16, chunk: string,
                         backend: string -> Option<string>): (r: Result<VectorIndex, InsertError>)
    ensures r == Err(EmptyChunk) <==> Sanitize(chunk) == []
    ensures r.Ok? <==> Sanitize(chunk) != [] && backend(Sanitize(chunk)).None?
    ensures r.Ok? ==> r.value.contentId == contentId && r.value.chunkNumber == chunkNumber
                      && r.value.contentChunk == Sanitize(chunk) && r.value.contentChunk != []
    ensures Sanitize(chunk) != [] && backend(Sanitize(chunk)).Some? ==>
              r == Err(Backend(backend(Sanitize(chunk)).value))
  {
    var s := Sanitize(chunk);
    if s == [] then Err(EmptyChunk)
    else match backend(s)
      case Some(m) => Err(Backend(m))
      case None => Ok(VectorIndex(contentId, chunkNumber, s))
  }

  /** The empty-chunk check comes first: with an empty sanitised chunk the backend is never consulted. */
  lemma EmptyChunkSkipsBackend(contentId: string, chunkNumber: u16, chunk: string,
                               b1: string -> Option<string>, b2: string -> Option<string>)
    requires Sanitize(chunk) == []
    ensures InsertIntoVdb(contentId, chunkNumber, chunk, b1) == Err(EmptyChunk)
    ensures InsertIntoVdb(contentId, chunkNumber, chunk, b1) == InsertIntoVdb(contentId, chunkNumber, chunk, b2)
  {
  }

  /** `s.contains(t)`. */
  predicate Contains(s: string, t: string)
    decreases |s|
  {
    t <= s || (s != [] && Contains(s[1..], t))
  }

  lemma {:induction false} ContainsSuffix(s: string, t: string, k: nat)
    requires k <= |s| && t <= s[k..]
    ensures Contains(s, t)
    decreases k
  {
    if k > 0 {
      assert s[1..][k - 1..] == s[k..];
      ContainsSuffix(s[1..], t, k - 1);
    }
  }

  /** `Contains(s, t)` holds exactly when `t` occurs in `s` at some position. */
  lemma {:induction false} ContainsAt(s: string, t: string)
    ensures Contains(s, t) <==> exists k :: 0 <= k <= |s| && t <= s[k..]
    decreases |s|
  {
    if Contains(s, t) {
      if t <= s {
        assert t <= s[0..];
      } else {
        ContainsAt(s[1..], t);
        var k :| 0 <= k <= |s[1..]| && t <= s[1..][k..];
        assert s[1..][k..] == s[k + 1..];
      }
    }
    if exists k :: 0 <= k <= |s| && t <= s[k..] {
      var k :| 0 <= k <= |s| && t <= s[k..];
      ContainsSuffix(s, t, k);
    }
  }

  /**
   * `process_content` skips an error silently when its text contains the
   * empty-chunk message, whichever layer raised it.  The empty-chunk error
   * itself is written as its own case (`SkippedIffContains`).
   */
  predicate Skipped(e: InsertError) {
    match e
    case EmptyChunk => true
    case Backend(m) => Contains(m, EMPTY_CHUNK_MESSAGE)
  }

  /** `Skipped` is the source's test: the error's text contains the empty-chunk message. */
  lemma SkippedIffContains(e: InsertError)
    ensures Skipped(e) <==> Contains(Message(e), EMPTY_CHUNK_MESSAGE)
  {
    if e == EmptyChunk {
      assert EMPTY_CHUNK_MESSAGE <= EMPTY_CHUNK_MESSAGE;
    }
  }

  /** The outcome of inserting chunk `i` of `chunks` under number `i as u16`. */
  function Attempt(contentId: string, chunks: seq<string>, backend: string -> Option<string>, i: nat)
    : Result<VectorIndex, InsertError>
    requires i < |chunks|
  {
    InsertIntoVdb(contentId, AsU16(i), chunks[i], backend)
  }

  /** The outcomes of the numbering loop, one per chunk, in chunk order. */
  function Attempts(contentId: string, chunks: seq<string>, backend: string -> Option<string>)
    : (r: seq<Result<VectorIndex, InsertError>>)
    ensures |r| == |chunks|
    ensures forall i :: 0 <= i < |chunks| ==> r[i] == Attempt(contentId, chunks, backend, i)
  {
    seq(|chunks|, i requires 0 <= i < |chunks| => Attempt(contentId, chunks, backend, i))
  }

  /** The rows stored by the first `n` iterations of the numbering loop, given its outcomes. */
  function Stored(outcomes: seq<Result<VectorIndex, InsertError>>, n: nat): (r: seq<VectorIndex>)
    requires n <= |outcomes|
    ensures |r| <= n
  {
    if n == 0 then []
    else
      var a := outcomes[n - 1];
      Stored(outcomes, n - 1) + (if a.Ok? then [a.value] else [])
  }

  /**
   * The error texts (`e.to_string()`) of the first `n` iterations of the
   * numbering loop that were not skipped; each is printed after
   * "unable to insert vector index: ".
   */
  function Reported(outcomes: seq<Result<VectorIndex, InsertError>>, n: nat): (r: seq<string>)
    requires n <= |outcomes|
    ensures |r| <= n
  {
    if n == 0 then []
    else
      var a := outcomes[n - 1];
      Reported(outcomes, n - 1) + (if a.Err? && !Skipped(a.error) then [Message(a.error)] else [])
  }

  /** The number of chunks among the first `n` whose error was skipped. */
  function SkipCount(outcomes: seq<Result<VectorIndex, InsertError>>, n: nat): (r: nat)
    requires n <= |outcomes|
    ensures r <= n
  {
    if n == 0 then 0
    else
      var a := outcomes[n - 1];
      SkipCount(outcomes, n - 1) + (if a.Err? && Skipped(a.error) then 1 else 0)
  }

  /** A row as `insert_into_vdb` stores it: for this content, non-empty, ASCII, trimmed. */
  predicate WellFormedRow(contentId: string, v: VectorIndex) {
    v.contentId == contentId && v.contentChunk != [] && AllAscii(v.contentChunk) && Trimmed(v.contentChunk)
  }

  /** The stored rows are exactly the successful outcomes, each coming from some iteration before `n`. */
  lemma {:induction false} StoredFrom(outcomes: seq<Result<VectorIndex, InsertError>>, n: nat, v: VectorIndex)
    requires n <= |outcomes|
    ensures v in Stored(outcomes, n) <==> exists i :: 0 <= i < n && outcomes[i] == Ok(v)
  {
    if n > 0 {
      StoredFrom(outcomes, n - 1, v);
      if outcomes[n - 1] == Ok(v) {
        assert v in Stored(outcomes, n);
      }
    }
  }

  /** The reported texts are exactly the messages of the errors that were not skipped. */
  lemma {:induction false} ReportedFrom(outcomes: seq<Result<VectorIndex, InsertError>>, n: nat, m: string)
    requires n <= |outcomes|
    ensures m in Reported(outcomes, n) <==>
              exists i :: 0 <= i < n && outcomes[i].Err? && !Skipped(outcomes[i].error) && Message(outcomes[i].error) == m
  {
    if n > 0 {
      ReportedFrom(outcomes, n - 1, m);
      var a := outcomes[n - 1];
      if a.Err? && !Skipped(a.error) && Message(a.error) == m {
        assert m in Reported(outcomes, n);
      }
    }
  }

  /**
   * Every stored row is well formed and comes from one chunk `i`: its text
   * is that chunk sanitised and its number is `i as u16`.
   */
  lemma StoredRows(contentId: string, chunks: seq<string>, backend: string -> Option<string>, v: VectorIndex)
    returns (i: nat)
    requires v in Stored(Attempts(contentId, chunks, backend), |chunks|)
    ensures WellFormedRow(contentId, v)
    ensures i < |chunks| && v.chunkNumber == AsU16(i) && v.contentChunk == Sanitize(chunks[i])
  {
    i := StoredIndex(Attempts(contentId, chunks, backend), |chunks|, v);
    InsertedRow(contentId, AsU16(i), chunks[i], backend, v);
  }

  /** The iteration a stored row comes from. */
  lemma {:induction false} StoredIndex(outcomes: seq<Result<VectorIndex, InsertError>>, n: nat, v: VectorIndex)
    returns (i: nat)
    requires n <= |outcomes| && v in Stored(outcomes, n)
    ensures i < n && outcomes[i] == Ok(v)
  {
    StoredFrom(outcomes, n, v);
    i :| 0 <= i < n && outcomes[i] == Ok(v);
  }

  /** A row `insert_into_vdb` returns is well formed and holds the sanitised chunk under the given number. */
  lemma InsertedRow(contentId: string, chunkNumber: u16, chunk: string, backend: string -> Option<string>, v: VectorIndex)
    requires InsertIntoVdb(contentId, chunkNumber, chunk, backend) == Ok(v)
    ensures WellFormedRow(contentId, v) && v.chunkNumber == chunkNumber && v.contentChunk == Sanitize(chunk)
  {
  }

  /** Chunk `i` is stored when it sanitises to something and the backend accepts it. */
  lemma StoredChunk(contentId: string, chunks: seq<string>, backend: string -> Option<string>, i: nat)
    requires i < |chunks|
    ensures VectorIndex(contentId, AsU16(i), Sanitize(chunks[i])) in Stored(Attempts(contentId, chunks, backend), |chunks|)
        <== Sanitize(chunks[i]) != [] && backend(Sanitize(chunks[i])).None?
  {
    var os := Attempts(contentId, chunks, backend);
    var v := VectorIndex(contentId, AsU16(i), Sanitize(chunks[i]));
    StoredFrom(os, |chunks|, v);
    assert os[i] == Attempt(contentId, chunks, backend, i);
  }

  /**
   * No chunk aborts the loop: each of the first `n` chunks is stored,
   * reported or skipped, exactly one of the three.
   */
  lemma {:induction false} EveryChunkAccounted(outcomes: seq<Result<VectorIndex, InsertError>>, n: nat)
    requires n <= |outcomes|
    ensures |Stored(outcomes, n)| + |Reported(outcomes, n)| + SkipCount(outcomes, n) == n
  {
    if n > 0 {
      EveryChunkAccounted(outcomes, n - 1);
    }
  }

  /** An empty chunk is never reported and leaves a gap in the numbering. */
  lemma NumberingGap(contentId: string, backend: string -> Option<string>)
    requires backend("a").None?
    ensures Stored(Attempts(contentId, [" ", "a"], backend), 2) == [VectorIndex(contentId, 1, "a")]
    ensures Reported(Attempts(contentId, [" ", "a"], backend), 2) == []
  {
    var chunks := [" ", "a"];
    var os := Attempts(contentId, chunks, backend);
    SanitizeEmpty(" ");
    assert os[0] == Err(EmptyChunk);
    assert Sanitize("a") == "a" by {
      FilterAsciiOfAscii("a");
      TrimOfTrimmed("a");
    }
    assert os[1] == Ok(VectorIndex(contentId, 1, "a"));
  }

  /** Chunk numbers repeat after 65536 chunks: chunk 65536 is stored under number 0, as chunk 0 is. */
  lemma NumberingWraps(contentId: string, chunks: seq<string>, backend: string -> Option<string>)
    requires |chunks| > 0x1_0000
    ensures Attempt(contentId, chunks, backend, 0x1_0000).Ok? ==> Attempt(contentId, chunks, backend, 0x1_0000).value.chunkNumber == 0
    ensures Attempt(contentId, chunks, backend, 0).Ok? ==> Attempt(contentId, chunks, backend, 0).value.chunkNumber == 0
  {
  }

  /**
   * `process_content`: creates the content record (its failure is the only
   * error returned), cuts the text into chunks and inserts each chunk under
   * its index, skipping empty-chunk errors and reporting the others.
   *
   * The chunk loop here is `SplitLongChunksFixed`, which ends on every
   * text; where the source's loop ends it leaves the same chunks
   * (`SplitLongChunks` and `LoopTerminates`), and where it does not the
   * source never gets to the insertions (`LoopDiverges`).
   */
  method ProcessContent(contentId: string, title: string, text: string, contentError: Option<string>,
                        backend: string -> Option<string>)
    returns (result: Result<Content, string>, chunks: seq<string>, stored: seq<VectorIndex>, reported: seq<string>)
    ensures contentError.Some? ==> result == Err(contentError.value) && chunks == [] && stored == [] && reported == []
    ensures contentError.None? ==> result == Ok(Content(contentId, title, text))
    ensures contentError.None? ==> chunks == Refined(SplitLines(text)) && AllSettled(chunks)
    ensures contentError.None? && AllFit(SplitLines(text)) ==> AllShort(chunks)
    ensures contentError.None? ==> stored == Stored(Attempts(contentId, chunks, backend), |chunks|)
                                   && reported == Reported(Attempts(contentId, chunks, backend), |chunks|)
  {
    chunks, stored, reported := [], [], [];
    if contentError.Some? {
      result := Err(contentError.value);
      return;
    }
    var lines := SplitLines(text);
    chunks := SplitLongChunksFixed(lines);
    ghost var outcomes := Attempts(contentId, chunks, backend);
    for i := 0 to |chunks|
      invariant stored == Stored(outcomes, i)
      invariant reported == Reported(outcomes, i)
    {
      var res := InsertIntoVdb(contentId, AsU16(i), chunks[i], backend);
      match res {
        case Ok(v) =>
          stored := stored + [v];
        case Err(e) =>
          SkippedIffContains(e);
          if !Contains(Message(e), EMPTY_CHUNK_MESSAGE) {
            reported := reported + [Message(e)];
          }
      }
    }
    result := Ok(Content(contentId, title, text));
  }

  /** The chunk-number range `[start, end]` of the neighbour query. */
  datatype Window = Window(start: u16, end: u16)

  predicate InWindow(w: Window, k: u16) {
    w.start <= k <= w.end
  }

  /**
   * `get_adjacent_chunks`: `start` is `chunk_number - lower` floored at 0,
   * `end` is `chunk_number + upper`; `None` is the `u16` overflow of that
   * sum, which panics in a debug build.
   */
  function AdjacentWindow(chunkNumber: u16, upper: u16, lower: u16): (r: Option<Window>)
    ensures r.None? <==> chunkNumber as int + upper as int > U16_MAX
    ensures r.Some? ==> r.value.start <= chunkNumber <= r.value.end
  {
    var start := if chunkNumber > lower then chunkNumber - lower else 0;
    if chunkNumber as int + upper as int > U16_MAX then None
    else Some(Window(start, chunkNumber + upper))
  }

  /**
   * The window holds exactly the chunk numbers from `lower` below to
   * `upper` above `chunkNumber`.
   */
  lemma WindowMembers(chunkNumber: u16, upper: u16, lower: u16, k: u16)
    requires AdjacentWindow(chunkNumber, upper, lower).Some?
    ensures InWindow(AdjacentWindow(chunkNumber, upper, lower).value, k)
        <==> chunkNumber as int - lower as int <= k as int <= chunkNumber as int + upper as int
  {
  }
}
