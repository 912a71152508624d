/**
 * How `process_content` cuts a document into chunks, in both copies of the
 * vector store (the `VDB` method and the backend's free function share the
 * logic line for line):
 *
 *  1. the text is split on '\n' and exactly-empty lines are dropped;
 *  2. an index loop walks the list; a chunk of more than 1000 UTF-8 bytes is
 *     removed and its '.'-separated pieces, each trimmed, empty ones dropped,
 *     are spliced in at the same position (the index stays put, so the
 *     pieces are looked at next); a shorter chunk is stepped over.
 *
 * Step 2 runs forever as soon as one of the spliced pieces is itself longer
 * than 1000 bytes: such a piece has no '.' and no surrounding whitespace, so
 * splitting it again gives back exactly itself.  `Step` and `Run` model the
 * loop one iteration at a time to state that; `SplitLongChunks` is the loop
 * on the inputs where it ends, and `SplitLongChunksFixed` a variant that
 * steps past the spliced pieces and ends on every input.
 */
module Chunking {
  import opened Text

  /** A chunk longer than this many bytes is split on '.'. */
  const MAX_CHUNK_BYTES: nat := 1000

  predicate Long(c: string) {
    ByteLen(c) > MAX_CHUNK_BYTES
  }

  /** `Vec::retain(|c| !c.is_empty())`: keeps the non-empty strings, in order. */
  function RemoveEmpty(ps: seq<string>): (r: seq<string>)
    ensures |r| <= |ps|
    ensures forall i :: 0 <= i < |r| ==> r[i] != [] && r[i] in ps
  {
    if ps == [] then []
    else (if ps[0] == [] then [] else [ps[0]]) + RemoveEmpty(ps[1..])
  }

  /** `RemoveEmpty` filters each part of a list on its own: order and repeats are kept. */
  lemma {:induction false} RemoveEmptyAppend(a: seq<string>, b: seq<string>)
    ensures RemoveEmpty(a + b) == RemoveEmpty(a) + RemoveEmpty(b)
  {
    if a == [] {
      assert a + b == b;
    } else {
      assert (a + b)[0] == a[0] && (a + b)[1..] == a[1..] + b;
      RemoveEmptyAppend(a[1..], b);
    }
  }

  /** One string is kept exactly when it is non-empty. */
  lemma RemoveEmptyOne(x: string)
    ensures RemoveEmpty([x]) == if x == [] then [] else [x]
  {
  }

  /** `RemoveEmpty` keeps every non-empty string. */
  lemma {:induction false} RemoveEmptyKeeps(ps: seq<string>, x: string)
    requires x in ps && x != []
    ensures x in RemoveEmpty(ps)
  {
    if ps[0] != x {
      RemoveEmptyKeeps(ps[1..], x);
    }
  }

  /**
   * `text.split("\n")` followed by dropping the exactly-empty pieces: every
   * other line is kept, whitespace-only lines included, in text order.
   */
  function SplitLines(text: string): (r: seq<string>)
    ensures forall i :: 0 <= i < |r| ==> r[i] != [] && r[i] in Split(text, '\n')
    ensures forall i :: 0 <= i < |r| ==> '\n' !in r[i]
  {
    SplitPiecesFree(text, '\n');
    RemoveEmpty(Split(text, '\n'))
  }

  /** Every line of the text, empty or not: nothing but the separators is lost. */
  lemma SplitLinesLosesOnlyEmptyLines(text: string)
    ensures Join(Split(text, '\n'), '\n') == text
    ensures forall x :: x in Split(text, '\n') && x != [] ==> x in SplitLines(text)
  {
    JoinSplit(text, '\n');
    forall x | x in Split(text, '\n') && x != [] ensures x in SplitLines(text) {
      RemoveEmptyKeeps(Split(text, '\n'), x);
    }
  }

  /**
   * A piece the '.' split cannot cut any further: non-empty, free of '.',
   * and without whitespace at its ends.
   */
  predicate Unsplittable(p: string) {
    p != [] && '.' !in p && Trimmed(p)
  }

  /** `.map(|c| c.trim()).filter(|c| !c.is_empty())` over the pieces `ps`. */
  function TrimmedPieces(ps: seq<string>): (r: seq<string>)
    ensures |r| <= |ps|
    ensures forall i :: 0 <= i < |r| ==> r[i] != []
  {
    if ps == [] then []
    else
      var t := Trim(ps[0]);
      (if t == [] then [] else [t]) + TrimmedPieces(ps[1..])
  }

  /** `TrimmedPieces` works on each part of a list on its own: order and repeats are kept. */
  lemma {:induction false} TrimmedPiecesAppend(a: seq<string>, b: seq<string>)
    ensures TrimmedPieces(a + b) == TrimmedPieces(a) + TrimmedPieces(b)
  {
    if a == [] {
      assert a + b == b;
    } else {
      assert (a + b)[0] == a[0] && (a + b)[1..] == a[1..] + b;
      TrimmedPiecesAppend(a[1..], b);
    }
  }

  /** One piece is kept, trimmed, exactly when its trim is non-empty. */
  lemma TrimmedPiecesOne(p: string)
    ensures TrimmedPieces([p]) == if Trim(p) == [] then [] else [Trim(p)]
  {
    assert [p][1..] == [];
  }

  /** `chunk.split(".").map(|c| c.trim()).filter(|c| !c.is_empty())`. */
  function DotPieces(c: string): (r: seq<string>)
    ensures |r| <= |Split(c, '.')|
    ensures forall i :: 0 <= i < |r| ==> r[i] != []
  {
    TrimmedPieces(Split(c, '.'))
  }

  // The "every element" predicates are recursive, so that they unfold one
  // element at a time.

  predicate AllUnsplittable(cs: seq<string>) {
    cs == [] || (Unsplittable(cs[0]) && AllUnsplittable(cs[1..]))
  }

  predicate AllShort(cs: seq<string>) {
    cs == [] || (!Long(cs[0]) && AllShort(cs[1..]))
  }

  /** A long chunk splits into short pieces only: the loop can get past it. */
  predicate Fits(c: string) {
    Long(c) ==> AllShort(DotPieces(c))
  }

  predicate AllFit(cs: seq<string>) {
    cs == [] || (Fits(cs[0]) && AllFit(cs[1..]))
  }

  /** A chunk the loop is done with: at most 1000 bytes, or not splittable any further. */
  predicate Settled(x: string) {
    !Long(x) || Unsplittable(x)
  }

  predicate AllSettled(cs: seq<string>) {
    cs == [] || (Settled(cs[0]) && AllSettled(cs[1..]))
  }

  lemma {:induction false} AllUnsplittableAppend(a: seq<string>, b: seq<string>)
    ensures AllUnsplittable(a + b) <==> AllUnsplittable(a) && AllUnsplittable(b)
  {
    if a == [] {
      assert a + b == b;
    } else {
      assert (a + b)[0] == a[0] && (a + b)[1..] == a[1..] + b;
      AllUnsplittableAppend(a[1..], b);
    }
  }

  lemma {:induction false} AllShortAppend(a: seq<string>, b: seq<string>)
    ensures AllShort(a + b) <==> AllShort(a) && AllShort(b)
  {
    if a == [] {
      assert a + b == b;
    } else {
      assert (a + b)[0] == a[0] && (a + b)[1..] == a[1..] + b;
      AllShortAppend(a[1..], b);
    }
  }

  lemma {:induction false} AllFitAppend(a: seq<string>, b: seq<string>)
    ensures AllFit(a + b) <==> AllFit(a) && AllFit(b)
  {
    if a == [] {
      assert a + b == b;
    } else {
      assert (a + b)[0] == a[0] && (a + b)[1..] == a[1..] + b;
      AllFitAppend(a[1..], b);
    }
  }

  lemma {:induction false} AllSettledAppend(a: seq<string>, b: seq<string>)
    ensures AllSettled(a + b) <==> AllSettled(a) && AllSettled(b)
  {
    if a == [] {
      assert a + b == b;
    } else {
      assert (a + b)[0] == a[0] && (a + b)[1..] == a[1..] + b;
      AllSettledAppend(a[1..], b);
    }
  }

  /** The pieces of '.'-free strings, trimmed and non-empty, are unsplittable. */
  lemma {:induction false} TrimmedPiecesUnsplittable(ps: seq<string>)
    requires forall i :: 0 <= i < |ps| ==> '.' !in ps[i]
    ensures AllUnsplittable(TrimmedPieces(ps))
  {
    if ps != [] {
      TrimmedPiecesUnsplittable(ps[1..]);
      var t := Trim(ps[0]);
      var h := if t == [] then [] else [t];
      TrimShape(ps[0]);
      assert AllUnsplittable(h);
      AllUnsplittableAppend(h, TrimmedPieces(ps[1..]));
    }
  }

  /** The pieces of a chunk are non-empty, free of '.', and trimmed. */
  lemma DotPiecesUnsplittable(c: string)
    ensures AllUnsplittable(DotPieces(c))
  {
    SplitPiecesFree(c, '.');
    TrimmedPiecesUnsplittable(Split(c, '.'));
  }

  /** Splitting an unsplittable piece gives back exactly that piece. */
  lemma DotPiecesOfUnsplittable(p: string)
    requires Unsplittable(p)
    ensures DotPieces(p) == [p]
  {
    SplitWithoutSeparator(p, '.');
    TrimOfTrimmed(p);
    assert TrimmedPieces([p]) == [p] + TrimmedPieces([]);
  }

  /** What the loop leaves in place of one chunk of its input. */
  function Expand(c: string): (r: seq<string>)
  {
    if Long(c) then DotPieces(c) else [c]
  }

  /** The chunk list the loop produces: each input chunk replaced by its expansion. */
  function Refined(cs: seq<string>): (r: seq<string>)
  {
    if cs == [] then [] else Expand(cs[0]) + Refined(cs[1..])
  }

  lemma {:induction false} RefinedAppend(a: seq<string>, b: seq<string>)
    ensures Refined(a + b) == Refined(a) + Refined(b)
  {
    if a == [] {
      assert a + b == b;
    } else {
      assert (a + b)[0] == a[0] && (a + b)[1..] == a[1..] + b;
      RefinedAppend(a[1..], b);
    }
  }

  lemma ExpandSettled(c: string)
    ensures AllSettled(Expand(c))
  {
    if Long(c) {
      DotPiecesUnsplittable(c);
      UnsplittableSettled(DotPieces(c));
    }
  }

  lemma {:induction false} UnsplittableSettled(cs: seq<string>)
    requires AllUnsplittable(cs)
    ensures AllSettled(cs)
  {
    if cs != [] {
      UnsplittableSettled(cs[1..]);
    }
  }

  /** Every chunk `Refined` produces is at most 1000 bytes or cannot be split further. */
  lemma {:induction false} RefinedSettled(cs: seq<string>)
    ensures AllSettled(Refined(cs))
  {
    if cs != [] {
      RefinedSettled(cs[1..]);
      ExpandSettled(cs[0]);
      AllSettledAppend(Expand(cs[0]), Refined(cs[1..]));
    }
  }

  /** When every long chunk splits into short pieces, every chunk ends up short. */
  lemma {:induction false} RefinedShort(cs: seq<string>)
    requires AllFit(cs)
    ensures AllShort(Refined(cs))
  {
    if cs != [] {
      RefinedShort(cs[1..]);
      AllShortAppend(Expand(cs[0]), Refined(cs[1..]));
    }
  }

  /** Loop iterations needed to get past `cs`. */
  function StepCount(cs: seq<string>): nat
  {
    if cs == [] then 0
    else (if Long(cs[0]) then 1 + |DotPieces(cs[0])| else 1) + StepCount(cs[1..])
  }

  /** Short chunks pass through `Refined` unchanged. */
  lemma {:induction false} RefinedOfShort(p: seq<string>)
    requires AllShort(p)
    ensures Refined(p) == p
  {
    if p != [] {
      RefinedOfShort(p[1..]);
      assert Expand(p[0]) == [p[0]];
      assert [p[0]] + p[1..] == p;
    }
  }

  lemma RefinedShortPrefix(p: seq<string>, rest: seq<string>)
    requires AllShort(p)
    ensures Refined(p + rest) == p + Refined(rest)
  {
    RefinedAppend(p, rest);
    RefinedOfShort(p);
  }

  /** Short chunks cost one iteration each. */
  lemma {:induction false} StepCountShortPrefix(p: seq<string>, rest: seq<string>)
    requires AllShort(p)
    ensures StepCount(p + rest) == |p| + StepCount(rest)
  {
    if p == [] {
      assert p + rest == rest;
    } else {
      assert (p + rest)[0] == p[0] && (p + rest)[1..] == p[1..] + rest;
      StepCountShortPrefix(p[1..], rest);
    }
  }

  lemma {:induction false} ShortFit(p: seq<string>)
    requires AllShort(p)
    ensures AllFit(p)
  {
    if p != [] {
      ShortFit(p[1..]);
    }
  }

  // ---------------------------------------------------------------------
  // The loop, one iteration at a time

  /** The loop's variables: the chunk list and `index`. */
  datatype LoopState = LoopState(chunks: seq<string>, index: nat)

  /** The loop guard `index < chunks.len()` is false. */
  predicate Exited(st: LoopState) {
    st.index >= |st.chunks|
  }

  /** One iteration of the loop body. */
  function Step(st: LoopState): (r: LoopState)
    requires !Exited(st)
  {
    var c := st.chunks[st.index];
    if Long(c) then
      LoopState(st.chunks[..st.index] + DotPieces(c) + st.chunks[st.index + 1..], st.index)
    else
      LoopState(st.chunks, st.index + 1)
  }

  /** The state after `n` iterations, or at exit if the loop ends earlier. */
  function Run(st: LoopState, n: nat): LoopState
    decreases n
  {
    if n == 0 || Exited(st) then st else Run(Step(st), n - 1)
  }

  /** A state the loop never leaves. */
  predicate Stuck(st: LoopState) {
    !Exited(st) && Step(st) == st
  }

  lemma {:induction false} RunAdd(st: LoopState, a: nat, b: nat)
    ensures Run(st, a + b) == Run(Run(st, a), b)
    decreases a
  {
    if a != 0 && !Exited(st) {
      RunAdd(Step(st), a - 1, b);
    } else if a != 0 {
      assert Run(st, a) == st;
      assert Run(st, b) == st && Run(st, a + b) == st;
    }
  }

  /** Once stuck, the loop stays in the same state for ever. */
  lemma {:induction false} StuckForever(st: LoopState, n: nat)
    requires Stuck(st)
    ensures !Exited(Run(st, n)) && Run(st, n) == st
  {
    if n > 0 {
      StuckForever(st, n - 1);
    }
  }

  /** The iteration at a short chunk only moves the index. */
  lemma StepShort(pre: seq<string>, c: string, rest: seq<string>)
    requires !Long(c)
    ensures Step(LoopState(pre + [c] + rest, |pre|)) == LoopState(pre + [c] + rest, |pre| + 1)
  {
    assert (pre + [c] + rest)[|pre|] == c;
  }

  /** The iteration at a long chunk splices its pieces in and keeps the index. */
  lemma StepLong(pre: seq<string>, c: string, rest: seq<string>)
    requires Long(c)
    ensures Step(LoopState(pre + [c] + rest, |pre|)) == LoopState(pre + DotPieces(c) + rest, |pre|)
  {
    var chunks := pre + [c] + rest;
    assert chunks[|pre|] == c;
    assert chunks[..|pre|] == pre && chunks[|pre| + 1..] == rest;
  }

  /** The loop steps over short chunks one per iteration. */
  lemma {:induction false} RunOverShort(pre: seq<string>, p: seq<string>, rest: seq<string>, m: nat)
    requires AllShort(p)
    ensures Run(LoopState(pre + p + rest, |pre|), |p| + m)
         == Run(LoopState(pre + p + rest, |pre| + |p|), m)
    decreases |p|
  {
    if p != [] {
      ConsSplit(pre, p, rest);
      RunHeadShort(pre, p[0], p[1..] + rest, |p| - 1 + m);
      Regroup(pre, [p[0]], p[1..], rest);
      RunOverShort(pre + [p[0]], p[1..], rest, m);
    } else {
      assert pre + p + rest == pre + rest;
    }
  }

  /** A short chunk costs one iteration. */
  lemma RunHeadShort(pre: seq<string>, c: string, rest: seq<string>, m: nat)
    requires !Long(c)
    ensures Run(LoopState(pre + [c] + rest, |pre|), 1 + m)
         == Run(LoopState(pre + [c] + rest, |pre| + 1), m)
  {
    StepShort(pre, c, rest);
  }

  /** A long chunk with short pieces costs one split and one iteration per piece. */
  lemma RunHeadLong(pre: seq<string>, c: string, rest: seq<string>, m: nat)
    requires Long(c) && AllShort(DotPieces(c))
    ensures Run(LoopState(pre + [c] + rest, |pre|), 1 + |DotPieces(c)| + m)
         == Run(LoopState(pre + DotPieces(c) + rest, |pre| + |DotPieces(c)|), m)
  {
    var ps := DotPieces(c);
    StepLong(pre, c, rest);
    RunAfterSplice(LoopState(pre + [c] + rest, |pre|), pre, ps, rest, m);
  }

  /** An iteration that splices in short pieces, followed by one iteration per piece. */
  lemma RunAfterSplice(st: LoopState, pre: seq<string>, ps: seq<string>, rest: seq<string>, m: nat)
    requires !Exited(st) && Step(st) == LoopState(pre + ps + rest, |pre|) && AllShort(ps)
    ensures Run(st, 1 + |ps| + m) == Run(LoopState(pre + ps + rest, |pre| + |ps|), m)
  {
    RunOverShort(pre, ps, rest, m);
  }

  lemma StepCountOne(c: string)
    ensures StepCount([c]) == if Long(c) then 1 + |DotPieces(c)| else 1
  {
    assert [c][1..] == [];
  }

  /** A chunk that fits costs `StepCount([c])` iterations and leaves `Expand(c)` behind. */
  lemma RunHead(pre: seq<string>, c: string, rest: seq<string>, m: nat)
    requires Fits(c)
    ensures Run(LoopState(pre + [c] + rest, |pre|), StepCount([c]) + m)
         == Run(LoopState(pre + Expand(c) + rest, |pre| + |Expand(c)|), m)
  {
    StepCountOne(c);
    if Long(c) {
      assert Expand(c) == DotPieces(c);
      RunHeadLong(pre, c, rest, m);
    } else {
      assert Expand(c) == [c];
      RunHeadShort(pre, c, rest, m);
    }
  }

  /**
   * When every long chunk of `cs` splits into short pieces, the loop gets
   * past `cs` in `StepCount(cs)` iterations and leaves `Refined(cs)` behind.
   */
  lemma {:induction false} RunOver(pre: seq<string>, cs: seq<string>, post: seq<string>)
    requires AllFit(cs)
    ensures Run(LoopState(pre + cs + post, |pre|), StepCount(cs))
         == LoopState(pre + Refined(cs) + post, |pre| + |Refined(cs)|)
    decreases |cs|
  {
    if cs != [] {
      var c, tail := cs[0], cs[1..];
      var e := Expand(c);
      var start := LoopState(pre + cs + post, |pre|);
      var mid := LoopState((pre + e) + tail + post, |pre + e|);
      StepCountHead(cs);
      RunHeadAt(pre, cs, post, StepCount(tail));
      assert Run(start, StepCount(cs)) == Run(mid, StepCount(tail));
      RunOver(pre + e, tail, post);
      RefinedHead(cs);
      Regroup(pre, e, Refined(tail), post);
    } else {
      assert pre + cs + post == pre + post;
    }
  }

  /** `RunHead` for the first chunk of `cs`, with the rest regrouped. */
  lemma RunHeadAt(pre: seq<string>, cs: seq<string>, post: seq<string>, m: nat)
    requires cs != [] && Fits(cs[0])
    ensures Run(LoopState(pre + cs + post, |pre|), StepCount([cs[0]]) + m)
         == Run(LoopState((pre + Expand(cs[0])) + cs[1..] + post, |pre + Expand(cs[0])|), m)
  {
    ConsSplit(pre, cs, post);
    RunHead(pre, cs[0], cs[1..] + post, m);
    Regroup(pre, Expand(cs[0]), cs[1..], post);
  }

  lemma StepCountHead(cs: seq<string>)
    requires cs != []
    ensures StepCount(cs) == StepCount([cs[0]]) + StepCount(cs[1..])
  {
    assert [cs[0]][1..] == [];
  }

  lemma RefinedHead(cs: seq<string>)
    requires cs != []
    ensures Refined(cs) == Expand(cs[0]) + Refined(cs[1..])
  {
  }

  lemma ConsSplit<T>(pre: seq<T>, cs: seq<T>, post: seq<T>)
    requires cs != []
    ensures pre + cs + post == pre + [cs[0]] + (cs[1..] + post)
  {
    assert cs == [cs[0]] + cs[1..];
  }

  lemma Regroup<T>(a: seq<T>, b: seq<T>, c: seq<T>, d: seq<T>)
    ensures a + b + (c + d) == (a + b) + c + d
    ensures a + (b + c) + d == (a + b) + c + d
    ensures |a + b| == |a| + |b|
  {
  }

  /** The loop started on `cs` ends, leaving `Refined(cs)`, when every chunk fits. */
  lemma LoopTerminates(cs: seq<string>)
    requires AllFit(cs)
    ensures var st := Run(LoopState(cs, 0), StepCount(cs));
            Exited(st) && st.chunks == Refined(cs)
  {
    RunOver([], cs, []);
    Unpadded(cs);
    Unpadded(Refined(cs));
  }

  lemma Unpadded<T>(s: seq<T>)
    ensures [] + s + [] == s && |[] + s + []| == |s|
  {
  }

  /** Some element is long. */
  predicate SomeLong(cs: seq<string>) {
    cs != [] && (Long(cs[0]) || SomeLong(cs[1..]))
  }

  /** Among unsplittable pieces, the loop gets stuck on the first long one. */
  lemma {:induction false} StuckInPieces(pre: seq<string>, p: seq<string>, rest: seq<string>)
    requires AllUnsplittable(p) && SomeLong(p)
    ensures exists n: nat :: Stuck(Run(LoopState(pre + p + rest, |pre|), n))
    decreases |p|
  {
    var chunks := pre + p + rest;
    assert chunks == pre + [p[0]] + (p[1..] + rest);
    if Long(p[0]) {
      DotPiecesOfUnsplittable(p[0]);
      StepLong(pre, p[0], p[1..] + rest);
      assert Stuck(Run(LoopState(chunks, |pre|), 0));
    } else {
      StepShort(pre, p[0], p[1..] + rest);
      assert chunks == (pre + [p[0]]) + p[1..] + rest;
      StuckInPieces(pre + [p[0]], p[1..], rest);
      var n: nat :| Stuck(Run(LoopState(chunks, |pre| + 1), n));
      assert Run(LoopState(chunks, |pre|), n + 1) == Run(LoopState(chunks, |pre| + 1), n);
    }
  }

  lemma {:induction false} NotShortSomeLong(cs: seq<string>)
    requires !AllShort(cs)
    ensures SomeLong(cs)
  {
    if !Long(cs[0]) {
      NotShortSomeLong(cs[1..]);
    }
  }

  /** When some chunk of `cs` does not fit, the loop reaches a state it never leaves. */
  lemma {:induction false} DivergesOver(pre: seq<string>, cs: seq<string>, post: seq<string>)
    requires !AllFit(cs)
    ensures exists n: nat :: Stuck(Run(LoopState(pre + cs + post, |pre|), n))
    decreases |cs|
  {
    var c, tail := cs[0], cs[1..];
    if Fits(c) {
      var e := Expand(c);
      assert !AllFit(tail);
      DivergesOver(pre + e, tail, post);
      var n: nat :| Stuck(Run(LoopState((pre + e) + tail + post, |pre + e|), n));
      RunHeadAt(pre, cs, post, n);
    } else {
      var st := LoopState(pre + cs + post, |pre|);
      ConsSplit(pre, cs, post);
      var ps := DotPieces(c);
      StepLong(pre, c, tail + post);
      DotPiecesUnsplittable(c);
      NotShortSomeLong(ps);
      StuckInPieces(pre, ps, tail + post);
      var n: nat :| Stuck(Run(LoopState(pre + ps + (tail + post), |pre|), n));
      assert Run(st, n + 1) == Run(Step(st), n);
    }
  }

  /**
   * The loop never ends on a chunk list where some long chunk has a piece
   * that is still long: it reaches a state that one more iteration maps to
   * itself.  With `LoopTerminates`: the loop ends exactly when every chunk
   * fits.
   */
  lemma LoopDiverges(cs: seq<string>)
    requires !AllFit(cs)
    ensures exists n: nat :: Stuck(Run(LoopState(cs, 0), n))
  {
    DivergesOver([], cs, []);
    assert [] + cs + [] == cs;
  }

  // ---------------------------------------------------------------------
  // The loop as the source writes it, and a variant that always ends

  /**
   * The `while index < chunks.len()` loop of `process_content`, on the
   * inputs where it ends: the result is `Refined(lines)` and every chunk is
   * at most 1000 bytes.
   */
  method SplitLongChunks(lines: seq<string>) returns (chunks: seq<string>)
    requires AllFit(lines)
    ensures chunks == Refined(lines)
    ensures AllShort(chunks)
  {
    chunks := lines;
    var index: nat := 0;
    while index < |chunks|
      invariant index <= |chunks|
      invariant chunks[..index] + Refined(chunks[index..]) == Refined(lines)
      invariant AllShort(chunks[..index])
      invariant AllFit(chunks[index..])
      decreases StepCount(chunks[index..])
    {
      var c := chunks[index];
      ghost var prefix, rest := chunks[..index], chunks[index + 1..];
      Around(chunks, index);
      if Long(c) {
        var splitChunks := DotPieces(c);
        chunks := chunks[..index] + chunks[index + 1..];              // chunks.remove(index)
        Cut(prefix, [], rest);
        chunks := chunks[..index] + splitChunks + chunks[index..];   // chunks.splice(index..index, ..)
        Cut(prefix, splitChunks, rest);
        SpliceKeeps(c, rest);
      } else {
        index := index + 1;
        Cut(prefix + [c], [], rest);
        ShortKeeps(prefix, c, rest);
      }
    }
    assert chunks[..index] == chunks;
  }

  /** The views of `s` on either side of position `i`. */
  lemma Around<T>(s: seq<T>, i: nat)
    requires i < |s|
    ensures s == s[..i] + [s[i]] + s[i + 1..]
    ensures s[i..] == [s[i]] + s[i + 1..]
  {
  }

  /** Slicing `a + m + b` at `|a|`. */
  lemma Cut<T>(a: seq<T>, m: seq<T>, b: seq<T>)
    ensures (a + m + b)[..|a|] == a && (a + m + b)[|a|..] == m + b
    ensures |a + m + b| == |a| + |m| + |b|
    ensures a + [] + b == a + b
  {
  }

  /** Splicing the pieces of a long chunk in keeps the loop invariant and consumes iterations. */
  lemma SpliceKeeps(c: string, rest: seq<string>)
    requires Long(c) && AllFit([c] + rest)
    ensures Refined(DotPieces(c) + rest) == Refined([c] + rest)
    ensures StepCount(DotPieces(c) + rest) < StepCount([c] + rest)
    ensures AllFit(DotPieces(c) + rest)
  {
    var ps := DotPieces(c);
    AllFitAppend([c], rest);
    assert ([c] + rest)[0] == c && ([c] + rest)[1..] == rest;
    RefinedShortPrefix(ps, rest);
    StepCountShortPrefix(ps, rest);
    ShortFit(ps);
    AllFitAppend(ps, rest);
  }

  /** Moving the index past the expansion of `c` keeps the loop invariant. */
  lemma Advance(prefix: seq<string>, c: string, rest: seq<string>)
    ensures (prefix + Expand(c)) + Refined(rest) == prefix + Refined([c] + rest)
  {
    assert ([c] + rest)[0] == c && ([c] + rest)[1..] == rest;
    assert Refined([c] + rest) == Expand(c) + Refined(rest);
  }

  /** Stepping over a short chunk keeps the loop invariant and consumes one iteration. */
  lemma ShortKeeps(prefix: seq<string>, c: string, rest: seq<string>)
    requires !Long(c) && AllShort(prefix) && AllFit([c] + rest)
    ensures prefix + Refined([c] + rest) == (prefix + [c]) + Refined(rest)
    ensures StepCount(rest) < StepCount([c] + rest)
    ensures AllShort(prefix + [c]) && AllFit(rest)
  {
    assert ([c] + rest)[0] == c && ([c] + rest)[1..] == rest;
    Advance(prefix, c, rest);
    AllShortAppend(prefix, [c]);
  }

  /**
   * The same loop, except that the index moves past the spliced pieces: it
   * ends on every input with `Refined(lines)`, which is what the source's
   * loop computes whenever it ends.
   */
  method SplitLongChunksFixed(lines: seq<string>) returns (chunks: seq<string>)
    ensures chunks == Refined(lines)
    ensures AllSettled(chunks)
    ensures AllFit(lines) ==> AllShort(chunks)
  {
    chunks := lines;
    var index: nat := 0;
    while index < |chunks|
      invariant index <= |chunks|
      invariant chunks[..index] + Refined(chunks[index..]) == Refined(lines)
      decreases |chunks| - index
    {
      var c := chunks[index];
      ghost var prefix, rest := chunks[..index], chunks[index + 1..];
      Around(chunks, index);
      Advance(prefix, c, rest);
      if Long(c) {
        var splitChunks := DotPieces(c);
        chunks := chunks[..index] + chunks[index + 1..];
        Cut(prefix, [], rest);
        chunks := chunks[..index] + splitChunks + chunks[index..];
        index := index + |splitChunks|;
        Cut(prefix + splitChunks, [], rest);
      } else {
        index := index + 1;
        Cut(prefix + [c], [], rest);
      }
    }
    assert chunks[..index] == chunks;
    RefinedSettled(lines);
    if AllFit(lines) {
      RefinedShort(lines);
    }
  }
}
