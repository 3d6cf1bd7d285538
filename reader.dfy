/**
 * The generator behind one scan: a pull-based reader over the token ids of
 * the cleaned text. Each pull runs the loop to its next yield, checking the
 * abort flag before every window, and every run that acquired the tokenizer
 * frees it exactly once on its way out.
 */
module ChunkReader {
  import opened ScannerConfig
  import opened Windowing
  import opened TextCleanup

  /** Where the generator stands between pulls. */
  datatype Phase = NotStarted | AtYield | Done

  /** What one pull hands the consumer. */
  datatype Pull =
    | Chunk(window: Window, ids: seq<int>)   // the next window and its token ids
    | End                                    // the sequence is over
    | Failed                                 // a tokenizer call threw; the error reaches the consumer

  class Reader {
    const tokensPerPage: nat
    const stride: nat
    /** The ids the tokenizer's encode returns for the cleaned text. */
    const tokenIds: seq<int>

    var phase: Phase
    /** The loop index: the start of the window last yielded. */
    var i: nat
    /** Set by the abort handler, or already set on the signal at entry. */
    var aborted: bool
    /** Whether the tokenizer was obtained. */
    var acquired: bool
    /** How many times the tokenizer was freed. */
    var frees: nat
    /** The windows yielded so far, in order. */
    var emitted: seq<Window>

    /** Every window of this scan, as the loop would produce them without abort. */
    ghost function Full(): seq<Window>
      requires 0 < stride
    {
      Schedule(|tokenIds|, tokensPerPage, stride)
    }

    ghost predicate Valid()
      reads this
    {
      && 0 < tokensPerPage && 0 < stride
      && |emitted| <= |Full()| && emitted == Full()[..|emitted|]
      && frees <= 1
      && (phase == NotStarted ==> !acquired && emitted == [] && frees == 0)
      && (phase == AtYield ==>
            acquired && frees == 0 && |emitted| > 0 && emitted[|emitted| - 1].start == i)
      && (phase == Done ==> frees == (if acquired then 1 else 0))
    }

    /** Pulls left before the reader is done, at most. */
    ghost function Measure(): nat
      reads this
      requires Valid()
    {
      match phase
      case NotStarted => |Full()| + 2
      case AtYield => |Full()| - |emitted| + 1
      case Done => 0
    }

    /**
     * scan(text): the scanner's settings and the ids the model's tokenizer
     * gives the cleaned text; nothing runs yet.
     */
    constructor (scanner: Scanner, text: string, encode: string -> seq<int>)
      requires scanner.Valid()
      ensures Valid()
      ensures tokensPerPage == scanner.tokensPerPage && stride == scanner.Stride()
      ensures tokenIds == encode(Cleanup(text))
      ensures phase == NotStarted && !aborted && !acquired && frees == 0 && emitted == []
    {
      tokensPerPage := scanner.tokensPerPage;
      stride := scanner.Stride();
      // The source encodes on the first pull; encode is a pure parameter, so doing it here is the same.
      tokenIds := encode(Cleanup(text));
      phase := NotStarted;
      i := 0;
      aborted := false;
      acquired := false;
      frees := 0;
      emitted := [];
    }

    /** The signal is aborted; the reader sees it at its next check. */
    method Abort()
      requires Valid()
      modifies this`aborted
      ensures Valid() && aborted
    {
      aborted := true;
    }

    /**
     * One pull: run the generator up to its next yield or its end.
     * `tokenizerFails` says whether the first tokenizer call this pull makes
     * (encode on the first pull, decode of the next window) throws.
     */
    method Next(tokenizerFails: bool) returns (r: Pull)
      requires Valid()
      modifies this
      ensures Valid()
      ensures aborted == old(aborted) && (old(acquired) ==> acquired)
      ensures emitted == old(emitted) + (if r.Chunk? then [r.window] else [])
      ensures r.Chunk? ==>
        && phase == AtYield
        && r.window == Full()[|old(emitted)|]
        && r.window.start < r.window.end <= |tokenIds|
        && r.window.end - r.window.start <= tokensPerPage
        && r.ids == tokenIds[r.window.start..r.window.end]
      ensures !r.Chunk? ==> phase == Done
      // an aborted reader ends normally, without another tokenizer call
      ensures old(aborted) ==> r == End
      // aborted on entry: the tokenizer is never obtained
      ensures old(phase) == NotStarted && old(aborted) ==> !acquired
      ensures old(phase) == NotStarted && !old(aborted) ==> acquired
      ensures r.Failed? ==> tokenizerFails && old(phase) != Done
      // the first pull of a run that is not aborted always calls encode
      ensures old(phase) == NotStarted && !old(aborted) ==> (r.Failed? <==> tokenizerFails)
      // a later pull ends the sequence exactly when no window is left
      ensures old(phase) == AtYield && !old(aborted) ==> (r.End? <==> |old(emitted)| == |Full()|)
      ensures r.Chunk? ==> !tokenizerFails
      // a run that ends without abort or error has yielded every window
      ensures r.End? && old(phase) != Done && !old(aborted) ==> emitted == Full()
      ensures old(phase) == Done ==> r == End && phase == Done && frees == old(frees)
      ensures old(phase) != Done ==> Measure() < old(Measure())
    {
      var n := |tokenIds|;
      match phase
      case Done =>
        r := End;
      case NotStarted =>
        if aborted {
          phase := Done;
          r := End;
          return;
        }
        acquired := true;
        FirstWindow(n, tokensPerPage, stride);
        if tokenizerFails {
          frees := frees + 1;
          phase := Done;
          r := Failed;
        } else if 0 < n {
          i := 0;
          var w := Window(i, Min(i + tokensPerPage, n));
          emitted := emitted + [w];
          phase := AtYield;
          r := Chunk(w, tokenIds[w.start..w.end]);
        } else {
          frees := frees + 1;
          phase := Done;
          r := End;
        }
      case AtYield =>
        var k := |emitted| - 1;
        NextWindow(n, tokensPerPage, stride, k);
        assert emitted[k] == Full()[k];
        if i + tokensPerPage >= n {
          frees := frees + 1;
          phase := Done;
          r := End;
          return;
        }
        i := i + stride;
        if i >= n || aborted {
          frees := frees + 1;
          phase := Done;
          r := End;
        } else if tokenizerFails {
          frees := frees + 1;
          phase := Done;
          r := Failed;
        } else {
          var w := Window(i, Min(i + tokensPerPage, n));
          emitted := emitted + [w];
          r := Chunk(w, tokenIds[w.start..w.end]);
        }
    }

    /**
     * The consumer stops early (the generator's return): a run suspended at
     * a yield runs its cleanup; one not started never obtains the tokenizer.
     */
    method Close()
      requires Valid()
      modifies this
      ensures Valid()
      ensures phase == Done && emitted == old(emitted) && acquired == old(acquired)
      ensures aborted == old(aborted)
      ensures old(phase) == AtYield ==> frees == 1
      ensures old(phase) == Done ==> frees == old(frees)
    {
      if phase == AtYield {
        frees := frees + 1;
      }
      phase := Done;
    }
  }

  /**
   * A consumer that reads the whole sequence with no abort and no tokenizer
   * error: it receives every window of the schedule, in order, and the
   * tokenizer is freed once.
   */
  method Drain(r: Reader) returns (windows: seq<Window>)
    requires r.Valid() && r.phase == NotStarted && !r.aborted
    modifies r
    ensures windows == r.Full() && windows == r.emitted
    ensures r.phase == Done && r.acquired && r.frees == 1
  {
    var p := r.Next(false);
    windows := if p.Chunk? then [p.window] else [];
    while p.Chunk?
      invariant r.Valid() && !r.aborted && r.acquired
      invariant windows == r.emitted
      invariant p.Chunk? ==> r.phase == AtYield
      invariant !p.Chunk? ==> r.phase == Done && r.emitted == r.Full()
      decreases r.Measure()
    {
      p := r.Next(false);
      if p.Chunk? {
        windows := windows + [p.window];
      }
    }
  }

  /** Ten ids in pages of four with an overlap of one: windows at 0, 3 and 6, then one free. */
  method ExampleScan() returns (windows: seq<Window>, frees: nat)
    ensures windows == [Window(0, 4), Window(3, 7), Window(6, 10)]
    ensures frees == 1
  {
    var scanner := Scanner(DefaultEncoding, 4, DefaultModel, 1);
    var r := new Reader(scanner, "text", _ => [0, 1, 2, 3, 4, 5, 6, 7, 8, 9]);
    windows := Drain(r);
    ExamplePageFourOverlapOne();
    frees := r.frees;
  }

  /**
   * A signal aborted before the first pull: nothing is yielded and no
   * tokenizer is obtained, whether or not a tokenizer call would throw.
   */
  method AbortBeforeStart(scanner: Scanner, text: string, encode: string -> seq<int>, tokenizerFails: bool)
    returns (p: Pull, acquired: bool, frees: nat)
    requires scanner.Valid()
    ensures p == End && !acquired && frees == 0
  {
    var r := new Reader(scanner, text, encode);
    r.Abort();
    p := r.Next(tokenizerFails);
    acquired := r.acquired;
    frees := r.frees;
  }

  /**
   * An abort after the first window of a non-empty text: the next pull ends
   * the sequence without calling the tokenizer, and the tokenizer is freed once.
   */
  method AbortAfterFirst(scanner: Scanner, text: string, encode: string -> seq<int>, tokenizerFails: bool)
    returns (first: Pull, second: Pull, frees: nat)
    requires scanner.Valid() && encode(Cleanup(text)) != []
    ensures first.Chunk? && first.window == Window(0, Min(scanner.tokensPerPage, |encode(Cleanup(text))|))
    ensures second == End && frees == 1
  {
    var r := new Reader(scanner, text, encode);
    first := r.Next(false);
    FirstWindow(|r.tokenIds|, r.tokensPerPage, r.stride);
    r.Abort();
    second := r.Next(tokenizerFails);
    frees := r.frees;
  }

  /** The first tokenizer call throws: the error reaches the consumer and the tokenizer is still freed once. */
  method TokenizerErrorFreesOnce(scanner: Scanner, text: string, encode: string -> seq<int>)
    returns (p: Pull, acquired: bool, frees: nat)
    requires scanner.Valid()
    ensures p == Failed && acquired && frees == 1
  {
    var r := new Reader(scanner, text, encode);
    p := r.Next(true);
    acquired := r.acquired;
    frees := r.frees;
  }
}
