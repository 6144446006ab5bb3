/** The middle of `Build`: replacing the image's history by one empty-layer
    entry per artifact line, newest first. */
module History {
  import Poem

  /** `time.Second`, in nanoseconds. */
  const Second: int := 1_000_000_000

  /** One `specs.History` record as `Build` fills it: `CreatedBy`, `Created`
      (nanoseconds since the epoch; never nil here) and `EmptyLayer`. */
  datatype HistoryEntry = HistoryEntry(createdBy: string, created: int, emptyLayer: bool)

  /** A decoded `specs.Image`: its history and, in `rest`, everything else. */
  datatype Image<R> = Image(rest: R, history: seq<HistoryEntry>)

  /** `s` back to front. */
  function Reversed<T>(s: seq<T>): seq<T>
  {
    seq(|s|, i requires 0 <= i < |s| => s[|s| - 1 - i])
  }

  /** `slices.Reverse`: swaps from both ends towards the middle. */
  method ReverseInPlace<T>(a: array<T>)
    modifies a
    ensures a[..] == Reversed(old(a[..]))
  {
    var i, j := 0, a.Length - 1;
    while i < j
      invariant 0 <= i <= j + 1 <= a.Length && j == a.Length - 1 - i
      invariant forall k | 0 <= k < i :: a[k] == old(a[a.Length - 1 - k]) && a[a.Length - 1 - k] == old(a[k])
      invariant forall k | i <= k <= j :: a[k] == old(a[k])
    {
      a[i], a[j] := a[j], a[i];
      i, j := i + 1, j - 1;
    }
    assert forall k | 0 <= k < a.Length :: a[k] == old(a[a.Length - 1 - k]);
  }

  /** The image after `Build` rewrites its history from `lines`: everything but
      the history is kept, the old history is gone, and entry `i` is an empty
      layer labelled with the `i`-th line from the END, stamped `i` seconds
      before `now`. */
  function Synthesized<R>(image: Image<R>, lines: seq<string>, now: int): (r: Image<R>)
    ensures r.rest == image.rest
    ensures |r.history| == |lines|
    ensures forall i | 0 <= i < |lines| ::
      r.history[i] == HistoryEntry(lines[|lines| - 1 - i], now - i * Second, true)
  {
    var reversed := Reversed(lines);
    image.(history := seq(|reversed|, i requires 0 <= i < |reversed| =>
                          HistoryEntry(reversed[i], now - i * Second, true)))
  }

  /** Lines 71-81 of `Build`: clear the history, reverse the lines in place,
      then append one entry per reversed line. */
  method SynthesizeHistory<R>(image: Image<R>, lines: array<string>, now: int) returns (updated: Image<R>)
    modifies lines
    ensures lines[..] == Reversed(old(lines[..]))
    ensures updated == Synthesized(image, old(lines[..]), now)
  {
    updated := image.(history := []);
    ReverseInPlace(lines);
    for ix := 0 to lines.Length
      invariant updated.rest == image.rest
      invariant |updated.history| == ix
      invariant forall i | 0 <= i < ix :: updated.history[i] == HistoryEntry(lines[i], now - i * Second, true)
    {
      updated := updated.(history := updated.history + [HistoryEntry(lines[ix], now - ix * Second, true)]);
    }
    ghost var expected := Synthesized(image, old(lines[..]), now);
    assert updated.history == expected.history;
  }

  /** Timestamps strictly decrease along the history. */
  lemma TimestampsDecrease<R>(image: Image<R>, lines: seq<string>, now: int)
    ensures var h := Synthesized(image, lines, now).history;
      forall i, j | 0 <= i < j < |h| :: h[i].created > h[j].created
  {
  }

  /** The last content line is the newest entry, stamped `now`; the first
      content line is the oldest. */
  lemma NewestIsLastLine<R>(image: Image<R>, lines: seq<string>, now: int)
    requires |lines| > 0
    ensures var h := Synthesized(image, lines, now).history;
      && h[0] == HistoryEntry(lines[|lines| - 1], now, true)
      && h[|h| - 1] == HistoryEntry(lines[0], now - (|lines| - 1) * Second, true)
  {
  }

  /** Nothing of the previous history leaks into the new one. */
  lemma PriorHistoryDiscarded<R>(image: Image<R>, other: seq<HistoryEntry>, lines: seq<string>, now: int)
    ensures Synthesized(image, lines, now) == Synthesized(image.(history := other), lines, now)
  {
  }

  /** From artifact content to history: one entry per newline in the content,
      with the labels of the lines after the header in reverse order. */
  lemma ArtifactHistory<R>(image: Image<R>, header: string, lines: seq<string>, now: int)
    requires '\n' !in header
    requires forall l | l in lines :: '\n' !in l
    ensures var h := Synthesized(image, Poem.PoemLines(Poem.Join([header] + lines, '\n')), now).history;
      && |h| == |lines|
      && forall i | 0 <= i < |h| :: h[i].createdBy == lines[|lines| - 1 - i] && h[i].emptyLayer
  {
    Poem.PoemRoundTrip(header, lines);
  }
}
