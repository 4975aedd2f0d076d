/** The runs of the unit tests: the general facts they check of any run,
    and two distinct pages on three frames. */
module Scenarios {
  import opened FrameTable
  import Lru
  import Belady

  /** Overwriting the first slot that holds `victim`, where that slot is known. */
  lemma ReplaceAt(frames: seq<int>, victim: int, page: int, i: nat)
    requires i < |frames| && frames[i] == victim && forall j :: 0 <= j < i ==> frames[j] != victim
    ensures Replace(frames, victim, page) == frames[i := page]
  {
    var m := IndexOf(frames, victim).value;
    assert !(m < i) && !(i < m);
  }

  /** Two distinct pages fill the two lowest slots in turn. */
  lemma FillTwo(a: int, b: int)
    requires a != EMPTY && b != EMPTY && a != b
    ensures EmptyFrames(3) == [EMPTY, EMPTY, EMPTY]
    ensures Replace([EMPTY, EMPTY, EMPTY], EMPTY, a) == [a, EMPTY, EMPTY]
    ensures Replace([a, EMPTY, EMPTY], EMPTY, b) == [a, b, EMPTY]
  {
    ReplaceAt([EMPTY, EMPTY, EMPTY], EMPTY, a, 0);
    ReplaceAt([a, EMPTY, EMPTY], EMPTY, b, 1);
  }

  /** Under LRU both references fault and one slot stays free. */
  lemma LruTwoPages(a: int, b: int)
    requires a != EMPTY && b != EMPTY && a != b
    ensures Lru.After(3, [a, b], 2).frames == [a, b, EMPTY]
    ensures FaultCount(Lru.History(3, [a, b])) == 2
  {
    var s := [a, b];
    FillTwo(a, b);
    assert Lru.After(3, s, 1) == Lru.State([a, EMPTY, EMPTY], [a]);
    assert Lru.After(3, s, 2) == Lru.State([a, b, EMPTY], [a, b]);
    var h := Lru.History(3, s);
    assert h[..1] == [h[0]] && h[..2] == h;
  }

  /** Under Optimal both references fault and one slot stays free. */
  lemma OptimalTwoPages(a: int, b: int)
    requires a != EMPTY && b != EMPTY && a != b
    ensures Belady.After(3, [a, b], 2, Belady.AfterCurrent) == [a, b, EMPTY]
    ensures FaultCount(Belady.History(3, [a, b], Belady.AfterCurrent)) == 2
  {
    var s := [a, b];
    FillTwo(a, b);
    assert Belady.After(3, s, 1, Belady.AfterCurrent) == [a, EMPTY, EMPTY];
    assert Belady.After(3, s, 2, Belady.AfterCurrent) == [a, b, EMPTY];
    var g := Belady.History(3, s, Belady.AfterCurrent);
    assert g[..1] == [g[0]] && g[..2] == g;
  }

  /** What the unit tests check of any run: a non-empty reference string
      faults at least once (its first reference always does), the final
      frame list keeps the frame count, and there is one record per
      reference. */
  lemma LruRunShape(n: nat, pages: seq<int>)
    requires ValidSequence(pages) && n > 0 && |pages| > 0
    ensures FaultCount(Lru.History(n, pages)) > 0
    ensures |Lru.After(n, pages, |pages|).frames| == n
    ensures |Lru.History(n, pages)| == |pages|
  {
    var h := Lru.History(n, pages);
    Lru.FirstReferenceFaults(n, pages, 0);
    FaultCountPrefix(h, 0);
    FaultCountMonotone(h, 1);
  }

  /** The same three facts for Optimal. */
  lemma OptimalRunShape(n: nat, pages: seq<int>)
    requires ValidSequence(pages) && n > 0 && |pages| > 0
    ensures FaultCount(Belady.History(n, pages, Belady.AfterCurrent)) > 0
    ensures |Belady.After(n, pages, |pages|, Belady.AfterCurrent)| == n
    ensures |Belady.History(n, pages, Belady.AfterCurrent)| == |pages|
  {
    var h := Belady.History(n, pages, Belady.AfterCurrent);
    Belady.FirstReferenceFaults(n, pages, 0, Belady.AfterCurrent);
    FaultCountPrefix(h, 0);
    FaultCountMonotone(h, 1);
  }
}
