/** The LRU policy as a specification: the state after each reference of a
    run over a fixed frame table, and the pre-step history of that run. Every
    LRU simulator of the system is proved against these functions. */
module Lru {
  import opened FrameTable
  import opened Recency

  /** Frames and recency tracker (keys oldest first). The fault counter is
      not part of the state: every simulator's counter is proved equal to
      the number of raised flags in its history. */
  datatype State = State(frames: seq<int>, tracker: seq<int>)

  /** No page is resident twice, and the tracker's keys are exactly the
      resident pages. */
  ghost predicate Valid(s: State) {
    && DistinctPages(s.frames)
    && (forall p :: p in s.tracker <==> p in s.frames && p != EMPTY)
  }

  /** The state at the start of a run on n frames. */
  function Initial(n: nat): State {
    State(EmptyFrames(n), [])
  }

  /** One reference of the LRU loop: a hit leaves the frames alone; a fault
      fills the lowest free slot, or else overwrites the slot of the oldest
      tracker key and drops that key; either way the page becomes the
      newest key. */
  function Step(s: State, page: int): (r: State)
    requires Valid(s) && |s.frames| > 0 && page != EMPTY
    ensures Valid(r) && |r.frames| == |s.frames|
    ensures page in r.frames && r.tracker[|r.tracker| - 1] == page
  {
    if page in s.frames then
      State(s.frames, Touch(s.tracker, page))
    else if EMPTY in s.frames then
      ReplaceResidents(s.frames, EMPTY, page);
      State(Replace(s.frames, EMPTY, page), Touch(s.tracker, page))
    else
      assert s.frames[0] in s.frames && s.frames[0] != EMPTY;
      assert s.frames[0] in s.tracker;
      var lruPage := s.tracker[0];
      ReplaceResidents(s.frames, lruPage, page);
      State(Replace(s.frames, lruPage, page), Touch(Delete(s.tracker, lruPage), page))
  }

  /** The state after the first k references of `pages` on n frames. */
  function After(n: nat, pages: seq<int>, k: nat): (s: State)
    requires k <= |pages| && ValidSequence(pages) && (n > 0 || k == 0)
    ensures Valid(s) && |s.frames| == n
    ensures 0 < k ==> pages[k - 1] in s.frames
    decreases k
  {
    if k == 0 then Initial(n)
    else Step(After(n, pages, k - 1), pages[k - 1])
  }

  /** The history of a run: for every reference, the page, a copy of the
      frames before the step and the fault flag. */
  function History(n: nat, pages: seq<int>): (h: seq<StepRecord>)
    requires ValidSequence(pages) && (n > 0 || |pages| == 0)
    ensures |h| == |pages|
  {
    seq(|pages|, j requires 0 <= j < |pages| => Record(pages[j], After(n, pages, j).frames))
  }

  /** Entry j of the history: the page referenced, the frames before it and
      whether it faulted. */
  lemma HistoryAt(n: nat, pages: seq<int>, j: nat)
    requires ValidSequence(pages) && (n > 0 || |pages| == 0) && j < |pages|
    ensures History(n, pages)[j] == Record(pages[j], After(n, pages, j).frames)
  {
  }

  /** One reference keeps the tracker ordered by recency. */
  lemma StepKeepsRecencyOrder(s: State, page: int, prefix: seq<int>, extended: seq<int>)
    requires Valid(s) && |s.frames| > 0 && page != EMPTY
    requires OrderedByRecency(s.tracker, prefix) && extended == prefix + [page]
    ensures OrderedByRecency(Step(s, page).tracker, extended)
  {
    if page !in s.frames && EMPTY !in s.frames {
      assert s.frames[0] in s.frames && s.frames[0] != EMPTY;
      assert s.frames[0] in s.tracker;
      DeleteKeepsOrder(s.tracker, s.tracker[0], prefix);
      TouchKeepsOrder(Delete(s.tracker, s.tracker[0]), page, prefix);
    } else {
      TouchKeepsOrder(s.tracker, page, prefix);
    }
  }

  /** Reference k - 1 extends the recency order to the first k references. */
  lemma RecencyOrderStep(n: nat, pages: seq<int>, k: nat)
    requires ValidSequence(pages) && n > 0 && 0 < k <= |pages|
    requires OrderedByRecency(After(n, pages, k - 1).tracker, pages[..k - 1])
    ensures OrderedByRecency(After(n, pages, k).tracker, pages[..k])
  {
    var s := After(n, pages, k - 1);
    PrefixSnoc(pages, k);
    StepKeepsRecencyOrder(s, pages[k - 1], pages[..k - 1], pages[..k]);
    assert After(n, pages, k) == Step(s, pages[k - 1]);
  }

  /** The tracker lists the resident pages in the order of their last
      reference, each of them referenced at some point. */
  lemma {:induction false} TrackerOrderedByRecency(n: nat, pages: seq<int>, k: nat)
    requires ValidSequence(pages) && n > 0 && k <= |pages|
    ensures OrderedByRecency(After(n, pages, k).tracker, pages[..k])
  {
    if k > 0 {
      TrackerOrderedByRecency(n, pages, k - 1);
      RecencyOrderStep(n, pages, k);
    }
  }

  /** A page that has never been referenced before is not resident, so its
      first reference is a fault. */
  lemma FirstReferenceFaults(n: nat, pages: seq<int>, k: nat)
    requires ValidSequence(pages) && n > 0 && k < |pages|
    requires pages[k] !in pages[..k]
    ensures History(n, pages)[k].pageFault
  {
    HistoryAt(n, pages, k);
    TrackerOrderedByRecency(n, pages, k);
    var s := After(n, pages, k);
    forall p | p in s.tracker
      ensures p in pages[..k]
    {
      var a :| 0 <= a < |s.tracker| && s.tracker[a] == p;
    }
  }

  /** The history replays: from each record's snapshot, a hit leaves the
      frames unchanged, a fault with a free slot writes the page into the
      lowest free slot, and a fault on full frames overwrites the slot of
      the resident page referenced least recently. The result is the next
      record's snapshot (or the final frames after the last reference). */
  lemma Replay(n: nat, pages: seq<int>, j: nat)
    requires ValidSequence(pages) && n > 0 && j < |pages|
    ensures var before := After(n, pages, j).frames;
            var after := After(n, pages, j + 1).frames;
            && (pages[j] in before ==> after == before)
            && (pages[j] !in before && EMPTY in before ==> after == Replace(before, EMPTY, pages[j]))
            && (pages[j] !in before && EMPTY !in before ==>
                  exists v :: v in before && v != EMPTY && after == Replace(before, v, pages[j]) &&
                    forall q :: q in before && q != v ==> LastIndex(pages[..j], v) < LastIndex(pages[..j], q))
  {
    var s := After(n, pages, j);
    if pages[j] !in s.frames && EMPTY !in s.frames {
      TrackerOrderedByRecency(n, pages, j);
      assert s.frames[0] in s.frames;
      var v := s.tracker[0];
      forall q | q in s.frames && q != v
        ensures LastIndex(pages[..j], v) < LastIndex(pages[..j], q)
      {
        OldestIsLeastRecent(s.tracker, pages[..j], q);
      }
    }
  }

  /** While the distinct pages referenced so far fit in the frames, nothing
      is evicted: the frames hold exactly the pages referenced, one per
      occupied slot. */
  lemma {:induction false} RoomForAll(n: nat, pages: seq<int>, k: nat)
    requires ValidSequence(pages) && n > 0 && k <= |pages| && DistinctCount(pages[..k]) <= n
    ensures HoldsExactly(After(n, pages, k).frames, pages[..k])
    ensures Occupied(After(n, pages, k).frames) == DistinctCount(pages[..k])
  {
    if k == 0 {
      EmptyFramesUnoccupied(n);
    } else {
      DistinctCountPrefix(pages, k - 1);
      RoomForAll(n, pages, k - 1);
      Replay(n, pages, k - 1);
      PrefixSnoc(pages, k);
      RoomStep(After(n, pages, k - 1).frames, After(n, pages, k).frames, pages[k - 1], pages[..k - 1]);
    }
  }

  /** With room for every distinct page, a reference faults exactly when it
      is the first reference to its page, so the first k references fault
      once per distinct page among them. */
  lemma {:induction false} FaultsWhenAllFit(n: nat, pages: seq<int>, k: nat)
    requires ValidSequence(pages) && n > 0 && k <= |pages| && DistinctCount(pages[..k]) <= n
    ensures FaultCount(History(n, pages)[..k]) == DistinctCount(pages[..k])
  {
    if k == 0 {
      assert History(n, pages)[..0] == [];
    } else {
      DistinctCountPrefix(pages, k - 1);
      FaultsWhenAllFit(n, pages, k - 1);
      RoomForAll(n, pages, k - 1);
      HistoryAt(n, pages, k - 1);
      FaultCountPrefix(History(n, pages), k - 1);
    }
  }

  /** When the frames can hold every distinct page of the string, the run
      faults once per distinct page. */
  lemma AllFitFaultsOnce(n: nat, pages: seq<int>)
    requires ValidSequence(pages) && n > 0 && |set q | q in pages| <= n
    ensures FaultCount(History(n, pages)) == |set q | q in pages|
  {
    DistinctCountIsCard(pages);
    assert pages[..|pages|] == pages;
    FaultsWhenAllFit(n, pages, |pages|);
    assert History(n, pages)[..|pages|] == History(n, pages);
  }
}
