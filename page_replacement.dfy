/** The canonical simulators, `virtual_memory_sim/src/algorithms/page_replacement.py`.
    `PageReplacementAlgorithm` owns the frame list and the fault counter; the
    LRU and Optimal algorithms subclass it there and own one here (`base`).
    Each `Simulate` resets the shared state, walks the reference string once
    and returns the fault count, the live frame list and the pre-step history. */
module PageReplacement {
  import opened FrameTable
  import Recency
  import Lru
  import Belady

  class PageReplacementAlgorithm {
    const totalFrames: nat
    var pageFaults: nat
    var memoryState: array<int>

    ghost predicate Valid()
      reads this
    {
      memoryState.Length == totalFrames
    }

    constructor (totalFrames: nat)
      ensures Valid() && this.totalFrames == totalFrames && pageFaults == 0
      ensures fresh(memoryState) && memoryState[..] == EmptyFrames(totalFrames)
    {
      this.totalFrames := totalFrames;
      pageFaults := 0;
      memoryState := new int[totalFrames](_ => EMPTY);
    }

    /** `reset`: zero the counter and install a new all-empty frame list. */
    method Reset()
      modifies this
      ensures Valid() && pageFaults == 0
      ensures fresh(memoryState) && memoryState[..] == EmptyFrames(totalFrames)
    {
      pageFaults := 0;
      memoryState := new int[totalFrames](_ => EMPTY);
    }
  }

  class LRUAlgorithm {
    const base: PageReplacementAlgorithm
    /** The keys of the `OrderedDict`, oldest first. */
    var accessHistory: seq<int>

    constructor (totalFrames: nat)
      ensures fresh(base) && base.Valid() && base.totalFrames == totalFrames && base.pageFaults == 0
      ensures fresh(base.memoryState) && base.memoryState[..] == EmptyFrames(totalFrames)
      ensures accessHistory == []
    {
      base := new PageReplacementAlgorithm(totalFrames);
      accessHistory := [];
    }

    /** The spec state the fields currently hold. */
    ghost function State(): Lru.State
      reads this, base, base.memoryState
    {
      Lru.State(base.memoryState[..], accessHistory)
    }

    /** After i references of `pages` the fields hold the spec state and the
        counter holds the number of faults among those references. */
    ghost predicate Tracks(n: nat, pages: seq<int>, i: nat)
      reads this, base, base.memoryState
    {
      && ValidSequence(pages) && n > 0 && i <= |pages|
      && base.Valid()
      && State() == Lru.After(n, pages, i)
      && base.pageFaults == FaultCount(Lru.History(n, pages)[..i])
    }

    /** One iteration of the `simulate` loop: record the frames, serve the
        reference (filling the lowest free slot, or else evicting the oldest
        tracker key), then make the page the newest key. */
    method Access(page: int, ghost n: nat, ghost pages: seq<int>, ghost i: nat) returns (record: StepRecord)
      requires Tracks(n, pages, i) && i < |pages| && pages[i] == page
      modifies this, base, base.memoryState
      ensures base.memoryState == old(base.memoryState)
      ensures Tracks(n, pages, i + 1)
      ensures record == Lru.History(n, pages)[i]
    {
      Lru.HistoryAt(n, pages, i);
      FaultCountPrefix(Lru.History(n, pages), i);
      ghost var before := State();
      var snapshot := base.memoryState[..];
      var pageFault := false;
      if page !in base.memoryState[..] {
        base.pageFaults := base.pageFaults + 1;
        pageFault := true;
        var index: nat;
        if EMPTY in base.memoryState[..] {
          index := IndexOf(base.memoryState[..], EMPTY).value;
        } else {
          assert snapshot[0] in snapshot && snapshot[0] != EMPTY;
          assert snapshot[0] in accessHistory;
          var lruPage := accessHistory[0];
          index := IndexOf(base.memoryState[..], lruPage).value;
          accessHistory := Recency.Delete(accessHistory, lruPage);
        }
        base.memoryState[index] := page;
        assert base.memoryState[..] == snapshot[index := page];
        assert page !in accessHistory;
      }
      ghost var keys := accessHistory;
      if page in accessHistory {
        accessHistory := Recency.Delete(accessHistory, page);
      }
      accessHistory := accessHistory + [page];
      assert accessHistory == Recency.Touch(keys, page);
      record := StepRecord(page, snapshot, pageFault);
      assert State() == Lru.Step(before, page);
    }

    /** `simulate`: the results depend on `totalFrames` and the sequence
        alone, so a reused instance returns what a fresh one would. The
        count is the number of raised flags in the returned history. */
    method Simulate(pageSequence: seq<int>) returns (pageFaults: nat, memoryState: array<int>, history: seq<StepRecord>)
      requires ValidSequence(pageSequence) && (base.totalFrames > 0 || |pageSequence| == 0)
      modifies this, base
      ensures base.Valid() && fresh(base.memoryState)
      ensures pageFaults == base.pageFaults && memoryState == base.memoryState
      ensures history == Lru.History(base.totalFrames, pageSequence)
      ensures pageFaults == FaultCount(history)
      ensures var s := Lru.After(base.totalFrames, pageSequence, |pageSequence|);
              memoryState[..] == s.frames && accessHistory == s.tracker
    {
      base.Reset();
      accessHistory := [];
      history := [];
      ghost var n := base.totalFrames;
      if |pageSequence| == 0 {
        // Nothing to reference: the reset state is the result.
        pageFaults, memoryState := base.pageFaults, base.memoryState;
        return;
      }
      for i := 0 to |pageSequence|
        invariant fresh(base.memoryState) && base.memoryState.Length == n
        invariant Tracks(n, pageSequence, i)
        invariant history == Lru.History(n, pageSequence)[..i]
      {
        var record := Access(pageSequence[i], n, pageSequence, i);
        PrefixSnoc(Lru.History(n, pageSequence), i + 1);
        history := history + [record];
      }
      assert Lru.History(n, pageSequence)[..|pageSequence|] == Lru.History(n, pageSequence);
      pageFaults, memoryState := base.pageFaults, base.memoryState;
    }
  }

  class OptimalAlgorithm {
    const base: PageReplacementAlgorithm

    constructor (totalFrames: nat)
      ensures fresh(base) && base.Valid() && base.totalFrames == totalFrames && base.pageFaults == 0
      ensures fresh(base.memoryState) && base.memoryState[..] == EmptyFrames(totalFrames)
    {
      base := new PageReplacementAlgorithm(totalFrames);
    }

    /** After i references of `pages` the frames hold the spec frames and
        the counter holds the number of faults among those references. */
    ghost predicate Tracks(n: nat, pages: seq<int>, i: nat)
      reads base, base.memoryState
    {
      && ValidSequence(pages) && n > 0 && i <= |pages|
      && base.Valid()
      && base.memoryState[..] == Belady.After(n, pages, i, Belady.AfterCurrent)
      && base.pageFaults == FaultCount(Belady.History(n, pages, Belady.AfterCurrent)[..i])
    }

    /** Iteration i of the `simulate` loop: record the frames, then serve
        the reference, filling the lowest free slot or else evicting the
        victim `find_optimal_victim` picks over `page_sequence[i+1:]`. */
    method Access(pageSequence: seq<int>, i: nat, ghost n: nat) returns (record: StepRecord)
      requires Tracks(n, pageSequence, i) && i < |pageSequence|
      modifies base, base.memoryState
      ensures base.memoryState == old(base.memoryState)
      ensures Tracks(n, pageSequence, i + 1)
      ensures record == Belady.History(n, pageSequence, Belady.AfterCurrent)[i]
    {
      Belady.HistoryAt(n, pageSequence, i, Belady.AfterCurrent);
      FaultCountPrefix(Belady.History(n, pageSequence, Belady.AfterCurrent), i);
      var page := pageSequence[i];
      var snapshot := base.memoryState[..];
      var pageFault := false;
      if page !in base.memoryState[..] {
        base.pageFaults := base.pageFaults + 1;
        pageFault := true;
        var index: nat;
        if EMPTY in base.memoryState[..] {
          index := IndexOf(base.memoryState[..], EMPTY).value;
        } else {
          assert snapshot[0] in snapshot;
          var victim := Belady.FindOptimalVictim(base.memoryState[..], pageSequence[i + 1..]);
          index := IndexOf(base.memoryState[..], victim).value;
        }
        base.memoryState[index] := page;
        assert base.memoryState[..] == snapshot[index := page];
      }
      record := StepRecord(page, snapshot, pageFault);
      assert base.memoryState[..] == Belady.Step(snapshot, pageSequence, i, Belady.AfterCurrent);
    }

    /** `simulate`, evicting by `find_optimal_victim` over `page_sequence[i+1:]`.
        The count is the number of raised flags in the returned history. */
    method Simulate(pageSequence: seq<int>) returns (pageFaults: nat, memoryState: array<int>, history: seq<StepRecord>)
      requires ValidSequence(pageSequence) && (base.totalFrames > 0 || |pageSequence| == 0)
      modifies base
      ensures base.Valid() && fresh(base.memoryState)
      ensures pageFaults == base.pageFaults && memoryState == base.memoryState
      ensures history == Belady.History(base.totalFrames, pageSequence, Belady.AfterCurrent)
      ensures pageFaults == FaultCount(history)
      ensures memoryState[..] == Belady.After(base.totalFrames, pageSequence, |pageSequence|, Belady.AfterCurrent)
    {
      base.Reset();
      history := [];
      ghost var n := base.totalFrames;
      if |pageSequence| == 0 {
        // Nothing to reference: the reset state is the result.
        pageFaults, memoryState := base.pageFaults, base.memoryState;
        return;
      }
      for i := 0 to |pageSequence|
        invariant fresh(base.memoryState) && base.memoryState.Length == n
        invariant Tracks(n, pageSequence, i)
        invariant history == Belady.History(n, pageSequence, Belady.AfterCurrent)[..i]
      {
        var record := Access(pageSequence, i, n);
        PrefixSnoc(Belady.History(n, pageSequence, Belady.AfterCurrent), i + 1);
        history := history + [record];
      }
      assert Belady.History(n, pageSequence, Belady.AfterCurrent)[..|pageSequence|] == Belady.History(n, pageSequence, Belady.AfterCurrent);
      pageFaults, memoryState := base.pageFaults, base.memoryState;
    }
  }
}
