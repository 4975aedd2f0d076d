/** The core class of the Tkinter simulator, `vm_simulator.py`: one object
    that owns the frame list, the fault counter and the pre-step history,
    and runs either policy over a reference string. Its Optimal policy
    measures distances in `page_sequence[i:]`, from the current reference. */
module VmSimulator {
  import opened FrameTable
  import Recency
  import Lru
  import Belady

  class PageReplacementAlgorithm {
    const totalFrames: nat
    var memory: array<int>
    var pageFaults: nat
    var history: seq<StepRecord>

    constructor (totalFrames: nat)
      ensures this.totalFrames == totalFrames && pageFaults == 0 && history == []
      ensures fresh(memory) && memory[..] == EmptyFrames(totalFrames)
    {
      this.totalFrames := totalFrames;
      memory := new int[totalFrames](_ => EMPTY);
      pageFaults := 0;
      history := [];
    }

    /** After i references of `pages` the frames and the local recency
        tracker hold the LRU spec state, the history holds the first i
        canonical records and the counter their raised flags. */
    ghost predicate LruTracks(pages: seq<int>, i: nat, tracker: seq<int>)
      reads this, memory
    {
      && ValidSequence(pages) && totalFrames > 0 && i <= |pages|
      && memory.Length == totalFrames
      && Lru.State(memory[..], tracker) == Lru.After(totalFrames, pages, i)
      && history == Lru.History(totalFrames, pages)[..i]
      && pageFaults == FaultCount(history)
    }

    /** One iteration of the `lru_replace` loop: copy the frames, serve the
        reference (lowest free slot, or else the slot of the oldest tracker
        key, which is dropped), make the page the newest key, and append the
        record whose flag says whether the page was absent from the copy. */
    method LruAccess(page: int, accessHistory: seq<int>, ghost pages: seq<int>, ghost i: nat)
      returns (accessHistory': seq<int>)
      requires LruTracks(pages, i, accessHistory) && i < |pages| && pages[i] == page
      modifies this, memory
      ensures memory == old(memory)
      ensures LruTracks(pages, i + 1, accessHistory')
    {
      Lru.HistoryAt(totalFrames, pages, i);
      PrefixSnoc(Lru.History(totalFrames, pages), i + 1);
      var frames := memory;
      var currentState := frames[..];
      ghost var before := Lru.State(currentState, accessHistory);
      accessHistory' := accessHistory;
      if page !in frames[..] {
        pageFaults := pageFaults + 1;
        var idx: nat;
        if EMPTY in frames[..] {
          idx := IndexOf(frames[..], EMPTY).value;
        } else {
          assert currentState[0] in currentState && currentState[0] != EMPTY;
          assert currentState[0] in accessHistory;
          var lruPage := accessHistory'[0];
          idx := IndexOf(frames[..], lruPage).value;
          accessHistory' := Recency.Delete(accessHistory', lruPage);
        }
        frames[idx] := page;
        assert frames[..] == currentState[idx := page];
        assert page !in accessHistory';
      }
      ghost var keys := accessHistory';
      if page in accessHistory' {
        accessHistory' := Recency.Delete(accessHistory', page);
      }
      accessHistory' := accessHistory' + [page];
      assert accessHistory' == Recency.Touch(keys, page);
      assert Lru.State(frames[..], accessHistory') == Lru.Step(before, page);
      assert Lru.State(frames[..], accessHistory') == Lru.After(totalFrames, pages, i + 1);
      ghost var served := frames[..];
      var record := StepRecord(page, currentState, page !in currentState);
      assert record == Lru.History(totalFrames, pages)[i];
      FaultCountSnoc(history, record);
      history := history + [record];
      assert frames[..] == served;
    }

    /** `lru_replace`: reset the object, run LRU over the sequence and
        return the counter, the live frame list and the history. The history
        is the canonical LRU history, the frames the canonical final frames,
        and the counter the number of raised flags. */
    method LruReplace(pageSequence: seq<int>) returns (faults: nat, frames: array<int>, trace: seq<StepRecord>)
      requires ValidSequence(pageSequence) && (totalFrames > 0 || |pageSequence| == 0)
      modifies this
      ensures fresh(memory) && frames == memory && faults == pageFaults && trace == history
      ensures history == Lru.History(totalFrames, pageSequence)
      ensures pageFaults == FaultCount(history)
      ensures memory[..] == Lru.After(totalFrames, pageSequence, |pageSequence|).frames
    {
      memory := new int[totalFrames](_ => EMPTY);
      pageFaults := 0;
      var accessHistory: seq<int> := [];
      history := [];
      if |pageSequence| == 0 {
        // The loop body never runs: the reset state is the result.
        faults, frames, trace := pageFaults, memory, history;
        return;
      }
      for i := 0 to |pageSequence|
        invariant fresh(memory)
        invariant LruTracks(pageSequence, i, accessHistory)
      {
        accessHistory := LruAccess(pageSequence[i], accessHistory, pageSequence, i);
      }
      assert Lru.History(totalFrames, pageSequence)[..|pageSequence|] == Lru.History(totalFrames, pageSequence);
      faults, frames, trace := pageFaults, memory, history;
    }

    /** After i references of `pages` the frames hold the Optimal spec
        frames (distances from the current reference), the history the
        first i records of that run and the counter their raised flags. */
    ghost predicate OptimalTracks(pages: seq<int>, i: nat)
      reads this, memory
    {
      && ValidSequence(pages) && totalFrames > 0 && i <= |pages|
      && memory.Length == totalFrames
      && memory[..] == Belady.After(totalFrames, pages, i, Belady.FromCurrent)
      && history == Belady.History(totalFrames, pages, Belady.FromCurrent)[..i]
      && pageFaults == FaultCount(history)
    }

    /** Iteration i of the `optimal_replace` loop: copy the frames, serve
        the reference (lowest free slot, or else the slot of the resident
        page whose next use in `page_sequence[i:]` lies farthest, the first
        such in frame order), and append the record. */
    method OptimalAccess(pageSequence: seq<int>, i: nat)
      requires OptimalTracks(pageSequence, i) && i < |pageSequence|
      modifies this, memory
      ensures memory == old(memory)
      ensures OptimalTracks(pageSequence, i + 1)
    {
      Belady.HistoryAt(totalFrames, pageSequence, i, Belady.FromCurrent);
      PrefixSnoc(Belady.History(totalFrames, pageSequence, Belady.FromCurrent), i + 1);
      var frames := memory;
      var page := pageSequence[i];
      var currentState := frames[..];
      if page !in frames[..] {
        pageFaults := pageFaults + 1;
        var idx: nat;
        if EMPTY in frames[..] {
          idx := IndexOf(frames[..], EMPTY).value;
        } else {
          var victim := Belady.ChooseVictim(frames[..], pageSequence[i..], 0);
          assert currentState[0] in currentState;
          assert victim == Belady.Victim(currentState, pageSequence, i, Belady.FromCurrent);
          idx := IndexOf(frames[..], victim).value;
        }
        frames[idx] := page;
        assert frames[..] == currentState[idx := page];
      }
      assert frames[..] == Belady.Step(currentState, pageSequence, i, Belady.FromCurrent);
      ghost var served := frames[..];
      var record := StepRecord(page, currentState, page !in currentState);
      assert record == Belady.History(totalFrames, pageSequence, Belady.FromCurrent)[i];
      FaultCountSnoc(history, record);
      history := history + [record];
      assert frames[..] == served;
    }

    /** `optimal_replace`: reset the object, run Optimal over the sequence
        and return the counter, the live frame list and the history. Since
        counting from the current reference picks the same victims, the
        history and the frames are those of the canonical Optimal run. */
    method OptimalReplace(pageSequence: seq<int>) returns (faults: nat, frames: array<int>, trace: seq<StepRecord>)
      requires ValidSequence(pageSequence) && (totalFrames > 0 || |pageSequence| == 0)
      modifies this
      ensures fresh(memory) && frames == memory && faults == pageFaults && trace == history
      ensures history == Belady.History(totalFrames, pageSequence, Belady.AfterCurrent)
      ensures pageFaults == FaultCount(history)
      ensures memory[..] == Belady.After(totalFrames, pageSequence, |pageSequence|, Belady.AfterCurrent)
    {
      memory := new int[totalFrames](_ => EMPTY);
      pageFaults := 0;
      history := [];
      if |pageSequence| == 0 {
        // The loop body never runs: the reset state is the result.
        faults, frames, trace := pageFaults, memory, history;
        return;
      }
      for i := 0 to |pageSequence|
        invariant fresh(memory)
        invariant OptimalTracks(pageSequence, i)
      {
        OptimalAccess(pageSequence, i);
      }
      assert Belady.History(totalFrames, pageSequence, Belady.FromCurrent)[..|pageSequence|]
          == Belady.History(totalFrames, pageSequence, Belady.FromCurrent);
      Belady.HistoryIrrelevant(totalFrames, pageSequence, Belady.FromCurrent);
      Belady.LookaheadIrrelevant(totalFrames, pageSequence, |pageSequence|, Belady.FromCurrent);
      faults, frames, trace := pageFaults, memory, history;
    }
  }
}
