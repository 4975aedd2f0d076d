/** The Streamlit simulators of `web_app.py`: the same two policies over a
    local frame list, recording after every reference a numbered entry
    with the frames as they are once the reference has been served. */
module WebApp {
  import opened FrameTable
  import Recency
  import Lru
  import Belady

  /** One entry of the post-step trace: the step number, the page, a copy
      of the frames after the step and whether the reference faulted. */
  datatype WebRecord = WebRecord(step: nat, page: int, state: seq<int>, fault: bool)

  /** Number of entries whose fault flag is raised. */
  function Faults(h: seq<WebRecord>): (c: nat)
    ensures c <= |h|
  {
    if |h| == 0 then 0
    else Faults(h[..|h| - 1]) + (if h[|h| - 1].fault then 1 else 0)
  }

  /** No fault is counted exactly when no flag is raised, and every entry
      is counted exactly when every flag is raised. */
  lemma {:induction false} FaultsExtremes(h: seq<WebRecord>)
    ensures Faults(h) == 0 <==> forall i :: 0 <= i < |h| ==> !h[i].fault
    ensures Faults(h) == |h| <==> forall i :: 0 <= i < |h| ==> h[i].fault
  {
    if |h| > 0 {
      var init := h[..|h| - 1];
      FaultsExtremes(init);
      assert forall i :: 0 <= i < |init| ==> init[i] == h[i];
    }
  }

  lemma FaultsSnoc(h: seq<WebRecord>, r: WebRecord)
    ensures Faults(h + [r]) == Faults(h) + (if r.fault then 1 else 0)
  {
    assert (h + [r])[..|h|] == h;
  }

  /** The entry `lru_replacement` appends for reference j. */
  function LruEntry(n: nat, pages: seq<int>, j: nat): (r: WebRecord)
    requires ValidSequence(pages) && n > 0 && j < |pages|
    ensures r.step == j && r.page == pages[j]
    ensures |r.state| == n && pages[j] in r.state
    ensures r.fault <==> pages[j] !in Lru.After(n, pages, j).frames
  {
    WebRecord(j, pages[j], Lru.After(n, pages, j + 1).frames, pages[j] !in Lru.After(n, pages, j).frames)
  }

  /** The post-step trace of an LRU run on n frames. */
  function LruTrace(n: nat, pages: seq<int>): (h: seq<WebRecord>)
    requires ValidSequence(pages) && (n > 0 || |pages| == 0)
    ensures |h| == |pages|
    ensures forall j :: 0 <= j < |h| ==> h[j].step == j && h[j].page == pages[j] && |h[j].state| == n
  {
    seq(|pages|, j requires 0 <= j < |pages| => LruEntry(n, pages, j))
  }

  lemma LruTraceAt(n: nat, pages: seq<int>, j: nat)
    requires ValidSequence(pages) && n > 0 && j < |pages|
    ensures LruTrace(n, pages)[j] == LruEntry(n, pages, j)
  {
  }

  /** The entry `optimal_replacement` appends for reference j, distances
      counted as `page_sequence[step+1:].index(p) + 1`. */
  function OptimalEntry(n: nat, pages: seq<int>, j: nat): (r: WebRecord)
    requires ValidSequence(pages) && n > 0 && j < |pages|
    ensures r.step == j && r.page == pages[j]
    ensures |r.state| == n && pages[j] in r.state
    ensures r.fault <==> pages[j] !in Belady.After(n, pages, j, Belady.StepsAhead)
  {
    WebRecord(j, pages[j], Belady.After(n, pages, j + 1, Belady.StepsAhead),
      pages[j] !in Belady.After(n, pages, j, Belady.StepsAhead))
  }

  /** The post-step trace of an Optimal run on n frames. */
  function OptimalTrace(n: nat, pages: seq<int>): (h: seq<WebRecord>)
    requires ValidSequence(pages) && (n > 0 || |pages| == 0)
    ensures |h| == |pages|
    ensures forall j :: 0 <= j < |h| ==> h[j].step == j && h[j].page == pages[j] && |h[j].state| == n
  {
    seq(|pages|, j requires 0 <= j < |pages| => OptimalEntry(n, pages, j))
  }

  lemma OptimalTraceAt(n: nat, pages: seq<int>, j: nat)
    requires ValidSequence(pages) && n > 0 && j < |pages|
    ensures OptimalTrace(n, pages)[j] == OptimalEntry(n, pages, j)
  {
  }

  /** After `step` references of `pages` on n frames, the loop variables
      hold the spec state, the trace so far and its fault count. */
  ghost predicate LruRun(n: nat, pages: seq<int>, step: nat, frames: seq<int>, tracker: seq<int>,
                         history: seq<WebRecord>, pageFaults: nat)
  {
    && ValidSequence(pages) && n > 0 && step <= |pages|
    && Lru.State(frames, tracker) == Lru.After(n, pages, step)
    && history == LruTrace(n, pages)[..step]
    && pageFaults == Faults(history)
  }

  /** One iteration of the `lru_replacement` loop: serve the reference
      (filling the lowest free slot, or else evicting the oldest tracker
      key), make the page the newest key, count the fault and append the
      entry. */
  method LruStep(memory: array<int>, accessHistory: seq<int>, history: seq<WebRecord>, pageFaults: nat,
                 pages: seq<int>, step: nat)
    returns (accessHistory': seq<int>, history': seq<WebRecord>, pageFaults': nat)
    requires step < |pages| && LruRun(memory.Length, pages, step, memory[..], accessHistory, history, pageFaults)
    modifies memory
    ensures LruRun(memory.Length, pages, step + 1, memory[..], accessHistory', history', pageFaults')
  {
    LruTraceAt(memory.Length, pages, step);
    PrefixSnoc(LruTrace(memory.Length, pages), step + 1);
    var page := pages[step];
    ghost var before := Lru.State(memory[..], accessHistory);
    accessHistory' := accessHistory;
    pageFaults' := pageFaults;
    var isFault := false;
    if page !in memory[..] {
      pageFaults' := pageFaults' + 1;
      isFault := true;
      var idx: nat;
      if EMPTY in memory[..] {
        idx := IndexOf(memory[..], EMPTY).value;
      } else {
        assert before.frames[0] in before.frames && before.frames[0] != EMPTY;
        assert before.frames[0] in accessHistory;
        var lruPage := accessHistory'[0];
        idx := IndexOf(memory[..], lruPage).value;
        accessHistory' := Recency.Delete(accessHistory', lruPage);
      }
      memory[idx] := page;
      assert memory[..] == before.frames[idx := page];
      assert page !in accessHistory';
    }
    ghost var keys := accessHistory';
    if page in accessHistory' {
      accessHistory' := Recency.Delete(accessHistory', page);
    }
    accessHistory' := accessHistory' + [page];
    assert accessHistory' == Recency.Touch(keys, page);
    var record := WebRecord(step, page, memory[..], isFault);
    assert Lru.State(memory[..], accessHistory') == Lru.Step(before, page);
    FaultsSnoc(history, record);
    history' := history + [record];
  }

  /** `lru_replacement`: the post-step trace of the LRU run and its number
      of faults. */
  method LruReplacement(pageSequence: seq<int>, frameCount: nat) returns (history: seq<WebRecord>, pageFaults: nat)
    requires ValidSequence(pageSequence) && (frameCount > 0 || |pageSequence| == 0)
    ensures history == LruTrace(frameCount, pageSequence)
    ensures pageFaults == Faults(history)
  {
    var memory := new int[frameCount](_ => EMPTY);
    pageFaults := 0;
    var accessHistory: seq<int> := [];
    history := [];
    if |pageSequence| == 0 {
      // Nothing to reference: the trace is empty.
      return;
    }
    for step := 0 to |pageSequence|
      invariant memory.Length == frameCount
      invariant LruRun(frameCount, pageSequence, step, memory[..], accessHistory, history, pageFaults)
    {
      accessHistory, history, pageFaults := LruStep(memory, accessHistory, history, pageFaults, pageSequence, step);
    }
    assert LruTrace(frameCount, pageSequence)[..|pageSequence|] == LruTrace(frameCount, pageSequence);
  }

  /** After `step` references of `pages` on n frames, the loop variables
      hold the spec frames, the trace so far and its fault count. */
  ghost predicate OptimalRun(n: nat, pages: seq<int>, step: nat, frames: seq<int>,
                             history: seq<WebRecord>, pageFaults: nat)
  {
    && ValidSequence(pages) && n > 0 && step <= |pages|
    && frames == Belady.After(n, pages, step, Belady.StepsAhead)
    && history == OptimalTrace(n, pages)[..step]
    && pageFaults == Faults(history)
  }

  /** One iteration of the `optimal_replacement` loop: serve the reference,
      filling the lowest free slot or else overwriting the victim's slot,
      count the fault and append the entry. */
  method OptimalStep(memory: array<int>, history: seq<WebRecord>, pageFaults: nat, pageSequence: seq<int>, step: nat)
    returns (history': seq<WebRecord>, pageFaults': nat)
    requires step < |pageSequence| && OptimalRun(memory.Length, pageSequence, step, memory[..], history, pageFaults)
    modifies memory
    ensures OptimalRun(memory.Length, pageSequence, step + 1, memory[..], history', pageFaults')
  {
    OptimalTraceAt(memory.Length, pageSequence, step);
    PrefixSnoc(OptimalTrace(memory.Length, pageSequence), step + 1);
    var page := pageSequence[step];
    var snapshot := memory[..];
    pageFaults' := pageFaults;
    var isFault := false;
    if page !in memory[..] {
      pageFaults' := pageFaults' + 1;
      isFault := true;
      var idx: nat;
      if EMPTY in memory[..] {
        idx := IndexOf(memory[..], EMPTY).value;
      } else {
        var victim := Belady.ChooseVictim(memory[..], pageSequence[step + 1..], 1);
        assert snapshot[0] in snapshot;
        assert victim == Belady.Victim(snapshot, pageSequence, step, Belady.StepsAhead);
        idx := IndexOf(memory[..], victim).value;
      }
      memory[idx] := page;
      assert memory[..] == snapshot[idx := page];
    }
    var record := WebRecord(step, page, memory[..], isFault);
    assert memory[..] == Belady.Step(snapshot, pageSequence, step, Belady.StepsAhead);
    FaultsSnoc(history, record);
    history' := history + [record];
  }

  /** `optimal_replacement`: the post-step trace of the Optimal run and its
      number of faults. */
  method OptimalReplacement(pageSequence: seq<int>, frameCount: nat) returns (history: seq<WebRecord>, pageFaults: nat)
    requires ValidSequence(pageSequence) && (frameCount > 0 || |pageSequence| == 0)
    ensures history == OptimalTrace(frameCount, pageSequence)
    ensures pageFaults == Faults(history)
  {
    var memory := new int[frameCount](_ => EMPTY);
    pageFaults := 0;
    history := [];
    if |pageSequence| == 0 {
      // Nothing to reference: the trace is empty.
      return;
    }
    for step := 0 to |pageSequence|
      invariant memory.Length == frameCount
      invariant OptimalRun(frameCount, pageSequence, step, memory[..], history, pageFaults)
    {
      history, pageFaults := OptimalStep(memory, history, pageFaults, pageSequence, step);
    }
    assert OptimalTrace(frameCount, pageSequence)[..|pageSequence|] == OptimalTrace(frameCount, pageSequence);
  }

  /** `display_memory_stack`: the frames of the last entry, or nothing for
      an empty history. */
  function FinalState(history: seq<WebRecord>): (r: Option<seq<int>>)
    ensures r.None? <==> |history| == 0
    ensures r.Some? ==> r.value == history[|history| - 1].state
  {
    if |history| == 0 then None else Some(history[|history| - 1].state)
  }
  /** Two traces whose flags agree entry by entry have the same count. */
  lemma {:induction false} FaultsAgree(h: seq<WebRecord>, pre: seq<StepRecord>)
    requires |h| == |pre| && forall j :: 0 <= j < |h| ==> h[j].fault == pre[j].pageFault
    ensures Faults(h) == FaultCount(pre)
  {
    if |h| > 0 {
      var k := |h| - 1;
      FaultsAgree(h[..k], pre[..k]);
    }
  }
  /** Entry j of the LRU trace raises the canonical flag of reference j. */
  lemma LruEntryFault(n: nat, pages: seq<int>, j: nat)
    requires ValidSequence(pages) && n > 0 && j < |pages|
    ensures LruEntry(n, pages, j).fault == Lru.History(n, pages)[j].pageFault
  {
    Lru.HistoryAt(n, pages, j);
  }

  /** The frames of entry j are the canonical snapshot before reference j + 1. */
  lemma LruEntryState(n: nat, pages: seq<int>, j: nat)
    requires ValidSequence(pages) && n > 0 && j + 1 < |pages|
    ensures LruEntry(n, pages, j).state == Lru.History(n, pages)[j + 1].memoryState
  {
    Lru.HistoryAt(n, pages, j + 1);
  }

  /** Entry j of the LRU trace is numbered j, names reference j, raises
      the canonical flag of that reference and holds the page in one of
      the n frames. */
  lemma LruTraceEntries(n: nat, pages: seq<int>)
    requires ValidSequence(pages) && (n > 0 || |pages| == 0)
    ensures var h := LruTrace(n, pages);
            forall j :: 0 <= j < |pages| ==>
              && h[j].step == j && h[j].page == pages[j] && h[j].fault == Lru.History(n, pages)[j].pageFault
              && pages[j] in h[j].state && |h[j].state| == n
  {
    forall j | 0 <= j < |pages|
      ensures var h := LruTrace(n, pages);
              && h[j].step == j && h[j].page == pages[j] && h[j].fault == Lru.History(n, pages)[j].pageFault
              && pages[j] in h[j].state && |h[j].state| == n
    {
      LruTraceAt(n, pages, j);
      LruEntryFault(n, pages, j);
    }
  }

  /** The frames of each entry but the last are the snapshot the canonical
      simulator takes before the next reference: the trace is the canonical
      history shifted by one. */
  lemma LruTraceIsShiftedHistory(n: nat, pages: seq<int>)
    requires ValidSequence(pages) && (n > 0 || |pages| == 0)
    ensures forall j :: 0 <= j < |pages| - 1 ==> LruTrace(n, pages)[j].state == Lru.History(n, pages)[j + 1].memoryState
  {
    forall j | 0 <= j < |pages| - 1
      ensures LruTrace(n, pages)[j].state == Lru.History(n, pages)[j + 1].memoryState
    {
      LruTraceAt(n, pages, j);
      LruEntryState(n, pages, j);
    }
  }

  /** The LRU count of the trace is the canonical count. */
  lemma LruTraceFaults(n: nat, pages: seq<int>)
    requires ValidSequence(pages) && (n > 0 || |pages| == 0)
    ensures Faults(LruTrace(n, pages)) == FaultCount(Lru.History(n, pages))
  {
    var h := LruTrace(n, pages);
    var pre := Lru.History(n, pages);
    forall j | 0 <= j < |h|
      ensures h[j].fault == pre[j].pageFault
    {
      LruTraceAt(n, pages, j);
      LruEntryFault(n, pages, j);
    }
    FaultsAgree(h, pre);
  }

  /** The memory stack shown after an LRU run is the canonical final frame
      list, and nothing is shown for an empty sequence. */
  lemma LruTraceFinalState(n: nat, pages: seq<int>)
    requires ValidSequence(pages) && (n > 0 || |pages| == 0)
    ensures FinalState(LruTrace(n, pages)) == if |pages| == 0 then None else Some(Lru.After(n, pages, |pages|).frames)
  {
    if |pages| > 0 {
      LruTraceAt(n, pages, |pages| - 1);
    }
  }

  /** The frames of entry j of the Optimal trace are the canonical frames
      after reference j: the `+ 1` on every distance changes no victim. */
  lemma OptimalEntryState(n: nat, pages: seq<int>, j: nat)
    requires ValidSequence(pages) && n > 0 && j < |pages|
    ensures OptimalEntry(n, pages, j).state == Belady.After(n, pages, j + 1, Belady.AfterCurrent)
  {
    Belady.LookaheadIrrelevant(n, pages, j + 1, Belady.StepsAhead);
  }

  /** Entry j of the Optimal trace raises the canonical flag of reference j. */
  lemma OptimalEntryFault(n: nat, pages: seq<int>, j: nat)
    requires ValidSequence(pages) && n > 0 && j < |pages|
    ensures OptimalEntry(n, pages, j).fault == Belady.History(n, pages, Belady.AfterCurrent)[j].pageFault
  {
    Belady.LookaheadIrrelevant(n, pages, j, Belady.StepsAhead);
    Belady.HistoryAt(n, pages, j, Belady.AfterCurrent);
  }

  /** Entry j of the Optimal trace is numbered j, names reference j,
      raises the canonical flag of that reference and holds the page in one
      of the n frames. */
  lemma OptimalTraceEntries(n: nat, pages: seq<int>)
    requires ValidSequence(pages) && (n > 0 || |pages| == 0)
    ensures var h := OptimalTrace(n, pages);
            forall j :: 0 <= j < |pages| ==>
              && h[j].step == j && h[j].page == pages[j]
              && h[j].fault == Belady.History(n, pages, Belady.AfterCurrent)[j].pageFault
              && pages[j] in h[j].state && |h[j].state| == n
  {
    forall j | 0 <= j < |pages|
      ensures var h := OptimalTrace(n, pages);
              && h[j].step == j && h[j].page == pages[j]
              && h[j].fault == Belady.History(n, pages, Belady.AfterCurrent)[j].pageFault
              && pages[j] in h[j].state && |h[j].state| == n
    {
      OptimalTraceAt(n, pages, j);
      OptimalEntryFault(n, pages, j);
    }
  }

  /** The Optimal trace is the canonical pre-step history shifted by one:
      the `+ 1` on every distance changes no victim. */
  lemma OptimalTraceIsShiftedHistory(n: nat, pages: seq<int>)
    requires ValidSequence(pages) && (n > 0 || |pages| == 0)
    ensures forall j :: 0 <= j < |pages| - 1 ==>
              OptimalTrace(n, pages)[j].state == Belady.History(n, pages, Belady.AfterCurrent)[j + 1].memoryState
  {
    forall j | 0 <= j < |pages| - 1
      ensures OptimalTrace(n, pages)[j].state == Belady.History(n, pages, Belady.AfterCurrent)[j + 1].memoryState
    {
      OptimalTraceAt(n, pages, j);
      OptimalEntryState(n, pages, j);
      Belady.HistoryAt(n, pages, j + 1, Belady.AfterCurrent);
    }
  }

  /** The Optimal count of the trace is the canonical count. */
  lemma OptimalTraceFaults(n: nat, pages: seq<int>)
    requires ValidSequence(pages) && (n > 0 || |pages| == 0)
    ensures Faults(OptimalTrace(n, pages)) == FaultCount(Belady.History(n, pages, Belady.AfterCurrent))
  {
    var h := OptimalTrace(n, pages);
    var pre := Belady.History(n, pages, Belady.AfterCurrent);
    forall j | 0 <= j < |h|
      ensures h[j].fault == pre[j].pageFault
    {
      OptimalTraceAt(n, pages, j);
      OptimalEntryFault(n, pages, j);
    }
    FaultsAgree(h, pre);
  }

  /** The memory stack shown after an Optimal run is the canonical final
      frame list, and nothing is shown for an empty sequence. */
  lemma OptimalTraceFinalState(n: nat, pages: seq<int>)
    requires ValidSequence(pages) && (n > 0 || |pages| == 0)
    ensures FinalState(OptimalTrace(n, pages)) ==
              if |pages| == 0 then None else Some(Belady.After(n, pages, |pages|, Belady.AfterCurrent))
  {
    if |pages| > 0 {
      OptimalTraceAt(n, pages, |pages| - 1);
      OptimalEntryState(n, pages, |pages| - 1);
    }
  }
}
