/** `MemoryManager` of the Streamlit front end `app.py`: both policies run
    over a growable list that holds only resident pages, in the order they
    were brought in. A miss on a full list removes the victim by value (the
    later pages shift left) and appends the new page; there is no `-1`
    sentinel and no history. The final list is then copied into a
    `-1`-padded frame array for display. */
module App {
  import opened FrameTable
  import Recency
  import Lru
  import Belady

  /** `list.remove(x)`: drop the first occurrence of x, shifting the later
      elements left. */
  function Remove(s: seq<int>, x: int): (r: seq<int>)
    requires x in s
    ensures |r| == |s| - 1
    ensures var i := IndexOf(s, x).value;
            forall j :: 0 <= j < |r| ==> r[j] == if j < i then s[j] else s[j + 1]
  {
    var i := IndexOf(s, x).value;
    s[..i] + s[i + 1..]
  }

  /** Removing x from a list without duplicates keeps every other element,
      loses x, and leaves no duplicates. */
  lemma RemoveMembers(s: seq<int>, x: int)
    requires x in s && Recency.Distinct(s)
    ensures forall y :: y in Remove(s, x) <==> y in s && y != x
    ensures Recency.Distinct(Remove(s, x))
  {
    var i := IndexOf(s, x).value;
    var r := Remove(s, x);
    forall y | y in s && y != x
      ensures y in r
    {
      var j :| 0 <= j < |s| && s[j] == y;
      if j < i {
        assert r[j] == y;
      } else {
        assert r[j - 1] == y;
      }
    }
    forall a, b | 0 <= a < b < |r|
      ensures r[a] != r[b]
    {
      var a' := if a < i then a else a + 1;
      var b' := if b < i then b else b + 1;
      assert r[a] == s[a'] && r[b] == s[b'];
    }
  }

  /** Appending a page that is not in a list without duplicates keeps it
      without duplicates. */
  lemma AppendNew(s: seq<int>, page: int)
    requires Recency.Distinct(s) && page !in s
    ensures Recency.Distinct(s + [page])
  {
    var r := s + [page];
    forall a, b | 0 <= a < b < |r|
      ensures r[a] != r[b]
    {
      assert r[a] == s[a];
      if b < |s| {
        assert r[b] == s[b];
      }
    }
  }

  /** The resident list and the recency tracker of `lru_replace`. */
  datatype LruState = LruState(memory: seq<int>, tracker: seq<int>)

  /** The list holds at most n pages, none twice, and the tracker's keys
      are exactly the listed pages. */
  ghost predicate LruValid(s: LruState, n: nat) {
    && Recency.Distinct(s.memory) && |s.memory| <= n
    && (forall p :: p in s.tracker <==> p in s.memory)
  }

  /** One reference of `lru_replace`: a hit leaves the list alone; a miss on
      a full list removes the oldest tracker key from list and tracker; a
      miss appends the page; either way the page becomes the newest key. */
  function LruStep(s: LruState, page: int, n: nat): (r: LruState)
    requires LruValid(s, n) && n > 0
    ensures LruValid(r, n) && page in r.memory
  {
    if page in s.memory then LruState(s.memory, Recency.Touch(s.tracker, page))
    else if |s.memory| >= n then
      assert s.memory[0] in s.memory;
      assert forall p :: p in s.tracker <==> p in s.memory;
      assert s.memory[0] in s.tracker;
      var lruPage := s.tracker[0];
      RemoveMembers(s.memory, lruPage);
      AppendNew(Remove(s.memory, lruPage), page);
      LruState(Remove(s.memory, lruPage) + [page], Recency.Touch(Recency.Delete(s.tracker, lruPage), page))
    else
      AppendNew(s.memory, page);
      LruState(s.memory + [page], Recency.Touch(s.tracker, page))
  }

  /** The list and tracker after the first k references. */
  function LruAfter(n: nat, pages: seq<int>, k: nat): (s: LruState)
    requires k <= |pages| && (n > 0 || k == 0)
    ensures LruValid(s, n)
    decreases k
  {
    if k == 0 then LruState([], [])
    else LruStep(LruAfter(n, pages, k - 1), pages[k - 1], n)
  }

  /** The number of misses among the first k references. */
  function LruFaults(n: nat, pages: seq<int>, k: nat): (c: nat)
    requires k <= |pages| && (n > 0 || k == 0)
    ensures c <= k
    decreases k
  {
    if k == 0 then 0
    else LruFaults(n, pages, k - 1) + (if pages[k - 1] in LruAfter(n, pages, k - 1).memory then 0 else 1)
  }

  /** The resident list of `optimal_replace` may hold at most n pages, none twice. */
  ghost predicate OptimalValid(memory: seq<int>, n: nat) {
    Recency.Distinct(memory) && |memory| <= n
  }

  /** Reference i of `optimal_replace`: a hit leaves the list alone; a miss
      on a full list removes the listed page whose first index in
      `page_sequence[i:]` is largest (the first such in list order); a miss
      appends the page. */
  function OptimalStep(memory: seq<int>, pages: seq<int>, i: nat, n: nat): (r: seq<int>)
    requires i < |pages| && n > 0 && OptimalValid(memory, n)
    ensures OptimalValid(r, n) && pages[i] in r
  {
    var page := pages[i];
    if page in memory then memory
    else if |memory| >= n then
      var victim := Belady.FarthestPage(memory, pages[i..], 0, false);
      RemoveMembers(memory, victim);
      AppendNew(Remove(memory, victim), page);
      Remove(memory, victim) + [page]
    else
      AppendNew(memory, page);
      memory + [page]
  }

  /** The list after the first k references. */
  function OptimalAfter(n: nat, pages: seq<int>, k: nat): (memory: seq<int>)
    requires k <= |pages| && (n > 0 || k == 0)
    ensures OptimalValid(memory, n)
    decreases k
  {
    if k == 0 then []
    else OptimalStep(OptimalAfter(n, pages, k - 1), pages, k - 1, n)
  }

  /** The number of misses among the first k references. */
  function OptimalFaults(n: nat, pages: seq<int>, k: nat): (c: nat)
    requires k <= |pages| && (n > 0 || k == 0)
    ensures c <= k
    decreases k
  {
    if k == 0 then 0
    else OptimalFaults(n, pages, k - 1) + (if pages[k - 1] in OptimalAfter(n, pages, k - 1) then 0 else 1)
  }

  /** The frame array shown for a final list: slot i holds the i-th listed
      page while there is one and `-1` after that. */
  function Padded(memory: seq<int>, n: nat): (frames: seq<int>)
    ensures |frames| == n
    ensures forall i :: 0 <= i < n && i < |memory| ==> frames[i] == memory[i]
    ensures forall i :: |memory| <= i < n ==> frames[i] == EMPTY
  {
    seq(n, i requires 0 <= i < n => if i < |memory| then memory[i] else EMPTY)
  }

  /** The loop variables of `lru_replace` after i references. */
  ghost predicate LruRun(n: nat, pages: seq<int>, i: nat, memory: seq<int>, tracker: seq<int>, pageFaults: nat) {
    && n > 0 && i <= |pages|
    && LruState(memory, tracker) == LruAfter(n, pages, i)
    && pageFaults == LruFaults(n, pages, i)
  }

  /** The loop variables of `optimal_replace` after i references. */
  ghost predicate OptimalRun(n: nat, pages: seq<int>, i: nat, memory: seq<int>, pageFaults: nat) {
    && n > 0 && i <= |pages|
    && memory == OptimalAfter(n, pages, i)
    && pageFaults == OptimalFaults(n, pages, i)
  }

  class MemoryManager {
    const totalFrames: nat
    var memory: array<int>

    constructor (totalFrames: nat)
      ensures this.totalFrames == totalFrames
      ensures fresh(memory) && memory[..] == EmptyFrames(totalFrames)
    {
      this.totalFrames := totalFrames;
      memory := new int[totalFrames](_ => EMPTY);
    }

    /** `lru_replace`: the fault count and the final resident list of an
        LRU run over a list that starts empty. Nothing of the object changes. */
    method LruReplace(pageSequence: seq<int>) returns (pageFaults: nat, finalMemory: seq<int>)
      requires totalFrames > 0 || |pageSequence| == 0
      ensures finalMemory == LruAfter(totalFrames, pageSequence, |pageSequence|).memory
      ensures pageFaults == LruFaults(totalFrames, pageSequence, |pageSequence|)
    {
      pageFaults := 0;
      var list: seq<int> := [];
      var accessHistory: seq<int> := [];
      if |pageSequence| == 0 {
        // The loop body never runs.
        return pageFaults, list;
      }
      for i := 0 to |pageSequence|
        invariant LruRun(totalFrames, pageSequence, i, list, accessHistory, pageFaults)
      {
        var page := pageSequence[i];
        ghost var before := LruState(list, accessHistory);
        if page !in list {
          pageFaults := pageFaults + 1;
          if |list| >= totalFrames {
            assert list[0] in accessHistory;
            var lruPage := accessHistory[0];
            list := Remove(list, lruPage);
            accessHistory := Recency.Delete(accessHistory, lruPage);
          }
          list := list + [page];
        }
        ghost var keys := accessHistory;
        if page in accessHistory {
          accessHistory := Recency.Delete(accessHistory, page);
        }
        accessHistory := accessHistory + [page];
        assert accessHistory == Recency.Touch(keys, page);
        assert LruState(list, accessHistory) == LruStep(before, page, totalFrames);
      }
      finalMemory := list;
    }

    /** `optimal_replace`: the fault count and the final resident list of an
        Optimal run over a list that starts empty, distances counted in
        `page_sequence[i:]`. Nothing of the object changes. */
    method OptimalReplace(pageSequence: seq<int>) returns (pageFaults: nat, finalMemory: seq<int>)
      requires totalFrames > 0 || |pageSequence| == 0
      ensures finalMemory == OptimalAfter(totalFrames, pageSequence, |pageSequence|)
      ensures pageFaults == OptimalFaults(totalFrames, pageSequence, |pageSequence|)
    {
      pageFaults := 0;
      var list: seq<int> := [];
      if |pageSequence| == 0 {
        // The loop body never runs.
        return pageFaults, list;
      }
      for i := 0 to |pageSequence|
        invariant OptimalRun(totalFrames, pageSequence, i, list, pageFaults)
      {
        var page := pageSequence[i];
        ghost var before := list;
        if page !in list {
          pageFaults := pageFaults + 1;
          if |list| >= totalFrames {
            var victim := Belady.ChooseVictim(list, pageSequence[i..], 0);
            list := Remove(list, victim);
          }
          list := list + [page];
        }
        assert list == OptimalStep(before, pageSequence, i, totalFrames);
      }
      finalMemory := list;
    }

    /** The display step after a run: a fresh `-1`-filled array of
        `total_frames` slots receives the final list slot by slot, pages
        beyond the last slot being dropped. */
    method LoadFinalMemory(finalMemory: seq<int>)
      modifies this
      ensures fresh(memory) && memory[..] == Padded(finalMemory, totalFrames)
    {
      memory := new int[totalFrames](_ => EMPTY);
      for i := 0 to |finalMemory|
        invariant fresh(memory) && memory.Length == totalFrames
        invariant forall j :: 0 <= j < totalFrames ==>
                    memory[j] == if j < i && j < |finalMemory| then finalMemory[j] else EMPTY
      {
        if i < totalFrames {
          memory[i] := finalMemory[i];
        }
      }
      assert memory[..] == Padded(finalMemory, totalFrames);
    }
  }

  /** A compact LRU state matches a canonical one when the trackers are
      equal and the list has one entry per occupied slot. */
  ghost predicate Matches(c: LruState, s: Lru.State) {
    c.tracker == s.tracker && |c.memory| == Occupied(s.frames)
  }

  /** One reference keeps the match: the page is listed exactly when it is
      in a slot, so both fault together; a list that is not full means a
      free slot, and a full list means full frames, so both evict the same
      oldest key or neither does. */
  lemma LruStepMatches(c: LruState, s: Lru.State, page: int, n: nat)
    requires n > 0 && page != EMPTY && LruValid(c, n) && Lru.Valid(s) && |s.frames| == n
    requires Matches(c, s)
    ensures page in c.memory <==> page in s.frames
    ensures Matches(LruStep(c, page, n), Lru.Step(s, page))
  {
    assert page in c.memory <==> page in c.tracker;
    if page !in c.memory {
      if EMPTY in s.frames {
        OccupiedUpdate(s.frames, IndexOf(s.frames, EMPTY).value, page);
      } else {
        assert s.frames[0] in s.frames && s.frames[0] in s.tracker;
        OccupiedUpdate(s.frames, IndexOf(s.frames, s.tracker[0]).value, page);
      }
    }
  }

  /** After every prefix, the compact LRU state matches the canonical one
      and the compact count is the canonical count. */
  lemma {:induction false} LruAgrees(n: nat, pages: seq<int>, k: nat)
    requires ValidSequence(pages) && n > 0 && k <= |pages|
    ensures Matches(LruAfter(n, pages, k), Lru.After(n, pages, k))
    ensures LruFaults(n, pages, k) == FaultCount(Lru.History(n, pages)[..k])
  {
    if k == 0 {
      EmptyFramesUnoccupied(n);
      assert Lru.History(n, pages)[..0] == [];
    } else {
      LruAgrees(n, pages, k - 1);
      LruStepMatches(LruAfter(n, pages, k - 1), Lru.After(n, pages, k - 1), pages[k - 1], n);
      Lru.HistoryAt(n, pages, k - 1);
      FaultCountPrefix(Lru.History(n, pages), k - 1);
    }
  }

  /** The compact list holds exactly the pages in the canonical slots, and
      as many of them as there are occupied slots. */
  lemma LruSameResidents(n: nat, pages: seq<int>, k: nat)
    requires ValidSequence(pages) && n > 0 && k <= |pages|
    ensures forall p :: p in LruAfter(n, pages, k).memory <==> p in Lru.After(n, pages, k).frames && p != EMPTY
    ensures |LruAfter(n, pages, k).memory| == Occupied(Lru.After(n, pages, k).frames)
  {
    LruAgrees(n, pages, k);
  }

  /** The tracker of `lru_replace` lists the listed pages in the order of
      their last reference among the references made so far. */
  lemma {:induction false} LruTrackerOrdered(n: nat, pages: seq<int>, k: nat)
    requires n > 0 && k <= |pages|
    ensures Recency.OrderedByRecency(LruAfter(n, pages, k).tracker, pages[..k])
  {
    if k > 0 {
      LruTrackerOrdered(n, pages, k - 1);
      var s := LruAfter(n, pages, k - 1);
      var page := pages[k - 1];
      PrefixSnoc(pages, k);
      if page !in s.memory && |s.memory| >= n {
        assert s.memory[0] in s.memory && s.memory[0] in s.tracker;
        Recency.DeleteKeepsOrder(s.tracker, s.tracker[0], pages[..k - 1]);
        Recency.TouchKeepsOrder(Recency.Delete(s.tracker, s.tracker[0]), page, pages[..k - 1]);
      } else {
        Recency.TouchKeepsOrder(s.tracker, page, pages[..k - 1]);
      }
    }
  }

  /** A hit leaves the list unchanged and costs no fault; a miss costs one
      fault; a miss on a list with room appends the page at the end. The
      miss on a full list is `LruEvictsLeastRecent`. */
  lemma LruReplay(n: nat, pages: seq<int>, j: nat)
    requires n > 0 && j < |pages|
    ensures var before := LruAfter(n, pages, j).memory;
            var after := LruAfter(n, pages, j + 1).memory;
            && (pages[j] in before ==> after == before && LruFaults(n, pages, j + 1) == LruFaults(n, pages, j))
            && (pages[j] !in before ==> LruFaults(n, pages, j + 1) == LruFaults(n, pages, j) + 1)
            && (pages[j] !in before && |before| < n ==> after == before + [pages[j]])
  {
  }

  /** On a miss with a full list, `lru_replace` removes the listed page
      referenced least recently, and appends the new page. */
  lemma LruEvictsLeastRecent(n: nat, pages: seq<int>, j: nat)
    requires n > 0 && j < |pages|
    requires pages[j] !in LruAfter(n, pages, j).memory && |LruAfter(n, pages, j).memory| >= n
    ensures var before := LruAfter(n, pages, j).memory;
            exists v :: v in before && LruAfter(n, pages, j + 1).memory == Remove(before, v) + [pages[j]] &&
              forall q :: q in before && q != v ==> Recency.LastIndex(pages[..j], v) < Recency.LastIndex(pages[..j], q)
  {
    var c := LruAfter(n, pages, j);
    LruTrackerOrdered(n, pages, j);
    assert c.memory[0] in c.memory && c.memory[0] in c.tracker;
    var v := c.tracker[0];
    assert LruAfter(n, pages, j + 1) == LruStep(c, pages[j], n);
    assert LruAfter(n, pages, j + 1).memory == Remove(c.memory, v) + [pages[j]];
    forall q | q in c.memory && q != v
      ensures Recency.LastIndex(pages[..j], v) < Recency.LastIndex(pages[..j], q)
    {
      assert q in c.tracker;
      Recency.OldestIsLeastRecent(c.tracker, pages[..j], q);
    }
  }

  /** A hit leaves the list unchanged and costs no fault; a miss costs one
      fault and appends the page, after removing, when the list is full,
      the listed page whose next use in `page_sequence[j:]` is farthest,
      the first such in list order. */
  lemma OptimalReplay(n: nat, pages: seq<int>, j: nat)
    requires n > 0 && j < |pages|
    ensures var before := OptimalAfter(n, pages, j);
            var after := OptimalAfter(n, pages, j + 1);
            && (pages[j] in before ==> after == before && OptimalFaults(n, pages, j + 1) == OptimalFaults(n, pages, j))
            && (pages[j] !in before ==> OptimalFaults(n, pages, j + 1) == OptimalFaults(n, pages, j) + 1)
            && (pages[j] !in before && |before| < n ==> after == before + [pages[j]])
            && (pages[j] !in before && |before| >= n ==>
                  exists v :: v in before && after == Remove(before, v) + [pages[j]]
                    && (forall q :: q in before ==>
                          !Belady.Farther(Belady.Distance(pages[j..], q, 0), Belady.Distance(pages[j..], v, 0)))
                    && (forall i :: 0 <= i < IndexOf(before, v).value ==>
                          Belady.Farther(Belady.Distance(pages[j..], v, 0), Belady.Distance(pages[j..], before[i], 0))))
  {
    var before := OptimalAfter(n, pages, j);
    if pages[j] !in before && |before| >= n {
      var v := Belady.FarthestPage(before, pages[j..], 0, false);
      assert OptimalAfter(n, pages, j + 1) == Remove(before, v) + [pages[j]];
    }
  }

  /** Without `-1` in the list, the padded array has one occupied slot per
      listed page that fits. */
  lemma {:induction false} PaddedOccupied(memory: seq<int>, n: nat)
    requires EMPTY !in memory
    ensures Occupied(Padded(memory, n)) == if |memory| <= n then |memory| else n
  {
    if n > 0 {
      var rest := if |memory| == 0 then [] else memory[1..];
      assert Padded(memory, n)[1..] == Padded(rest, n - 1);
      if |memory| > 0 {
        assert memory[0] in memory;
      }
      PaddedOccupied(rest, n - 1);
    }
  }

  /** The array shown after an LRU run holds the pages of the canonical
      final frames and as many occupied slots, and the compact count is the
      canonical count. */
  lemma LruDisplayMatchesCanonical(n: nat, pages: seq<int>)
    requires ValidSequence(pages) && n > 0
    ensures var shown := Padded(LruAfter(n, pages, |pages|).memory, n);
            var frames := Lru.After(n, pages, |pages|).frames;
            && (forall p :: p != EMPTY ==> (p in shown <==> p in frames))
            && Occupied(shown) == Occupied(frames)
            && LruFaults(n, pages, |pages|) == FaultCount(Lru.History(n, pages))
  {
    var memory := LruAfter(n, pages, |pages|).memory;
    LruSameResidents(n, pages, |pages|);
    PaddedOccupied(memory, n);
    forall p | p != EMPTY
      ensures p in Padded(memory, n) <==> p in memory
    {
      if p in Padded(memory, n) {
        var i :| 0 <= i < n && Padded(memory, n)[i] == p;
        assert i < |memory| && memory[i] == p;
      }
      if p in memory {
        var i :| 0 <= i < |memory| && memory[i] == p;
        assert Padded(memory, n)[i] == p;
      }
    }
    LruAgrees(n, pages, |pages|);
    assert Lru.History(n, pages)[..|pages|] == Lru.History(n, pages);
  }
}
