/** The frame table shared by every simulator: a sequence of slots, each
    holding a page number or the EMPTY sentinel, together with the per-step
    trace record the simulators append to their history. */
module FrameTable {

  datatype Option<T> = None | Some(value: T)

  /** The sentinel that marks a free frame (`-1` in every simulator). */
  const EMPTY: int := -1

  /** A page that occurs in s has a first occurrence. */
  lemma {:induction false} FirstOccurrence(s: seq<int>, x: int)
    requires x in s
    ensures exists i :: 0 <= i < |s| && s[i] == x && x !in s[..i]
  {
    if s[0] == x {
      assert s[..0] == [];
    } else {
      var t := s[1..];
      FirstOccurrence(t, x);
      var i :| 0 <= i < |t| && t[i] == x && x !in t[..i];
      assert s[..i + 1] == [s[0]] + t[..i];
      assert s[i + 1] == x;
    }
  }

  /** Python's `list.index(x)`: the lowest position holding `x`, or None
      where Python raises ValueError. */
  function IndexOf(s: seq<int>, x: int): (r: Option<nat>)
    ensures r.None? <==> x !in s
    ensures r.Some? ==> r.value < |s| && s[r.value] == x
    ensures r.Some? ==> forall j :: 0 <= j < r.value ==> s[j] != x
  {
    if x !in s then None
    else
      FirstOccurrence(s, x);
      var i :| 0 <= i < |s| && s[i] == x && x !in s[..i];
      assert forall j :: 0 <= j < i ==> s[..i][j] == s[j];
      Some(i)
  }

  /** Extending a prefix of s by one reference. */
  lemma PrefixSnoc<T>(s: seq<T>, k: nat)
    requires 0 < k <= |s|
    ensures s[..k] == s[..k - 1] + [s[k - 1]]
  {
  }

  /** A reference string is valid when no reference collides with the
      EMPTY sentinel. */
  predicate ValidSequence(pages: seq<int>) {
    forall i :: 0 <= i < |pages| ==> pages[i] != EMPTY
  }

  /** `[-1] * n`: the frame table at the start of every run. */
  function EmptyFrames(n: nat): (frames: seq<int>)
    ensures |frames| == n
    ensures forall i :: 0 <= i < n ==> frames[i] == EMPTY
  {
    seq(n, _ => EMPTY)
  }

  /** No page occupies two slots; EMPTY may repeat. */
  ghost predicate DistinctPages(frames: seq<int>) {
    forall i, j :: 0 <= i < j < |frames| && frames[i] != EMPTY ==> frames[i] != frames[j]
  }

  /** `frames[frames.index(victim)] = page`: overwrite the first slot holding `victim`. */
  function Replace(frames: seq<int>, victim: int, page: int): (r: seq<int>)
    requires victim in frames
    ensures |r| == |frames|
  {
    frames[IndexOf(frames, victim).value := page]
  }

  /** Exactly one slot changes: the lowest one holding `victim` receives `page`,
      every other slot keeps its page. */
  lemma ReplaceChangesFirstMatch(frames: seq<int>, victim: int, page: int)
    requires victim in frames
    ensures forall j :: 0 <= j < |frames| ==>
      Replace(frames, victim, page)[j] == (if frames[j] == victim && victim !in frames[..j] then page else frames[j])
  {
    var m := IndexOf(frames, victim).value;
    forall j | 0 <= j < |frames|
      ensures Replace(frames, victim, page)[j] == (if frames[j] == victim && victim !in frames[..j] then page else frames[j])
    {
      if j < m {
        assert frames[j] != victim;
      } else if j == m {
        assert victim !in frames[..j];
      } else {
        assert frames[..j][m] == victim;
      }
    }
  }

  /** Writing an absent page over a resident page or a free slot keeps the
      pages distinct; the resident pages become the previous ones, minus
      `victim`, plus `page`. */
  lemma ReplaceResidents(frames: seq<int>, victim: int, page: int)
    requires victim in frames && page !in frames && page != EMPTY
    requires DistinctPages(frames)
    ensures DistinctPages(Replace(frames, victim, page))
    ensures forall q :: q in Replace(frames, victim, page) && q != EMPTY <==>
      (q in frames && q != EMPTY && q != victim) || q == page
  {
    var r := Replace(frames, victim, page);
    var m := IndexOf(frames, victim).value;
    forall q | q in frames && q != EMPTY && q != victim
      ensures q in r
    {
      var j :| 0 <= j < |frames| && frames[j] == q;
      assert r[j] == q;
    }
    assert r[m] == page;
  }

  /** Number of occupied slots. */
  function Occupied(frames: seq<int>): (c: nat)
    ensures c <= |frames|
    ensures c == |frames| <==> EMPTY !in frames
  {
    if |frames| == 0 then 0
    else Occupied(frames[1..]) + (if frames[0] == EMPTY then 0 else 1)
  }

  /** No slot of a fresh frame table is occupied. */
  lemma {:induction false} EmptyFramesUnoccupied(n: nat)
    ensures Occupied(EmptyFrames(n)) == 0
  {
    if n > 0 {
      assert EmptyFrames(n)[1..] == EmptyFrames(n - 1);
      EmptyFramesUnoccupied(n - 1);
    }
  }

  /** Overwriting one slot changes the occupied count by what left and what came in. */
  lemma {:induction false} OccupiedUpdate(frames: seq<int>, m: nat, v: int)
    requires m < |frames|
    ensures Occupied(frames[m := v]) ==
      Occupied(frames) - (if frames[m] == EMPTY then 0 else 1) + (if v == EMPTY then 0 else 1)
  {
    if m > 0 {
      assert frames[m := v][1..] == frames[1..][m - 1 := v];
      OccupiedUpdate(frames[1..], m - 1, v);
    }
  }

  /** One entry of a pre-step trace: the page referenced, a copy of the
      frames taken before the step, and whether the reference faulted. */
  datatype StepRecord = StepRecord(pageAccessed: int, memoryState: seq<int>, pageFault: bool)

  /** The record the simulators append: the fault flag is raised exactly
      when the page is absent from the snapshot. */
  function Record(page: int, before: seq<int>): (r: StepRecord)
    ensures r.pageAccessed == page && r.memoryState == before
    ensures r.pageFault <==> page !in before
  {
    StepRecord(page, before, page !in before)
  }

  /** Number of records whose fault flag is raised. */
  function FaultCount(h: seq<StepRecord>): (c: nat)
    ensures c <= |h|
  {
    if |h| == 0 then 0
    else FaultCount(h[..|h| - 1]) + (if h[|h| - 1].pageFault then 1 else 0)
  }

  /** No fault is counted exactly when no flag is raised, and every record
      is counted exactly when every flag is raised. */
  lemma {:induction false} FaultCountExtremes(h: seq<StepRecord>)
    ensures FaultCount(h) == 0 <==> forall i :: 0 <= i < |h| ==> !h[i].pageFault
    ensures FaultCount(h) == |h| <==> forall i :: 0 <= i < |h| ==> h[i].pageFault
  {
    if |h| > 0 {
      var init := h[..|h| - 1];
      FaultCountExtremes(init);
      assert forall i :: 0 <= i < |init| ==> init[i] == h[i];
    }
  }

  /** Appending one record adds its fault flag to the count. */
  lemma FaultCountSnoc(h: seq<StepRecord>, r: StepRecord)
    ensures FaultCount(h + [r]) == FaultCount(h) + (if r.pageFault then 1 else 0)
  {
    assert (h + [r])[..|h|] == h;
  }

  /** The count over the first k + 1 records adds the flag of record k to
      the count over the first k. */
  lemma FaultCountPrefix(h: seq<StepRecord>, k: nat)
    requires k < |h|
    ensures FaultCount(h[..k + 1]) == FaultCount(h[..k]) + (if h[k].pageFault then 1 else 0)
  {
    assert h[..k + 1] == h[..k] + [h[k]];
    FaultCountSnoc(h[..k], h[k]);
  }

  /** A prefix of a history never has more raised flags than the whole. */
  lemma {:induction false} FaultCountMonotone(h: seq<StepRecord>, k: nat)
    requires k <= |h|
    ensures FaultCount(h[..k]) <= FaultCount(h)
    decreases |h| - k
  {
    if k < |h| {
      FaultCountPrefix(h, k);
      FaultCountMonotone(h, k + 1);
    } else {
      assert h[..k] == h;
    }
  }

  /** Number of distinct pages in a reference string, each counted at its
      first occurrence. */
  function DistinctCount(s: seq<int>): (c: nat)
    ensures c <= |s|
  {
    if |s| == 0 then 0
    else DistinctCount(s[..|s| - 1]) + (if s[|s| - 1] in s[..|s| - 1] then 0 else 1)
  }

  /** The count is the size of the set of pages referenced. */
  lemma {:induction false} DistinctCountIsCard(s: seq<int>)
    ensures DistinctCount(s) == |set q | q in s|
  {
    if |s| > 0 {
      var init := s[..|s| - 1];
      var last := s[|s| - 1];
      DistinctCountIsCard(init);
      var before := set q | q in init;
      assert s == init + [last];
      assert (set q | q in s) == before + {last};
      if last in init {
        assert before + {last} == before;
      } else {
        assert last !in before;
      }
    }
  }

  /** Extending a prefix of s by one reference adds one distinct page
      exactly when that reference is new. */
  lemma DistinctCountPrefix(s: seq<int>, k: nat)
    requires k < |s|
    ensures DistinctCount(s[..k + 1]) == DistinctCount(s[..k]) + (if s[k] in s[..k] then 0 else 1)
  {
    assert s[..k + 1][..k] == s[..k];
  }

  /** The non-EMPTY slots hold exactly the pages of `prefix`. */
  ghost predicate HoldsExactly(frames: seq<int>, prefix: seq<int>) {
    forall q :: q != EMPTY ==> (q in frames <==> q in prefix)
  }

  /** One reference while there is room for every distinct page: if the
      frames hold exactly the pages referenced so far, one per occupied
      slot, and the policy hits on a resident page and fills the lowest
      free slot on a miss, then the same holds one reference later. A miss
      always finds a free slot, so nothing is evicted. */
  lemma RoomStep(before: seq<int>, after: seq<int>, page: int, prefix: seq<int>)
    requires page != EMPTY && DistinctPages(before)
    requires HoldsExactly(before, prefix) && Occupied(before) == DistinctCount(prefix)
    requires DistinctCount(prefix + [page]) <= |before|
    requires page in before ==> after == before
    requires page !in before && EMPTY in before ==> after == Replace(before, EMPTY, page)
    ensures page !in before ==> EMPTY in before
    ensures HoldsExactly(after, prefix + [page]) && Occupied(after) == DistinctCount(prefix + [page])
  {
    var extended := prefix + [page];
    assert extended[..|prefix|] == prefix;
    if page !in before {
      assert page !in prefix;
      assert EMPTY in before;
      var m := IndexOf(before, EMPTY).value;
      OccupiedUpdate(before, m, page);
      ReplaceResidents(before, EMPTY, page);
    }
  }
}
