/** The Optimal (Belady) policy as a specification: on a fault with no free
    frame, evict the resident page whose next reference lies farthest in the
    future (never again counts as infinitely far), ties going to the lowest
    frame. The simulators differ only in the future they search and in the
    constant they add to the distance; `Lookahead` names the three forms. */
module Belady {
  import opened FrameTable

  /** How far ahead a page is next referenced; Never stands for `float('inf')`. */
  datatype NextUse = At(distance: nat) | Never

  /** a lies strictly farther in the future than b. */
  predicate Farther(a: NextUse, b: NextUse) {
    match a
    case Never => b.At?
    case At(x) => b.At? && x > b.distance
  }

  /** The value a simulator stores for page q: `future.index(q) + offset`,
      or infinity where `index` raises ValueError. */
  function Distance(future: seq<int>, q: int, offset: nat): (d: NextUse)
    ensures d.Never? <==> q !in future
    ensures d.At? ==> offset <= d.distance < |future| + offset && future[d.distance - offset] == q
    ensures d.At? ==> forall j :: 0 <= j < d.distance - offset ==> future[j] != q
  {
    match IndexOf(future, q)
    case None => Never
    case Some(k) => At(k + offset)
  }

  /** The `future_use` dictionary, one entry per slot of `memory` in slot
      order; with `skipEmpty` the free slots get no entry (None). */
  function Distances(memory: seq<int>, future: seq<int>, offset: nat, skipEmpty: bool): (d: seq<Option<NextUse>>)
    ensures |d| == |memory|
    ensures forall j :: 0 <= j < |d| ==> (d[j].None? <==> skipEmpty && memory[j] == EMPTY)
    ensures forall j :: 0 <= j < |d| && d[j].Some? ==> d[j].value == Distance(future, memory[j], offset)
  {
    seq(|memory|, j requires 0 <= j < |memory| =>
      if skipEmpty && memory[j] == EMPTY then None else Some(Distance(future, memory[j], offset)))
  }

  /** Among the first i entries, entry k is a farthest one and every entry
      before it is strictly nearer: what `max(..., key=...)` keeps, since it
      only replaces its choice on a strictly larger key. */
  ghost predicate FirstFarthestUpTo(d: seq<Option<NextUse>>, i: nat, k: nat) {
    && k < i <= |d| && d[k].Some?
    && (forall j :: 0 <= j < i && d[j].Some? ==> !Farther(d[j].value, d[k].value))
    && (forall j :: 0 <= j < k && d[j].Some? ==> Farther(d[k].value, d[j].value))
  }

  ghost predicate IsFirstFarthest(d: seq<Option<NextUse>>, k: nat) {
    FirstFarthestUpTo(d, |d|, k)
  }

  /** The left-to-right scan of `max` over the dictionary's items from
      entry i on, `best` being the choice so far (0 when there was no
      entry at all, where `max` raises; callers rule that case out). */
  function ScanFarthest(d: seq<Option<NextUse>>, i: nat, best: Option<nat>): (k: nat)
    requires i <= |d|
    ensures (best.Some? && k == best.value) || (best.None? && k == 0) || (i <= k < |d| && d[k].Some?)
    decreases |d| - i
  {
    if i == |d| then (if best.Some? then best.value else 0)
    else if d[i].None? then ScanFarthest(d, i + 1, best)
    else if best.None? || (best.value < |d| && d[best.value].Some? && Farther(d[i].value, d[best.value].value)) then
      ScanFarthest(d, i + 1, Some(i))
    else ScanFarthest(d, i + 1, best)
  }

  /** The scan keeps the first farthest entry: it only takes over on a
      strictly farther one. */
  lemma {:induction false} ScanFarthestSound(d: seq<Option<NextUse>>, i: nat, best: Option<nat>)
    requires i <= |d|
    requires best.None? ==> forall j :: 0 <= j < i ==> d[j].None?
    requires best.Some? ==> FirstFarthestUpTo(d, i, best.value)
    requires best.Some? || exists j :: i <= j < |d| && d[j].Some?
    ensures IsFirstFarthest(d, ScanFarthest(d, i, best))
    decreases |d| - i
  {
    if i < |d| {
      if d[i].None? {
        ScanFarthestSound(d, i + 1, best);
      } else if best.None? || Farther(d[i].value, d[best.value].value) {
        ScanFarthestSound(d, i + 1, Some(i));
      } else {
        ScanFarthestSound(d, i + 1, best);
      }
    }
  }

  /** Index of the entry `max(future_use.items(), key=...)` returns. */
  function PickFarthest(d: seq<Option<NextUse>>): (k: nat)
    requires exists j :: 0 <= j < |d| && d[j].Some?
    ensures IsFirstFarthest(d, k)
  {
    ScanFarthestSound(d, 0, None);
    ScanFarthest(d, 0, None)
  }

  /** At most one entry is the first farthest one. */
  lemma FirstFarthestUnique(d: seq<Option<NextUse>>, k1: nat, k2: nat)
    requires IsFirstFarthest(d, k1) && IsFirstFarthest(d, k2)
    ensures k1 == k2
  {
  }

  /** The victim search of every Optimal simulator: the page in the slot
      `max` picks from the `future_use` dictionary. */
  function FarthestPage(memory: seq<int>, future: seq<int>, offset: nat, skipEmpty: bool): (victim: int)
    requires |memory| > 0 && (skipEmpty ==> exists j :: 0 <= j < |memory| && memory[j] != EMPTY)
    ensures victim in memory && (skipEmpty ==> victim != EMPTY)
    ensures forall q :: q in memory && (!skipEmpty || q != EMPTY) ==>
      !Farther(Distance(future, q, offset), Distance(future, victim, offset))
    ensures forall j :: 0 <= j < IndexOf(memory, victim).value && (!skipEmpty || memory[j] != EMPTY) ==>
      Farther(Distance(future, victim, offset), Distance(future, memory[j], offset))
  {
    var d := Distances(memory, future, offset, skipEmpty);
    assert exists j :: 0 <= j < |d| && d[j].Some? by {
      if skipEmpty {
        var j :| 0 <= j < |memory| && memory[j] != EMPTY;
        assert d[j].Some?;
      } else {
        assert d[0].Some?;
      }
    }
    var k := PickFarthest(d);
    FarthestPageSound(memory, future, offset, skipEmpty, k);
    memory[k]
  }

  lemma FarthestPageSound(memory: seq<int>, future: seq<int>, offset: nat, skipEmpty: bool, k: nat)
    requires IsFirstFarthest(Distances(memory, future, offset, skipEmpty), k)
    ensures k < |memory| && IndexOf(memory, memory[k]) == Some(k)
    ensures forall q :: q in memory && (!skipEmpty || q != EMPTY) ==>
      !Farther(Distance(future, q, offset), Distance(future, memory[k], offset))
    ensures forall j :: 0 <= j < k && (!skipEmpty || memory[j] != EMPTY) ==>
      Farther(Distance(future, memory[k], offset), Distance(future, memory[j], offset))
  {
    var d := Distances(memory, future, offset, skipEmpty);
    var m := IndexOf(memory, memory[k]).value;
    assert d[m] == d[k];
    forall q | q in memory && (!skipEmpty || q != EMPTY)
      ensures !Farther(Distance(future, q, offset), Distance(future, memory[k], offset))
    {
      var j :| 0 <= j < |memory| && memory[j] == q;
      assert d[j].Some?;
    }
    forall j | 0 <= j < k && (!skipEmpty || memory[j] != EMPTY)
      ensures Farther(Distance(future, memory[k], offset), Distance(future, memory[j], offset))
    {
      assert d[j].Some?;
    }
  }

  /** `OptimalAlgorithm.find_optimal_victim`: the non-empty page whose first
      index in `futureSequence` is largest, pages that never recur counting
      as infinitely far, ties going to the page in the lowest slot. */
  function FindOptimalVictim(currentPages: seq<int>, futureSequence: seq<int>): (victim: int)
    requires exists j :: 0 <= j < |currentPages| && currentPages[j] != EMPTY
    ensures victim in currentPages && victim != EMPTY
    ensures forall q :: q in currentPages && q != EMPTY ==>
      !Farther(Distance(futureSequence, q, 0), Distance(futureSequence, victim, 0))
    ensures forall j :: 0 <= j < IndexOf(currentPages, victim).value && currentPages[j] != EMPTY ==>
      Farther(Distance(futureSequence, victim, 0), Distance(futureSequence, currentPages[j], 0))
  {
    FarthestPage(currentPages, futureSequence, 0, true)
  }

  /** The `future_use` loop and the `max` call of the variant simulators:
      one distance per slot, in slot order, a later slot taking over only
      when its page lies strictly farther away. The result is the victim
      FarthestPage describes. */
  method ChooseVictim(memory: seq<int>, future: seq<int>, offset: nat) returns (victim: int)
    requires |memory| > 0
    ensures victim == FarthestPage(memory, future, offset, false)
  {
    ghost var d := Distances(memory, future, offset, false);
    var best: Option<nat> := None;
    var bestUse := Never;
    for i := 0 to |memory|
      invariant best.None? <==> i == 0
      invariant best.Some? ==> best.value < i && bestUse == d[best.value].value
      invariant ScanFarthest(d, i, best) == ScanFarthest(d, 0, None)
    {
      var use := Distance(future, memory[i], offset);
      assert d[i] == Some(use);
      if best.None? || Farther(use, bestUse) {
        best, bestUse := Some(i), use;
      }
    }
    victim := memory[best.value];
  }

  /** Which future a simulator searches for the next use. */
  datatype Lookahead =
    | AfterCurrent  // index in page_sequence[i+1:]
    | StepsAhead    // index in page_sequence[i+1:], plus one
    | FromCurrent   // index in page_sequence[i:]

  /** The victim for the fault at reference i on full frames. */
  function Victim(frames: seq<int>, pages: seq<int>, i: nat, look: Lookahead): (v: int)
    requires i < |pages| && |frames| > 0 && EMPTY !in frames
    ensures v in frames && v != EMPTY
  {
    assert frames[0] in frames;
    match look
    case AfterCurrent => FindOptimalVictim(frames, pages[i + 1..])
    case StepsAhead => FarthestPage(frames, pages[i + 1..], 1, false)
    case FromCurrent => FarthestPage(frames, pages[i..], 0, false)
  }

  /** Counting from the current reference instead of after it adds one to
      every distance of a page other than the current one. */
  lemma DistanceFromCurrent(x: int, future: seq<int>, q: int)
    requires q != x
    ensures Distance([x] + future, q, 0) == Distance(future, q, 1)
  {
    assert ([x] + future)[1..] == future;
  }

  /** On full frames, adding one to every distance changes no choice. */
  lemma OffsetKeepsChoice(frames: seq<int>, future: seq<int>)
    requires |frames| > 0 && frames[0] != EMPTY && EMPTY !in frames
    ensures FarthestPage(frames, future, 1, false) == FarthestPage(frames, future, 0, true)
  {
    var d0 := Distances(frames, future, 0, true);
    var d1 := Distances(frames, future, 1, false);
    forall j | 0 <= j < |frames|
      ensures d0[j] == Some(Distance(future, frames[j], 0))
    {
      assert frames[j] in frames;
    }
    assert d0[0].Some?;
    var k0 := PickFarthest(d0);
    assert IsFirstFarthest(d1, k0);
    FirstFarthestUnique(d1, k0, PickFarthest(d1));
  }

  /** Searching from the current reference, which is not resident, instead
      of after it adds one to every distance. */
  lemma CurrentKeepsChoice(frames: seq<int>, pages: seq<int>, i: nat)
    requires i < |pages| && |frames| > 0 && pages[i] !in frames
    ensures FarthestPage(frames, pages[i..], 0, false) == FarthestPage(frames, pages[i + 1..], 1, false)
  {
    assert pages[i..] == [pages[i]] + pages[i + 1..];
    forall j | 0 <= j < |frames|
      ensures Distance(pages[i..], frames[j], 0) == Distance(pages[i + 1..], frames[j], 1)
    {
      assert frames[j] in frames;
      DistanceFromCurrent(pages[i], pages[i + 1..], frames[j]);
    }
    assert Distances(frames, pages[i..], 0, false) == Distances(frames, pages[i + 1..], 1, false);
  }

  /** The three lookahead forms choose the same victim: the current page is
      not resident on a fault, so every distance shifts by the same amount. */
  lemma VictimChoiceAgrees(frames: seq<int>, pages: seq<int>, i: nat, look: Lookahead)
    requires i < |pages| && |frames| > 0 && EMPTY !in frames && pages[i] !in frames
    ensures Victim(frames, pages, i, look) == Victim(frames, pages, i, AfterCurrent)
  {
    assert frames[0] in frames;
    OffsetKeepsChoice(frames, pages[i + 1..]);
    if look == FromCurrent {
      CurrentKeepsChoice(frames, pages, i);
    }
  }

  /** One reference of the Optimal loop on the frames: a hit leaves them
      alone; a fault fills the lowest free slot, or else overwrites the
      victim's slot. The fault counter is not part of the state: every
      simulator's counter is proved equal to the number of raised flags in
      its history. */
  function Step(frames: seq<int>, pages: seq<int>, i: nat, look: Lookahead): (r: seq<int>)
    requires i < |pages| && pages[i] != EMPTY && |frames| > 0 && DistinctPages(frames)
    ensures DistinctPages(r) && |r| == |frames| && pages[i] in r
  {
    var page := pages[i];
    if page in frames then frames
    else if EMPTY in frames then
      ReplaceResidents(frames, EMPTY, page);
      Replace(frames, EMPTY, page)
    else
      var victim := Victim(frames, pages, i, look);
      ReplaceResidents(frames, victim, page);
      Replace(frames, victim, page)
  }

  /** The frames after the first k references of `pages` on n frames. */
  function After(n: nat, pages: seq<int>, k: nat, look: Lookahead): (frames: seq<int>)
    requires k <= |pages| && ValidSequence(pages) && (n > 0 || k == 0)
    ensures DistinctPages(frames) && |frames| == n
    ensures 0 < k ==> pages[k - 1] in frames
    decreases k
  {
    if k == 0 then EmptyFrames(n)
    else Step(After(n, pages, k - 1, look), pages, k - 1, look)
  }

  /** The pre-step history of a run. */
  function History(n: nat, pages: seq<int>, look: Lookahead): (h: seq<StepRecord>)
    requires ValidSequence(pages) && (n > 0 || |pages| == 0)
    ensures |h| == |pages|
  {
    seq(|pages|, j requires 0 <= j < |pages| => Record(pages[j], After(n, pages, j, look)))
  }

  /** Entry j of the history: the page referenced, the frames before it and
      whether it faulted. */
  lemma HistoryAt(n: nat, pages: seq<int>, j: nat, look: Lookahead)
    requires ValidSequence(pages) && (n > 0 || |pages| == 0) && j < |pages|
    ensures History(n, pages, look)[j] == Record(pages[j], After(n, pages, j, look))
  {
  }

  /** If two lookahead forms agree on the state before reference k - 1,
      they agree on the state after it. */
  lemma LookaheadStep(n: nat, pages: seq<int>, k: nat, look: Lookahead)
    requires 0 < k <= |pages| && ValidSequence(pages) && n > 0
    requires After(n, pages, k - 1, look) == After(n, pages, k - 1, AfterCurrent)
    ensures After(n, pages, k, look) == After(n, pages, k, AfterCurrent)
  {
    var s := After(n, pages, k - 1, AfterCurrent);
    if pages[k - 1] !in s && EMPTY !in s {
      VictimChoiceAgrees(s, pages, k - 1, look);
    }
    assert After(n, pages, k, look) == Step(s, pages, k - 1, look);
    assert After(n, pages, k, AfterCurrent) == Step(s, pages, k - 1, AfterCurrent);
  }

  /** Whatever future the simulator searches, the run is the same. */
  lemma {:induction false} LookaheadIrrelevant(n: nat, pages: seq<int>, k: nat, look: Lookahead)
    requires k <= |pages| && ValidSequence(pages) && n > 0
    ensures After(n, pages, k, look) == After(n, pages, k, AfterCurrent)
  {
    if k > 0 {
      LookaheadIrrelevant(n, pages, k - 1, look);
      LookaheadStep(n, pages, k, look);
    }
  }

  lemma HistoryIrrelevant(n: nat, pages: seq<int>, look: Lookahead)
    requires ValidSequence(pages) && (n > 0 || |pages| == 0)
    ensures History(n, pages, look) == History(n, pages, AfterCurrent)
  {
    forall j | 0 <= j < |pages|
      ensures History(n, pages, look)[j] == History(n, pages, AfterCurrent)[j]
    {
      HistoryAt(n, pages, j, look);
      HistoryAt(n, pages, j, AfterCurrent);
      LookaheadIrrelevant(n, pages, j, look);
    }
  }

  /** Every resident page has been referenced. */
  lemma {:induction false} ResidentsWereReferenced(n: nat, pages: seq<int>, k: nat, look: Lookahead)
    requires ValidSequence(pages) && n > 0 && k <= |pages|
    ensures forall q :: q in After(n, pages, k, look) && q != EMPTY ==> q in pages[..k]
  {
    if k > 0 {
      ResidentsWereReferenced(n, pages, k - 1, look);
      var s := After(n, pages, k - 1, look);
      var r := After(n, pages, k, look);
      var page := pages[k - 1];
      assert r == Step(s, pages, k - 1, look);
      if page !in s {
        var victim := if EMPTY in s then EMPTY else Victim(s, pages, k - 1, look);
        ReplaceResidents(s, victim, page);
      }
      forall q | q in r && q != EMPTY
        ensures q in pages[..k]
      {
        if q == page {
          assert pages[..k][k - 1] == q;
        } else {
          assert q in pages[..k - 1];
          var a :| 0 <= a < k - 1 && pages[..k - 1][a] == q;
          assert pages[..k][a] == q;
        }
      }
    }
  }

  /** A page that has never been referenced before is not resident, so its
      first reference is a fault. */
  lemma FirstReferenceFaults(n: nat, pages: seq<int>, k: nat, look: Lookahead)
    requires ValidSequence(pages) && n > 0 && k < |pages|
    requires pages[k] !in pages[..k]
    ensures History(n, pages, look)[k].pageFault
  {
    HistoryAt(n, pages, k, look);
    ResidentsWereReferenced(n, pages, k, look);
  }

  /** The history replays: from each record's snapshot, a hit leaves the
      frames unchanged, a fault with a free slot writes the page into the
      lowest free slot, and a fault on full frames overwrites the slot of
      the resident page whose next reference after this one lies farthest
      away, every page in a lower slot being referenced strictly sooner. */
  lemma Replay(n: nat, pages: seq<int>, j: nat)
    requires ValidSequence(pages) && n > 0 && j < |pages|
    ensures var before := After(n, pages, j, AfterCurrent);
            var after := After(n, pages, j + 1, AfterCurrent);
            var future := pages[j + 1..];
            && (pages[j] in before ==> after == before)
            && (pages[j] !in before && EMPTY in before ==> after == Replace(before, EMPTY, pages[j]))
            && (pages[j] !in before && EMPTY !in before ==>
                  exists v :: v in before && after == Replace(before, v, pages[j])
                    && (forall q :: q in before ==> !Farther(Distance(future, q, 0), Distance(future, v, 0)))
                    && (forall i :: 0 <= i < IndexOf(before, v).value ==>
                          Farther(Distance(future, v, 0), Distance(future, before[i], 0))))
  {
    var before := After(n, pages, j, AfterCurrent);
    if pages[j] !in before && EMPTY !in before {
      var v := Victim(before, pages, j, AfterCurrent);
      assert forall i :: 0 <= i < |before| ==> before[i] != EMPTY;
    }
  }

  /** While the distinct pages referenced so far fit in the frames, nothing
      is evicted: the frames hold exactly the pages referenced, one per
      occupied slot. */
  lemma {:induction false} RoomForAll(n: nat, pages: seq<int>, k: nat)
    requires ValidSequence(pages) && n > 0 && k <= |pages| && DistinctCount(pages[..k]) <= n
    ensures HoldsExactly(After(n, pages, k, AfterCurrent), pages[..k])
    ensures Occupied(After(n, pages, k, AfterCurrent)) == DistinctCount(pages[..k])
  {
    if k == 0 {
      EmptyFramesUnoccupied(n);
    } else {
      DistinctCountPrefix(pages, k - 1);
      RoomForAll(n, pages, k - 1);
      Replay(n, pages, k - 1);
      PrefixSnoc(pages, k);
      RoomStep(After(n, pages, k - 1, AfterCurrent), After(n, pages, k, AfterCurrent), pages[k - 1], pages[..k - 1]);
    }
  }

  /** With room for every distinct page, a reference faults exactly when it
      is the first reference to its page, so the first k references fault
      once per distinct page among them. */
  lemma {:induction false} FaultsWhenAllFit(n: nat, pages: seq<int>, k: nat)
    requires ValidSequence(pages) && n > 0 && k <= |pages| && DistinctCount(pages[..k]) <= n
    ensures FaultCount(History(n, pages, AfterCurrent)[..k]) == DistinctCount(pages[..k])
  {
    if k == 0 {
      assert History(n, pages, AfterCurrent)[..0] == [];
    } else {
      DistinctCountPrefix(pages, k - 1);
      FaultsWhenAllFit(n, pages, k - 1);
      RoomForAll(n, pages, k - 1);
      HistoryAt(n, pages, k - 1, AfterCurrent);
      FaultCountPrefix(History(n, pages, AfterCurrent), k - 1);
    }
  }

  /** When the frames can hold every distinct page of the string, the run
      faults once per distinct page. */
  lemma AllFitFaultsOnce(n: nat, pages: seq<int>)
    requires ValidSequence(pages) && n > 0 && |set q | q in pages| <= n
    ensures FaultCount(History(n, pages, AfterCurrent)) == |set q | q in pages|
  {
    DistinctCountIsCard(pages);
    assert pages[..|pages|] == pages;
    FaultsWhenAllFit(n, pages, |pages|);
    assert History(n, pages, AfterCurrent)[..|pages|] == History(n, pages, AfterCurrent);
  }
}
