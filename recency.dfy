/** The `OrderedDict` the LRU simulators use as a recency tracker. Keys are
    the only thing the simulators ever read from it (the stored values are
    always `True`), so it is modelled as the sequence of its keys in
    insertion order, oldest first. */
module Recency {

  ghost predicate Distinct(s: seq<int>) {
    forall i, j :: 0 <= i < j < |s| ==> s[i] != s[j]
  }

  /** `del od[x]`: x leaves, every other key stays in its relative order. */
  function Delete(s: seq<int>, x: int): (r: seq<int>)
    ensures forall y :: y in r <==> y in s && y != x
    ensures |r| <= |s|
  {
    if |s| == 0 then []
    else
      var last := s[|s| - 1];
      assert s == s[..|s| - 1] + [last];
      if last == x then Delete(s[..|s| - 1], x) else Delete(s[..|s| - 1], x) + [last]
  }

  /** On a tracker whose keys are distinct, deleting a present key removes
      exactly one entry. */
  lemma {:induction false} DeleteOne(s: seq<int>, x: int)
    requires Distinct(s) && x in s
    ensures |Delete(s, x)| == |s| - 1
  {
    var init := s[..|s| - 1];
    assert s == init + [s[|s| - 1]];
    if s[|s| - 1] == x {
      assert x !in init;
      DeleteAbsent(init, x);
    } else {
      assert x in init;
      DeleteOne(init, x);
    }
  }

  /** Deleting an absent key changes nothing. */
  lemma {:induction false} DeleteAbsent(s: seq<int>, x: int)
    requires x !in s
    ensures Delete(s, x) == s
  {
    if |s| > 0 {
      var init := s[..|s| - 1];
      assert s == init + [s[|s| - 1]];
      DeleteAbsent(init, x);
    }
  }

  /** `if x in od: del od[x]` followed by `od[x] = True`: x becomes the
      newest key and no other key is added or lost. */
  function Touch(s: seq<int>, x: int): (r: seq<int>)
    ensures |r| > 0 && r[|r| - 1] == x
    ensures forall y :: y in r <==> y in s || y == x
  {
    (if x in s then Delete(s, x) else s) + [x]
  }

  /** Position of the last reference to x in s, or -1 if x was never referenced. */
  function LastIndex(s: seq<int>, x: int): (r: int)
    ensures -1 <= r < |s|
    ensures r == -1 <==> x !in s
    ensures 0 <= r ==> s[r] == x && forall j :: r < j < |s| ==> s[j] != x
  {
    if |s| == 0 then -1
    else if s[|s| - 1] == x then |s| - 1
    else
      assert s == s[..|s| - 1] + [s[|s| - 1]];
      LastIndex(s[..|s| - 1], x)
  }

  lemma LastIndexAppend(s: seq<int>, p: int, y: int)
    ensures LastIndex(s + [p], y) == if y == p then |s| else LastIndex(s, y)
  {
    assert (s + [p])[..|s|] == s;
  }

  /** Every key was referenced in `prefix`, and the keys appear in the order
      of their last reference: oldest-referenced first. */
  ghost predicate OrderedByRecency(tracker: seq<int>, prefix: seq<int>) {
    && (forall a :: 0 <= a < |tracker| ==> tracker[a] in prefix)
    && (forall a, b :: 0 <= a < b < |tracker| ==>
          LastIndex(prefix, tracker[a]) < LastIndex(prefix, tracker[b]))
  }

  /** Appending a key referenced after every key of an ordered tracker keeps
      it ordered. */
  lemma OrderedSnoc(t: seq<int>, z: int, prefix: seq<int>)
    requires OrderedByRecency(t, prefix) && z in prefix
    requires forall y :: y in t ==> LastIndex(prefix, y) < LastIndex(prefix, z)
    ensures OrderedByRecency(t + [z], prefix)
  {
    var r := t + [z];
    forall a, b | 0 <= a < b < |r|
      ensures LastIndex(prefix, r[a]) < LastIndex(prefix, r[b])
    {
      assert r[a] == t[a];
      if b < |t| {
        assert r[b] == t[b];
      } else {
        assert t[a] in t;
      }
    }
  }

  lemma {:induction false} DeleteKeepsOrder(s: seq<int>, x: int, prefix: seq<int>)
    requires OrderedByRecency(s, prefix)
    ensures OrderedByRecency(Delete(s, x), prefix)
  {
    if |s| > 0 {
      var init := s[..|s| - 1];
      var last := s[|s| - 1];
      assert s == init + [last];
      assert OrderedByRecency(init, prefix) by {
        forall a, b | 0 <= a < b < |init|
          ensures LastIndex(prefix, init[a]) < LastIndex(prefix, init[b])
        {
          assert init[a] == s[a] && init[b] == s[b];
        }
      }
      DeleteKeepsOrder(init, x, prefix);
      if last != x {
        forall y | y in Delete(init, x)
          ensures LastIndex(prefix, y) < LastIndex(prefix, last)
        {
          var a :| 0 <= a < |init| && init[a] == y;
          assert s[a] == y;
        }
        OrderedSnoc(Delete(init, x), last, prefix);
      }
    }
  }

  /** A reference to a page that is not a key does not reorder the keys. */
  lemma ExtendKeepsOrder(t: seq<int>, p: int, prefix: seq<int>)
    requires OrderedByRecency(t, prefix) && p !in t
    ensures OrderedByRecency(t, prefix + [p])
  {
    forall a | 0 <= a < |t|
      ensures t[a] in prefix + [p]
    {
      assert t[a] in prefix;
    }
    forall a, b | 0 <= a < b < |t|
      ensures LastIndex(prefix + [p], t[a]) < LastIndex(prefix + [p], t[b])
    {
      assert t[a] in t && t[b] in t;
      LastIndexAppend(prefix, p, t[a]);
      LastIndexAppend(prefix, p, t[b]);
    }
  }

  /** Referencing p (and recording it with Touch) keeps the tracker ordered
      by recency with respect to the extended reference prefix. */
  lemma TouchKeepsOrder(s: seq<int>, p: int, prefix: seq<int>)
    requires OrderedByRecency(s, prefix)
    ensures OrderedByRecency(Touch(s, p), prefix + [p])
  {
    var t := if p in s then Delete(s, p) else s;
    if p in s {
      DeleteKeepsOrder(s, p, prefix);
    }
    ExtendKeepsOrder(t, p, prefix);
    forall y | y in t
      ensures LastIndex(prefix + [p], y) < LastIndex(prefix + [p], p)
    {
      LastIndexAppend(prefix, p, y);
      LastIndexAppend(prefix, p, p);
    }
    OrderedSnoc(t, p, prefix + [p]);
  }

  /** The oldest key of an ordered tracker is the least recently referenced one. */
  lemma OldestIsLeastRecent(tracker: seq<int>, prefix: seq<int>, q: int)
    requires OrderedByRecency(tracker, prefix) && |tracker| > 0
    requires q in tracker && q != tracker[0]
    ensures LastIndex(prefix, tracker[0]) < LastIndex(prefix, q)
  {
    var b :| 0 <= b < |tracker| && tracker[b] == q;
    assert b > 0;
  }
}
