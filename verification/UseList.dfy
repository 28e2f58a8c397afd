/** Lists of chunk numbers: which chunks are buffered or idle, and the order of use. */
module UseList {

  const CHUNKS := 8

  ghost predicate NoDuplicates(s: seq<int>) {
    forall i, j | 0 <= i < j < |s| :: s[i] != s[j]
  }

  ghost function Elems(s: seq<int>): set<int> {
    set x | x in s
  }

  /** Every chunk is in exactly one list, or is `away` from both. */
  ghost predicate Partition(buffered: seq<int>, idle: seq<int>, away: set<int>) {
    && NoDuplicates(buffered) && NoDuplicates(idle)
    && Elems(buffered) !! Elems(idle) && away !! Elems(buffered) && away !! Elems(idle)
    && Elems(buffered) + Elems(idle) + away == {0, 1, 2, 3, 4, 5, 6, 7}
  }

  /** The list is ordered by last use, the latest first. */
  ghost predicate Recency(buffered: seq<int>, lastUse: seq<int>, tick: int) {
    && |lastUse| == CHUNKS
    && (forall i | 0 <= i < |buffered| :: 0 <= buffered[i] < CHUNKS && lastUse[buffered[i]] <= tick)
    && (forall i, j | 0 <= i < j < |buffered| :: lastUse[buffered[i]] > lastUse[buffered[j]])
  }

  function MoveToFront(s: seq<int>, k: int): (r: seq<int>)
    requires 0 <= k < |s|
  {
    [s[k]] + s[..k] + s[k + 1..]
  }

  lemma {:induction false} MoveToFrontElems(s: seq<int>, k: int)
    requires 0 <= k < |s| && NoDuplicates(s)
    ensures NoDuplicates(MoveToFront(s, k)) && Elems(MoveToFront(s, k)) == Elems(s)
  {
    var t := MoveToFront(s, k);
    assert forall i | 0 <= i < |s| :: t[i] == s[if i == 0 then k else if i <= k then i - 1 else i];
    forall x | x in s ensures x in t {
      var i :| 0 <= i < |s| && s[i] == x;
      assert t[if i == k then 0 else if i < k then i + 1 else i] == x;
    }
  }

  /** A use moves the chunk to the front. */
  lemma {:induction false} UsedRecency(s: seq<int>, k: int, lastUse: seq<int>, tick: int)
    requires 0 <= k < |s| && NoDuplicates(s) && Recency(s, lastUse, tick)
    ensures Recency(MoveToFront(s, k), lastUse[s[k] := tick + 1], tick + 1)
  {
    var t := MoveToFront(s, k);
    assert forall i | 0 <= i < |s| :: t[i] == s[if i == 0 then k else if i <= k then i - 1 else i];
  }

  /** So does an insertion. */
  lemma InsertedRecency(s: seq<int>, c: int, lastUse: seq<int>, tick: int)
    requires c !in s && 0 <= c < CHUNKS && Recency(s, lastUse, tick)
    ensures Recency([c] + s, lastUse[c := tick + 1], tick + 1)
  {
    var t := [c] + s;
    forall i | 0 <= i < |s| ensures s[i] != c {
      var x := s[i];
      assert x in s;
    }
  }

  lemma InitRecency(s: seq<int>, lastUse: seq<int>, tick: int)
    requires s != [] && Recency(s, lastUse, tick)
    ensures Recency(s[..|s| - 1], lastUse, tick)
    ensures forall c | c in s :: 0 <= c < CHUNKS && lastUse[s[|s| - 1]] <= lastUse[c]
  {
    forall c | c in s ensures 0 <= c < CHUNKS && lastUse[s[|s| - 1]] <= lastUse[c] {
      var i :| 0 <= i < |s| && s[i] == c;
    }
  }

  lemma ElemsPrepend(s: seq<int>, c: int)
    ensures Elems([c] + s) == {c} + Elems(s)
    ensures NoDuplicates(s) && c !in s ==> NoDuplicates([c] + s)
  {
    var t := [c] + s;
    assert forall i | 0 < i < |t| :: t[i] == s[i - 1];
    forall x | x in s ensures x in t {
      var i :| 0 <= i < |s| && s[i] == x;
      assert t[i + 1] == x;
    }
    if c !in s {
      forall i | 0 <= i < |s| ensures s[i] != c {
        var x := s[i];
        assert x in s;
      }
    }
  }

  lemma ElemsAppend(s: seq<int>, c: int)
    ensures Elems(s + [c]) == Elems(s) + {c}
    ensures NoDuplicates(s) && c !in s ==> NoDuplicates(s + [c])
  {
    var t := s + [c];
    assert t[|s|] == c;
    forall x | x in s ensures x in t {
      var i :| 0 <= i < |s| && s[i] == x;
      assert t[i] == x;
    }
    if c !in s {
      forall i | 0 <= i < |s| ensures s[i] != c {
        var x := s[i];
        assert x in s;
      }
    }
  }

  lemma ElemsInit(s: seq<int>)
    requires s != [] && NoDuplicates(s)
    ensures NoDuplicates(s[..|s| - 1]) && Elems(s[..|s| - 1]) == Elems(s) - {s[|s| - 1]} && s[|s| - 1] in Elems(s)
  {
    var t := s[..|s| - 1];
    assert t + [s[|s| - 1]] == s;
    ElemsAppend(t, s[|s| - 1]);
  }

  lemma ElemsTail(s: seq<int>)
    requires s != [] && NoDuplicates(s)
    ensures NoDuplicates(s[1..]) && Elems(s[1..]) == Elems(s) - {s[0]} && s[0] in Elems(s)
  {
    var t := s[1..];
    assert [s[0]] + t == s;
    ElemsPrepend(t, s[0]);
  }

  /** The least recently used buffered chunk leaves its list. */
  lemma {:induction false} TakeLast(buffered: seq<int>, idle: seq<int>, lastUse: seq<int>, tick: int)
    requires Partition(buffered, idle, {}) && Recency(buffered, lastUse, tick) && buffered != []
    ensures var c := buffered[|buffered| - 1];
            && 0 <= c < CHUNKS && c in Elems(buffered) && Elems(buffered[..|buffered| - 1]) == Elems(buffered) - {c}
            && Partition(buffered[..|buffered| - 1], idle, {c}) && Recency(buffered[..|buffered| - 1], lastUse, tick)
            && forall d | d in Elems(buffered) :: 0 <= d < CHUNKS && lastUse[c] <= lastUse[d]
  {
    ElemsInit(buffered);
    InitRecency(buffered, lastUse, tick);
  }

  /** An idle chunk leaves its list. */
  lemma TakeIdle(buffered: seq<int>, idle: seq<int>)
    requires Partition(buffered, idle, {}) && idle != []
    ensures var c := idle[0];
            0 <= c < CHUNKS && c !in Elems(buffered) && Partition(buffered, idle[1..], {c})
  {
    ElemsTail(idle);
  }

  /** Some chunk is always there to be taken. */
  lemma NeverEmpty(buffered: seq<int>, idle: seq<int>)
    requires Partition(buffered, idle, {}) && idle == []
    ensures buffered != []
  {
    assert 0 in Elems(buffered) + Elems(idle);
  }

  lemma PutFront(buffered: seq<int>, idle: seq<int>, c: int, lastUse: seq<int>, tick: int)
    requires Partition(buffered, idle, {c}) && Recency(buffered, lastUse, tick)
    ensures 0 <= c < CHUNKS == |lastUse| && Partition([c] + buffered, idle, {}) && Recency([c] + buffered, lastUse[c := tick + 1], tick + 1)
    ensures Elems([c] + buffered) == Elems(buffered) + {c}
  {
    assert c in {0, 1, 2, 3, 4, 5, 6, 7} && c !in Elems(buffered);
    ElemsPrepend(buffered, c);
    InsertedRecency(buffered, c, lastUse, tick);
  }

  lemma PutIdle(buffered: seq<int>, idle: seq<int>, c: int)
    requires Partition(buffered, idle, {c})
    ensures Partition(buffered, idle + [c], {})
  {
    assert c !in Elems(idle);
    ElemsAppend(idle, c);
  }

  lemma InRange(buffered: seq<int>, idle: seq<int>, away: set<int>, c: int)
    requires Partition(buffered, idle, away) && c in buffered
    ensures 0 <= c < CHUNKS && c in Elems(buffered)
  {
    assert c in Elems(buffered) + Elems(idle) + away;
    assert c in {0, 1, 2, 3, 4, 5, 6, 7};
  }

  lemma AwayNotIn(buffered: seq<int>, idle: seq<int>, c: int)
    requires Partition(buffered, idle, {c})
    ensures 0 <= c < CHUNKS && c !in Elems(buffered)
  {
    assert c in {0, 1, 2, 3, 4, 5, 6, 7};
  }

  lemma AllIdle()
    ensures Partition([], [0, 1, 2, 3, 4, 5, 6, 7], {}) && Recency([], [0, 0, 0, 0, 0, 0, 0, 0], 0) && Elems([]) == {}
  {
    var s := [0, 1, 2, 3, 4, 5, 6, 7];
    forall i | 0 <= i < 8 ensures i in s {
      assert s[i] == i;
    }
    assert Elems(s) == {0, 1, 2, 3, 4, 5, 6, 7};
  }
}
