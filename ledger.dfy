/**
 * The ranked ledger of retained checkpoints and the patience counter of
 * `ModelCheckpoint` (src/utils/model_checkpoint.py), as pure values.
 *
 * A ledger entry is a pair (score, epoch). The ledger is kept sorted
 * best-first: by descending score in mode "max" (Python's `reverse=True`)
 * and by ascending score in mode "min". Scores are only ever compared.
 */
module Ledger {
  import opened Wrappers

  /** A metric value. Only its order matters to the ledger. */
  type Value = int

  datatype Mode = Max | Min

  /** One retained observation: `(val, epoch)` in the source. */
  datatype Entry = Entry(val: Value, epoch: int)

  /** The mutable part of a `ModelCheckpoint`: `history`, `patience_count`, `to_remove`. */
  datatype State = State(history: seq<Entry>, patienceCount: int, toRemove: Option<int>)

  /** The exception `_update_history` can raise: `min`/`max` of an empty list. */
  datatype LedgerError = EmptyHistory

  /** `self.reverse`: true exactly in mode "max". */
  function Reverse(mode: Mode): bool
  {
    mode == Max
  }

  /** Score `a` goes strictly before score `b` in a list sorted with `reverse`. */
  predicate Precedes(reverse: bool, a: Value, b: Value)
  {
    if reverse then a > b else a < b
  }

  /** Score `a` is at least as good as `b` under `mode`. */
  predicate AtLeastAsGood(mode: Mode, a: Value, b: Value)
  {
    if mode == Max then a >= b else a <= b
  }

  /** The full-ledger rejection test `val < min(...)` (max) / `val > max(...)` (min). */
  predicate StrictlyWorse(mode: Mode, v: Value, worst: Value)
  {
    if mode == Max then v < worst else v > worst
  }

  /** No later entry goes strictly before an earlier one: best-first order. */
  ghost predicate Sorted(reverse: bool, h: seq<Entry>)
  {
    forall i, j :: 0 <= i < j < |h| ==> !Precedes(reverse, h[j].val, h[i].val)
  }

  /**
   * Stable insertion of `x`: it goes before the first entry it strictly
   * precedes, so after every entry with an equal score.
   */
  function Insert(reverse: bool, h: seq<Entry>, x: Entry): (r: seq<Entry>)
    ensures |r| == |h| + 1
    ensures multiset(r) == multiset(h) + multiset{x}
  {
    if h == [] then [x]
    else if Precedes(reverse, x.val, h[0].val) then [x] + h
    else
      assert h == [h[0]] + h[1..];
      [h[0]] + Insert(reverse, h[1..], x)
  }

  /**
   * Python's `sorted(s, reverse=reverse, key=lambda x: x[0])`: a stable sort
   * on the score, written as an insertion sort that inserts each element of
   * `s`, left to right, after the equal ones already placed.
   */
  function Sort(reverse: bool, s: seq<Entry>): (r: seq<Entry>)
    ensures Sorted(reverse, r)
    ensures multiset(r) == multiset(s)
  {
    if s == [] then []
    else
      var p := Sort(reverse, s[..|s| - 1]);
      InsertKeepsSorted(reverse, p, s[|s| - 1]);
      DropLast(s);
      Insert(reverse, p, s[|s| - 1])
  }

  /** The position at which `Insert` places `x`. */
  function InsertPos(reverse: bool, h: seq<Entry>, x: Entry): (p: nat)
    ensures p <= |h|
  {
    if h == [] || Precedes(reverse, x.val, h[0].val) then 0
    else 1 + InsertPos(reverse, h[1..], x)
  }

  lemma {:induction false} InsertAt(reverse: bool, h: seq<Entry>, x: Entry)
    ensures Insert(reverse, h, x) == h[..InsertPos(reverse, h, x)] + [x] + h[InsertPos(reverse, h, x)..]
  {
    if h != [] && !Precedes(reverse, x.val, h[0].val) {
      var t := h[1..];
      var q := InsertPos(reverse, t, x);
      assert Insert(reverse, h, x) == [h[0]] + Insert(reverse, t, x);
      InsertAt(reverse, t, x);
      ConsSplit(h, q, x);
    }
  }

  /** Splitting the tail of `h` at `q` is splitting `h` at `q + 1`. */
  lemma ConsSplit(h: seq<Entry>, q: nat, x: Entry)
    requires h != [] && q <= |h| - 1
    ensures [h[0]] + (h[1..][..q] + [x] + h[1..][q..]) == h[..q + 1] + [x] + h[q + 1..]
  {
    assert h[..q + 1] == [h[0]] + h[1..][..q];
    assert h[q + 1..] == h[1..][q..];
  }

  /** Every entry before the insertion point is at least as good as `x`. */
  lemma {:induction false} InsertPosBefore(reverse: bool, h: seq<Entry>, x: Entry)
    ensures forall j :: 0 <= j < InsertPos(reverse, h, x) ==> !Precedes(reverse, x.val, h[j].val)
  {
    if h != [] && !Precedes(reverse, x.val, h[0].val) {
      InsertPosBefore(reverse, h[1..], x);
      forall j | 1 <= j < InsertPos(reverse, h, x) ensures !Precedes(reverse, x.val, h[j].val) {
        assert h[j] == h[1..][j - 1];
      }
    }
  }

  /** On a sorted ledger every entry from the insertion point on is strictly worse than `x`. */
  lemma {:induction false} InsertPosAfter(reverse: bool, h: seq<Entry>, x: Entry)
    requires Sorted(reverse, h)
    ensures forall j :: InsertPos(reverse, h, x) <= j < |h| ==> Precedes(reverse, x.val, h[j].val)
  {
    if h != [] {
      if Precedes(reverse, x.val, h[0].val) {
        forall j | 0 < j < |h| ensures Precedes(reverse, x.val, h[j].val) {
          assert !Precedes(reverse, h[j].val, h[0].val);
        }
      } else {
        assert Sorted(reverse, h[1..]);
        InsertPosAfter(reverse, h[1..], x);
        forall j | InsertPos(reverse, h, x) <= j < |h| ensures Precedes(reverse, x.val, h[j].val) {
          assert h[j] == h[1..][j - 1];
        }
      }
    }
  }

  /**
   * Insertion into a sorted ledger is stable: every entry before `x` is at
   * least as good as `x`, every entry after it is strictly worse, and the
   * old entries keep their relative order.
   */
  lemma InsertStable(reverse: bool, h: seq<Entry>, x: Entry)
    requires Sorted(reverse, h)
    ensures var p := InsertPos(reverse, h, x);
      Insert(reverse, h, x) == h[..p] + [x] + h[p..] &&
      (forall j :: 0 <= j < p ==> !Precedes(reverse, x.val, h[j].val)) &&
      (forall j :: p <= j < |h| ==> Precedes(reverse, x.val, h[j].val))
  {
    InsertAt(reverse, h, x);
    InsertPosBefore(reverse, h, x);
    InsertPosAfter(reverse, h, x);
  }

  /** A sorted list stays sorted with an entry in front that no element of it strictly precedes. */
  lemma SortedCons(reverse: bool, a: Entry, t: seq<Entry>)
    requires Sorted(reverse, t)
    requires forall e :: e in t ==> !Precedes(reverse, e.val, a.val)
    ensures Sorted(reverse, [a] + t)
  {
    var r := [a] + t;
    forall i, j | 0 <= i < j < |r| ensures !Precedes(reverse, r[j].val, r[i].val) {
      assert r[j] == t[j - 1];
      if i > 0 {
        assert r[i] == t[i - 1];
      }
    }
  }

  lemma {:induction false} InsertKeepsSorted(reverse: bool, h: seq<Entry>, x: Entry)
    requires Sorted(reverse, h)
    ensures Sorted(reverse, Insert(reverse, h, x))
  {
    if h == [] {
    } else if Precedes(reverse, x.val, h[0].val) {
      forall e | e in h ensures !Precedes(reverse, e.val, x.val) {
        var i :| 0 <= i < |h| && h[i] == e;
        assert i == 0 || !Precedes(reverse, h[i].val, h[0].val);
      }
      SortedCons(reverse, x, h);
    } else {
      var t := h[1..];
      assert Sorted(reverse, t);
      InsertKeepsSorted(reverse, t, x);
      forall e | e in Insert(reverse, t, x) ensures !Precedes(reverse, e.val, h[0].val) {
        assert e in multiset(Insert(reverse, t, x));
        if e != x {
          var i :| 0 <= i < |t| && t[i] == e;
          assert h[i + 1] == e;
        }
      }
      SortedCons(reverse, h[0], Insert(reverse, t, x));
    }
  }

  /** An entry no element strictly follows goes at the end. */
  lemma {:induction false} InsertAtEnd(reverse: bool, p: seq<Entry>, x: Entry)
    requires forall j :: 0 <= j < |p| ==> !Precedes(reverse, x.val, p[j].val)
    ensures Insert(reverse, p, x) == p + [x]
  {
    if p != [] {
      assert !Precedes(reverse, x.val, p[0].val);
      InsertAtEnd(reverse, p[1..], x);
      assert p == [p[0]] + p[1..];
    }
  }

  lemma SortedPrefix(reverse: bool, h: seq<Entry>, n: nat)
    requires Sorted(reverse, h) && n <= |h|
    ensures Sorted(reverse, h[..n])
  {
  }

  /** No earlier entry of a sorted list is strictly preceded by its last one. */
  lemma SortedLastGoesAtEnd(reverse: bool, h: seq<Entry>, p: seq<Entry>)
    requires h != [] && Sorted(reverse, h) && p == h[..|h| - 1]
    ensures forall j :: 0 <= j < |p| ==> !Precedes(reverse, h[|h| - 1].val, p[j].val)
  {
    forall j | 0 <= j < |p| ensures !Precedes(reverse, h[|h| - 1].val, p[j].val) {
      assert p[j] == h[j];
    }
  }

  /** A non-empty list is its front followed by its last entry. */
  lemma Snoc(h: seq<Entry>)
    requires h != []
    ensures h == h[..|h| - 1] + [h[|h| - 1]]
  {
  }

  /** Sorting a list that is already sorted leaves it unchanged (stability). */
  lemma {:induction false} SortOfSorted(reverse: bool, h: seq<Entry>)
    requires Sorted(reverse, h)
    ensures Sort(reverse, h) == h
  {
    if h != [] {
      var n := |h|;
      var p := h[..n - 1];
      SortedPrefix(reverse, h, n - 1);
      SortOfSorted(reverse, p);
      SortedLastGoesAtEnd(reverse, h, p);
      InsertAtEnd(reverse, p, h[n - 1]);
      Snoc(h);
    }
  }

  /**
   * What `history.append((val, epoch)); history = sorted(...)` computes on a
   * sorted history: the stable insertion of the new pair.
   */
  lemma SortAppend(reverse: bool, h: seq<Entry>, x: Entry)
    requires Sorted(reverse, h)
    ensures Sort(reverse, h + [x]) == Insert(reverse, h, x)
  {
    assert (h + [x])[..|h + [x]| - 1] == h;
    SortOfSorted(reverse, h);
  }

  /** Python's `min(h, key=lambda x: x[0])[0]`. */
  function MinScore(h: seq<Entry>): (m: Value)
    requires h != []
    ensures forall e :: e in h ==> m <= e.val
    ensures exists e :: e in h && e.val == m
  {
    if |h| == 1 then h[0].val
    else
      var rest := MinScore(h[1..]);
      assert forall e :: e in h[1..] ==> e in h;
      assert h[0] in h;
      if h[0].val <= rest then h[0].val else rest
  }

  /** Python's `max(h, key=lambda x: x[0])[0]`. */
  function MaxScore(h: seq<Entry>): (m: Value)
    requires h != []
    ensures forall e :: e in h ==> m >= e.val
    ensures exists e :: e in h && e.val == m
  {
    if |h| == 1 then h[0].val
    else
      var rest := MaxScore(h[1..]);
      assert forall e :: e in h[1..] ==> e in h;
      assert h[0] in h;
      if h[0].val >= rest then h[0].val else rest
  }

  /**
   * On a sorted ledger the last entry is the worst: every entry is at least
   * as good, and it is the score `min`/`max` finds.
   */
  lemma WorstIsLast(mode: Mode, h: seq<Entry>)
    requires h != [] && Sorted(Reverse(mode), h)
    ensures forall e :: e in h ==> AtLeastAsGood(mode, e.val, h[|h| - 1].val)
    ensures mode == Max ==> MinScore(h) == h[|h| - 1].val
    ensures mode == Min ==> MaxScore(h) == h[|h| - 1].val
  {
    var last := h[|h| - 1];
    forall e | e in h ensures AtLeastAsGood(mode, e.val, last.val) {
      var i :| 0 <= i < |h| && h[i] == e;
      assert i == |h| - 1 || !Precedes(Reverse(mode), last.val, h[i].val);
    }
  }

  lemma DropLast(h: seq<Entry>)
    requires h != []
    ensures multiset(h) == multiset(h[..|h| - 1]) + multiset{h[|h| - 1]}
  {
    Snoc(h);
  }

  /** The invariant every `ModelCheckpoint` keeps, for capacity `k` (`save_top_k`). */
  ghost predicate Inv(mode: Mode, k: int, s: State)
  {
    Sorted(Reverse(mode), s.history) &&
    (s.history == [] || |s.history| <= k) &&
    s.patienceCount >= 0 &&
    (s.toRemove.Some? ==> |s.history| == k)
  }

  /** The state of a freshly constructed `ModelCheckpoint`. */
  function Initial(): (s: State)
    ensures s.history == [] && s.patienceCount == 0 && s.toRemove == None
  {
    State([], 0, None)
  }

  lemma InitialInv(mode: Mode, k: int)
    ensures Inv(mode, k, Initial())
  {
  }

  /**
   * `_update_history_sequence`: optionally drop the last entry (recording
   * its epoch in `to_remove`), append `(val, epoch)`, re-sort, reset patience.
   */
  function UpdateSequence(mode: Mode, s: State, val: Value, epoch: int, removeLast: bool): (r: State)
    requires removeLast ==> s.history != []
    ensures r.patienceCount == 0
    ensures r.toRemove == if removeLast then Some(s.history[|s.history| - 1].epoch) else s.toRemove
  {
    if removeLast then
      State(Sort(Reverse(mode), s.history[..|s.history| - 1] + [Entry(val, epoch)]), 0,
            Some(s.history[|s.history| - 1].epoch))
    else State(Sort(Reverse(mode), s.history + [Entry(val, epoch)]), 0, s.toRemove)
  }

  /**
   * What `_update_history_sequence` leaves behind: a sorted ledger holding the
   * kept entries and the new pair, patience reset, and `to_remove` set to the
   * dropped entry's epoch exactly when one was dropped.
   */
  lemma UpdateSequenceResult(mode: Mode, s: State, val: Value, epoch: int, removeLast: bool)
    requires removeLast ==> s.history != []
    ensures var r := UpdateSequence(mode, s, val, epoch, removeLast);
      var kept := if removeLast then s.history[..|s.history| - 1] else s.history;
      Sorted(Reverse(mode), r.history) &&
      multiset(r.history) == multiset(kept) + multiset{Entry(val, epoch)} &&
      |r.history| == |kept| + 1
  {
    var kept := if removeLast then s.history[..|s.history| - 1] else s.history;
    var r := UpdateSequence(mode, s, val, epoch, removeLast);
    assert multiset(r.history) == multiset(kept + [Entry(val, epoch)]);
    assert |r.history| == |multiset(r.history)|;
  }

  /**
   * `_update_history`: fill while there is room; once full, either reject a
   * strictly worse score (patience + 1) or evict the worst entry. With an
   * empty full ledger (`save_top_k <= 0`) `min`/`max` raises.
   */
  function Update(mode: Mode, k: int, s: State, val: Value, epoch: int): (r: Result<State, LedgerError>)
    ensures r.Err? <==> |s.history| >= k && s.history == []
  {
    if |s.history| < k then Ok(UpdateSequence(mode, s, val, epoch, false))
    else if s.history == [] then Err(EmptyHistory)
    else
      var toUpdate :=
        if mode == Max && val < MinScore(s.history) then false
        else if mode == Min && val > MaxScore(s.history) then false
        else true;
      if !toUpdate then Ok(State(s.history, s.patienceCount + 1, s.toRemove))
      else Ok(UpdateSequence(mode, s, val, epoch, true))
  }

  /** While the ledger has room the pair is inserted stably, nothing is evicted and patience resets. */
  lemma UpdateFills(mode: Mode, k: int, s: State, val: Value, epoch: int)
    requires Inv(mode, k, s) && |s.history| < k
    ensures Update(mode, k, s, val, epoch) ==
      Ok(State(Insert(Reverse(mode), s.history, Entry(val, epoch)), 0, s.toRemove))
    ensures s.toRemove == None
  {
    SortAppend(Reverse(mode), s.history, Entry(val, epoch));
  }

  /** A full ledger ignores a score strictly worse than its last entry and counts one more idle round. */
  lemma UpdateRejects(mode: Mode, k: int, s: State, val: Value, epoch: int)
    requires Sorted(Reverse(mode), s.history) && |s.history| >= k && s.history != []
    requires StrictlyWorse(mode, val, s.history[|s.history| - 1].val)
    ensures Update(mode, k, s, val, epoch) == Ok(State(s.history, s.patienceCount + 1, s.toRemove))
  {
    WorstIsLast(mode, s.history);
  }

  /**
   * A full ledger given a score that is not strictly worse than its last
   * entry (an equal one included) evicts that last entry, records its epoch
   * in `to_remove`, inserts the new pair stably and resets patience.
   */
  lemma UpdateEvicts(mode: Mode, k: int, s: State, val: Value, epoch: int)
    requires Sorted(Reverse(mode), s.history) && |s.history| >= k && s.history != []
    requires !StrictlyWorse(mode, val, s.history[|s.history| - 1].val)
    ensures Update(mode, k, s, val, epoch) ==
      Ok(State(Insert(Reverse(mode), s.history[..|s.history| - 1], Entry(val, epoch)), 0,
               Some(s.history[|s.history| - 1].epoch)))
    ensures |Update(mode, k, s, val, epoch).value.history| == |s.history|
    ensures multiset(Update(mode, k, s, val, epoch).value.history) ==
      multiset(s.history) - multiset{s.history[|s.history| - 1]} + multiset{Entry(val, epoch)}
  {
    UpdateEvictsTakesBranch(mode, k, s, val, epoch);
    EvictSequence(mode, s, val, epoch);
    DropLast(s.history);
  }

  lemma UpdateEvictsTakesBranch(mode: Mode, k: int, s: State, val: Value, epoch: int)
    requires Sorted(Reverse(mode), s.history) && |s.history| >= k && s.history != []
    requires !StrictlyWorse(mode, val, s.history[|s.history| - 1].val)
    ensures Update(mode, k, s, val, epoch) == Ok(UpdateSequence(mode, s, val, epoch, true))
  {
    WorstIsLast(mode, s.history);
  }

  lemma EvictSequence(mode: Mode, s: State, val: Value, epoch: int)
    requires Sorted(Reverse(mode), s.history) && s.history != []
    ensures UpdateSequence(mode, s, val, epoch, true) ==
      State(Insert(Reverse(mode), s.history[..|s.history| - 1], Entry(val, epoch)), 0,
            Some(s.history[|s.history| - 1].epoch))
  {
    SortedPrefix(Reverse(mode), s.history, |s.history| - 1);
    SortAppend(Reverse(mode), s.history[..|s.history| - 1], Entry(val, epoch));
  }

  /** A tie with the worst retained score evicts, as `val < min(...)` is false. */
  lemma TieEvicts(mode: Mode, k: int, s: State, epoch: int)
    requires Inv(mode, k, s) && |s.history| >= k && s.history != []
    ensures var n := |s.history|;
      var r := Update(mode, k, s, s.history[n - 1].val, epoch);
      r.Ok? && r.value.patienceCount == 0 && r.value.toRemove == Some(s.history[n - 1].epoch) &&
      Entry(s.history[n - 1].val, epoch) in r.value.history
  {
    var n := |s.history|;
    var x := Entry(s.history[n - 1].val, epoch);
    UpdateEvicts(mode, k, s, x.val, epoch);
    assert x in multiset(Update(mode, k, s, x.val, epoch).value.history);
  }

  /** An update never raises under a positive capacity, and keeps the invariant. */
  lemma UpdatePreservesInv(mode: Mode, k: int, s: State, val: Value, epoch: int)
    requires Inv(mode, k, s) && k >= 1
    ensures Update(mode, k, s, val, epoch).Ok?
    ensures Inv(mode, k, Update(mode, k, s, val, epoch).value)
    ensures |Update(mode, k, s, val, epoch).value.history| == if |s.history| < k then |s.history| + 1 else k
  {
    if |s.history| < k {
      UpdateFills(mode, k, s, val, epoch);
    } else if StrictlyWorse(mode, val, s.history[|s.history| - 1].val) {
      UpdateRejects(mode, k, s, val, epoch);
    } else {
      UpdateEvicts(mode, k, s, val, epoch);
    }
  }

  /**
   * The patience counter resets exactly on improving rounds (fill or evict,
   * which then hold the new pair), and otherwise grows by one.
   */
  lemma UpdatePatience(mode: Mode, k: int, s: State, val: Value, epoch: int)
    requires Inv(mode, k, s) && k >= 1
    ensures var r := Update(mode, k, s, val, epoch).value;
      var improved := |s.history| < k || !StrictlyWorse(mode, val, s.history[|s.history| - 1].val);
      (r.patienceCount == 0 <==> improved) &&
      (improved ==> Entry(val, epoch) in r.history) &&
      (!improved ==> r == State(s.history, s.patienceCount + 1, s.toRemove))
  {
    var x := Entry(val, epoch);
    if |s.history| < k {
      UpdateFills(mode, k, s, val, epoch);
      assert x in multiset(Update(mode, k, s, val, epoch).value.history);
    } else if StrictlyWorse(mode, val, s.history[|s.history| - 1].val) {
      UpdateRejects(mode, k, s, val, epoch);
    } else {
      UpdateEvicts(mode, k, s, val, epoch);
      assert x in multiset(Update(mode, k, s, val, epoch).value.history);
    }
  }

  /** `best_val`: the first score after sorting, or `None` on an empty ledger. */
  function BestValue(reverse: bool, h: seq<Entry>): (r: Option<Value>)
    ensures r == None <==> h == []
    ensures r.Some? ==> exists e :: e in h && e.val == r.value
    ensures r.Some? ==> forall e :: e in h ==> !Precedes(reverse, e.val, r.value)
  {
    if |h| == 0 then None
    else
      var sorted := Sort(reverse, h);
      assert sorted[0] in multiset(h);
      assert forall e :: e in h ==> e in multiset(sorted);
      Some(sorted[0].val)
  }

  /** On the (always sorted) ledger, `best_val` is the score of its first entry. */
  lemma BestIsFirst(reverse: bool, h: seq<Entry>)
    requires Sorted(reverse, h) && h != []
    ensures BestValue(reverse, h) == Some(h[0].val)
  {
    SortOfSorted(reverse, h);
  }

  /** `patience_over`. */
  predicate Exhausted(s: State, patience: int)
  {
    s.patienceCount >= patience
  }
}
