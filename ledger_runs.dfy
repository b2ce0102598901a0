/**
 * Whole training runs: the ledger after a sequence of rounds, each one a
 * call of `_update_history` (src/utils/model_checkpoint.py), and what the
 * ledger then holds.
 */
module LedgerRuns {
  import opened Wrappers
  import opened Ledger

  /** The state after feeding the observations `xs`, in order, to `Update`. */
  function Run(mode: Mode, k: int, s: State, xs: seq<Entry>): (r: Result<State, LedgerError>)
    decreases |xs|
  {
    if xs == [] then Ok(s)
    else
      match Run(mode, k, s, xs[..|xs| - 1])
      case Err(e) => Err(e)
      case Ok(t) => Update(mode, k, t, xs[|xs| - 1].val, xs[|xs| - 1].epoch)
  }

  /** Every retained entry is at least as good as every dropped observation. */
  ghost predicate Dominates(mode: Mode, h: seq<Entry>, dropped: multiset<Entry>)
  {
    forall e, d :: e in h && d in dropped ==> AtLeastAsGood(mode, e.val, d.val)
  }

  /**
   * `h` is a top-K selection of the observations `seen`: it has
   * `min(k, |seen|)` of them, all of them while `seen` fits, and dominates
   * the rest.
   */
  ghost predicate TopK(mode: Mode, k: int, h: seq<Entry>, seen: multiset<Entry>)
  {
    |h| == (if |seen| < k then |seen| else k) &&
    multiset(h) <= seen &&
    (|seen| <= k ==> multiset(h) == seen) &&
    Dominates(mode, h, seen - multiset(h))
  }

  /** Rejecting `x` adds just `x` to what is dropped. */
  lemma RejectDropped(seen: multiset<Entry>, M: multiset<Entry>, x: Entry)
    requires M <= seen
    ensures forall d :: d in (seen + multiset{x}) - M ==> d in seen - M || d == x
  {
    forall d | d in (seen + multiset{x}) - M ensures d in seen - M || d == x {
      if d != x {
        assert (seen + multiset{x})[d] == seen[d];
      }
    }
  }

  /** Evicting `L` for `x` adds just `L` to what is dropped. */
  lemma EvictDropped(seen: multiset<Entry>, M: multiset<Entry>, L: Entry, x: Entry)
    requires M <= seen && L in M
    ensures forall d :: d in (seen + multiset{x}) - (M - multiset{L} + multiset{x}) ==> d in seen - M || d == L
  {
    forall d | d in (seen + multiset{x}) - (M - multiset{L} + multiset{x}) ensures d in seen - M || d == L {
      if d != L {
        assert (M - multiset{L} + multiset{x})[d] == M[d] + (seen + multiset{x})[d] - seen[d];
      }
    }
  }

  lemma TopKFill(mode: Mode, k: int, t: State, seen: multiset<Entry>, x: Entry)
    requires k >= 1 && Inv(mode, k, t) && TopK(mode, k, t.history, seen) && |t.history| < k
    ensures TopK(mode, k, Update(mode, k, t, x.val, x.epoch).value.history, seen + multiset{x})
  {
    UpdateFills(mode, k, t, x.val, x.epoch);
    var h' := Update(mode, k, t, x.val, x.epoch).value.history;
    assert multiset(h') == seen + multiset{x};
    assert (seen + multiset{x}) - multiset(h') == multiset{};
  }

  lemma TopKReject(mode: Mode, k: int, t: State, seen: multiset<Entry>, x: Entry)
    requires k >= 1 && Inv(mode, k, t) && TopK(mode, k, t.history, seen) && |t.history| >= k
    requires StrictlyWorse(mode, x.val, t.history[|t.history| - 1].val)
    ensures TopK(mode, k, Update(mode, k, t, x.val, x.epoch).value.history, seen + multiset{x})
  {
    var h := t.history;
    UpdateRejects(mode, k, t, x.val, x.epoch);
    assert Update(mode, k, t, x.val, x.epoch).value.history == h;
    WorstIsLast(mode, h);
    var D := seen - multiset(h);
    RejectDropped(seen, multiset(h), x);
    forall e, d | e in h && d in (seen + multiset{x}) - multiset(h)
      ensures AtLeastAsGood(mode, e.val, d.val)
    {
      if d != x {
        assert d in D;
      }
    }
  }

  lemma TopKEvict(mode: Mode, k: int, t: State, seen: multiset<Entry>, x: Entry)
    requires k >= 1 && Inv(mode, k, t) && TopK(mode, k, t.history, seen) && |t.history| >= k
    requires !StrictlyWorse(mode, x.val, t.history[|t.history| - 1].val)
    ensures TopK(mode, k, Update(mode, k, t, x.val, x.epoch).value.history, seen + multiset{x})
  {
    var h := t.history;
    UpdateEvicts(mode, k, t, x.val, x.epoch);
    var h' := Update(mode, k, t, x.val, x.epoch).value.history;
    WorstIsLast(mode, h);
    EvictKeepsTopK(mode, k, h, h', seen, x);
  }

  /** An eviction of the last entry of a full top-K ledger for `x` keeps a top-K. */
  lemma EvictKeepsTopK(mode: Mode, k: int, h: seq<Entry>, h': seq<Entry>, seen: multiset<Entry>, x: Entry)
    requires h != [] && |h| == k && TopK(mode, k, h, seen) && |h'| == k
    requires forall e :: e in h ==> AtLeastAsGood(mode, e.val, h[|h| - 1].val)
    requires AtLeastAsGood(mode, x.val, h[|h| - 1].val)
    requires multiset(h') == multiset(h) - multiset{h[|h| - 1]} + multiset{x}
    ensures TopK(mode, k, h', seen + multiset{x})
  {
    var L := h[|h| - 1];
    var M := multiset(h);
    assert L in M;
    EvictDropped(seen, M, L, x);
    forall e | e in h' ensures e in h || e == x {
      assert e in multiset(h');
    }
    EvictDominates(mode, h, h', seen - M, (seen + multiset{x}) - multiset(h'), L, x);
  }

  /**
   * The dominance step of an eviction: the new ledger holds old entries and
   * `x`, the drop set gains only `L`, and `L` is no better than `x` and no
   * worse than anything dropped before.
   */
  lemma EvictDominates(mode: Mode, h: seq<Entry>, h': seq<Entry>, D: multiset<Entry>, D': multiset<Entry>, L: Entry, x: Entry)
    requires Dominates(mode, h, D) && L in h
    requires forall e :: e in h ==> AtLeastAsGood(mode, e.val, L.val)
    requires AtLeastAsGood(mode, x.val, L.val)
    requires forall e :: e in h' ==> e in h || e == x
    requires forall d :: d in D' ==> d in D || d == L
    ensures Dominates(mode, h', D')
  {
    forall e, d | e in h' && d in D' ensures AtLeastAsGood(mode, e.val, d.val) {
      if d != L {
        assert d in D;
        assert AtLeastAsGood(mode, L.val, d.val);
      }
    }
  }

  /**
   * From a fresh checkpoint, after any sequence of rounds the ledger holds
   * `min(save_top_k, rounds)` of the observations, all of them while it is
   * still filling, and every observation it does not hold is no better than
   * any it does: it is a top-K of everything seen.
   */
  lemma {:induction false} RunKeepsTopK(mode: Mode, k: int, xs: seq<Entry>)
    requires k >= 1
    ensures KeepsTopK(mode, k, Run(mode, k, Initial(), xs), multiset(xs))
  {
    if xs == [] {
      InitialInv(mode, k);
    } else {
      var p := xs[..|xs| - 1];
      RunKeepsTopK(mode, k, p);
      RunLast(mode, k, Initial(), xs);
      DropLast(xs);
      StepKeepsTopK(mode, k, Run(mode, k, Initial(), p).value, multiset(p), xs[|xs| - 1]);
    }
  }

  /** The outcome of a run succeeded, keeps the invariant and holds a top-K of `seen`. */
  ghost predicate KeepsTopK(mode: Mode, k: int, r: Result<State, LedgerError>, seen: multiset<Entry>)
  {
    r.Ok? && Inv(mode, k, r.value) && TopK(mode, k, r.value.history, seen)
  }

  /** One round of `_update_history` on a top-K ledger succeeds and keeps both facts. */
  lemma StepKeepsTopK(mode: Mode, k: int, t: State, seen: multiset<Entry>, x: Entry)
    requires k >= 1 && Inv(mode, k, t) && TopK(mode, k, t.history, seen)
    ensures KeepsTopK(mode, k, Update(mode, k, t, x.val, x.epoch), seen + multiset{x})
  {
    UpdatePreservesInv(mode, k, t, x.val, x.epoch);
    TopKStep(mode, k, t, seen, x);
  }

  /** A run that has not failed takes one more round by one more `Update`. */
  lemma RunLast(mode: Mode, k: int, s: State, xs: seq<Entry>)
    requires xs != [] && Run(mode, k, s, xs[..|xs| - 1]).Ok?
    ensures Run(mode, k, s, xs) ==
      Update(mode, k, Run(mode, k, s, xs[..|xs| - 1]).value, xs[|xs| - 1].val, xs[|xs| - 1].epoch)
  {
  }

  /** One round of `_update_history` keeps a top-K of everything seen. */
  lemma TopKStep(mode: Mode, k: int, t: State, seen: multiset<Entry>, x: Entry)
    requires k >= 1 && Inv(mode, k, t) && TopK(mode, k, t.history, seen)
    ensures Update(mode, k, t, x.val, x.epoch).Ok?
    ensures TopK(mode, k, Update(mode, k, t, x.val, x.epoch).value.history, seen + multiset{x})
  {
    if |t.history| < k {
      TopKFill(mode, k, t, seen, x);
    } else if StrictlyWorse(mode, x.val, t.history[|t.history| - 1].val) {
      TopKReject(mode, k, t, seen, x);
    } else {
      TopKEvict(mode, k, t, seen, x);
    }
  }

  /**
   * Once the ledger is full, a run of rounds each strictly worse than the
   * worst retained score leaves the ledger and `to_remove` alone and adds one
   * to the patience counter per round; `patience_over` then holds exactly
   * when the counter has reached `patience`.
   */
  lemma {:induction false} RejectionsExhaustPatience(mode: Mode, k: int, s: State, xs: seq<Entry>, patience: int)
    requires Inv(mode, k, s) && k >= 1 && |s.history| >= k
    requires forall i :: 0 <= i < |xs| ==> StrictlyWorse(mode, xs[i].val, s.history[|s.history| - 1].val)
    ensures Run(mode, k, s, xs) == Ok(State(s.history, s.patienceCount + |xs|, s.toRemove))
    ensures Exhausted(Run(mode, k, s, xs).value, patience) <==> s.patienceCount + |xs| >= patience
  {
    if xs != [] {
      var n := |xs|;
      RejectionsExhaustPatience(mode, k, s, xs[..n - 1], patience);
      var t := State(s.history, s.patienceCount + n - 1, s.toRemove);
      UpdateRejects(mode, k, t, xs[n - 1].val, xs[n - 1].epoch);
    }
  }
}
