/**
 * Whole training runs of `ModelCheckpoint.step` (src/utils/model_checkpoint.py):
 * the checkpoint folder against the ledger after any number of rounds.
 *
 * Every file left in the folder is the checkpoint of an epoch the ledger
 * still retains, no epoch has more files than ledger entries, and so the
 * folder never holds more than `save_top_k` files. The converse fails: the deletion prefix can also
 * remove the file of a retained epoch (`FileNames.EvictionOvermatches`).
 */
module CheckpointRuns {
  import opened Ledger
  import opened FileNames
  import opened Checkpoint

  /** One call of `step`: the epoch, the metrics, and how `torch.save` ends. */
  datatype Call = Call(epoch: int, metrics: map<string, Value>, write: Write)

  /** The ledger and the folder's entries after some rounds. */
  datatype Trail = Trail(state: State, entries: set<string>)

  /** The rounds `calls`, in order, on a fresh checkpoint with an empty folder. */
  ghost function Steps(monitor: string, mode: Mode, k: int, calls: seq<Call>): Trail
    decreases |calls|
  {
    if calls == [] then Trail(Initial(), {})
    else
      var t := Steps(monitor, mode, k, calls[..|calls| - 1]);
      var c := calls[|calls| - 1];
      var r := StepSpec(monitor, mode, k, t.state, t.entries, c.epoch, c.metrics, c.write);
      Trail(r.state, r.entries)
  }

  /** A run is its earlier rounds and its last one. */
  lemma CallsSnoc(calls: seq<Call>)
    requires calls != []
    ensures calls[..|calls| - 1] + [calls[|calls| - 1]] == calls
  {
  }

  /** The epochs the ledger `h` retains. */
  ghost function Epochs(h: seq<Entry>): set<int>
  {
    set x | x in h :: x.epoch
  }

  /** The names `_create_filename` gives the calls whose epoch is in `live`. */
  ghost function NamesOf(calls: seq<Call>, live: set<int>): set<string>
  {
    set i | 0 <= i < |calls| && calls[i].epoch in live :: FileName(calls[i].epoch, calls[i].metrics)
  }

  /**
   * After any run with `save_top_k >= 1` the ledger keeps its invariant and
   * every file in the folder is the checkpoint one of the calls wrote for
   * an epoch the ledger still retains.
   */
  lemma {:induction false} FolderTracksLedger(monitor: string, mode: Mode, k: int, calls: seq<Call>)
    requires k >= 1
    ensures var t := Steps(monitor, mode, k, calls);
      Inv(mode, k, t.state) && t.entries <= NamesOf(calls, Epochs(t.state.history))
    decreases |calls|
  {
    if calls != [] {
      var p := calls[..|calls| - 1];
      CallsSnoc(calls);
      FolderTracksLedger(monitor, mode, k, p);
      var t := Steps(monitor, mode, k, p);
      StepTracks(monitor, mode, k, t.state, t.entries, p, calls[|calls| - 1]);
    }
  }

  /** The same, spelled out file by file. */
  lemma FolderHoldsRetainedEpochs(monitor: string, mode: Mode, k: int, calls: seq<Call>, f: string)
    requires k >= 1 && f in Steps(monitor, mode, k, calls).entries
    ensures exists i ::
      0 <= i < |calls| && f == FileName(calls[i].epoch, calls[i].metrics) &&
      calls[i].epoch in Epochs(Steps(monitor, mode, k, calls).state.history)
  {
    FolderTracksLedger(monitor, mode, k, calls);
  }

  /**
   * `save_top_k` bounds the number of checkpoint files, the promise of the
   * `save_top_k` argument, for any run, repeated epochs included.
   */
  lemma FolderAtMostTopK(monitor: string, mode: Mode, k: int, calls: seq<Call>)
    requires k >= 1
    ensures |Steps(monitor, mode, k, calls).entries| <= k
  {
    FolderTracksLedger(monitor, mode, k, calls);
    FolderCounted(monitor, mode, k, calls);
    var t := Steps(monitor, mode, k, calls);
    FolderWithinLedger(t.entries, calls, t.state.history);
  }

  /** One round keeps the invariant and the folder within the names of retained epochs. */
  lemma StepTracks(monitor: string, mode: Mode, k: int, s: State, entries: set<string>,
                   calls: seq<Call>, c: Call)
    requires k >= 1 && Inv(mode, k, s) && entries <= NamesOf(calls, Epochs(s.history))
    ensures var r := StepSpec(monitor, mode, k, s, entries, c.epoch, c.metrics, c.write);
      Inv(mode, k, r.state) && r.entries <= NamesOf(calls + [c], Epochs(r.state.history))
  {
    var h := s.history;
    if monitor !in c.metrics {
      StepMissingMetric(monitor, mode, k, s, entries, c.epoch, c.metrics, c.write);
      NamesGrow(calls, c, Epochs(h));
    } else if |h| < k {
      FillTracks(monitor, mode, k, s, entries, calls, c);
    } else if !StrictlyWorse(mode, c.metrics[monitor], h[|h| - 1].val) {
      EvictTracks(monitor, mode, k, s, entries, calls, c);
    } else {
      StepSavesExactlyOnImprovement(monitor, mode, k, s, entries, c.epoch, c.metrics, c.write);
      NamesGrow(calls, c, Epochs(h));
    }
  }

  /** A round that fills the ledger keeps the folder within the names of retained epochs. */
  lemma FillTracks(monitor: string, mode: Mode, k: int, s: State, entries: set<string>,
                   calls: seq<Call>, c: Call)
    requires k >= 1 && Inv(mode, k, s) && entries <= NamesOf(calls, Epochs(s.history))
    requires monitor in c.metrics && |s.history| < k
    ensures var r := StepSpec(monitor, mode, k, s, entries, c.epoch, c.metrics, c.write);
      Inv(mode, k, r.state) && r.entries <= NamesOf(calls + [c], Epochs(r.state.history))
  {
    var val, h := c.metrics[monitor], s.history;
    var r := StepSpec(monitor, mode, k, s, entries, c.epoch, c.metrics, c.write);
    StepSavesExactlyOnImprovement(monitor, mode, k, s, entries, c.epoch, c.metrics, c.write);
    StepFiles(monitor, mode, k, s, entries, c.epoch, c.metrics, c.write);
    UpdateFills(mode, k, s, val, c.epoch);
    var x := Entry(val, c.epoch);
    assert x in multiset(r.state.history);
    EpochOf(r.state.history, x);
    EpochsGrow(h, r.state.history, x);
    ImproveTracks(entries, r.entries, calls, c, Epochs(h), Epochs(r.state.history), false, 0);
  }

  /** A round that evicts the worst entry keeps the folder within the names of retained epochs. */
  lemma EvictTracks(monitor: string, mode: Mode, k: int, s: State, entries: set<string>,
                    calls: seq<Call>, c: Call)
    requires k >= 1 && Inv(mode, k, s) && entries <= NamesOf(calls, Epochs(s.history))
    requires monitor in c.metrics && |s.history| >= k
    requires !StrictlyWorse(mode, c.metrics[monitor], s.history[|s.history| - 1].val)
    ensures var r := StepSpec(monitor, mode, k, s, entries, c.epoch, c.metrics, c.write);
      Inv(mode, k, r.state) && r.entries <= NamesOf(calls + [c], Epochs(r.state.history))
  {
    var val, h := c.metrics[monitor], s.history;
    var r := StepSpec(monitor, mode, k, s, entries, c.epoch, c.metrics, c.write);
    StepSavesExactlyOnImprovement(monitor, mode, k, s, entries, c.epoch, c.metrics, c.write);
    StepFiles(monitor, mode, k, s, entries, c.epoch, c.metrics, c.write);
    UpdateEvicts(mode, k, s, val, c.epoch);
    var x := Entry(val, c.epoch);
    assert x in multiset(r.state.history);
    EpochOf(r.state.history, x);
    EpochsKept(h, r.state.history, x);
    ImproveTracks(entries, r.entries, calls, c, Epochs(h), Epochs(r.state.history), true, h[|h| - 1].epoch);
  }

  /**
   * An improving round in the abstract: the new file belongs to a retained
   * epoch, and every other surviving entry was there before and, when the
   * round purged epoch `evicted`, does not start with its prefix.
   */
  lemma ImproveTracks(entries: set<string>, entries': set<string>, calls: seq<Call>, c: Call,
                      live: set<int>, live': set<int>, purging: bool, evicted: int)
    requires entries <= NamesOf(calls, live) && c.epoch in live'
    requires forall f :: f != FileName(c.epoch, c.metrics) ==>
      (f in entries' <==> f in entries && !(purging && StartsWith(f, EvictionPrefix(evicted))))
    requires forall e :: e in live && !(purging && e == evicted) ==> e in live'
    ensures entries' <= NamesOf(calls + [c], live')
  {
    var cs := calls + [c];
    forall f | f in entries'
      ensures f in NamesOf(cs, live')
    {
      if f == FileName(c.epoch, c.metrics) {
        assert cs[|calls|] == c;
        assert f == FileName(cs[|calls|].epoch, cs[|calls|].metrics);
      } else {
        assert f in NamesOf(calls, live);
        var i :| 0 <= i < |calls| && calls[i].epoch in live && f == FileName(calls[i].epoch, calls[i].metrics);
        if purging && calls[i].epoch == evicted {
          EvictionPrefixMatches(evicted, evicted, calls[i].metrics);
          assert false;
        }
        assert cs[i] == calls[i];
        assert f == FileName(cs[i].epoch, cs[i].metrics);
      }
    }
  }

  /** Adding a call adds names and removes none. */
  lemma NamesGrow(calls: seq<Call>, c: Call, live: set<int>)
    ensures NamesOf(calls, live) <= NamesOf(calls + [c], live)
  {
    var cs := calls + [c];
    forall f | f in NamesOf(calls, live)
      ensures f in NamesOf(cs, live)
    {
      var i :| 0 <= i < |calls| && calls[i].epoch in live && f == FileName(calls[i].epoch, calls[i].metrics);
      assert cs[i] == calls[i];
      assert f == FileName(cs[i].epoch, cs[i].metrics);
    }
  }

  /** A retained entry's epoch is retained. */
  lemma EpochOf(h: seq<Entry>, x: Entry)
    requires x in h
    ensures x.epoch in Epochs(h)
  {
  }

  /** Inserting `x` keeps every retained epoch. */
  lemma EpochsGrow(h: seq<Entry>, h': seq<Entry>, x: Entry)
    requires multiset(h') == multiset(h) + multiset{x}
    ensures forall e :: e in Epochs(h) ==> e in Epochs(h')
  {
    forall e | e in Epochs(h)
      ensures e in Epochs(h')
    {
      var y :| y in h && y.epoch == e;
      assert y in multiset(h');
      EpochOf(h', y);
    }
  }

  /** Dropping the last entry and inserting `x` keeps every other retained epoch. */
  lemma EpochsKept(h: seq<Entry>, h': seq<Entry>, x: Entry)
    requires h != [] && multiset(h') == multiset(h) - multiset{h[|h| - 1]} + multiset{x}
    ensures forall e :: e in Epochs(h) && e != h[|h| - 1].epoch ==> e in Epochs(h')
  {
    forall e | e in Epochs(h) && e != h[|h| - 1].epoch
      ensures e in Epochs(h')
    {
      var y :| y in h && y.epoch == e;
      assert y != h[|h| - 1];
      assert y in multiset(h) - multiset{h[|h| - 1]};
      assert y in multiset(h');
      EpochOf(h', y);
    }
  }

  /** A retained epoch other than the first entry's is retained by the rest. */
  lemma EpochsTail(h: seq<Entry>, e: int)
    requires h != [] && e in Epochs(h) && e != h[0].epoch
    ensures e in Epochs(h[1..])
  {
    var y :| y in h && y.epoch == e;
    assert y in h[1..];
  }

  /** How many entries of the ledger `h` have epoch `e`. */
  ghost function Count(h: seq<Entry>, e: int): nat
  {
    if h == [] then 0 else (if h[0].epoch == e then 1 else 0) + Count(h[1..], e)
  }

  lemma {:induction false} CountAppend(a: seq<Entry>, b: seq<Entry>, e: int)
    ensures Count(a + b, e) == Count(a, e) + Count(b, e)
  {
    if a == [] {
      assert a + b == b;
    } else {
      assert (a + b)[1..] == a[1..] + b;
      CountAppend(a[1..], b, e);
    }
  }

  /** Inserting `x` adds one entry of its epoch and none of any other. */
  lemma {:induction false} CountInsert(reverse: bool, h: seq<Entry>, x: Entry, e: int)
    ensures Count(Insert(reverse, h, x), e) == Count(h, e) + (if x.epoch == e then 1 else 0)
  {
    if h == [] {
      assert [x][1..] == [];
    } else if Precedes(reverse, x.val, h[0].val) {
      assert ([x] + h)[1..] == h;
    } else {
      var t := Insert(reverse, h[1..], x);
      CountInsert(reverse, h[1..], x, e);
      assert Insert(reverse, h, x) == [h[0]] + t;
      assert ([h[0]] + t)[1..] == t;
    }
  }

  /** An epoch with an entry is retained. */
  lemma {:induction false} CountedEpoch(h: seq<Entry>, e: int)
    requires Count(h, e) > 0
    ensures e in Epochs(h)
  {
    if h[0].epoch == e {
      assert h[0] in h;
    } else {
      CountedEpoch(h[1..], e);
      var y :| y in h[1..] && y.epoch == e;
      assert y in h;
    }
  }

  /** The files among `entries` that some call named for epoch `e`. */
  ghost function FilesOf(entries: set<string>, calls: seq<Call>, e: int): set<string>
  {
    entries * NamesOf(calls, {e})
  }

  /** No epoch has more files in the folder than entries in the ledger. */
  ghost predicate Counted(entries: set<string>, calls: seq<Call>, h: seq<Entry>)
  {
    forall e :: |FilesOf(entries, calls, e)| <= Count(h, e)
  }

  /** A file name belongs to one epoch only. */
  lemma NameOfEpoch(calls: seq<Call>, e: int, e': int, m: map<string, Value>)
    requires FileName(e', m) in NamesOf(calls, {e})
    ensures e' == e
  {
    var i :| 0 <= i < |calls| && calls[i].epoch in {e} && FileName(e', m) == FileName(calls[i].epoch, calls[i].metrics);
    if e' != e {
      FileNamesDistinct(e', calls[i].epoch, m, calls[i].metrics);
    }
  }

  /** Another call names no new file of epoch `e` among files the earlier calls named. */
  lemma FilesGrow(entries: set<string>, calls: seq<Call>, c: Call, live: set<int>, e: int)
    requires entries <= NamesOf(calls, live)
    ensures FilesOf(entries, calls + [c], e) == FilesOf(entries, calls, e)
  {
    NamesGrow(calls, c, {e});
    forall f | f in FilesOf(entries, calls + [c], e)
      ensures f in NamesOf(calls, {e})
    {
      var i :| 0 <= i < |calls| && calls[i].epoch in live && f == FileName(calls[i].epoch, calls[i].metrics);
      NameOfEpoch(calls + [c], e, calls[i].epoch, calls[i].metrics);
      assert calls[i].epoch in {e};
    }
  }

  /** A round that leaves the folder and the ledger alone keeps the count. */
  lemma CountedGrow(entries: set<string>, calls: seq<Call>, c: Call, h: seq<Entry>)
    requires entries <= NamesOf(calls, Epochs(h)) && Counted(entries, calls, h)
    ensures Counted(entries, calls + [c], h)
  {
    forall e
      ensures |FilesOf(entries, calls + [c], e)| <= Count(h, e)
    {
      FilesGrow(entries, calls, c, Epochs(h), e);
    }
  }

  /** After purging epoch `e` only the new file can be one of `e`'s. */
  lemma PurgedEpoch(entries': set<string>, calls: seq<Call>, c: Call, e: int)
    requires forall f :: f in entries' && f != FileName(c.epoch, c.metrics) ==> !StartsWith(f, EvictionPrefix(e))
    ensures |FilesOf(entries', calls + [c], e)| <= if c.epoch == e then 1 else 0
  {
    var cs := calls + [c];
    var name := FileName(c.epoch, c.metrics);
    forall f | f in FilesOf(entries', cs, e)
      ensures f == name && c.epoch == e
    {
      var j :| 0 <= j < |cs| && cs[j].epoch in {e} && f == FileName(cs[j].epoch, cs[j].metrics);
      EvictionPrefixMatches(e, e, cs[j].metrics);
      NameOfEpoch(cs, e, c.epoch, c.metrics);
    }
    if c.epoch == e {
      SubsetCard(FilesOf(entries', cs, e), {name});
    } else {
      assert FilesOf(entries', cs, e) == {};
    }
  }

  /** Without a purge of `e`, epoch `e` gains at most the new file. */
  lemma KeptEpoch(entries: set<string>, entries': set<string>, calls: seq<Call>, c: Call, e: int)
    requires forall f :: f in entries' && f != FileName(c.epoch, c.metrics) ==> f in entries
    ensures |FilesOf(entries', calls + [c], e)| <= |FilesOf(entries, calls + [c], e)| + if c.epoch == e then 1 else 0
  {
    var cs := calls + [c];
    var name := FileName(c.epoch, c.metrics);
    var extra: set<string> := if c.epoch == e then {name} else {};
    forall f | f in FilesOf(entries', cs, e)
      ensures f in FilesOf(entries, cs, e) + extra
    {
      if f == name {
        NameOfEpoch(cs, e, c.epoch, c.metrics);
      }
    }
    SubsetCard(FilesOf(entries', cs, e), FilesOf(entries, cs, e) + extra);
  }

  /**
   * An improving round in the abstract: epoch `evicted` loses an entry when
   * the round purged it, and the new call's epoch gains one.
   */
  lemma CountedStep(entries: set<string>, entries': set<string>, calls: seq<Call>, c: Call,
                    h: seq<Entry>, h': seq<Entry>, purging: bool, evicted: int)
    requires entries <= NamesOf(calls, Epochs(h)) && Counted(entries, calls, h)
    requires forall f :: f != FileName(c.epoch, c.metrics) ==>
      (f in entries' <==> f in entries && !(purging && StartsWith(f, EvictionPrefix(evicted))))
    requires purging ==> Count(h, evicted) >= 1
    requires forall e ::
      Count(h', e) + (if purging && e == evicted then 1 else 0) == Count(h, e) + (if e == c.epoch then 1 else 0)
    ensures Counted(entries', calls + [c], h')
  {
    forall e
      ensures |FilesOf(entries', calls + [c], e)| <= Count(h', e)
    {
      if purging && e == evicted {
        PurgedEpoch(entries', calls, c, e);
      } else {
        KeptEpoch(entries, entries', calls, c, e);
        FilesGrow(entries, calls, c, Epochs(h), e);
      }
    }
  }

  /** Filling the ledger adds one entry of the new epoch. */
  lemma FillCounts(mode: Mode, k: int, s: State, val: Value, epoch: int)
    requires Inv(mode, k, s) && |s.history| < k
    ensures forall e ::
      Count(Update(mode, k, s, val, epoch).value.history, e) == Count(s.history, e) + (if e == epoch then 1 else 0)
  {
    UpdateFills(mode, k, s, val, epoch);
    forall e
      ensures Count(Insert(Reverse(mode), s.history, Entry(val, epoch)), e) ==
        Count(s.history, e) + (if e == epoch then 1 else 0)
    {
      CountInsert(Reverse(mode), s.history, Entry(val, epoch), e);
    }
  }

  /** Evicting trades one entry of the last entry's epoch for one of the new epoch. */
  lemma EvictCounts(mode: Mode, k: int, s: State, val: Value, epoch: int)
    requires Sorted(Reverse(mode), s.history) && |s.history| >= k && s.history != []
    requires !StrictlyWorse(mode, val, s.history[|s.history| - 1].val)
    ensures var last := s.history[|s.history| - 1].epoch;
      Count(s.history, last) >= 1 &&
      forall e :: Count(Update(mode, k, s, val, epoch).value.history, e) + (if e == last then 1 else 0) ==
        Count(s.history, e) + (if e == epoch then 1 else 0)
  {
    UpdateEvicts(mode, k, s, val, epoch);
    DropLastCounts(Reverse(mode), s.history, Entry(val, epoch));
  }

  /** Dropping the last entry of `h` and inserting `x` moves one count from its epoch to `x`'s. */
  lemma DropLastCounts(reverse: bool, h: seq<Entry>, x: Entry)
    requires h != []
    ensures var last := h[|h| - 1].epoch;
      Count(h, last) >= 1 &&
      forall e :: Count(Insert(reverse, h[..|h| - 1], x), e) + (if e == last then 1 else 0) ==
        Count(h, e) + (if e == x.epoch then 1 else 0)
  {
    var p, last := h[..|h| - 1], h[|h| - 1];
    Snoc(h);
    assert [last][1..] == [];
    forall e
      ensures Count(Insert(reverse, p, x), e) + (if e == last.epoch then 1 else 0) ==
        Count(h, e) + (if e == x.epoch then 1 else 0)
    {
      CountInsert(reverse, p, x, e);
      CountAppend(p, [last], e);
    }
    CountAppend(p, [last], last.epoch);
  }

  /** One round keeps every epoch's files within its entries. */
  lemma StepCounts(monitor: string, mode: Mode, k: int, s: State, entries: set<string>,
                   calls: seq<Call>, c: Call)
    requires k >= 1 && Inv(mode, k, s)
    requires entries <= NamesOf(calls, Epochs(s.history)) && Counted(entries, calls, s.history)
    ensures var r := StepSpec(monitor, mode, k, s, entries, c.epoch, c.metrics, c.write);
      Counted(r.entries, calls + [c], r.state.history)
  {
    var h := s.history;
    if monitor in c.metrics && (|h| < k || !StrictlyWorse(mode, c.metrics[monitor], h[|h| - 1].val)) {
      ImproveCounts(monitor, mode, k, s, entries, calls, c);
    } else {
      IdleCounts(monitor, mode, k, s, entries, calls, c);
    }
  }

  /** A round that improves nothing leaves the folder and the ledger's entries alone. */
  lemma IdleCounts(monitor: string, mode: Mode, k: int, s: State, entries: set<string>,
                   calls: seq<Call>, c: Call)
    requires k >= 1 && Inv(mode, k, s)
    requires monitor !in c.metrics ||
      (|s.history| >= k && StrictlyWorse(mode, c.metrics[monitor], s.history[|s.history| - 1].val))
    requires entries <= NamesOf(calls, Epochs(s.history)) && Counted(entries, calls, s.history)
    ensures var r := StepSpec(monitor, mode, k, s, entries, c.epoch, c.metrics, c.write);
      Counted(r.entries, calls + [c], r.state.history)
  {
    if monitor !in c.metrics {
      StepMissingMetric(monitor, mode, k, s, entries, c.epoch, c.metrics, c.write);
    } else {
      StepSavesExactlyOnImprovement(monitor, mode, k, s, entries, c.epoch, c.metrics, c.write);
    }
    CountedGrow(entries, calls, c, s.history);
  }

  /** An improving round keeps every epoch's files within its entries. */
  lemma ImproveCounts(monitor: string, mode: Mode, k: int, s: State, entries: set<string>,
                      calls: seq<Call>, c: Call)
    requires k >= 1 && Inv(mode, k, s) && monitor in c.metrics
    requires |s.history| < k || !StrictlyWorse(mode, c.metrics[monitor], s.history[|s.history| - 1].val)
    requires entries <= NamesOf(calls, Epochs(s.history)) && Counted(entries, calls, s.history)
    ensures var r := StepSpec(monitor, mode, k, s, entries, c.epoch, c.metrics, c.write);
      Counted(r.entries, calls + [c], r.state.history)
  {
    var h, val := s.history, c.metrics[monitor];
    var r := StepSpec(monitor, mode, k, s, entries, c.epoch, c.metrics, c.write);
    StepSavesExactlyOnImprovement(monitor, mode, k, s, entries, c.epoch, c.metrics, c.write);
    StepFiles(monitor, mode, k, s, entries, c.epoch, c.metrics, c.write);
    if |h| < k {
      FillCounts(mode, k, s, val, c.epoch);
      CountedStep(entries, r.entries, calls, c, h, r.state.history, false, 0);
    } else {
      EvictCounts(mode, k, s, val, c.epoch);
      CountedStep(entries, r.entries, calls, c, h, r.state.history, true, h[|h| - 1].epoch);
    }
  }

  /**
   * After any run, no epoch has more files in the folder than entries in the
   * ledger, whether or not epochs repeat: evicting an entry purges every
   * file of its epoch.
   */
  lemma {:induction false} FolderCounted(monitor: string, mode: Mode, k: int, calls: seq<Call>)
    requires k >= 1
    ensures var t := Steps(monitor, mode, k, calls);
      Counted(t.entries, calls, t.state.history)
    decreases |calls|
  {
    if calls == [] {
      forall e
        ensures |FilesOf({}, calls, e)| <= Count([], e)
      {
        assert FilesOf({}, calls, e) == {};
      }
    } else {
      var p := calls[..|calls| - 1];
      CallsSnoc(calls);
      FolderCounted(monitor, mode, k, p);
      FolderTracksLedger(monitor, mode, k, p);
      var t := Steps(monitor, mode, k, p);
      StepCounts(monitor, mode, k, t.state, t.entries, p, calls[|calls| - 1]);
    }
  }

  /**
   * `NamesOf`, `FilesOf` and `Counted` over any naming of calls. They exist
   * only to keep the summing proof cheap: it needs nothing of
   * `_create_filename` but that a name is a function of its call, and so
   * never unfolds `FileName`. `NamesAgree` ties them to `NamesOf`.
   */
  ghost function NamesBy(name: Call -> string, calls: seq<Call>, live: set<int>): set<string>
  {
    set i | 0 <= i < |calls| && calls[i].epoch in live :: name(calls[i])
  }

  ghost function FilesBy(name: Call -> string, entries: set<string>, calls: seq<Call>, e: int): set<string>
  {
    entries * NamesBy(name, calls, {e})
  }

  ghost predicate CountedBy(name: Call -> string, entries: set<string>, calls: seq<Call>, h: seq<Entry>)
  {
    forall e :: |FilesBy(name, entries, calls, e)| <= Count(h, e)
  }

  /** `NamesOf` is `NamesBy` for the name `_create_filename` gives a call. */
  lemma NamesAgree(name: Call -> string, calls: seq<Call>, live: set<int>)
    requires forall c :: name(c) == FileName(c.epoch, c.metrics)
    ensures NamesOf(calls, live) == NamesBy(name, calls, live)
  {
  }

  /** A folder counted against the ledger holds no more files than the ledger has entries. */
  lemma FolderWithinLedger(entries: set<string>, calls: seq<Call>, h: seq<Entry>)
    requires entries <= NamesOf(calls, Epochs(h)) && Counted(entries, calls, h)
    ensures |entries| <= |h|
  {
    var name := (c: Call) => FileName(c.epoch, c.metrics);
    NamesAgree(name, calls, Epochs(h));
    forall e
      ensures |FilesBy(name, entries, calls, e)| <= Count(h, e)
    {
      NamesAgree(name, calls, {e});
      assert FilesBy(name, entries, calls, e) == FilesOf(entries, calls, e);
    }
    CountedBound(name, entries, calls, h);
  }

  /** Summing the per-epoch count, one ledger entry at a time. */
  lemma {:induction false} CountedBound(name: Call -> string, a: set<string>, calls: seq<Call>, h: seq<Entry>)
    requires a <= NamesBy(name, calls, Epochs(h)) && CountedBy(name, a, calls, h)
    ensures |a| <= |h|
    decreases |h|
  {
    if h == [] {
      assert Epochs(h) == {};
      assert NamesBy(name, calls, {}) == {};
    } else if FilesBy(name, a, calls, h[0].epoch) == {} {
      DropNone(name, a, calls, h);
      CountedBound(name, a, calls, h[1..]);
    } else {
      var g :| g in FilesBy(name, a, calls, h[0].epoch);
      DropOne(name, a, calls, h, g);
      CountedBound(name, a - {g}, calls, h[1..]);
    }
  }

  /** The name of a call whose epoch is in `live`. */
  lemma NameIn(name: Call -> string, calls: seq<Call>, i: int, live: set<int>)
    requires 0 <= i < |calls| && calls[i].epoch in live
    ensures name(calls[i]) in NamesBy(name, calls, live)
  {
  }

  /** The first entry's epoch has no file: the rest of the ledger accounts for every file. */
  lemma DropNone(name: Call -> string, a: set<string>, calls: seq<Call>, h: seq<Entry>)
    requires h != [] && a <= NamesBy(name, calls, Epochs(h)) && CountedBy(name, a, calls, h)
    requires FilesBy(name, a, calls, h[0].epoch) == {}
    ensures a <= NamesBy(name, calls, Epochs(h[1..])) && CountedBy(name, a, calls, h[1..])
  {
    var e0, t := h[0].epoch, h[1..];
    forall e
      ensures |FilesBy(name, a, calls, e)| <= Count(t, e)
    {
    }
    forall f | f in a
      ensures f in NamesBy(name, calls, Epochs(t))
    {
      var i :| 0 <= i < |calls| && calls[i].epoch in Epochs(h) && f == name(calls[i]);
      NameIn(name, calls, i, {calls[i].epoch});
      assert f in FilesBy(name, a, calls, calls[i].epoch);
      EpochsTail(h, calls[i].epoch);
    }
  }

  /** Taking one file `g` of the first entry's epoch: the rest of the ledger accounts for the others. */
  lemma DropOne(name: Call -> string, a: set<string>, calls: seq<Call>, h: seq<Entry>, g: string)
    requires h != [] && a <= NamesBy(name, calls, Epochs(h)) && CountedBy(name, a, calls, h)
    requires g in FilesBy(name, a, calls, h[0].epoch)
    ensures a - {g} <= NamesBy(name, calls, Epochs(h[1..])) && CountedBy(name, a - {g}, calls, h[1..])
  {
    var e0, t := h[0].epoch, h[1..];
    var b := FilesBy(name, a, calls, e0);
    forall e
      ensures |FilesBy(name, a - {g}, calls, e)| <= Count(t, e)
    {
      if e == e0 {
        assert FilesBy(name, a - {g}, calls, e) == b - {g};
      } else {
        SubsetCard(FilesBy(name, a - {g}, calls, e), FilesBy(name, a, calls, e));
      }
    }
    forall f | f in a - {g}
      ensures f in NamesBy(name, calls, Epochs(t))
    {
      var i :| 0 <= i < |calls| && calls[i].epoch in Epochs(h) && f == name(calls[i]);
      if calls[i].epoch == e0 {
        assert f in NamesBy(name, calls, {e0});
        assert f in b;
        SubsetCard({f, g}, b);
        assert Count(h, e0) == 1 + Count(t, e0);
        CountedEpoch(t, e0);
      } else {
        EpochsTail(h, calls[i].epoch);
      }
    }
  }

  /** A subset is no larger. */
  lemma SubsetCard(a: set<string>, b: set<string>)
    requires a <= b
    ensures |a| <= |b|
  {
    assert b == a + (b - a);
  }
}
