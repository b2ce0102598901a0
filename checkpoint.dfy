/**
 * `ModelCheckpoint` (src/utils/model_checkpoint.py): keeps the best
 * `save_top_k` checkpoints of a training run on disk, and counts the epochs
 * since the monitored metric last made it into that set.
 *
 * The checkpoint directory is an object holding the set of its file names;
 * whether `torch.save` succeeds is a parameter of each round.
 */
module Checkpoint {
  import opened Wrappers
  import opened Ledger
  import opened FileNames

  /** The errors construction raises: the mode assertion, and `os.makedirs` on an existing directory. */
  datatype InitError = UnsupportedMode(mode: string) | DestinationExists

  /** How a call of `step` ends: an exception, no save, or the outcome `save` reports. */
  datatype StepOutcome =
    | MissingMetric        // KeyError on `metrics[self.monitor]`
    | EmptyLedger          // ValueError from `min`/`max` of an empty full history (save_top_k <= 0)
    | NotImproved          // the round did not enter the ledger, nothing is written
    | Saved(name: string)
    | SaveFailed(name: string)

  /** The mode assertion of `__init__`; the mode found also fixes `self.reverse`. */
  function ParseMode(mode: string): (r: Option<Mode>)
    ensures r.Some? <==> mode == "max" || mode == "min"
    ensures r.Some? ==> (Reverse(r.value) <==> mode == "max")
  {
    if mode == "max" then Some(Max) else if mode == "min" then Some(Min) else None
  }

  /** `os.path.join(dir, name)` for a relative `name` on POSIX. */
  function JoinPath(dir: string, name: string): (r: string)
    ensures r == dir + name || r == dir + "/" + name
    ensures dir == [] ==> r == name
    ensures dir != [] ==>
      (r[..|dir|] == dir && r[|r| - |name|..] == name &&
       r[|dir|..|r| - |name|] == (if dir[|dir| - 1] == '/' then "" else "/"))
  {
    if dir == [] || dir[|dir| - 1] == '/' then dir + name else dir + "/" + name
  }

  /** The entries of `entries` that do not start with `prefix`. */
  function Purge(entries: set<string>, prefix: string): (r: set<string>)
    ensures forall f :: f in r <==> f in entries && !StartsWith(f, prefix)
  {
    set f | f in entries && !StartsWith(f, prefix)
  }

  /**
   * How `torch.save` ends on a path it can open: the file is written; it
   * fails before the file is opened (no file); or it fails after opening it,
   * while serializing or writing, which leaves a partial file under the new
   * name.
   */
  datatype Write = Written | FailedBeforeOpen | FailedAfterOpen

  /**
   * How `torch.save(state_dict, os.path.join(output_dir, name))` ends. A `/`
   * in the name (from a metric key such as the default monitor `acc/val`)
   * makes the path point into a sub-folder named `epoch=...`, which nothing
   * ever creates, so the write fails before a file exists. Otherwise it ends
   * as `write` says.
   */
  function Effective(write: Write, name: string): (w: Write)
    ensures '/' in name ==> w == FailedBeforeOpen
    ensures '/' !in name ==> w == write
  {
    if '/' in name then FailedBeforeOpen else write
  }

  /** The directory after `save`, and what it reports. */
  datatype SaveEffect = SaveEffect(entries: set<string>, outcome: StepOutcome)

  /**
   * `save` on state `s` (already updated by this round): with a full ledger
   * and a recorded eviction, first delete every entry starting with the
   * eviction prefix, then write the new file, which may fail.
   */
  ghost function SaveSpec(k: int, s: State, entries: set<string>, epoch: int,
                          metrics: map<string, Value>, write: Write): (e: SaveEffect)
    ensures var name := FileName(epoch, metrics);
      e.outcome == (if Effective(write, name).Written? then Saved(name) else SaveFailed(name))
    ensures e.entries <= entries + {FileName(epoch, metrics)}
    ensures !Effective(write, FileName(epoch, metrics)).FailedBeforeOpen? ==> FileName(epoch, metrics) in e.entries
  {
    var name := FileName(epoch, metrics);
    var w := Effective(write, name);
    var kept := if |s.history| == k && s.toRemove.Some? then Purge(entries, EvictionPrefix(s.toRemove.value))
                else entries;
    if w.FailedBeforeOpen? then SaveEffect(kept, SaveFailed(name))
    else SaveEffect(kept + {name}, if w.Written? then Saved(name) else SaveFailed(name))
  }

  /** The state, the directory and the outcome after one round. */
  datatype Round = Round(state: State, entries: set<string>, outcome: StepOutcome)

  /**
   * `step`: read the monitored metric, update the ledger, and save when
   * patience was reset. A round touches the folder only when it reset
   * patience, and then adds at most its own file.
   */
  ghost function StepSpec(monitor: string, mode: Mode, k: int, s: State, entries: set<string>,
                          epoch: int, metrics: map<string, Value>, write: Write): (r: Round)
    ensures r.outcome == MissingMetric <==> monitor !in metrics
    ensures r.entries <= entries + {FileName(epoch, metrics)}
    ensures r.entries != entries ==> r.state.patienceCount == 0
    ensures r.outcome.Saved? ==> r.outcome.name == FileName(epoch, metrics) && r.outcome.name in r.entries
  {
    if monitor !in metrics then Round(s, entries, MissingMetric)
    else
      match Update(mode, k, s, metrics[monitor], epoch)
      case Err(_) => Round(s, entries, EmptyLedger)
      case Ok(s') =>
        if s'.patienceCount == 0 then
          var e := SaveSpec(k, s', entries, epoch, metrics, write);
          Round(s', e.entries, e.outcome)
        else Round(s', entries, NotImproved)
  }

  /** A missing monitored metric fails the round before anything changes. */
  lemma StepMissingMetric(monitor: string, mode: Mode, k: int, s: State, entries: set<string>,
                          epoch: int, metrics: map<string, Value>, write: Write)
    requires monitor !in metrics
    ensures StepSpec(monitor, mode, k, s, entries, epoch, metrics, write) == Round(s, entries, MissingMetric)
  {
  }

  /**
   * With a positive capacity every round with the metric present keeps the
   * invariant, and writes a file exactly when it improved the ledger (it was
   * filling, or the score was not strictly worse than the worst retained
   * one); otherwise it touches no file and only counts patience up.
   */
  lemma StepSavesExactlyOnImprovement(monitor: string, mode: Mode, k: int, s: State, entries: set<string>,
                                      epoch: int, metrics: map<string, Value>, write: Write)
    requires Inv(mode, k, s) && k >= 1 && monitor in metrics
    ensures var r := StepSpec(monitor, mode, k, s, entries, epoch, metrics, write);
      var improved := |s.history| < k || !StrictlyWorse(mode, metrics[monitor], s.history[|s.history| - 1].val);
      Inv(mode, k, r.state) &&
      r.state == Update(mode, k, s, metrics[monitor], epoch).value &&
      ((r.outcome.Saved? || r.outcome.SaveFailed?) <==> improved) &&
      (r.outcome == NotImproved <==> !improved) &&
      (!improved ==> r.entries == entries && r.state.patienceCount == s.patienceCount + 1)
  {
    UpdatePreservesInv(mode, k, s, metrics[monitor], epoch);
    UpdatePatience(mode, k, s, metrics[monitor], epoch);
  }

  /**
   * The files of an improving round: deletion happens only when the ledger
   * was full before the round, i.e. when this round evicted, and then
   * removes exactly the entries starting with the evicted epoch's prefix;
   * every other entry stays, and the new file is present afterwards exactly
   * when the write got as far as opening it (never for a name holding `/`)
   * or an old copy survived the deletion.
   */
  lemma StepFiles(monitor: string, mode: Mode, k: int, s: State, entries: set<string>,
                  epoch: int, metrics: map<string, Value>, write: Write)
    requires Inv(mode, k, s) && k >= 1 && monitor in metrics
    requires |s.history| < k || !StrictlyWorse(mode, metrics[monitor], s.history[|s.history| - 1].val)
    ensures var r := StepSpec(monitor, mode, k, s, entries, epoch, metrics, write);
      var name := FileName(epoch, metrics);
      var evicted := |s.history| >= k;
      var doomed := (f: string) => evicted && StartsWith(f, EvictionPrefix(s.history[|s.history| - 1].epoch));
      var w := Effective(write, name);
      r.outcome == (if w.Written? then Saved(name) else SaveFailed(name)) &&
      (forall f :: f != name ==> (f in r.entries <==> f in entries && !doomed(f))) &&
      (name in r.entries <==> !w.FailedBeforeOpen? || (name in entries && !doomed(name)))
  {
    var val := metrics[monitor];
    UpdatePreservesInv(mode, k, s, val, epoch);
    UpdatePatience(mode, k, s, val, epoch);
    if |s.history| < k {
      UpdateFills(mode, k, s, val, epoch);
    } else {
      UpdateEvicts(mode, k, s, val, epoch);
    }
    var s' := Update(mode, k, s, val, epoch).value;
    assert StepSpec(monitor, mode, k, s, entries, epoch, metrics, write) ==
      var e := SaveSpec(k, s', entries, epoch, metrics, write); Round(s', e.entries, e.outcome);
    SaveSpecFiles(k, s', entries, epoch, metrics, write);
  }

  /** What `save` does to each directory entry, given the ledger it runs on. */
  lemma SaveSpecFiles(k: int, s: State, entries: set<string>, epoch: int,
                      metrics: map<string, Value>, write: Write)
    ensures var e := SaveSpec(k, s, entries, epoch, metrics, write);
      var name := FileName(epoch, metrics);
      var purging := |s.history| == k && s.toRemove.Some?;
      var w := Effective(write, name);
      e.outcome == (if w.Written? then Saved(name) else SaveFailed(name)) &&
      (forall f :: f != name ==>
        (f in e.entries <==> f in entries && !(purging && StartsWith(f, EvictionPrefix(s.toRemove.value))))) &&
      (name in e.entries <==> !w.FailedBeforeOpen? || (name in entries && !(purging && StartsWith(name, EvictionPrefix(s.toRemove.value)))))
  {
  }

  /**
   * A failed write is only reported: the ledger update of the round stands.
   * A write failing after the file was opened leaves the folder as a good
   * write does; one failing before differs from it only by the new file.
   */
  lemma StepWriteFailureKeepsLedger(monitor: string, mode: Mode, k: int, s: State, entries: set<string>,
                                    epoch: int, metrics: map<string, Value>)
    ensures StepSpec(monitor, mode, k, s, entries, epoch, metrics, FailedBeforeOpen).state ==
            StepSpec(monitor, mode, k, s, entries, epoch, metrics, Written).state
    ensures StepSpec(monitor, mode, k, s, entries, epoch, metrics, FailedAfterOpen).state ==
            StepSpec(monitor, mode, k, s, entries, epoch, metrics, Written).state
    ensures StepSpec(monitor, mode, k, s, entries, epoch, metrics, FailedAfterOpen).entries ==
            StepSpec(monitor, mode, k, s, entries, epoch, metrics, Written).entries
    ensures StepSpec(monitor, mode, k, s, entries, epoch, metrics, Written).entries ==
            StepSpec(monitor, mode, k, s, entries, epoch, metrics, FailedBeforeOpen).entries +
            (if StepSpec(monitor, mode, k, s, entries, epoch, metrics, Written).outcome.Saved?
             then {FileName(epoch, metrics)} else {})
  {
    if monitor in metrics {
      var u := Update(mode, k, s, metrics[monitor], epoch);
      if u.Ok? && u.value.patienceCount == 0 {
        SaveWriteFailure(k, u.value, entries, epoch, metrics);
      }
    }
  }

  /** The three ways `torch.save` can end, compared on one `save`. */
  lemma SaveWriteFailure(k: int, s: State, entries: set<string>, epoch: int, metrics: map<string, Value>)
    ensures SaveSpec(k, s, entries, epoch, metrics, FailedAfterOpen).entries ==
            SaveSpec(k, s, entries, epoch, metrics, Written).entries
    ensures SaveSpec(k, s, entries, epoch, metrics, Written).entries ==
            SaveSpec(k, s, entries, epoch, metrics, FailedBeforeOpen).entries +
            (if '/' in FileName(epoch, metrics) then {} else {FileName(epoch, metrics)})
    ensures SaveSpec(k, s, entries, epoch, metrics, Written).outcome.Saved? <==> '/' !in FileName(epoch, metrics)
  {
  }

  /**
   * A metric key holding `/` makes every save fail before a file is
   * created: no round reports `Saved`, and no round adds a file.
   */
  lemma SlashKeyNeverSaves(monitor: string, mode: Mode, k: int, s: State, entries: set<string>,
                           epoch: int, metrics: map<string, Value>, write: Write, key: string)
    requires key in metrics && '/' in key
    ensures var r := StepSpec(monitor, mode, k, s, entries, epoch, metrics, write);
      !r.outcome.Saved? && r.entries <= entries
  {
    KeyCharInName(epoch, metrics, key, '/');
    if monitor in metrics {
      var u := Update(mode, k, s, metrics[monitor], epoch);
      if u.Ok? && u.value.patienceCount == 0 {
        assert Effective(write, FileName(epoch, metrics)) == FailedBeforeOpen;
      }
    }
  }

  /**
   * With the default monitor `acc/val` no checkpoint is ever saved: every
   * round that reads the metric has that key, whose `/` sends the write
   * into a missing sub-folder.
   */
  lemma DefaultMonitorNeverSaves(mode: Mode, k: int, s: State, entries: set<string>,
                                 epoch: int, metrics: map<string, Value>, write: Write)
    ensures var r := StepSpec("acc/val", mode, k, s, entries, epoch, metrics, write);
      !r.outcome.Saved? && r.entries <= entries
  {
    if "acc/val" in metrics {
      assert "acc/val"[3] == '/';
      SlashKeyNeverSaves("acc/val", mode, k, s, entries, epoch, metrics, write, "acc/val");
    }
  }

  /** What `_create_filename` has appended after the first `i` keys. */
  ghost function FieldsSoFar(keys: seq<string>, metrics: map<string, Value>, i: nat): string
    requires i <= |keys| && forall k :: k in keys ==> k in metrics
  {
    if i == 0 then "" else JoinFields(keys[..i], metrics) + (if i < |keys| then "-" else "")
  }

  lemma FieldsSoFarStep(keys: seq<string>, metrics: map<string, Value>, i: nat)
    requires i < |keys| && forall k :: k in keys ==> k in metrics
    ensures FieldsSoFar(keys, metrics, i + 1) ==
      FieldsSoFar(keys, metrics, i) + (Field(keys[i], metrics) + (if i + 1 == |keys| then "" else "-"))
  {
    assert keys[..i + 1][..i] == keys[..i];
  }

  lemma FieldsSoFarAll(keys: seq<string>, metrics: map<string, Value>)
    requires forall k :: k in keys ==> k in metrics
    ensures FieldsSoFar(keys, metrics, |keys|) == JoinFields(keys, metrics)
  {
    assert keys[..|keys|] == keys;
  }

  /** The loop of `_create_filename`: append `key=value` for each key, hyphen-separated. */
  method RenderFields(keys: seq<string>, metrics: map<string, Value>) returns (fields: string)
    requires forall k :: k in keys ==> k in metrics
    ensures fields == JoinFields(keys, metrics)
  {
    fields := "";
    var i := 0;
    while i < |keys|
      invariant 0 <= i <= |keys|
      invariant fields == FieldsSoFar(keys, metrics, i)
    {
      var sep := if i + 1 == |keys| then "" else "-";
      var k := keys[i];
      assert k in metrics;
      FieldsSoFarStep(keys, metrics, i);
      fields := fields + (Field(k, metrics) + sep);
      i := i + 1;
    }
    FieldsSoFarAll(keys, metrics);
  }

  /** The checkpoint directory: the names `os.listdir` returns. */
  class Directory {
    var entries: set<string>

    /** The empty directory `os.makedirs` creates. */
    constructor ()
      ensures entries == {}
    {
      entries := {};
    }

    /**
     * The deletion loop of `save`: for each listed name, when an eviction is
     * recorded and the name starts with its prefix, remove it.
     */
    method RemoveEvicted(toRemove: Option<int>)
      modifies this
      ensures entries == if toRemove.Some? then Purge(old(entries), EvictionPrefix(toRemove.value)) else old(entries)
    {
      var listing := entries;
      var pending := listing;
      while pending != {}
        invariant pending <= listing
        invariant forall f :: f in entries <==>
          f in listing && (f in pending || !(toRemove.Some? && StartsWith(f, EvictionPrefix(toRemove.value))))
        decreases |pending|
      {
        var f :| f in pending;
        if toRemove.Some? {
          if StartsWith(f, EvictionPrefix(toRemove.value)) {
            entries := entries - {f};
          }
        }
        pending := pending - {f};
      }
      if toRemove.Some? {
        assert entries == Purge(listing, EvictionPrefix(toRemove.value));
      } else {
        assert entries == listing;
      }
    }
  }

  class ModelCheckpoint {
    const outputDir: string
    const dir: Directory
    const monitor: string
    const saveTopK: int
    const mode: Mode
    const reverse: bool
    const patience: int
    var history: seq<Entry>
    var patienceCount: int
    var toRemove: Option<int>

    /** The mutable fields as a value. */
    function Current(): State
      reads this
    {
      State(history, patienceCount, toRemove)
    }

    ghost predicate Valid()
      reads this
    {
      reverse == Reverse(mode) && Inv(mode, saveTopK, Current())
    }

    /** `__init__` once the mode has been accepted and the directory created. */
    constructor (outputDir: string, monitor: string, mode: Mode, saveTopK: int, patience: int)
      ensures Valid() && fresh(dir) && dir.entries == {}
      ensures Current() == Initial()
      ensures this.outputDir == JoinPath(outputDir, "checkpoints")
      ensures this.monitor == monitor && this.mode == mode && this.saveTopK == saveTopK && this.patience == patience
    {
      this.outputDir := JoinPath(outputDir, "checkpoints");
      this.dir := new Directory();
      this.monitor := monitor;
      this.history := [];
      this.saveTopK := saveTopK;
      this.mode := mode;
      this.reverse := mode == Max;
      this.patience := patience;
      this.patienceCount := 0;
      this.toRemove := None;
    }

    /**
     * `ModelCheckpoint(...)`: an unsupported mode fails first, then a
     * destination that already exists; otherwise an empty checkpoint. The
     * defaults are those of `__init__`.
     */
    static method Create(outputDir: string, destinationExists: bool, monitor: string := "acc/val",
                         mode: string := "max", saveTopK: int := 5, patience: int := 10)
      returns (r: Result<ModelCheckpoint, InitError>)
      ensures ParseMode(mode).None? ==> r == Err(UnsupportedMode(mode))
      ensures ParseMode(mode).Some? && destinationExists ==> r == Err(DestinationExists)
      ensures ParseMode(mode).Some? && !destinationExists ==>
        r.Ok? && fresh(r.value) && fresh(r.value.dir) && r.value.Valid() &&
        r.value.Current() == Initial() && r.value.dir.entries == {} &&
        r.value.outputDir == JoinPath(outputDir, "checkpoints") &&
        r.value.mode == ParseMode(mode).value && (r.value.reverse <==> mode == "max") &&
        r.value.monitor == monitor && r.value.saveTopK == saveTopK && r.value.patience == patience
    {
      var m := ParseMode(mode);
      if m.None? {
        return Err(UnsupportedMode(mode));
      }
      if destinationExists {
        return Err(DestinationExists);
      }
      var c := new ModelCheckpoint(outputDir, monitor, m.value, saveTopK, patience);
      return Ok(c);
    }

    /** `_update_history_sequence`. */
    method UpdateHistorySequence(val: Value, epoch: int, removeLast: bool)
      requires reverse == Reverse(mode) && (removeLast ==> history != [])
      modifies this
      ensures Current() == UpdateSequence(mode, old(Current()), val, epoch, removeLast)
    {
      var h := history;
      if removeLast {
        toRemove := Some(h[|h| - 1].epoch);
        h := h[..|h| - 1];
      }
      h := h + [Entry(val, epoch)];
      history := Sort(reverse, h);
      patienceCount := 0;
    }

    /** `best_val`: the best retained score, or `None` while nothing is retained. */
    function BestVal(): (r: Option<Value>)
      reads this
      requires Valid()
      ensures r == None <==> history == []
      ensures r.Some? ==> r.value == history[0].val
      ensures r.Some? ==> forall e :: e in history ==> AtLeastAsGood(mode, r.value, e.val)
    {
      if |history| > 0 then BestIsFirst(reverse, history); BestValue(reverse, history)
      else BestValue(reverse, history)
    }

    /**
     * `_update_history`; `ok` is false when `min`/`max` of an empty history
     * raises, which leaves the state as it was.
     */
    method UpdateHistory(val: Value, epoch: int) returns (ok: bool)
      requires Valid()
      modifies this
      ensures Valid()
      ensures ok <==> Update(mode, saveTopK, old(Current()), val, epoch).Ok?
      ensures Current() == if ok then Update(mode, saveTopK, old(Current()), val, epoch).value else old(Current())
    {
      if |history| < saveTopK {
        UpdateHistorySequence(val, epoch, false);
      } else {
        if history == [] {
          return false;
        }
        var toUpdate := true;
        if mode == Max && val < MinScore(history) {
          toUpdate := false;
        } else if mode == Min && val > MaxScore(history) {
          toUpdate := false;
        }
        if !toUpdate {
          patienceCount := patienceCount + 1;
        } else {
          UpdateHistorySequence(val, epoch, true);
        }
      }
      ok := true;
      UpdatePreservesInv(mode, saveTopK, old(Current()), val, epoch);
    }

    /** `patience_over`. */
    predicate PatienceOver()
      reads this
      requires Valid()
      ensures PatienceOver() <==> patienceCount >= patience
      ensures patience <= 0 ==> PatienceOver()
    {
      Exhausted(Current(), patience)
    }

    /** `_create_filename`: the fields are appended one by one, each but the last followed by `-`. */
    method CreateFilename(epoch: int, metrics: map<string, Value>) returns (name: string)
      ensures name == FileName(epoch, metrics)
    {
      var keys := SortKeys(metrics.Keys);
      var fields := RenderFields(keys, metrics);
      name := "epoch=" + IntToString(epoch) + "-" + fields + ".pth";
    }

    /**
     * `save`: on a full ledger with a recorded eviction, remove every listed
     * entry that starts with `epoch=<to_remove>`; then write the new file.
     */
    method Save(epoch: int, metrics: map<string, Value>, write: Write) returns (outcome: StepOutcome)
      requires Valid()
      modifies dir
      ensures SaveEffect(dir.entries, outcome) == SaveSpec(saveTopK, Current(), old(dir.entries), epoch, metrics, write)
    {
      var name := CreateFilename(epoch, metrics);
      if |history| == saveTopK {
        dir.RemoveEvicted(toRemove);
      }
      var w := Effective(write, name);
      if !w.FailedBeforeOpen? {
        dir.entries := dir.entries + {name};
      }
      outcome := if w.Written? then Saved(name) else SaveFailed(name);
    }

    /** `step`: one round of training. */
    method Step(epoch: int, metrics: map<string, Value>, write: Write) returns (outcome: StepOutcome)
      requires Valid()
      modifies this, dir
      ensures Valid()
      ensures Round(Current(), dir.entries, outcome) ==
        StepSpec(monitor, mode, saveTopK, old(Current()), old(dir.entries), epoch, metrics, write)
    {
      if monitor !in metrics {
        return MissingMetric;
      }
      var ok := UpdateHistory(metrics[monitor], epoch);
      if !ok {
        return EmptyLedger;
      }
      if patienceCount == 0 {
        outcome := Save(epoch, metrics, write);
      } else {
        outcome := NotImproved;
      }
    }
  }
}
