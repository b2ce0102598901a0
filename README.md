# ModelCheckpoint in Dafny

A model of `ModelCheckpoint`. During a training run it keeps the checkpoints of the best `save_top_k` epochs on disk. It also counts the epochs since the monitored metric last made it into that set, which drives early stopping.

- **The ledger.** `history` is a list of `(score, epoch)` pairs. It is kept sorted best-first: scores descend in mode `"max"` and ascend in mode `"min"`.
- **A round.** `step` reads the monitored metric and calls `_update_history`. That call does one of three things:
  - **fills:** the ledger has room, so the pair is inserted and the patience counter is reset;
  - **evicts:** the ledger is full and the score is not strictly worse than the worst retained one, so the worst entry is dropped, its epoch is recorded in `to_remove`, the pair is inserted and patience is reset;
  - **rejects:** the counter goes up by one and nothing else changes.
- **Saving.** On an improving round, `save` builds a file name from the epoch and the metrics. When the ledger is full and an eviction is recorded, it deletes every directory entry that starts with `epoch=<to_remove>`. It then writes the new file.

Modules:

- **`Wrappers`** (wrappers.dfy): `Option` and `Result`.
- **`Ledger`** (ledger.dfy): the ledger as a value. It holds:
  - the entry and state types;
  - Python's stable `sorted` (`Sort`, an insertion sort built on a stable `Insert`);
  - `min`/`max` with a key, and `best_val`;
  - the transitions `UpdateSequence` (`_update_history_sequence`) and `Update` (`_update_history`);
  - the invariant `Inv`: sorted, at most `save_top_k` entries, a non-negative counter, and `to_remove` set only on a full ledger;
  - lemmas for each branch of a round.
- **`LedgerRuns`** (ledger_runs.dfy): whole runs of rounds (`Run`). After any run the ledger is a top-K of everything observed. Strictly worse rounds on a full ledger exhaust patience one by one.
- **`FileNames`** (filenames.dfy): the pieces of a file name:
  - the decimal rendering of an epoch;
  - the `.4f` rendering of a value;
  - Python's code-point order on strings and `sorted(metrics.keys())`;
  - `_create_filename` as a function (`FileName`) and the deletion prefix (`EvictionPrefix`);
  - lemmas on both: distinct names for distinct epochs, and exactly which names a prefix matches.
- **`Checkpoint`** (checkpoint.dfy): the class `ModelCheckpoint`, with fields `history`, `patienceCount` and `toRemove` and one method per source method. Also:
  - a `Directory` object standing for the checkpoint folder;
  - the specification functions `SaveSpec` (`save`) and `StepSpec` (`step`) that the methods are proved against;
  - lemmas about these functions.
- **`CheckpointRuns`** (checkpoint_runs.dfy): whole runs of `step` on a fresh checkpoint (`Steps`). Every file left in the folder belongs to an epoch the ledger retains, and no epoch has more files than ledger entries. So the folder never holds more than `save_top_k` files, even when epochs repeat.

Inputs the model takes as parameters:

- whether the destination folder already exists (`os.makedirs`);
- how `torch.save` ends on a path it can open (`Write`): it writes the file, fails before creating it, or fails after creating it and leaves a partial file behind. A name holding `/` is never such a path, and `Effective` turns its write into a failure before the file exists.

The folder's contents are a `set<string>` field of `Directory`.

Metric values are integers, read as ten-thousandths, so `.4f` renders them exactly (`FormatValue`). The ledger only ever compares them.

## Behaviour of the code worth knowing

- **Ties evict.** On a full ledger the test is `val < min(...)` under `"max"` and `val > max(...)` under `"min"`. A score equal to the worst retained one therefore evicts it and resets patience (`Ledger.TieEvicts`).
- **The deletion prefix has no hyphen.** Evicting epoch `e` deletes every entry starting with `epoch=<e>`. That includes the checkpoints of epochs whose decimal digits begin with those of `e`, such as epoch 12 when epoch 1 is evicted, even if epoch 12 is still retained (`FileNames.EvictionPrefixMatches`, `FileNames.EvictionOvermatches`).
- **The name's layout.** The `k=v` fields follow `epoch=<e>-` in ascending key order, joined by `-`, with no trailing hyphen. Without metrics the name is `epoch=<e>-.pth`.
- **A `/` in a metric key means no checkpoint is ever saved.** The file name contains every key (line 141), and `save` writes to `os.path.join(output_dir, name)` (line 170). A `/` in a key points that path into a sub-folder `epoch=...` of the checkpoint folder. Nothing ever creates that sub-folder, so `torch.save` raises before any file exists, and line 173 only reports the error. The default monitor `acc/val` is such a key, and every round that reads the metric has it. So with the default monitor no round saves a file (`Checkpoint.SlashKeyNeverSaves`, `Checkpoint.DefaultMonitorNeverSaves`). Deletions still happen.
- **When deletion happens.** `save` deletes when `len(history) == save_top_k` and `to_remove` is set. This is checked after the update. Under the invariant it holds exactly when the ledger was full before the round, that is, when the round evicted (`Checkpoint.StepFiles`).

## Model

| member | source | states |
|---|---|---|
| Checkpoint.ParseMode | src/utils/model_checkpoint.py:26-33 | the mode is accepted exactly when it is `"max"` or `"min"`, and `reverse` holds exactly for `"max"` |
| Checkpoint.ModelCheckpoint.Create | src/utils/model_checkpoint.py:7-38 | an unsupported mode is the first error, an existing destination the second; otherwise a fresh checkpoint in `<output_dir>/checkpoints` with empty history, patience 0, no `to_remove`, an empty folder, and `reverse` iff mode `"max"`; the parameters default to `monitor="acc/val"`, `mode="max"`, `save_top_k=5` and `patience=10` |
| Checkpoint.ModelCheckpoint.constructor | src/utils/model_checkpoint.py:27-38 | the output folder is `<output_dir>/checkpoints`, the state is the initial one, and the invariant holds |
| Checkpoint.JoinPath | src/utils/model_checkpoint.py:27 | `os.path.join` of a folder and a relative name: the name alone when the folder is empty; otherwise the folder, then a `/` exactly when the folder does not already end in one, then the name |
| Checkpoint.Directory.constructor | src/utils/model_checkpoint.py:28 | the folder `os.makedirs` creates is empty |
| Ledger.Initial | src/utils/model_checkpoint.py:30-38 | a new checkpoint has an empty history, patience 0 and no `to_remove` |
| Ledger.Insert | src/utils/model_checkpoint.py:58-59 | inserting adds exactly the new pair: one more entry, and the multiset gains exactly that pair |
| Ledger.Sort | src/utils/model_checkpoint.py:59 | the result is sorted best-first and is a permutation of its input |
| Ledger.InsertStable | src/utils/model_checkpoint.py:59 | on a sorted ledger the pair goes after every entry at least as good and before every strictly worse one; the old entries keep their order |
| Ledger.InsertKeepsSorted | src/utils/model_checkpoint.py:58-59 | inserting into a sorted ledger keeps it sorted |
| Ledger.SortOfSorted | src/utils/model_checkpoint.py:59 | sorting an already sorted ledger changes nothing: the sort is stable |
| Ledger.SortAppend | src/utils/model_checkpoint.py:58-59 | appending then sorting a sorted ledger is the stable insertion of the new pair |
| Ledger.UpdateSequence | src/utils/model_checkpoint.py:54-60 | `_update_history_sequence` resets patience to 0 and sets `to_remove` to the dropped epoch exactly when one is dropped, leaving it alone otherwise |
| Ledger.UpdateSequenceResult | src/utils/model_checkpoint.py:54-60 | `_update_history_sequence` leaves a sorted ledger holding the kept entries plus the new pair, one entry longer than what was kept |
| Checkpoint.ModelCheckpoint.UpdateHistorySequence | src/utils/model_checkpoint.py:40-60 | the new fields are exactly those `UpdateSequence` computes from the old ones |
| Ledger.MinScore | src/utils/model_checkpoint.py:95 | `min(history, key=score)` is a lower bound of every score and is attained |
| Ledger.MaxScore | src/utils/model_checkpoint.py:97 | `max(history, key=score)` is an upper bound of every score and is attained |
| Ledger.WorstIsLast | src/utils/model_checkpoint.py:95-97 | on a sorted ledger every entry is at least as good as the last one, and `min`/`max` is the last entry's score |
| Ledger.Update | src/utils/model_checkpoint.py:85-108 | `_update_history` raises exactly when the ledger is full and empty, i.e. `save_top_k <= 0` |
| Ledger.UpdateFills | src/utils/model_checkpoint.py:85-90 | with room left the new pair is inserted stably, nothing is evicted, `to_remove` is untouched (and still unset), patience becomes 0 |
| Ledger.UpdateRejects | src/utils/model_checkpoint.py:93-102 | on a full ledger a strictly worse score leaves `history` and `to_remove` as they were and adds exactly 1 to patience |
| Ledger.UpdateEvicts | src/utils/model_checkpoint.py:103-108 | on a full ledger a score not strictly worse drops the last entry, records its epoch in `to_remove`, inserts the pair stably, keeps the length, and replaces the last entry by the pair as a multiset |
| Ledger.TieEvicts | src/utils/model_checkpoint.py:95-97 | a score equal to the worst retained one evicts it, resets patience and enters the ledger |
| Ledger.UpdatePreservesInv | src/utils/model_checkpoint.py:85-108 | with `save_top_k >= 1` an update never raises and keeps the invariant; the length grows by one while filling and then stays `save_top_k` |
| Ledger.UpdatePatience | src/utils/model_checkpoint.py:85-108 | patience becomes 0 exactly on improving rounds, which then hold the new pair; any other round only adds 1 to patience |
| Checkpoint.ModelCheckpoint.UpdateHistory | src/utils/model_checkpoint.py:73-108 | the method succeeds exactly when `Update` does, then leaves the state `Update` gives; it keeps the class invariant |
| Ledger.BestValue | src/utils/model_checkpoint.py:69-71 | `best_val` is `None` exactly on an empty ledger; otherwise it is a retained score that no retained score beats |
| Ledger.BestIsFirst | src/utils/model_checkpoint.py:69-71 | on the sorted ledger `best_val` is the score of the first entry |
| Checkpoint.ModelCheckpoint.BestVal | src/utils/model_checkpoint.py:62-71 | `None` exactly while the history is empty; otherwise the first entry's score, at least as good as every retained score |
| Checkpoint.ModelCheckpoint.PatienceOver | src/utils/model_checkpoint.py:110-119 | holds exactly when `patience_count >= patience`, so always when `patience <= 0` |
| LedgerRuns.RunKeepsTopK | src/utils/model_checkpoint.py:85-108 | from a fresh checkpoint, after any rounds, no update has raised, the invariant holds, and the ledger is a top-K of everything seen: it holds `min(save_top_k, rounds)` of the observations, all of them while filling, and no dropped observation beats a retained one |
| LedgerRuns.TopKStep | src/utils/model_checkpoint.py:85-108 | one round keeps a top-K ledger a top-K of everything seen so far |
| LedgerRuns.RejectionsExhaustPatience | src/utils/model_checkpoint.py:100-102 | on a full ledger, rounds each strictly worse than the worst retained score leave `history` and `to_remove` alone and add one to patience each; `patience_over` then holds exactly when the counter reaches `patience` |
| FileNames.Decimal | src/utils/model_checkpoint.py:135 | the decimal digits of a natural number: at least one, all digits, a single digit exactly below 10 |
| FileNames.IntToString | src/utils/model_checkpoint.py:135 | an epoch is written as an optional minus sign and digits, the sign exactly for negative epochs |
| FileNames.IntToStringInjective | src/utils/model_checkpoint.py:135 | different epochs are written differently |
| FileNames.FormatValue | src/utils/model_checkpoint.py:141 | `.4f` renders a value as at least six characters: a minus sign exactly for a negative value, then digits, a `.` fifth from the end, and four fraction digits |
| FileNames.SortedKeys | src/utils/model_checkpoint.py:136 | `sorted(metrics.keys())` lists exactly the keys, each once, in ascending code-point order |
| FileNames.SortedKeysUnique | src/utils/model_checkpoint.py:136 | any ascending list of exactly those keys is that list |
| FileNames.SortKeys | src/utils/model_checkpoint.py:136 | the selection loop computes `sorted(metrics.keys())` |
| FileNames.LexLessMeans | src/utils/model_checkpoint.py:136 | the string order `sorted` uses: `a` comes first exactly when it is a proper prefix of `b`, or has the smaller character at the first position where they differ |
| FileNames.LexTransitive | src/utils/model_checkpoint.py:136 | the string order is transitive |
| FileNames.LexTotal | src/utils/model_checkpoint.py:136 | any two different strings are ordered one way |
| FileNames.FileNameNoMetrics | src/utils/model_checkpoint.py:135-142 | without metrics the name is `epoch=<e>-.pth` |
| FileNames.FileNameOneMetric | src/utils/model_checkpoint.py:135-142 | with one metric the name is `epoch=<e>-<k>=<v>.pth`, with no trailing hyphen |
| FileNames.FileNameShape | src/utils/model_checkpoint.py:135-142 | every file name starts with `epoch=<e>-`, its epoch's deletion prefix and a hyphen, and ends in `.pth` |
| FileNames.FileNamesDistinct | src/utils/model_checkpoint.py:135-142 | checkpoints of different epochs never share a file name |
| Checkpoint.RenderFields | src/utils/model_checkpoint.py:136-141 | the loop appends the `k=v` fields in the given order, each but the last followed by `-` |
| Checkpoint.ModelCheckpoint.CreateFilename | src/utils/model_checkpoint.py:121-142 | the name built is `FileName(epoch, metrics)`: `epoch=<e>-`, the fields in ascending key order, `.pth` |
| FileNames.EvictionPrefixShape | src/utils/model_checkpoint.py:165 | the deletion prefix is `epoch=` then the epoch's digits, with a minus sign exactly for a negative epoch; its last character is a digit, so it does not include the name's hyphen |
| FileNames.StartsWithMeans | src/utils/model_checkpoint.py:165 | `str.startswith`: the string's first characters, as many as the prefix has, are the prefix |
| FileNames.EvictionPrefixMatches | src/utils/model_checkpoint.py:165 | the deletion prefix of epoch `e` matches the file of epoch `t` exactly when the digits of `e` begin the digits of `t` |
| FileNames.EvictionOvermatches | src/utils/model_checkpoint.py:165 | evicting a positive epoch `e` also matches the files of epochs `10e + d`, which differ from `e` |
| Checkpoint.Purge | src/utils/model_checkpoint.py:163-166 | exactly the entries that do not start with the prefix remain |
| Checkpoint.Directory.RemoveEvicted | src/utils/model_checkpoint.py:163-166 | the listing loop removes exactly the entries starting with the eviction prefix when one is recorded, and nothing otherwise |
| Checkpoint.ModelCheckpoint.Save | src/utils/model_checkpoint.py:144-174 | the folder and the outcome are those `SaveSpec` gives: deletion only on a full ledger with a recorded eviction, then the write, whose failure is only reported |
| Checkpoint.SaveSpec | src/utils/model_checkpoint.py:157-174 | `save` reports `Saved` exactly when `torch.save` succeeds, which never happens for a name holding `/`, and names the file either way; afterwards the folder holds nothing but old entries and the new name, and it holds the new name whenever the write got as far as creating the file |
| Checkpoint.SaveSpecFiles | src/utils/model_checkpoint.py:157-174 | `save` removes exactly the matching entries when purging and keeps every other old entry; the new name is present afterwards exactly when the write created it (fully or partly; never for a name holding `/`) or it was already there and not purged |
| Checkpoint.StepSpec | src/utils/model_checkpoint.py:190-201 | a round fails with `MissingMetric` exactly when the monitored metric is absent; it touches the folder only when it reset patience, and then adds at most its own file; a reported save names that file, which is then in the folder |
| Checkpoint.ModelCheckpoint.Step | src/utils/model_checkpoint.py:176-201 | the new state, folder and outcome are those `StepSpec` gives from the old ones; the class invariant is kept |
| Checkpoint.StepMissingMetric | src/utils/model_checkpoint.py:190-192 | a missing monitored metric fails the round before anything changes |
| Checkpoint.StepSavesExactlyOnImprovement | src/utils/model_checkpoint.py:189-201 | with `save_top_k >= 1` a round keeps the invariant and saves exactly when it improved the ledger; otherwise no file changes and patience grows by one |
| Checkpoint.StepFiles | src/utils/model_checkpoint.py:162-174 | in an improving round deletion happens exactly when the ledger was full before the round (it evicted) and removes exactly the entries with the evicted epoch's prefix; every other entry stays; the new file exists afterwards exactly when the write created it (fully or partly; never for a name holding `/`) or it was already there and not deleted; `Saved` is reported exactly when the write succeeded |
| Checkpoint.SaveWriteFailure | src/utils/model_checkpoint.py:167-174 | within one `save`, a failure after the file was created leaves the folder a success leaves; a success adds the new file to what a failure before the open leaves, and is reported `Saved`, exactly when the name holds no `/` |
| FileNames.KeyCharInName | src/utils/model_checkpoint.py:136-142 | every character of every metric key appears in the file name |
| Checkpoint.SlashKeyNeverSaves | src/utils/model_checkpoint.py:157-174 | when some metric key holds `/`, no round reports `Saved` and no round adds a file to the folder |
| Checkpoint.DefaultMonitorNeverSaves | src/utils/model_checkpoint.py:190-201 | with the default monitor `acc/val` (line 10), no round reports `Saved` or adds a file |
| Checkpoint.StepWriteFailureKeepsLedger | src/utils/model_checkpoint.py:167-174 | how `torch.save` ends never changes the ledger update or the deletions; a failure after the file was created leaves the same folder as a success, and a failure before it lacks only the new file |
| CheckpointRuns.StepTracks | src/utils/model_checkpoint.py:176-201 | one round with `save_top_k >= 1` keeps the invariant; if every file in the folder is the name `_create_filename` gives one of the calls, for an epoch the ledger retains, the same holds after the round, counting the new call |
| CheckpointRuns.FolderTracksLedger | src/utils/model_checkpoint.py:157-201 | after any run of `step` calls on a fresh checkpoint with `save_top_k >= 1`, the invariant holds and every file in the folder is the name `_create_filename` gives one of the calls, for an epoch the ledger still retains |
| CheckpointRuns.FolderHoldsRetainedEpochs | src/utils/model_checkpoint.py:157-201 | each file in the folder after a run is `FileName(e, m)` for a call with epoch `e` and metrics `m`, and `e` is still in the ledger |
| CheckpointRuns.FolderCounted | src/utils/model_checkpoint.py:157-201 | after any run, repeated epochs included, no epoch has more files in the folder than entries in the ledger: evicting an entry purges every file of its epoch, and a round adds only its own file |
| CheckpointRuns.StepCounts | src/utils/model_checkpoint.py:176-201 | one round keeps every epoch's files within its ledger entries |
| CheckpointRuns.FolderWithinLedger | src/utils/model_checkpoint.py:162-166 | a folder whose files all belong to retained epochs, each epoch within its entries, holds no more files than the ledger has entries |
| CheckpointRuns.FolderAtMostTopK | src/utils/model_checkpoint.py:22 | for any run, repeated epochs included, the folder never holds more than `save_top_k` files; the converse, a file for every retained epoch, fails by `FileNames.EvictionOvermatches` |

## Left out

- `torch.save` and the model weights it writes: a file is a name in the folder's set, and its contents are not modelled. How the write ends is the parameter `Write`: `Written`, `FailedBeforeOpen` (no file is created) or `FailedAfterOpen` (a partial file is left under the name). Any exception in the write is caught and reported, which the outcome `SaveFailed` stands for.
- `os.makedirs`, `os.listdir`, `os.remove` and `os.path.join` on a real file system. The folder is a set of names and `makedirs` failing is the parameter `destinationExists`.
  - `os.remove` failing, for example on a sub-directory whose name matches the prefix, is not modelled.
  - The order `os.listdir` returns names in is not modelled; the deletion loop picks names in any order, which cannot change its result.
- The mode check at line 26 is an `assert`, which `python -O` strips. The model treats it as always active. Without it an unsupported mode would be accepted with `reverse` false, and since neither test at lines 95-97 applies, every round on a full ledger would evict.
- Sub-folders of the checkpoint folder. A name holding `/` is taken to point into a sub-folder that does not exist, which holds because nothing creates one.
- Floating point. Scores and metric values are integers read as ten-thousandths, so the model has no rounding in `.4f`, no NaN (which compares false with everything) and no `-0.0`.
- `FormatValue`, `IntToString` and `SortedKeys` cover only the cases those types allow. Python's general `str.__format__`, `str(int)` and string ordering are not modelled beyond them.
- Non-string or non-numeric metric keys and values, which Python would accept or reject at run time.
- All `print` logging (the messages at lines 91, 101, 172 and 174), including the `best_val` they format.
- The `TypeError` that `:.4f` would raise on `best_val` being `None`. It cannot happen, because both prints run with a non-empty history.
- src/dataset/dataset.py, src/lr_scheduler/lr_scheduler.py and train.py are not part of this model.
- Checkpoint.ModelCheckpoint.PatienceOver: requires the class invariant, which the source does not check. The invariant always holds for objects built by `Create`.
