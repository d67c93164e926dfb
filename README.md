# lium `sync`: a verified model of the orchestration

This project models the decision logic of the `sync` subcommand of lium
(`src/cmd/sync.rs`). The subcommand brings a ChromeOS or Android/ARC source
checkout to a requested version:

1. `--cros` or `--arc` selects the kind; exactly one must be given.
2. The `--version` token is resolved in that kind's namespace. For ChromeOS,
   `tot` stands for itself and any other token is looked up for the board
   `eve`. For ARC, every token goes through the ARC lookup.
3. The target directory is classified. A missing directory is created. An
   `Android.bp` marker means ARC, a readable synced ChromeOS version means
   ChromeOS, and an empty directory means nothing. Any other directory is
   refused. A kind found on disk replaces the kind from the flags.
4. If a reference mirror is given, it is synced first. Then the
   kind-specific setup runs, then the primary `repo_sync`. The first failure
   ends the run.

Files:

- `outcomes.dfy`: `Option` and `Result`. `:-` on `Result` plays the part of
  Rust's `?`.
- `world.dfy`: the environment.
  - `Fs` is an abstract filesystem.
  - `Services` holds the answers of the `lium` functions whose source is not
    part of this model: the two version lookups, `get_cros_dir_unchecked`,
    `get_reference_repo`, and which `setup_*` and `repo_sync` calls fail.
  - `Host` is a class holding the filesystem and a trace of effectful calls.
    Each effectful call is a method that answers from the state and appends
    itself to the trace.
- `traces.dfy`: `Mutations`, the state-changing calls of a trace in order,
  with its append lemma.
- `sync.dfy`: the command. Each step has two forms:
  - a specification function (`PrepareSpec`, `SyncSteps`, `RunSpec`) that gives the
    result, the calls made and the filesystem afterwards;
  - a method on `Host` (`PrepareRepoPaths`, `SyncRepos`, `Run`) proved equal to it.
- `sync_properties.dfy`: lemmas over the specification functions. They cover the order of
  state changes, where a run stops, rerun convergence, and a concrete
  cross-kind run.

The version lookups, `get_cros_dir_unchecked` and `get_reference_repo` only
compute answers, so they are pure functions of `Services` and are not
traced. The trace records filesystem probes, `create_dir_all`, `setup_*` and
`repo_sync`.

Four corners of the code that the model follows as written:

- A failure to read the previous ARC version is not advisory. It is
  propagated with `?` (`src/cmd/sync.rs:133`), so it ends the run
  (`ArcVersionReadFailureIsFatal`).
- The version is resolved before the directory is inspected, with the
  flag-selected kind (`src/cmd/sync.rs:69`). The kind found on disk only
  takes over afterwards (`src/cmd/sync.rs:85`). As a result, `--cros` on an
  existing ARC tree runs `setup_arc_repo` with a ChromeOS-resolved version
  (`CrosFlagOnArcTreeRunsArcSetup`, with `CrosFlagOnArcTree` as one
  concrete run).
- `prepare_repo_paths` may create the target directory before the mirror is
  synced. The mirror sync comes before every setup call and before the
  primary sync, and that is the order the model proves (`SuccessfulRun`).
- A kind on disk that differs from the flags is not an error: the kind on
  disk wins. The source only logs what it detected (`src/cmd/sync.rs:132`,
  `src/cmd/sync.rs:139`); it never reports the override as such.

## Model

| member | source | states |
|---|---|---|
| `Sync.SelectedKind` | src/cmd/sync.rs:63-67 | the kind is selected exactly when one of `--cros` and `--arc` is given, ARC exactly when only `--arc` is given; otherwise the error is the selection error |
| `Sync.ExtractVersion` | src/cmd/sync.rs:106-118 | resolution succeeds exactly when the token is `tot` for ChromeOS, or is known to the lookup of the requested kind (ChromeOS lookups always for board `eve`); ChromeOS `tot` resolves to itself, everything else, ARC `tot` included, to the lookup's answer; a failure names the kind's namespace and the token |
| `Sync.Resolve` | src/cmd/sync.rs:63-74 | no contract of its own; `SyncProperties.ResolveSteps` states it: the target is settled exactly when kind selection, version resolution for the selected kind and the directory lookup for that kind's flag all succeed, and it holds their answers |
| `SyncProperties.PrepareClassification` | src/cmd/sync.rs:124-148 | classification: ARC exactly when `Android.bp` exists and the ARC version is readable (ARC wins over ChromeOS); ChromeOS exactly when there is no `Android.bp` and the ChromeOS version is readable; none exactly when the directory was missing and could be created, or is empty with no marker; refused exactly when it is non-empty with no marker |
| `SyncProperties.PrepareEffects` | src/cmd/sync.rs:124-148 | an unreadable ARC version in a tree with `Android.bp` is an error; every error other than the refusal is the last call's failure; `create_dir_all` is called exactly when the target is not a directory, and only a missing directory is created, nothing else on disk changes; every call concerns the target and only the creation changes state |
| `Sync.PrepareSpec` | src/cmd/sync.rs:124-148 | no contract of its own; `SyncProperties.PrepareClassification` and `SyncProperties.PrepareEffects` state what it classifies and what it does on disk |
| `Sync.PrepareRepoPaths` | src/cmd/sync.rs:124-148 | the method's result, filesystem and appended calls are those of `PrepareSpec` |
| `SyncProperties.SelectionFailsFirst` | src/cmd/sync.rs:63-67 | with both or neither of `--cros`/`--arc`, the run fails with the selection error, makes no call and leaves the disk unchanged |
| `SyncProperties.FlagsPassedThrough` | src/cmd/sync.rs:87-101 | every `repo_sync` of a run, of the mirror or of the target, gets the caller's `force` and `verbose` |
| `Sync.SyncRepos` | src/cmd/sync.rs:87-101 | the method's result and appended calls are those of `SyncSteps`, whose properties `SyncPhase` and `SyncPhaseOrder` state |
| `Sync.SetupCall` | src/cmd/sync.rs:95-99 | the setup chosen is `setup_arc_repo` exactly for ARC; it gets the target and the resolved version; only the ChromeOS setup gets the reference |
| `Sync.SyncSteps` | src/cmd/sync.rs:89-101 | no contract of its own; `SyncProperties.SyncPhase` and `SyncProperties.SyncPhaseOrder` state it: only syncs and setups, the caller's flags on every sync, stop at the first failure, and its calls always a prefix of the mirror sync, the setup and the primary sync, in that order |
| `SyncProperties.ResolveSteps` | src/cmd/sync.rs:63-74 | the command settles its target exactly when kind selection, version resolution in the selected kind's namespace and the lookup of the directory named by that kind's flag all succeed, and the target holds their answers |
| `SyncProperties.SyncPhase` | src/cmd/sync.rs:87-101 | the phase makes at least one call, each a `repo_sync` or a setup; every sync gets the caller's flags; every call but the last succeeded, and an error is the failure of the last call made; the phase succeeds exactly when none of its calls failed |
| `SyncProperties.SyncPhaseOrder` | src/cmd/sync.rs:89-101 | whether it fails or not, the phase's calls are a prefix of the mirror sync (if a reference is used), the setup for the kind and the primary sync, in that order; on success they are all three |
| `Sync.Run` | src/cmd/sync.rs:62-102 | the method's result, filesystem and appended calls are those of `RunSpec` |
| `Sync.RunSpec` | src/cmd/sync.rs:62-102 | no contract of its own; `SyncProperties.RunShape`, `SyncProperties.SuccessfulRun`, `SyncProperties.FailFast` and the other run lemmas state it |
| `World.Fs.Created` | src/cmd/sync.rs:127 | after `create_dir_all` the path is a directory: the one that was there, or else a new empty one with no markers; every other path is as before |
| `World.Host.IsDir` | src/cmd/sync.rs:125 | records the probe; answers whether the path is a directory |
| `World.Host.CreateDirAll` | src/cmd/sync.rs:127 | records the call; succeeds exactly when the path is a directory or is free and writable, and then the path is a directory; on failure nothing changes |
| `World.Host.AndroidBpExists` | src/cmd/sync.rs:131 | records the probe; answers whether `<repo>/Android.bp` exists |
| `World.Host.GetCurrentSyncedArcVersion` | src/cmd/sync.rs:133 | records the read; returns the synced ARC version, or fails when none can be read |
| `World.Host.GetCurrentSyncedVersion` | src/cmd/sync.rs:138 | records the read; returns the synced ChromeOS version exactly when one can be read |
| `World.Host.ReadDirHasEntry` | src/cmd/sync.rs:143 | records the listing; fails when the directory cannot be listed, else answers whether it has an entry |
| `World.Host.SetupArcRepo` | src/cmd/sync.rs:96 | records `setup_arc_repo(repo, version)`; it gets no reference; the result is that call's outcome |
| `World.Host.SetupCrosRepo` | src/cmd/sync.rs:98 | records `setup_cros_repo(repo, version, reference)`; the result is that call's outcome |
| `World.Host.RepoSync` | src/cmd/sync.rs:92 | records `repo_sync(path, force, verbose)`; the result is that call's outcome |
| `SyncProperties.PrepareMutations` | src/cmd/sync.rs:124-148 | preparing the target changes nothing on disk except creating it when it is not a directory |
| `SyncProperties.RunShape` | src/cmd/sync.rs:85-101 | once a run reaches the syncs, it is the preparation's calls followed by the sync phase for the kind found on disk (else the flags' kind), and its result and filesystem are those of the sync phase and the preparation |
| `SyncProperties.RunMutations` | src/cmd/sync.rs:85-101 | once a run reaches the syncs, its result is that of the sync phase, and its state changes are the target's creation (if missing) followed by the sync phase's calls |
| `SyncProperties.SuccessReachesSyncs` | src/cmd/sync.rs:62-102 | a successful run got past resolution, preparation of the target and the reference lookup |
| `SyncProperties.SuccessfulRun` | src/cmd/sync.rs:62-102 | after a successful run, kind selection, version resolution, directory and reference lookups all succeeded; the state changes are, in order: creation of a missing target, the mirror sync (if a reference is used), exactly one setup, and the primary sync with the caller's flags; the setup is chosen by the kind on disk (else the flags' kind), only ChromeOS setup gets the reference, and the version is the one resolved for the flags' kind |
| `SyncProperties.MirrorFailureStopsRun` | src/cmd/sync.rs:89-93 | when the mirror sync fails, the run fails with that failure, and no setup and no primary sync happen |
| `SyncProperties.SetupFailureStopsRun` | src/cmd/sync.rs:95-101 | when the setup fails, the run fails with that failure after the mirror sync, and the primary sync does not happen |
| `SyncProperties.PrimaryFailureEndsRun` | src/cmd/sync.rs:89-101 | when the mirror sync and the setup succeed and the primary sync fails, the run fails with that failure, and the state changes are the creation of a missing target, the mirror sync (if a reference is used), the setup for the kind and the primary sync, in that order |
| `SyncProperties.FailFast` | src/cmd/sync.rs:62-102 | a failing call is the last call of the run; a failure that is not a call's leaves no state change except the target's creation |
| `SyncProperties.ResolutionFailureTouchesNothing` | src/cmd/sync.rs:69 | a version that does not resolve ends the run with that error, before any call, with the disk unchanged |
| `SyncProperties.ArcVersionReadFailureIsFatal` | src/cmd/sync.rs:131-135 | in a tree with `Android.bp` whose ARC version cannot be read, the run fails right after that read, with no sync and no change on disk |
| `SyncProperties.UnrecognisedDirectoryIsRefused` | src/cmd/sync.rs:143-145 | a non-empty directory with neither marker is refused after listing it, with no sync and no change on disk |
| `SyncProperties.CrosFlagOnArcTree` | src/cmd/sync.rs:69-101 | one concrete run, as an illustration: `--cros` on an existing ARC tree runs `setup_arc_repo` with the ChromeOS-resolved version, then syncs the tree |
| `SyncProperties.CrosFlagOnArcTreeRunsArcSetup` | src/cmd/sync.rs:69-99 | for every successful run with `--cros` alone on a directory holding `Android.bp`: `setup_arc_repo` runs with the version resolved in the ChromeOS namespace, and `setup_cros_repo` never runs |
| `SyncProperties.PrepareSettles` | src/cmd/sync.rs:124-148 | preparing a target a second time after a successful preparation finds the same kind, creates nothing and leaves the disk unchanged |
| `SyncProperties.RerunConverges` | src/cmd/sync.rs:62-148 | after a successful run, the same run again succeeds, creates nothing and leaves the disk as it is; every later run is the same |

## Left out

- `src/cmd/setup.rs` is not part of this model. It checks tool presence and installs shell completions, with no decision logic.
- The internals of `lookup_full_version`, `lookup_arc_version`, `get_cros_dir_unchecked`, `get_reference_repo`, `setup_arc_repo`, `setup_cros_repo`, `repo_sync`, `get_current_synced_version` and `get_current_synced_arc_version` are not modelled: their source is not part of this model. Each is an oracle whose answer depends only on its arguments (and the filesystem, for the two version reads).
- RerunConverges: holds only under the model's assumptions. What `setup_*` and `repo_sync` write to disk is not modelled; only `create_dir_all` changes the filesystem. A target created by the first run is therefore still an empty `FreshDir` on the second run and is classified as new, where the program would find a synced tree. The second run also succeeds because it reuses the same `Services`, so every lookup and every `setup_*`/`repo_sync` outcome is the same as the first time.
- Logging (`info!`, `warn!`), the previous versions that are only logged, and the text of error messages are not modelled. An error is identified by the step or call that failed.
- Argument parsing by `argh` and the hidden `repo` option are not modelled.
- The default to the current directory when no path is given is not modelled; it is part of the `get_cros_dir_unchecked` oracle.
- Symbolic links, parent-directory creation by `create_dir_all`, and I/O errors inside `Path::exists` (read as "absent") are not modelled separately.
- Concurrent runs sharing one reference mirror are not modelled; the command does no coordination.
