/**
  What a `sync` run does, stated over its specification: which state-changing
  calls it makes and in what order, with which kind, version and flags, and
  where it stops when a step fails.
 */
module SyncProperties {
  import opened Outcomes
  import opened World
  import opened Traces
  import opened Sync

  /** The directory option that the flag-selected kind names. */
  function DirFlag(args: Args, kind: Kind): Option<string> {
    if kind == Arc then args.arc else args.cros
  }

  /** The kind the run treats the target as: what the markers on disk say, else what the flags say. */
  function EffectiveKind(fs: Fs, repo: Path, requested: Kind): Kind {
    if fs.HasAndroidBp(repo) then Arc
    else if fs.IsDir(repo) && fs.SyncedCrosVersion(repo).Some? then Cros
    else requested
  }

  /** The creation of the target, when it is not yet a directory. */
  function Creation(fs: Fs, repo: Path): seq<Call> {
    if fs.IsDir(repo) then [] else [CreateDir(repo)]
  }

  /** The mirror sync, when a reference is in use. */
  function MirrorSync(reference: Option<Path>, force: bool, verbose: bool): seq<Call> {
    if reference.Some? then [Sync(reference.value, force, verbose)] else []
  }

  /** The run gets past resolution, preparation of `repo` and the reference lookup. */
  predicate ReachesSyncs(args: Args, s: Services, fs: Fs, repo: Path, reference: Option<Path>) {
    Resolve(args, s).Ok? && Resolve(args, s).value.repo == repo &&
    PrepareSpec(repo, fs).result.Ok? && s.GetReferenceRepo(args.reference) == Ok(reference)
  }

  /**
    Resolution happens in a fixed order: the kind from the flags, then the
    version in that kind's namespace, then the directory the flag of that
    kind names. It succeeds exactly when all three do.
   */
  lemma ResolveSteps(args: Args, s: Services)
    ensures Resolve(args, s).Ok? <==>
      SelectedKind(args).Ok? && ExtractVersion(args, SelectedKind(args).value, s).Ok? &&
      s.GetCrosDirUnchecked(DirFlag(args, SelectedKind(args).value)).Ok?
    ensures Resolve(args, s).Ok? ==>
      var t := Resolve(args, s).value;
      t.requested == SelectedKind(args).value &&
      t.version == ExtractVersion(args, t.requested, s).value &&
      t.repo == s.GetCrosDirUnchecked(DirFlag(args, t.requested)).value
  {
  }

  /**
    How the target directory is classified. The Android.bp marker is
    consulted first, so ARC wins over ChromeOS; a directory with neither
    marker is accepted only when it is empty.
   */
  lemma PrepareClassification(repo: Path, fs: Fs, p: Prepared)
    requires p == PrepareSpec(repo, fs)
    ensures p.result == Ok(Some(Arc)) <==> fs.HasAndroidBp(repo) && fs.SyncedArcVersion(repo).Some?
    ensures p.result == Ok(Some(Cros)) <==>
      fs.IsDir(repo) && !fs.HasAndroidBp(repo) && fs.SyncedCrosVersion(repo).Some?
    ensures p.result == Ok(None) <==>
      (!fs.IsDir(repo) && fs.CanCreate(repo)) ||
      (fs.IsDir(repo) && !fs.HasAndroidBp(repo) && fs.SyncedCrosVersion(repo).None? &&
       fs.Listing(repo) == Listed(false))
    ensures p.result == Err(NotARepo(repo)) <==>
      fs.IsDir(repo) && !fs.HasAndroidBp(repo) && fs.SyncedCrosVersion(repo).None? &&
      fs.Listing(repo) == Listed(true)
  {
  }

  /**
    What preparing the target does besides classifying it: which failures
    end it, and what it changes on disk.
   */
  lemma PrepareEffects(repo: Path, fs: Fs, p: Prepared)
    requires p == PrepareSpec(repo, fs)
    // An unreadable ARC version in an ARC tree is an error, not a warning.
    ensures fs.HasAndroidBp(repo) && fs.SyncedArcVersion(repo).None? ==>
      p.result == Err(Failed(ReadArcVersion(repo)))
    // Any other failure is the failure of the last call made.
    ensures p.result.Err? && p.result.error != NotARepo(repo) ==>
      p.calls != [] && p.result == Err(Failed(Last(p.calls)))
    // Only a missing directory is created, and nothing else on disk changes.
    ensures CreateDir(repo) in p.calls <==> !fs.IsDir(repo)
    ensures p.fs == if !fs.IsDir(repo) && fs.CanCreate(repo) then fs.Created(repo) else fs
    ensures forall c | c in p.calls :: c.path == repo && (c.Mutates() ==> c == CreateDir(repo))
  {
  }

  /**
    The mirror sync, setup and primary sync: every call changes state and
    every sync gets the caller's flags; the phase stops at its first failing
    call, and succeeds exactly when every call it made did.
   */
  lemma SyncPhase(s: Services, repo: Path, kind: Kind, version: string, reference: Option<Path>,
                  force: bool, verbose: bool, t: Steps)
    requires t == SyncSteps(s, repo, kind, version, reference, force, verbose)
    ensures t.calls != [] && forall c | c in t.calls :: c.Mutates() && (c.Sync? || c.IsSetup())
    ensures forall c | c in t.calls && c.Sync? :: c.force == force && c.verbose == verbose
    ensures t.result.Err? ==> t.result == Err(Failed(Last(t.calls))) && Last(t.calls) in s.failing
    ensures forall i | 0 <= i < |t.calls| - 1 :: t.calls[i] !in s.failing
    ensures t.result.Ok? <==> forall c | c in t.calls :: c !in s.failing
  {
  }

  /**
    The order of the phase: its calls are always a prefix of the mirror sync
    (when a reference is in use), the setup and the primary sync, and all
    three are made when the phase succeeds.
   */
  lemma SyncPhaseOrder(s: Services, repo: Path, kind: Kind, version: string, reference: Option<Path>,
                       force: bool, verbose: bool, t: Steps)
    requires t == SyncSteps(s, repo, kind, version, reference, force, verbose)
    ensures t.calls <= MirrorSync(reference, force, verbose) +
      [SetupCall(kind, repo, version, reference), Sync(repo, force, verbose)]
    ensures t.result.Ok? ==>
      t.calls == MirrorSync(reference, force, verbose) + [SetupCall(kind, repo, version, reference), Sync(repo, force, verbose)]
  {
  }

  /** With both or neither of --cros and --arc the run fails before any call. */
  lemma SelectionFailsFirst(args: Args, s: Services, fs: Fs)
    requires SelectedKind(args).Err?
    ensures RunSpec(args, s, fs) == Outcome(Err(KindNotSelected), [], fs)
  {
  }

  /** A version that cannot be resolved stops the run before the disk is looked at. */
  lemma ResolutionFailureTouchesNothing(args: Args, s: Services, fs: Fs)
    requires SelectedKind(args).Ok?
    requires ExtractVersion(args, SelectedKind(args).value, s).Err?
    ensures RunSpec(args, s, fs) == Outcome(Err(ExtractVersion(args, SelectedKind(args).value, s).error), [], fs)
  {
  }

  /** An Android.bp marker whose tree has no readable ARC version is fatal. */
  lemma ArcVersionReadFailureIsFatal(args: Args, s: Services, fs: Fs, repo: Path)
    requires Resolve(args, s).Ok? && Resolve(args, s).value.repo == repo
    requires fs.HasAndroidBp(repo) && fs.SyncedArcVersion(repo).None?
    ensures RunSpec(args, s, fs) ==
      Outcome(Err(Failed(ReadArcVersion(repo))), [ProbeDir(repo), ProbeAndroidBp(repo), ReadArcVersion(repo)], fs)
  {
  }

  /** A non-empty directory with neither marker is refused without any sync. */
  lemma UnrecognisedDirectoryIsRefused(args: Args, s: Services, fs: Fs, repo: Path)
    requires Resolve(args, s).Ok? && Resolve(args, s).value.repo == repo
    requires fs.IsDir(repo) && !fs.HasAndroidBp(repo) && fs.SyncedCrosVersion(repo).None?
    requires fs.Listing(repo) == Listed(true)
    ensures RunSpec(args, s, fs) ==
      Outcome(Err(NotARepo(repo)),
              [ProbeDir(repo), ProbeAndroidBp(repo), ReadCrosVersion(repo), ListDir(repo)], fs)
  {
  }

  /**
    `--cros` pointed at an existing ARC tree: the version is resolved as a
    ChromeOS version (the flags' kind), but the tree is set up and synced as
    ARC (the kind on disk), with that ChromeOS version.
   */
  lemma CrosFlagOnArcTree()
    ensures var args := Args(Some("src"), None, None, "14899.0.0", false, false);
      var s := Services(map[("14899.0.0", Board) := "R110-14899.0.0"], map[], map[Some("src") := "/src"],
                        map[None := None], {});
      var fs := Fs(map["/src" := Directory(DirState(true, Some("rvc-arc"), None, Listed(true)))], {});
      RunSpec(args, s, fs) ==
        Outcome(Ok(()), [ProbeDir("/src"), ProbeAndroidBp("/src"), ReadArcVersion("/src"),
                         SetupArc("/src", "R110-14899.0.0"), Sync("/src", false, false)], fs)
  {
  }

  /**
    A run that gets past resolution, preparation and the reference lookup:
    its result is that of the sync phase for the kind found on disk (else the
    flags' kind), after the calls of the preparation.
   */
  lemma RunShape(args: Args, s: Services, fs: Fs, repo: Path, reference: Option<Path>)
    requires ReachesSyncs(args, s, fs, repo, reference)
    ensures var t := Resolve(args, s).value;
      var p := PrepareSpec(repo, fs);
      var steps := SyncSteps(s, repo, EffectiveKind(fs, repo, t.requested), t.version, reference,
                             args.force, args.verbose);
      RunSpec(args, s, fs) == Outcome(steps.result, p.calls + steps.calls, p.fs)
  {
    var t := Resolve(args, s).value;
    var p := PrepareSpec(repo, fs);
    PrepareClassification(repo, fs, p);
    assert p.result.value.UnwrapOr(t.requested) == EffectiveKind(fs, repo, t.requested);
  }

  /** Every sync of a run, of the mirror or of the target, gets the caller's force and verbose flags. */
  lemma FlagsPassedThrough(args: Args, s: Services, fs: Fs)
    ensures forall c | c in RunSpec(args, s, fs).calls && c.Sync? ::
      c.force == args.force && c.verbose == args.verbose
  {
    if Resolve(args, s).Ok? {
      var t := Resolve(args, s).value;
      var p := PrepareSpec(t.repo, fs);
      PrepareEffects(t.repo, fs, p);
      if p.result.Ok? && s.GetReferenceRepo(args.reference).Ok? {
        var reference := s.GetReferenceRepo(args.reference).value;
        RunShape(args, s, fs, t.repo, reference);
        var kind := EffectiveKind(fs, t.repo, t.requested);
        var steps := SyncSteps(s, t.repo, kind, t.version, reference, args.force, args.verbose);
        SyncPhase(s, t.repo, kind, t.version, reference, args.force, args.verbose, steps);
      }
    }
  }

  /** Preparing the target changes nothing on disk except creating a missing directory. */
  lemma PrepareMutations(repo: Path, fs: Fs)
    ensures Mutations(PrepareSpec(repo, fs).calls) == Creation(fs, repo)
  {
    var p := PrepareSpec(repo, fs);
    if fs.IsDir(repo) {
      MutationsOfReads(p.calls);
    } else {
      assert p.calls == [ProbeDir(repo)] + [CreateDir(repo)];
      MutationsAppend([ProbeDir(repo)], [CreateDir(repo)]);
      MutationsOfOne(ProbeDir(repo));
      MutationsOfOne(CreateDir(repo));
    }
  }

  /** The state-changing calls of a run that gets as far as the syncs. */
  lemma RunMutations(args: Args, s: Services, fs: Fs, repo: Path, reference: Option<Path>)
    requires ReachesSyncs(args, s, fs, repo, reference)
    ensures var t := Resolve(args, s).value;
      var steps := SyncSteps(s, repo, EffectiveKind(fs, repo, t.requested), t.version, reference,
                             args.force, args.verbose);
      var o := RunSpec(args, s, fs);
      o.result == steps.result && Mutations(o.calls) == Creation(fs, repo) + steps.calls
  {
    var t := Resolve(args, s).value;
    var p := PrepareSpec(repo, fs);
    var kind := EffectiveKind(fs, repo, t.requested);
    var steps := SyncSteps(s, repo, kind, t.version, reference, args.force, args.verbose);
    RunShape(args, s, fs, repo, reference);
    MutationsAppend(p.calls, steps.calls);
    PrepareMutations(repo, fs);
    SyncPhase(s, repo, kind, t.version, reference, args.force, args.verbose, steps);
    MutationsOfWrites(steps.calls);
  }

  /** A successful run got past resolution, preparation and the reference lookup. */
  lemma SuccessReachesSyncs(args: Args, s: Services, fs: Fs)
    requires RunSpec(args, s, fs).result.Ok?
    ensures Resolve(args, s).Ok? && s.GetReferenceRepo(args.reference).Ok?
    ensures ReachesSyncs(args, s, fs, Resolve(args, s).value.repo, s.GetReferenceRepo(args.reference).value)
  {
    assert Resolve(args, s).Ok?;
    assert PrepareSpec(Resolve(args, s).value.repo, fs).result.Ok?;
  }

  /**
    A successful run: the version was resolved in the namespace of the kind
    the flags selected; then, in this order, the target was created if it was
    missing, the mirror was synced if a reference is in use, exactly one setup
    routine ran for the kind found on disk (else the flags' kind), and the
    target was synced with the caller's flags.
   */
  lemma SuccessfulRun(args: Args, s: Services, fs: Fs)
    requires RunSpec(args, s, fs).result.Ok?
    ensures SelectedKind(args).Ok?
    ensures var requested := SelectedKind(args).value;
      ExtractVersion(args, requested, s).Ok? && s.GetCrosDirUnchecked(DirFlag(args, requested)).Ok? &&
      s.GetReferenceRepo(args.reference).Ok?
    ensures var requested := SelectedKind(args).value;
      var version := ExtractVersion(args, requested, s).value;
      var repo := s.GetCrosDirUnchecked(DirFlag(args, requested)).value;
      var reference := s.GetReferenceRepo(args.reference).value;
      Mutations(RunSpec(args, s, fs).calls) ==
        Creation(fs, repo) + MirrorSync(reference, args.force, args.verbose) +
        [SetupCall(EffectiveKind(fs, repo, requested), repo, version, reference),
         Sync(repo, args.force, args.verbose)]
  {
    SuccessReachesSyncs(args, s, fs);
    ResolveSteps(args, s);
    var t := Resolve(args, s).value;
    var reference := s.GetReferenceRepo(args.reference).value;
    var kind := EffectiveKind(fs, t.repo, t.requested);
    var steps := SyncSteps(s, t.repo, kind, t.version, reference, args.force, args.verbose);
    RunMutations(args, s, fs, t.repo, reference);
    assert steps.result.Ok?;
    SyncPhaseOrder(s, t.repo, kind, t.version, reference, args.force, args.verbose, steps);
  }

  /** A mirror that fails to sync stops the run before any setup and before the primary sync. */
  lemma MirrorFailureStopsRun(args: Args, s: Services, fs: Fs, repo: Path, mirror: Path)
    requires ReachesSyncs(args, s, fs, repo, Some(mirror))
    requires Sync(mirror, args.force, args.verbose) in s.failing
    ensures var o := RunSpec(args, s, fs);
      o.result == Err(Failed(Sync(mirror, args.force, args.verbose))) &&
      Mutations(o.calls) == Creation(fs, repo) + [Sync(mirror, args.force, args.verbose)]
  {
    var t := Resolve(args, s).value;
    var kind := EffectiveKind(fs, repo, t.requested);
    var sync := Sync(mirror, args.force, args.verbose);
    assert SyncSteps(s, repo, kind, t.version, Some(mirror), args.force, args.verbose) ==
           Steps(Err(Failed(sync)), [sync]);
    RunMutations(args, s, fs, repo, Some(mirror));
  }

  /** A setup that fails stops the run before the primary sync. */
  lemma SetupFailureStopsRun(args: Args, s: Services, fs: Fs, repo: Path, reference: Option<Path>)
    requires ReachesSyncs(args, s, fs, repo, reference)
    requires reference.Some? ==> Sync(reference.value, args.force, args.verbose) !in s.failing
    requires var t := Resolve(args, s).value;
      SetupCall(EffectiveKind(fs, repo, t.requested), repo, t.version, reference) in s.failing
    ensures var t := Resolve(args, s).value;
      var setup := SetupCall(EffectiveKind(fs, repo, t.requested), repo, t.version, reference);
      var o := RunSpec(args, s, fs);
      o.result == Err(Failed(setup)) &&
      Mutations(o.calls) == Creation(fs, repo) + MirrorSync(reference, args.force, args.verbose) + [setup]
  {
    var t := Resolve(args, s).value;
    var kind := EffectiveKind(fs, repo, t.requested);
    var setup := SetupCall(kind, repo, t.version, reference);
    assert SyncSteps(s, repo, kind, t.version, reference, args.force, args.verbose) ==
           Steps(Err(Failed(setup)), MirrorSync(reference, args.force, args.verbose) + [setup]);
    RunMutations(args, s, fs, repo, reference);
  }

  /**
    A primary sync that fails is the run's error; the mirror sync and the
    setup were made before it, in that order.
   */
  lemma PrimaryFailureEndsRun(args: Args, s: Services, fs: Fs, repo: Path, reference: Option<Path>)
    requires ReachesSyncs(args, s, fs, repo, reference)
    requires reference.Some? ==> Sync(reference.value, args.force, args.verbose) !in s.failing
    requires var t := Resolve(args, s).value;
      SetupCall(EffectiveKind(fs, repo, t.requested), repo, t.version, reference) !in s.failing
    requires Sync(repo, args.force, args.verbose) in s.failing
    ensures var t := Resolve(args, s).value;
      var o := RunSpec(args, s, fs);
      o.result == Err(Failed(Sync(repo, args.force, args.verbose))) &&
      Mutations(o.calls) == Creation(fs, repo) + MirrorSync(reference, args.force, args.verbose) +
        [SetupCall(EffectiveKind(fs, repo, t.requested), repo, t.version, reference),
         Sync(repo, args.force, args.verbose)]
  {
    var t := Resolve(args, s).value;
    var kind := EffectiveKind(fs, repo, t.requested);
    var primary := Sync(repo, args.force, args.verbose);
    assert SyncSteps(s, repo, kind, t.version, reference, args.force, args.verbose) ==
           Steps(Err(Failed(primary)), MirrorSync(reference, args.force, args.verbose) +
                 [SetupCall(kind, repo, t.version, reference), primary]);
    RunMutations(args, s, fs, repo, reference);
  }

  /**
    Every failure aborts the rest of the run: a failing call is the last call
    made, and a failure that is not a call's (a lookup, or a directory that
    is no checkout) comes before anything but the creation of the target.
   */
  lemma FailFast(args: Args, s: Services, fs: Fs)
    ensures var o := RunSpec(args, s, fs);
      o.result.Err? && o.result.error.Failed? ==> o.calls != [] && Last(o.calls) == o.result.error.call
    ensures var o := RunSpec(args, s, fs);
      o.result.Err? && !o.result.error.Failed? ==> forall c | c in o.calls && c.Mutates() :: c.CreateDir?
  {
    if Resolve(args, s).Ok? {
      var t := Resolve(args, s).value;
      var p := PrepareSpec(t.repo, fs);
      PrepareEffects(t.repo, fs, p);
      if p.result.Ok? && s.GetReferenceRepo(args.reference).Ok? {
        var reference := s.GetReferenceRepo(args.reference).value;
        RunShape(args, s, fs, t.repo, reference);
        var kind := EffectiveKind(fs, t.repo, t.requested);
        var steps := SyncSteps(s, t.repo, kind, t.version, reference, args.force, args.verbose);
        SyncPhase(s, t.repo, kind, t.version, reference, args.force, args.verbose, steps);
        assert Last(p.calls + steps.calls) == Last(steps.calls);
      }
    }
  }

  /**
    `--cros` on a directory that holds an ARC tree: a successful run sets the
    tree up as ARC, with the version resolved in the ChromeOS namespace, and
    never runs the ChromeOS setup.
   */
  lemma CrosFlagOnArcTreeRunsArcSetup(args: Args, s: Services, fs: Fs)
    requires args.cros.Some? && args.arc.None?
    requires RunSpec(args, s, fs).result.Ok?
    requires s.GetCrosDirUnchecked(args.cros).Ok? && fs.HasAndroidBp(s.GetCrosDirUnchecked(args.cros).value)
    ensures ExtractVersion(args, Cros, s).Ok?
    ensures var repo := s.GetCrosDirUnchecked(args.cros).value;
      SetupArc(repo, ExtractVersion(args, Cros, s).value) in RunSpec(args, s, fs).calls &&
      forall c | c in RunSpec(args, s, fs).calls :: !c.SetupCros?
  {
    var repo := s.GetCrosDirUnchecked(args.cros).value;
    var version := ExtractVersion(args, Cros, s).value;
    SuccessfulRun(args, s, fs);
    var reference := s.GetReferenceRepo(args.reference).value;
    var setup := SetupCall(Arc, repo, version, reference);
    var o := RunSpec(args, s, fs);
    assert Mutations(o.calls) == Creation(fs, repo) + MirrorSync(reference, args.force, args.verbose) +
      [setup, Sync(repo, args.force, args.verbose)];
    assert setup in Mutations(o.calls);
    assert forall c | c in Mutations(o.calls) :: !c.SetupCros?;
  }

  /**
    A target that has been prepared once prepares the same way again: the
    kind found is the same, nothing is created and the disk does not change.
   */
  lemma PrepareSettles(repo: Path, fs: Fs)
    requires PrepareSpec(repo, fs).result.Ok?
    ensures var p := PrepareSpec(repo, fs);
      var q := PrepareSpec(repo, p.fs);
      q.result == p.result && q.fs == p.fs && forall c | c in q.calls :: !c.CreateDir?
  {
    var p := PrepareSpec(repo, fs);
    if !fs.IsDir(repo) {
      assert p.fs.nodes[repo] == Directory(FreshDir);
    }
  }

  /**
    Running again with the same inputs after a successful run succeeds too,
    leaves the disk as it is, creates nothing, and from then on every run is
    the same.
   */
  lemma RerunConverges(args: Args, s: Services, fs: Fs)
    requires RunSpec(args, s, fs).result.Ok?
    ensures var first := RunSpec(args, s, fs);
      var second := RunSpec(args, s, first.fs);
      second.result.Ok? && second.fs == first.fs &&
      (forall c | c in second.calls :: !c.CreateDir?) &&
      RunSpec(args, s, second.fs) == second
  {
    var t := Resolve(args, s).value;
    var p := PrepareSpec(t.repo, fs);
    var reference := s.GetReferenceRepo(args.reference).value;
    PrepareSettles(t.repo, fs);
    var q := PrepareSpec(t.repo, p.fs);
    var kind := p.result.value.UnwrapOr(t.requested);
    var steps := SyncSteps(s, t.repo, kind, t.version, reference, args.force, args.verbose);
    assert RunSpec(args, s, fs) == Outcome(steps.result, p.calls + steps.calls, p.fs);
    assert RunSpec(args, s, p.fs) == Outcome(steps.result, q.calls + steps.calls, p.fs);
    SyncPhase(s, t.repo, kind, t.version, reference, args.force, args.verbose, steps);
  }
}
