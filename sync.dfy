/**
  The `sync` subcommand: bring a ChromeOS or Android/ARC checkout to a
  requested version. Each step is given twice: as a specification function
  that says what the step does to the filesystem and which calls it makes,
  and as a method that performs the step on a `Host` and is proved to match
  its specification.
 */
module Sync {
  import opened Outcomes
  import opened World
  import opened Traces

  /** The ChromeOS board against which non-"tot" versions are looked up. */
  const Board := "eve"

  /** The command line of `sync` (the hidden `repo` option is not modelled). */
  datatype Args = Args(
    cros: Option<string>,        // --cros <dir>
    arc: Option<string>,         // --arc <dir>
    reference: Option<string>,   // --reference <dir>
    version: string,             // --version <token>
    force: bool,                 // --force
    verbose: bool)               // --verbose

  /** The kind of checkout; the source encodes it as `is_arc: bool`. */
  datatype Kind = Cros | Arc

  /** Exactly one of `--cros` and `--arc` selects the kind. */
  function SelectedKind(args: Args): (r: Result<Kind, Error>)
    ensures r.Ok? <==> args.cros.Some? != args.arc.Some?
    ensures r == Ok(Arc) <==> args.arc.Some? && args.cros.None?
    ensures r.Err? ==> r.error == KindNotSelected
  {
    match (args.cros, args.arc)
    case (Some(_), None) => Ok(Cros)
    case (None, Some(_)) => Ok(Arc)
    case _ => Err(KindNotSelected)
  }

  /**
    Resolve the version token in the namespace of `kind`: for ChromeOS "tot"
    stands for itself and any other token is looked up for the board "eve";
    for ARC every token, "tot" included, goes through the ARC lookup.
   */
  function ExtractVersion(args: Args, kind: Kind, s: Services): (r: Result<string, Error>)
    ensures r.Ok? <==>
      if kind == Cros then args.version == "tot" || (args.version, Board) in s.fullVersions
      else args.version in s.arcVersions
    ensures r.Ok? && kind == Cros ==>
      r.value == if args.version == "tot" then "tot" else s.fullVersions[(args.version, Board)]
    ensures r.Ok? && kind == Arc ==> r.value == s.arcVersions[args.version]
    ensures r.Err? ==>
      r.error == if kind == Cros then UnknownCrosVersion(args.version) else UnknownArcVersion(args.version)
  {
    if kind == Cros then
      if args.version == "tot" then Ok(args.version) else s.LookupFullVersion(args.version, Board)
    else
      s.LookupArcVersion(args.version)
  }

  /** What the command settles before it looks at the disk. */
  datatype Target = Target(requested: Kind, version: string, repo: Path)

  /** Kind selection, version resolution and the target directory, in that order. */
  function Resolve(args: Args, s: Services): (r: Result<Target, Error>)
  {
    var requested :- SelectedKind(args);
    var version :- ExtractVersion(args, requested, s);
    var repo :- s.GetCrosDirUnchecked(if requested == Arc then args.arc else args.cros);
    Ok(Target(requested, version, repo))
  }

  /** The result, the calls made and the filesystem afterwards, for a step that may create a directory. */
  datatype Prepared = Prepared(result: Result<Option<Kind>, Error>, calls: seq<Call>, fs: Fs)

  /**
    Classify the target directory, creating it when it is missing: `Some(k)`
    when a checkout of kind `k` is found, `None` when the directory is new or
    empty, an error when it is something else.
   */
  function PrepareSpec(repo: Path, fs: Fs): Prepared
  {
    if !fs.IsDir(repo) then
      if fs.CanCreate(repo) then Prepared(Ok(None), [ProbeDir(repo), CreateDir(repo)], fs.Created(repo))
      else Prepared(Err(Failed(CreateDir(repo))), [ProbeDir(repo), CreateDir(repo)], fs)
    else if fs.HasAndroidBp(repo) then
      var calls := [ProbeDir(repo), ProbeAndroidBp(repo), ReadArcVersion(repo)];
      if fs.SyncedArcVersion(repo).Some? then Prepared(Ok(Some(Arc)), calls, fs)
      else Prepared(Err(Failed(ReadArcVersion(repo))), calls, fs)
    else if fs.SyncedCrosVersion(repo).Some? then
      Prepared(Ok(Some(Cros)), [ProbeDir(repo), ProbeAndroidBp(repo), ReadCrosVersion(repo)], fs)
    else
      var calls := [ProbeDir(repo), ProbeAndroidBp(repo), ReadCrosVersion(repo), ListDir(repo)];
      match fs.Listing(repo)
      case Unlistable => Prepared(Err(Failed(ListDir(repo))), calls, fs)
      case Listed(hasEntry) => Prepared(if hasEntry then Err(NotARepo(repo)) else Ok(None), calls, fs)
  }

  /** The setup routine for a checkout of `kind`; only ChromeOS setup takes the reference. */
  function SetupCall(kind: Kind, repo: Path, version: string, reference: Option<Path>): (c: Call)
    ensures c.IsSetup() && c.path == repo && c.version == version
    ensures c.SetupArc? <==> kind == Arc
    ensures c.SetupCros? ==> c.reference == reference
  {
    if kind == Arc then SetupArc(repo, version) else SetupCros(repo, version, reference)
  }

  datatype Steps = Steps(result: Result<(), Error>, calls: seq<Call>)

  /** Mirror sync (when a reference is in use), then setup, then the primary sync, stopping at the first failure. */
  function SyncSteps(s: Services, repo: Path, kind: Kind, version: string, reference: Option<Path>,
                     force: bool, verbose: bool): Steps
  {
    var mirror := if reference.Some? then [Sync(reference.value, force, verbose)] else [];
    if reference.Some? && s.Perform(mirror[0]).Err? then Steps(s.Perform(mirror[0]), mirror)
    else
      var setup := SetupCall(kind, repo, version, reference);
      if s.Perform(setup).Err? then Steps(s.Perform(setup), mirror + [setup])
      else
        var primary := Sync(repo, force, verbose);
        Steps(s.Perform(primary), mirror + [setup, primary])
  }

  /** The result of a whole run, the calls it made and the filesystem it leaves. */
  datatype Outcome = Outcome(result: Result<(), Error>, calls: seq<Call>, fs: Fs)

  /** The whole `sync` run. */
  function RunSpec(args: Args, s: Services, fs: Fs): Outcome
  {
    match Resolve(args, s)
    case Err(e) => Outcome(Err(e), [], fs)
    case Ok(t) =>
      var p := PrepareSpec(t.repo, fs);
      match p.result
      case Err(e) => Outcome(Err(e), p.calls, p.fs)
      case Ok(detected) =>
        match s.GetReferenceRepo(args.reference)
        case Err(e) => Outcome(Err(e), p.calls, p.fs)
        case Ok(reference) =>
          var kind := detected.UnwrapOr(t.requested);
          var steps := SyncSteps(s, t.repo, kind, t.version, reference, args.force, args.verbose);
          Outcome(steps.result, p.calls + steps.calls, p.fs)
  }

  method PrepareRepoPaths(h: Host, repo: Path) returns (r: Result<Option<Kind>, Error>)
    modifies h
    ensures var p := PrepareSpec(repo, old(h.fs));
      r == p.result && h.fs == p.fs && h.calls == old(h.calls) + p.calls
  {
    var isDir := h.IsDir(repo);
    if !isDir {
      var created :- h.CreateDirAll(repo);
      return Ok(None);
    }
    var hasAndroidBp := h.AndroidBpExists(repo);
    if hasAndroidBp {
      var previous :- h.GetCurrentSyncedArcVersion(repo);
      return Ok(Some(Arc));
    }
    var previous := h.GetCurrentSyncedVersion(repo);
    if previous.Ok? {
      return Ok(Some(Cros));
    }
    var hasEntry :- h.ReadDirHasEntry(repo);
    if hasEntry {
      return Err(NotARepo(repo));
    }
    return Ok(None);
  }

  /** The mirror sync, the kind-specific setup and the primary sync. */
  method SyncRepos(h: Host, repo: Path, kind: Kind, version: string, reference: Option<Path>,
                   force: bool, verbose: bool) returns (r: Result<(), Error>)
    modifies h`calls
    ensures var t := SyncSteps(h.services, repo, kind, version, reference, force, verbose);
      r == t.result && h.calls == old(h.calls) + t.calls
  {
    // A reference mirror is brought up to date before it is used.
    if reference.Some? {
      var mirrored :- h.RepoSync(reference.value, force, verbose);
    }

    if kind == Arc {
      var setUp :- h.SetupArcRepo(repo, version);
    } else {
      var setUp :- h.SetupCrosRepo(repo, version, reference);
    }

    r := h.RepoSync(repo, force, verbose);
  }

  method Run(h: Host, args: Args) returns (r: Result<(), Error>)
    modifies h
    ensures var o := RunSpec(args, h.services, old(h.fs));
      r == o.result && h.fs == o.fs && h.calls == old(h.calls) + o.calls
  {
    // Kind from the flags, then the version in that kind's namespace, then the directory.
    var target :- Resolve(args, h.services);

    // The kind found on disk, if any, replaces the one the flags asked for.
    var detected :- PrepareRepoPaths(h, target.repo);
    var kind := detected.UnwrapOr(target.requested);

    var reference :- h.services.GetReferenceRepo(args.reference);
    r := SyncRepos(h, target.repo, kind, target.version, reference, args.force, args.verbose);
  }
}
