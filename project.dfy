/**
 * pipenv/utils/project.py: `ensure_project`, which makes sure a project has a
 * virtualenv (or is told to use the system interpreter) and a Pipfile before a
 * command runs, and `get_default_pyproject_backend`, which picks the build
 * backend named in a generated pyproject.toml.
 */
module ProjectUtils {
  import opened Wrappers
  import opened Substrings
  import opened Versions

  // ---------------------------------------------------------------------------
  // ensure_project
  // ---------------------------------------------------------------------------

  /** The facts about the project that `ensure_project` reads. */
  datatype Project = Project(
    useSystem: bool,                        // the PIPENV_USE_SYSTEM setting
    virtualenvExists: bool,
    pipfileExists: bool,
    requiredPythonVersion: Option<string>)  // from the Pipfile's [requires] section

  /** The keyword arguments of `ensure_project`. */
  datatype Options = Options(
    python: Option<string>,
    validate: bool,
    system: bool,
    warn: bool,
    sitePackages: Option<bool>,
    deploy: bool,
    skipRequirements: bool,
    pypiMirror: Option<string>,
    clear: bool,
    pipfileCategories: Option<seq<string>>)

  /** The keyword defaults of `ensure_project`. */
  const DefaultOptions := Options(
    python := None, validate := true, system := false, warn := true,
    sitePackages := None, deploy := false, skipRequirements := false,
    pypiMirror := None, clear := false, pipfileCategories := None)

  /**
   * What the collaborators answer when `ensure_project` calls them: whether
   * `ensure_virtualenv` and `ensure_pipfile` return or raise, what
   * `project._which` finds for an executable name, what `python_version`
   * reports for an interpreter path, and what `project.python(system=...)`
   * resolves to.
   */
  datatype Collaborators = Collaborators(
    ensureVirtualenv: Outcome<string>,
    which: string -> Option<string>,
    pythonVersion: string -> Option<string>,
    ensurePipfile: Outcome<string>,
    interpreter: bool -> string)

  /** The three messages printed to stderr when the interpreter version does not match. */
  datatype Warning =
    | PythonVersionMismatch(required: string, actual: Option<string>, path: string)
    | RebuildHint
    | CheckWillFail

  /** An observable effect of `ensure_project`, in the order it happens. */
  datatype Event =
    | ProvisionVirtualenv(python: Option<string>, sitePackages: Option<bool>, pypiMirror: Option<string>)
    | Warn(warning: Warning)
    | EnsurePipfile(validate: bool, skipRequirements: bool, system: bool, pipfileCategories: Option<seq<string>>)
    | SetEnv(name: string, value: string)

  /** How `ensure_project` ends: normally, by one of its own exceptions, or by a collaborator's. */
  datatype Status = Ok | PipfileNotFound | DeployException | CollaboratorFailed(error: string)

  datatype Run = Run(status: Status, trace: seq<Event>)

  const PipPythonPath := "PIP_PYTHON_PATH"

  /** Python truthiness of an optional string: `None` and `""` are false. */
  predicate Truthy(s: Option<string>)
  {
    s.Some? && s.value != ""
  }

  /** `system_or_exists`: an enforced system interpreter or an existing virtualenv override `system`. */
  function SystemOrExists(project: Project, system: bool): bool
  {
    if project.useSystem || project.virtualenvExists then true else system
  }

  /** `project._which("python") or project._which("py")`. */
  function InterpreterPath(which: string -> Option<string>): (path: Option<string>)
    ensures Truthy(path) <==> Truthy(which("python")) || Truthy(which("py"))
    ensures Truthy(which("python")) ==> path == which("python")
    ensures Truthy(which("py")) && !Truthy(which("python")) ==> path == which("py")
  {
    if Truthy(which("python")) then which("python") else which("py")
  }

  /** `required not in (actual or "")`. */
  predicate VersionMismatch(required: string, actual: Option<string>)
  {
    !Contains(actual.GetOr(""), required)
  }

  /** The event of calling `ensure_virtualenv` with the caller's arguments. */
  function ProvisionEvent(opts: Options): Event
  {
    ProvisionVirtualenv(opts.python, opts.sitePackages, opts.pypiMirror)
  }

  /** The event of calling `ensure_pipfile` with the caller's arguments. */
  function PipfileEvent(opts: Options): Event
  {
    EnsurePipfile(opts.validate, opts.skipRequirements, opts.system, opts.pipfileCategories)
  }

  /** Deploy mode without a Pipfile: refused before anything else happens. */
  predicate DeployWithoutPipfile(project: Project, opts: Options)
  {
    !project.pipfileExists && opts.deploy
  }

  /** `ensure_virtualenv` is called. */
  predicate Provisions(project: Project, opts: Options)
  {
    !DeployWithoutPipfile(project, opts) && !SystemOrExists(project, opts.system)
  }

  /** The interpreter version is compared with the Pipfile's requirement. */
  predicate ChecksVersion(project: Project, opts: Options, collab: Collaborators)
  {
    && Provisions(project, opts)
    && collab.ensureVirtualenv.Pass?
    && opts.warn
    && Truthy(project.requiredPythonVersion)
    && Truthy(InterpreterPath(collab.which))
  }

  /** The comparison runs and finds a mismatch. */
  predicate Mismatched(project: Project, opts: Options, collab: Collaborators)
  {
    && ChecksVersion(project, opts, collab)
    && VersionMismatch(project.requiredPythonVersion.value,
                       collab.pythonVersion(InterpreterPath(collab.which).value))
  }

  /** The warnings printed on a mismatch; the third only outside deploy mode. */
  function MismatchWarnings(project: Project, opts: Options, collab: Collaborators): seq<Event>
    requires Mismatched(project, opts, collab)
  {
    var path := InterpreterPath(collab.which).value;
    [Warn(PythonVersionMismatch(project.requiredPythonVersion.value, collab.pythonVersion(path), path)),
     Warn(RebuildHint)]
    + (if opts.deploy then [] else [Warn(CheckWillFail)])
  }

  /**
   * The run of `ensure_project` as a decision table: which effects happen,
   * in which order, and how it ends.
   */
  function Bootstrap(project: Project, opts: Options, collab: Collaborators): Run
  {
    if DeployWithoutPipfile(project, opts) then Run(PipfileNotFound, [])
    else
      var provisioned := if Provisions(project, opts) then [ProvisionEvent(opts)] else [];
      if Provisions(project, opts) && collab.ensureVirtualenv.Fail? then
        Run(CollaboratorFailed(collab.ensureVirtualenv.error), provisioned)
      else
        var warnings := if Mismatched(project, opts, collab) then MismatchWarnings(project, opts, collab) else [];
        if Mismatched(project, opts, collab) && opts.deploy then
          Run(DeployException, provisioned + warnings)
        else if collab.ensurePipfile.Fail? then
          Run(CollaboratorFailed(collab.ensurePipfile.error), provisioned + warnings + [PipfileEvent(opts)])
        else
          Run(Ok, provisioned + warnings + [PipfileEvent(opts), SetEnv(PipPythonPath, collab.interpreter(opts.system))])
  }

  /**
   * `ensure_project`, step by step: each collaborator call, printed warning
   * and environment write is appended to `trace` as it happens, and a raised
   * exception ends the run with the matching `result`.
   */
  method EnsureProject(project: Project, opts: Options, collab: Collaborators)
    returns (result: Status, trace: seq<Event>)
    ensures Run(result, trace) == Bootstrap(project, opts, collab)
  {
    trace := [];
    var systemOrExists: bool;
    if project.useSystem || project.virtualenvExists {
      systemOrExists := true;
    } else {
      systemOrExists := opts.system;
    }
    if !project.pipfileExists && opts.deploy {
      return PipfileNotFound, trace;
    }
    if !systemOrExists {
      trace := trace + [ProvisionVirtualenv(opts.python, opts.sitePackages, opts.pypiMirror)];
      if collab.ensureVirtualenv.Fail? {
        return CollaboratorFailed(collab.ensureVirtualenv.error), trace;
      }
      if opts.warn {
        var required := project.requiredPythonVersion;
        if required.Some? && required.value != "" {
          var pathToPython := collab.which("python");
          if !(pathToPython.Some? && pathToPython.value != "") {
            pathToPython := collab.which("py");
          }
          if pathToPython.Some? && pathToPython.value != ""
            && !Contains(collab.pythonVersion(pathToPython.value).GetOr(""), required.value)
          {
            var actual := collab.pythonVersion(pathToPython.value);
            trace := trace + [Warn(PythonVersionMismatch(required.value, actual, pathToPython.value))];
            trace := trace + [Warn(RebuildHint)];
            if !opts.deploy {
              trace := trace + [Warn(CheckWillFail)];
            } else {
              return DeployException, trace;
            }
          }
        }
      }
    }
    trace := trace + [EnsurePipfile(opts.validate, opts.skipRequirements, opts.system, opts.pipfileCategories)];
    if collab.ensurePipfile.Fail? {
      return CollaboratorFailed(collab.ensurePipfile.error), trace;
    }
    trace := trace + [SetEnv(PipPythonPath, collab.interpreter(opts.system))];
    result := Ok;
  }

  // ---------------------------------------------------------------------------
  // What a run of ensure_project promises
  // ---------------------------------------------------------------------------

  /**
   * `ensure_virtualenv` is called, as the first effect, exactly when the run
   * is not refused for a missing Pipfile in deploy mode and none of
   * PIPENV_USE_SYSTEM, an existing virtualenv or the caller's `system` flag
   * bypasses it; this holds for failed runs as well as successful ones.
   */
  lemma ProvisionsExactlyWhenNotBypassed(project: Project, opts: Options, collab: Collaborators)
    ensures var t := Bootstrap(project, opts, collab).trace;
      ProvisionEvent(opts) in t <==>
        !DeployWithoutPipfile(project, opts) && !project.useSystem && !project.virtualenvExists && !opts.system
    ensures var t := Bootstrap(project, opts, collab).trace;
      forall j | 0 <= j < |t| && t[j].ProvisionVirtualenv? :: j == 0 && t[j] == ProvisionEvent(opts)
  {
  }

  /**
   * With PIPENV_USE_SYSTEM set or a virtualenv already present, whatever the
   * caller's `system` flag, `ensure_virtualenv` is not called and no version
   * warning is printed.
   */
  lemma SystemOrExistingVirtualenvSkipsProvisioning(project: Project, opts: Options, collab: Collaborators)
    requires project.useSystem || project.virtualenvExists
    ensures forall e | e in Bootstrap(project, opts, collab).trace :: !e.ProvisionVirtualenv? && !e.Warn?
  {
  }

  /**
   * In deploy mode a missing Pipfile raises PipfileNotFound, and that is the
   * only way the run ends so; it happens before any effect.
   */
  lemma DeployRequiresPipfile(project: Project, opts: Options, collab: Collaborators)
    ensures var r := Bootstrap(project, opts, collab);
      r.status == PipfileNotFound <==> !project.pipfileExists && opts.deploy
    ensures var r := Bootstrap(project, opts, collab);
      r.status == PipfileNotFound ==> r.trace == []
  {
  }

  /**
   * A version warning is printed only when a virtualenv was provisioned
   * successfully, `warn` is set, the Pipfile requires a Python version and an
   * interpreter was found; with no interpreter found the check is skipped
   * without a word. A warning is printed, and DeployException raised in
   * deploy mode, exactly when the comparison runs and finds a mismatch.
   */
  lemma VersionCheckNeedsAllConditions(project: Project, opts: Options, collab: Collaborators)
    ensures var r := Bootstrap(project, opts, collab);
      (exists e | e in r.trace :: e.Warn?) ==>
        && ProvisionEvent(opts) in r.trace
        && collab.ensureVirtualenv.Pass?
        && opts.warn
        && Truthy(project.requiredPythonVersion)
        && Truthy(InterpreterPath(collab.which))
    ensures var r := Bootstrap(project, opts, collab);
      !Truthy(InterpreterPath(collab.which)) ==>
        (forall e | e in r.trace :: !e.Warn?) && r.status != DeployException
    ensures var r := Bootstrap(project, opts, collab);
      (exists e | e in r.trace :: e.Warn?) <==> Mismatched(project, opts, collab)
    ensures Bootstrap(project, opts, collab).status == DeployException <==>
      Mismatched(project, opts, collab) && opts.deploy
  {
    if Mismatched(project, opts, collab) {
      assert Bootstrap(project, opts, collab).trace[1].Warn?;
    }
  }

  /**
   * Once the comparison runs, a warning is printed exactly when the required
   * version does not occur as a substring of the reported one (of "" when
   * none is reported), so an unreadable version counts as a mismatch.
   */
  lemma MismatchIsSubstringTest(project: Project, opts: Options, collab: Collaborators)
    requires ChecksVersion(project, opts, collab)
    ensures var r := Bootstrap(project, opts, collab);
      var path := InterpreterPath(collab.which).value;
      (exists e | e in r.trace :: e.Warn?) <==>
        !exists i: nat :: OccursAt(collab.pythonVersion(path).GetOr(""), project.requiredPythonVersion.value, i)
    ensures var r := Bootstrap(project, opts, collab);
      var path := InterpreterPath(collab.which).value;
      collab.pythonVersion(path) == None ==>
        Warn(PythonVersionMismatch(project.requiredPythonVersion.value, None, path)) in r.trace
  {
    var r := Bootstrap(project, opts, collab);
    var path := InterpreterPath(collab.which).value;
    ContainsIffOccurs(collab.pythonVersion(path).GetOr(""), project.requiredPythonVersion.value);
    if Mismatched(project, opts, collab) {
      assert r.trace[1].Warn?;
    }
  }

  /** No non-empty requirement is satisfied by an unreadable version. */
  lemma UnreadableVersionIsMismatch(required: string)
    requires required != ""
    ensures VersionMismatch(required, None)
  {
  }

  /**
   * The requirement is matched by substring, not by version: "3.1" is
   * satisfied by 3.11.4, while "3.10" is not satisfied by 3.1.0.
   */
  lemma SubstringMatchIsLoose()
    ensures !VersionMismatch("3.1", Some("3.11.4"))
    ensures VersionMismatch("3.10", Some("3.1.0"))
  {
    assert "3.1.0"[3] != "3.10"[3] && "3.1.0"[1..] == ".1.0";
    assert ".1.0"[0] != "3.10"[0] && ".1.0"[1..] == "1.0";
    assert !Contains("1.0", "3.10");
  }

  /**
   * On a mismatch the version warning and the rebuild hint follow the
   * provisioning. Outside deploy mode a third warning follows and the run
   * goes on to `ensure_pipfile`, ending Ok when that returns; in deploy mode
   * the run ends there with DeployException, so neither `ensure_pipfile`
   * nor the environment write happens.
   */
  lemma MismatchOutcomeDependsOnDeploy(project: Project, opts: Options, collab: Collaborators)
    requires Mismatched(project, opts, collab)
    ensures var r := Bootstrap(project, opts, collab);
      var path := InterpreterPath(collab.which).value;
      var mismatch := PythonVersionMismatch(project.requiredPythonVersion.value, collab.pythonVersion(path), path);
      |r.trace| >= 3 && r.trace[..3] == [ProvisionEvent(opts), Warn(mismatch), Warn(RebuildHint)]
    ensures var r := Bootstrap(project, opts, collab);
      opts.deploy ==> r.status == DeployException && |r.trace| == 3
    ensures var r := Bootstrap(project, opts, collab);
      !opts.deploy ==>
        && r.status != DeployException
        && |r.trace| >= 5
        && r.trace[3] == Warn(CheckWillFail)
        && r.trace[4] == PipfileEvent(opts)
    ensures !opts.deploy && collab.ensurePipfile.Pass? ==> Bootstrap(project, opts, collab).status == Ok
  {
  }

  /**
   * On success `ensure_pipfile` was called exactly once, with the caller's
   * arguments, whose `system` is the caller's flag and not
   * `system_or_exists`, after any provisioning; it is the
   * last call before the environment write.
   */
  lemma PipfileEnsuredOnceOnSuccess(project: Project, opts: Options, collab: Collaborators)
    requires Bootstrap(project, opts, collab).status == Ok
    ensures var t := Bootstrap(project, opts, collab).trace;
      |t| >= 2 && t[|t| - 2] == PipfileEvent(opts)
    ensures var t := Bootstrap(project, opts, collab).trace;
      forall j | 0 <= j < |t| && t[j].EnsurePipfile? :: j == |t| - 2
    ensures var t := Bootstrap(project, opts, collab).trace;
      forall j | 0 <= j < |t| && t[j].ProvisionVirtualenv? :: j == 0 && j < |t| - 2
  {
  }

  /**
   * PIP_PYTHON_PATH is written exactly on success, as the last effect, with
   * the interpreter `project.python(system=system)` resolves for the caller's
   * `system` flag.
   */
  lemma InterpreterPathPublishedLast(project: Project, opts: Options, collab: Collaborators)
    ensures var r := Bootstrap(project, opts, collab);
      r.status == Ok ==>
        |r.trace| > 0 && r.trace[|r.trace| - 1] == SetEnv(PipPythonPath, collab.interpreter(opts.system))
    ensures var r := Bootstrap(project, opts, collab);
      (exists e | e in r.trace :: e.SetEnv?) <==> r.status == Ok
    ensures var r := Bootstrap(project, opts, collab);
      forall j | 0 <= j < |r.trace| - 1 :: !r.trace[j].SetEnv?
  {
  }

  /**
   * A failure raised by `ensure_virtualenv` or `ensure_pipfile` ends the run
   * with that same error, the failing call being the last effect.
   */
  lemma CollaboratorFailuresPropagate(project: Project, opts: Options, collab: Collaborators)
    ensures var r := Bootstrap(project, opts, collab);
      Provisions(project, opts) && collab.ensureVirtualenv.Fail? ==>
        r == Run(CollaboratorFailed(collab.ensureVirtualenv.error), [ProvisionEvent(opts)])
    ensures var r := Bootstrap(project, opts, collab);
      PipfileEvent(opts) in r.trace && collab.ensurePipfile.Fail? ==>
        r.status == CollaboratorFailed(collab.ensurePipfile.error) && r.trace[|r.trace| - 1] == PipfileEvent(opts)
    ensures var r := Bootstrap(project, opts, collab);
      r.status.CollaboratorFailed? ==>
        && |r.trace| > 0
        && ((r.trace[|r.trace| - 1] == ProvisionEvent(opts) && collab.ensureVirtualenv == Fail(r.status.error))
            || (r.trace[|r.trace| - 1] == PipfileEvent(opts) && collab.ensurePipfile == Fail(r.status.error)))
  {
  }

  /** The `clear` argument is accepted and has no effect. */
  lemma ClearIsIgnored(project: Project, opts: Options, collab: Collaborators, clear: bool)
    ensures Bootstrap(project, opts.(clear := clear), collab) == Bootstrap(project, opts, collab)
  {
  }

  /**
   * After a successful run the Pipfile has been ensured, and a virtualenv was
   * provisioned exactly when neither PIPENV_USE_SYSTEM, an existing
   * virtualenv nor `system` bypassed it.
   */
  lemma SuccessLeavesProjectReady(project: Project, opts: Options, collab: Collaborators)
    requires Bootstrap(project, opts, collab).status == Ok
    ensures PipfileEvent(opts) in Bootstrap(project, opts, collab).trace
    ensures ProvisionEvent(opts) in Bootstrap(project, opts, collab).trace <==> !SystemOrExists(project, opts.system)
  {
  }

  /**
   * A new project with every default argument, no virtualenv, no Pipfile and
   * no Python requirement: the virtualenv is created, then the Pipfile, then
   * PIP_PYTHON_PATH is set, and nothing is printed.
   */
  lemma NewProjectWithDefaults(collab: Collaborators)
    requires collab.ensureVirtualenv.Pass? && collab.ensurePipfile.Pass?
    ensures Bootstrap(Project(false, false, false, None), DefaultOptions, collab)
      == Run(Ok, [ProvisionVirtualenv(None, None, None),
                  EnsurePipfile(true, false, false, None),
                  SetEnv(PipPythonPath, collab.interpreter(false))])
  {
  }

  // ---------------------------------------------------------------------------
  // get_default_pyproject_backend
  // ---------------------------------------------------------------------------

  /** setuptools 40.8.0 is the first release whose `build_meta:__legacy__` backend is used. */
  const LegacyThreshold: Release := [40, 8, 0]

  const LegacyBackend := "setuptools.build_meta:__legacy__"
  const BaselineBackend := "setuptools.build_meta"

  /** A release is at least 40.8.0 exactly when it is 40.8 or later in its first two components. */
  lemma AtLeastLegacyThresholdIff(v: Release)
    ensures AtLeast(v, LegacyThreshold) <==> Segment(v, 0) > 40 || (Segment(v, 0) == 40 && Segment(v, 1) >= 8)
  {
    SegmentOfRest(v, 0);
    SegmentOfRest(Rest(v), 0);
    assert Rest(LegacyThreshold) == [8, 0] && Rest([8, 0]) == [0] && Rest([0]) == [];
    if Head(v) == 40 {
      assert Compare(v, LegacyThreshold) == Compare(Rest(v), [8, 0]);
      if Head(Rest(v)) == 8 {
        var tail := Rest(Rest(v));
        assert Compare(Rest(v), [8, 0]) == Compare(tail, [0]);
        NothingBelowEmpty(Rest(tail));
        assert Head(tail) == 0 ==> Compare(tail, [0]) == Compare(Rest(tail), []);
      }
    }
  }

  /**
   * `get_default_pyproject_backend`, given what `get_setuptools_version`
   * found: the legacy backend exactly when setuptools is installed at 40.8
   * or later, the baseline backend otherwise.
   */
  function DefaultPyprojectBackend(setuptools: Option<Release>): (backend: string)
    ensures backend == LegacyBackend <==>
      setuptools.Some? && (Segment(setuptools.value, 0) > 40 || (Segment(setuptools.value, 0) == 40 && Segment(setuptools.value, 1) >= 8))
    ensures backend != LegacyBackend ==> backend == BaselineBackend
  {
    match setuptools
    case None => BaselineBackend
    case Some(v) =>
      AtLeastLegacyThresholdIff(v);
      if AtLeast(v, LegacyThreshold) then LegacyBackend else BaselineBackend
  }

  /** At the boundary: 40.7.99 gets the baseline; 40.8.0, 40.8 and 40.8.1 get the legacy backend. */
  lemma BackendBoundary()
    ensures DefaultPyprojectBackend(None) == BaselineBackend
    ensures DefaultPyprojectBackend(Some([40, 7, 99])) == BaselineBackend
    ensures DefaultPyprojectBackend(Some([40, 8, 0])) == LegacyBackend
    ensures DefaultPyprojectBackend(Some([40, 8])) == LegacyBackend
    ensures DefaultPyprojectBackend(Some([40, 8, 1])) == LegacyBackend
  {
  }

  /** The choice is monotone: a setuptools at least as new as one that gets the legacy backend gets it too. */
  lemma BackendMonotone(older: Release, newer: Release)
    requires AtLeast(newer, older)
    requires DefaultPyprojectBackend(Some(older)) == LegacyBackend
    ensures DefaultPyprojectBackend(Some(newer)) == LegacyBackend
  {
    AtLeastLegacyThresholdIff(older);
    AtLeastLegacyThresholdIff(newer);
    AtLeastTransitive(newer, older, LegacyThreshold);
  }
}
