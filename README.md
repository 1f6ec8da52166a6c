# pipenv project bootstrap, modelled in Dafny

This project models `pipenv/utils/project.py` from pipenv. The file holds two decisions.

- `ensure_project` runs before most pipenv commands. It makes sure the project has a virtualenv, unless the system interpreter is forced or requested. When it has just had to create the virtualenv and `warn` is set, it checks that virtualenv's Python against the Pipfile's requirement, warning or failing depending on `--deploy`; an existing virtualenv or a system interpreter is never checked. It then makes sure a Pipfile exists, and finally publishes the interpreter path in `PIP_PYTHON_PATH`.
- `get_default_pyproject_backend` picks the build backend for a generated `pyproject.toml`. It gives `setuptools.build_meta:__legacy__` when the installed setuptools is 40.8.0 or later, and `setuptools.build_meta` otherwise.

## Layout

- `wrappers.dfy` (`Wrappers`): `Option` and `Outcome`. An `Outcome` records whether a call returned (`Pass`) or raised an error (`Fail(error)`).
- `substrings.dfy` (`Substrings`): Python's `needle in hay` on strings (`Contains`). It is proved equal to "some index of `hay` starts a copy of `needle`".
- `versions.dfy` (`Versions`): ordering of PEP 440 release segments ("Version scheme", "Final releases"). `Compare` compares components one at a time and pads the shorter release with zeros. It is proved to match two other definitions:
  - the first-difference definition of the ordering;
  - the key `packaging` sorts by: the release tuple with trailing zeros removed, ordered as a Python tuple.
- `project.dfy` (`ProjectUtils`): the two operations of `project.py`.
  - `EnsureProject` is an imperative method. It appends each effect to a trace as it happens: a collaborator call, a printed warning or the environment write. It returns how the run ended (`Ok`, `PipfileNotFound`, `DeployException` or `CollaboratorFailed(error)`).
  - `SystemOrExists` is the pure `system_or_exists` decision that `Bootstrap` uses; ProvisionsExactlyWhenNotBypassed states what it decides for the run.
  - The method's postcondition ties that result and trace to `Bootstrap`, a decision table stating the whole run. Lemmas about `Bootstrap` state what the source promises.
  - `DefaultPyprojectBackend` is a function of the setuptools version.

Collaborators are inputs, in the record `Collaborators`:
- the outcome of `ensure_virtualenv`;
- the outcome of `ensure_pipfile`;
- what `project._which` finds for a name;
- what `python_version` reports for a path;
- what `project.python(system=...)` resolves to.

Each of these is the answer the collaborator gives at the moment `ensure_project` calls it. Python truthiness is modelled exactly: `None` and `""` are false (`Truthy`). So `_which("python") or _which("py")` and `python_version(path) or ""` behave as in the source.

## Model

| member | source | states |
|---|---|---|
| ProjectUtils.EnsureProject | pipenv/utils/project.py:23-82 | Running `ensure_project` step by step gives exactly the status and effect trace of the `Bootstrap` table. The lemmas below state what that table promises. |
| ProjectUtils.ProvisionsExactlyWhenNotBypassed | pipenv/utils/project.py:39-52 | In every run, failed ones included, `ensure_virtualenv` is called exactly when the run is not refused for a missing Pipfile in deploy mode and PIPENV_USE_SYSTEM, an existing virtualenv and `system` are all false. When called, it is the first effect and gets the caller's `python`, `site_packages` and `pypi_mirror`. |
| ProjectUtils.InterpreterPath | pipenv/utils/project.py:56 | An interpreter is found exactly when `_which("python")` or `_which("py")` finds one. `python` takes precedence, and `py` is used only when `python` finds nothing. |
| ProjectUtils.SystemOrExistingVirtualenvSkipsProvisioning | pipenv/utils/project.py:38-46 | With PIPENV_USE_SYSTEM set or a virtualenv present, whatever `system` says, no run calls `ensure_virtualenv` or prints a version warning. |
| ProjectUtils.DeployRequiresPipfile | pipenv/utils/project.py:43-44 | A run ends with PipfileNotFound exactly when the Pipfile is missing in deploy mode. Such a run has an empty trace: no provisioning, warning, Pipfile step or environment write. |
| ProjectUtils.VersionCheckNeedsAllConditions | pipenv/utils/project.py:46-73 | A version warning needs all of: a virtualenv was provisioned and `ensure_virtualenv` returned, `warn` is set, a Python version is required, and an interpreter is found. A warning is printed exactly when these hold and the substring test fails. DeployException happens exactly when they hold, the test fails and `deploy` is set. With no interpreter found, nothing is printed and DeployException is not raised. |
| ProjectUtils.MismatchIsSubstringTest | pipenv/utils/project.py:57-59 | Once the comparison runs, a warning is printed exactly when the required string does not occur in the reported version (in "" when none is reported). So an unreadable version with a found path is a mismatch. |
| ProjectUtils.SubstringMatchIsLoose | pipenv/utils/project.py:57-59 | Matching is by substring, not version equality: "3.1" is satisfied by 3.11.4, and "3.10" is not satisfied by 3.1.0. |
| ProjectUtils.UnreadableVersionIsMismatch | pipenv/utils/project.py:57-59 | A non-empty requirement is never satisfied by an unreadable version (`None or ""` is the empty string). |
| ProjectUtils.MismatchOutcomeDependsOnDeploy | pipenv/utils/project.py:60-73 | On a mismatch the trace starts with provisioning, then the version warning (required, reported, path), then the rebuild hint. In deploy mode the run ends there with DeployException. Otherwise the "check will fail" warning follows and then `ensure_pipfile`; when that returns, the run ends Ok. |
| ProjectUtils.PipfileEnsuredOnceOnSuccess | pipenv/utils/project.py:74-81 | On success `ensure_pipfile` is called exactly once, with the caller's `validate`, `skip_requirements`, `system` and categories, not with `system_or_exists`. It comes after any provisioning and just before the environment write. |
| ProjectUtils.InterpreterPathPublishedLast | pipenv/utils/project.py:82 | PIP_PYTHON_PATH is written exactly when a run succeeds. It is written once, as the last effect, with `project.python(system=system)` for the caller's flag. |
| ProjectUtils.CollaboratorFailuresPropagate | pipenv/utils/project.py:46-82 | A failure from `ensure_virtualenv` or `ensure_pipfile` ends the run with that same error. The failing call is the last effect, and later effects do not happen. |
| ProjectUtils.ClearIsIgnored | pipenv/utils/project.py:33 | Changing `clear` changes neither the status nor the trace. |
| ProjectUtils.SuccessLeavesProjectReady | pipenv/utils/project.py:36-52 | After success the Pipfile step has run. A virtualenv was provisioned exactly when PIPENV_USE_SYSTEM, an existing virtualenv and `system` are all false. |
| ProjectUtils.NewProjectWithDefaults | pipenv/utils/project.py:23-82 | With the default arguments, no virtualenv, no Pipfile, no requirement and both collaborators succeeding, the trace is: create the virtualenv, ensure the Pipfile, set PIP_PYTHON_PATH. The run ends Ok with no warning. |
| ProjectUtils.AtLeastLegacyThresholdIff | pipenv/utils/project.py:98 | A release is `>= 40.8.0` exactly when its first component is above 40, or is 40 with a second component of at least 8 (missing components read as 0). |
| ProjectUtils.DefaultPyprojectBackend | pipenv/utils/project.py:93-100 | The legacy backend is chosen exactly when a setuptools version is known and is 40.8 or later. Every other case, an unknown version included, gets the baseline backend. |
| ProjectUtils.BackendBoundary | pipenv/utils/project.py:95-100 | Unknown and 40.7.99 give the baseline backend. 40.8.0, 40.8 and 40.8.1 give the legacy backend. |
| ProjectUtils.BackendMonotone | pipenv/utils/project.py:96-100 | Any setuptools at least as new as one that gets the legacy backend also gets it. |
| Versions.CompareEqualIff | pipenv/utils/project.py:97-98 | Two releases compare equal exactly when they agree at every position, with missing components read as zero. |
| Versions.CompareLessIff | pipenv/utils/project.py:97-98 | `a` is below `b` exactly when `a`'s component is the smaller one at the first position where they differ. |
| Versions.CompareIsZeroPaddedLexicographic | pipenv/utils/project.py:97-98 | `Compare` is the PEP 440 release ordering, by both statements above. |
| Versions.CompareIsTrimmedTupleOrder | pipenv/utils/project.py:97-98 | `Compare` agrees with the key `packaging` sorts by: trailing zeros removed, then Python tuple order. |
| Versions.AtLeastTransitive | pipenv/utils/project.py:98 | Version `>=` is transitive. |
| Versions.NothingBelowEmpty | pipenv/utils/project.py:98 | No release is below the empty release, because components are non-negative. |
| Substrings.ContainsIffOccurs | pipenv/utils/project.py:57-59 | Python's `in` on strings holds exactly when some index of the haystack starts a copy of the needle. |

## Left out

- Collaborator internals. How `ensure_virtualenv` and `ensure_pipfile` work is not modelled: they touch the filesystem and spawn processes. Each is modelled only as returning or raising an error, which is carried through unchanged.
- Interpreter probing. `project._which` searches the filesystem and `python_version` runs a subprocess. Both are given as functions from a name or path to an optional string. The model assumes they answer the same way each time they are asked, which matters for the second `python_version` call that builds the warning text.
- Warning text. Warnings are tagged events carrying the values they mention: the required version, the reported version and the path. The rich-markup wording and `shorten_path` are not modelled. The first message interpolates the function object `python_version` instead of a version, which only changes the printed text.
- The process environment. `os.environ` is process-wide state, and the model keeps only the final `SetEnv` event. Concurrent runs in one process are not modelled.
- Forwarded arguments. `python`, `site_packages`, `pypi_mirror`, `validate`, `skip_requirements` and `pipfile_categories` are only passed on to collaborators. They appear as opaque values in the events and are not interpreted.
- Project state after a run. Whether a virtualenv or Pipfile exists afterwards depends on the collaborators. The model states which calls were made, not the resulting files.
- SuccessLeavesProjectReady: the docstring (project.py:36) says both the Pipfile and the virtualenv exist afterwards. Provisioning is skipped when PIPENV_USE_SYSTEM is set, when a virtualenv already exists, and also when only `system` is true, so after success a virtualenv need not exist. The model records only which collaborator calls were made, not the files they leave behind.
- `get_setuptools_version`: it reads installed package metadata and catches `ImportError`. It is modelled only as the optional version that DefaultPyprojectBackend receives.
- DefaultPyprojectBackend: it takes the release segment of the setuptools version (`Option<seq<nat>>`), not the version string. Parsing by `parse_version`, with epochs, pre-, post-, dev- and local segments and invalid strings, is not modelled.
