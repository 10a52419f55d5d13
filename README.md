# regice-common package selection, in Dafny

This project models the selection logic of `regicecommon/pkg.py` from regice-common. That is the
library that regice plugins share to find resource files bundled in installed packages and to
discover plugin hooks through the `regice` entry-point group. Everything lives in one module,
`Pkg` (`pkg.dfy`), which follows the source file function by function.

The installed-package machinery is replaced by plain inputs:

- **Resource tree.** A package's bundled resources are a tree of `Entry(name, isDir, children)`
  values in listing order. The tree stands for `resource_listdir` and `resource_isdir`. The
  installed packages are a map from top-level package name to that package's root listing.
- **Pattern.** `re.match(pattern, s)` becomes an abstract `Matcher`, a total predicate over
  (pattern, subject). The regular-expression language is not modelled.
- **Modules.** `iter_modules()` becomes an ordered sequence of module names.
- **Entry points.** `iter_entry_points('regice')` becomes an ordered sequence of
  `EntryPoint(name, moduleName, attr)`. Loading an `is_compatible_with` hook and calling it
  becomes a given predicate `isCompatible(ep, name)`. `importlib.import_module(m)` yields the
  module name `m`.
- **Opened resource.** `resource_stream(pkg, path)` yields `Stream(pkg, path)`.
- **Argument parser.** The parser that `init_args` hooks mutate is the class `ArgumentParser`.
  Its field `contributions` records the hooks applied to it, in order.

The four operations are methods with loops, proved against specification functions:

- `GetResourceList` against `Walk`.
- `OpenResource` against `OpenResult`, which is `OpenNamed` or `SearchModules`.
- `GetCompatibleModule` against a direct first-match contract.
- `InitModulesArgs` against `Filter(eps, WantedInitArgs(modules))`.

Lemmas then state what the source promises about those functions.

Design choices:

- "Not module_name" holds both for a missing name and for an empty one (`Unset`).
- A top-level name absent from the package map stands for a listed module whose distribution
  metadata is missing, so the lookup raises `DistributionNotFound`. That is one of the two
  failures the unnamed search skips. It does not stand for a module that cannot be imported
  (see "## Left out").

## Model

| member | source | states |
|---|---|---|
| `Pkg.TopLevel` | regicecommon/pkg.py:64 | `split('.')[0]`: the result is a prefix of the name, holds no '.', and is either the whole name or is followed by a '.' |
| `Pkg.TopLevelUnique` | regicecommon/pkg.py:124 | any prefix with those three properties is the top-level name, so the rule picks the text before the first '.' |
| `Pkg.Contains` | regicecommon/pkg.py:56 | Python's substring test `'regice' in name` holds exactly when the text occurs at some index of the name |
| `Pkg.JoinPath` | regicecommon/pkg.py:85 | the built path is the parent path, then '/', then exactly the entry's name |
| `Pkg.WalkEntry` | regicecommon/pkg.py:85-90 | one listed entry contributes its directory's walk (recursion at line 87) or its own path when kept (line 90); every contributed path is the entry's path or lies below it |
| `Pkg.Walk` | regicecommon/pkg.py:81-91 | the listing's contributions concatenated in listing order, starting from an empty `out`; every path starts with the root `path` followed by '/' |
| `Pkg.GetResourceList` | regicecommon/pkg.py:70-91 | the accumulating walk returns exactly `Walk`: depth first in listing order, with a directory's files spliced in at the directory's position, and only files passing the pattern |
| `Pkg.WalkConcat` | regicecommon/pkg.py:84-91 | walking two consecutive parts of a listing gives the first part's paths followed by the second's, so output order follows listing order |
| `Pkg.WalkMembership` | regicecommon/pkg.py:84-90 | a path is returned iff it is the path of a reachable non-directory entry that passes the pattern, so no directory is ever returned and every kept file is |
| `Pkg.WalkFiltered` | regicecommon/pkg.py:89-90 | with a pattern, the result equals the unfiltered result with the non-matching paths removed, in the same order |
| `Pkg.WalkCount` | regicecommon/pkg.py:84-91 | without a pattern the result has exactly as many paths as there are reachable files |
| `Pkg.WalkDistinct` | regicecommon/pkg.py:84-91 | on a well-formed tree (no '/' in names, distinct sibling names) no path is returned twice, so together with `WalkCount` every file is returned exactly once |
| `Pkg.SameSegment` | regicecommon/pkg.py:85 | two sibling names without '/' that one built path lies beneath are equal |
| `Pkg.IsRegiceModule` | regicecommon/pkg.py:56 | a module is a search candidate iff "regice" or "Regice" occurs at some index of its name |
| `Pkg.OpenNamed` | regicecommon/pkg.py:64-68 | the named lookup raises DistributionNotFound exactly when the top-level package is missing; on success it opens a path of package `TopLevel(module_name)` that starts with "//" |
| `Pkg.SearchModules` | regicecommon/pkg.py:53-62 | the unnamed search returns the named lookup of the first candidate that succeeds; its only failure is OSError |
| `Pkg.OpenResource` | regicecommon/pkg.py:41-68 | with a module name, the named lookup; without one, the search over regice modules; the result is exactly `OpenResult` |
| `Pkg.OpenNamedFirstMatch` | regicecommon/pkg.py:64-68 | the named lookup fails with OSError iff no file of the package matches `'.*' + fname`; otherwise it opens, from package `TopLevel(module_name)`, the first matching file in walk order, whose path starts with "//" |
| `Pkg.SearchFirstSuccess` | regicecommon/pkg.py:53-62 | the search tries only modules whose name contains regice or Regice, in order, skips failing ones and returns the first success; it fails, always with OSError, iff every candidate fails |
| `Pkg.NoRegiceModule` | regicecommon/pkg.py:53-62 | when no module name contains regice or Regice the search raises OSError |
| `Pkg.GetCompatibleModule` | regicecommon/pkg.py:93-108 | returns the module of the first `is_compatible_with` entry point whose predicate holds, and None iff none holds; the hooks loaded are exactly the `is_compatible_with` entry points up to that one |
| `Pkg.InitArgsSelectionRule` | regicecommon/pkg.py:124-125 | an entry point is selected iff it is named `init_args` and some requested name is a prefix of its module name that holds no '.' and is either the whole module name or is followed there by a '.' |
| `Pkg.ArgumentParser.ApplyHook` | regicecommon/pkg.py:126-127 | calling a loaded `init_args` hook adds that hook's contribution to the parser |
| `Pkg.InitModulesArgs` | regicecommon/pkg.py:110-127 | with None or an empty list the parser is unchanged; otherwise the parser receives exactly the wanted `init_args` hooks, in enumeration order |
| `Pkg.InitArgsNoModules` | regicecommon/pkg.py:120-121 | an empty module list selects no hook |
| `Pkg.InitArgsExactlyWanted` | regicecommon/pkg.py:123-127 | a hook is invoked iff it is enumerated, is named `init_args` and its module's top-level name is requested; no other entry point is invoked |
| `Pkg.InitArgsOncePerEntry` | regicecommon/pkg.py:123-127 | a wanted hook is invoked exactly as many times as it is enumerated, so once for an entry point enumerated once |
| `Pkg.InitArgsInOrder` | regicecommon/pkg.py:123-127 | hooks from an earlier part of the enumeration are all invoked before those from a later part |
| `Pkg.InitArgsIgnoresUnknown` | regicecommon/pkg.py:124-125 | adding a requested name that matches no entry point's module changes nothing and raises no error |

## Left out

- `regicecommon/helpers.py` is not part of this model. It holds argparse flag registration, construction of external `libregice` clients and SVD loading, all thin wrappers over libraries outside this repository.
- The real `pkg_resources`, `pkgutil` and `importlib` are replaced by the inputs described above.
- An ImportError (ModuleNotFoundError) from importing a candidate package is not modelled. In the source, `resource_listdir` at regicecommon/pkg.py:83 imports the package. The clauses at lines 58-61 do not catch that error, so it stops the search and reaches the caller. The model has no such outcome.
- A symlinked directory cycle in a package's resources is not modelled. The finite `Entry` tree cannot represent it. On such a cycle, the recursion at regicecommon/pkg.py:86-87 runs until Python's recursion limit.
- The regular-expression language of `re.match` is abstract. Only the fact that the pattern is `'.*' + fname`, applied to each full path, is modelled.
- Reading from the opened stream is not modelled. `Stream` only names the package and the path opened.
- The bodies of plugin hooks are opaque. An `is_compatible_with` hook is a given predicate. An `init_args` hook only records its contribution on the parser.
- Exceptions raised by hooks themselves, and exceptions other than `OSError` and `DistributionNotFound`, are not modelled.
- Device-aware variants of `init_modules_args`, `process_modules_args` and the result merging, `--help-device` and two-phase parsing are not modelled. They do not appear in `regicecommon/pkg.py`, where `init_modules_args` takes only the parser and the module list.
