# nix2pkg core, modelled in Dafny

nix2pkg builds Nix packages on macOS and repackages the resulting store
paths as RPMs or as macOS installer packages. This project models its
deterministic core and proves properties of it:

- the Nix driver (`libs/nix_helper.py`):
  - splitting a store path into its hash and name;
  - expanding the requested packages for cross compilation;
  - ranking search results;
  - patching the darwin bootstrap script;
  - choosing the nixpkgs archive URL;
  - collecting the closure of the requested packages.
- the RPM helper (`libs/rpm_helper.py`):
  - RPM names;
  - the build architecture;
  - the text of the spec file;
  - the `rpmbuild` command line.
- the installer helper (`libs/pkg_helper.py`):
  - component and distribution package names;
  - the `productbuild` and `pkgbuild` command lines;
  - where a component's root is copied.

Modules:

- `Results` (`results.dfy`): `Option` and `Result`, which stand in for the exceptions and `None` values.
- `Subprocess` (`subprocess.dfy`): a finished command and whether it exited with 0. The exit code is a parameter.
- `Text` (`text.dfy`): the Python string and path operations the helpers rely on, on ASCII:
  - `in` on strings;
  - `str.replace`;
  - `rstrip`, `lstrip`, `lower`;
  - `join`, `split`;
  - POSIX `os.path.join`;
  - the way `$` also matches before one final newline.
- `NixHelper` (`nix_helper.dfy`), `RpmHelper` (`rpm_helper.dfy`) and `PkgHelper` (`pkg_helper.dfy`): one module per helper.

Where a helper works by updating variables in a loop, the model is a method
with that loop, proved against a specification function:

- `search`;
- the line loop of `_patch_bootstrap`;
- `add_cross_compile_pkgs`;
- `get_pkgs_to_pack`;
- the `Requires:` loop of `generate_spec`;
- the command loop of `build_dist_pkg`.

The rest is functions and lemmas.

`DistPkgName` follows `pkg_helper.py:82-86`: the distribution package is `nix2pkg-<name>.pkg`, with no hash. RPM names keep their own `nix2rpm-` prefix.

## Model

| member | source | states |
|---|---|---|
| NixHelper.SeparateNameHash | libs/nix_helper.py:285-291 | `re.match` succeeds iff the path (minus one final newline) has no other newline and holds `/`, 32 characters of `[a-z0-9]` and `-`. The hash is then valid, the path minus that final newline ends in `/<hash>-<name>`, and the match is the last such place, since `.*` is greedy. Otherwise the result is the pattern-mismatch error. |
| NixHelper.SeparateNameHashRoundTrip | libs/nix_helper.py:285-291 | Joining a newline-free directory, a valid hash and a slash- and newline-free name gives a path that splits back into that hash and name. |
| NixHelper.SeparateNameHashFinalNewline | libs/nix_helper.py:286 | One trailing newline does not change the result, because `$` matches before it. |
| NixHelper.ExpandOne | libs/nix_helper.py:302-317 | One package yields at most two entries (four on a host that claims both architectures). Each is the package itself or the package behind one of the two `pkgsCross` prefixes. |
| NixHelper.AddCrossCompilePkgs | libs/nix_helper.py:293-318 | With neither flag the list is returned unchanged. Otherwise the loop yields the per-package expansion of every package, in order. |
| NixHelper.ExpandAllConcat | libs/nix_helper.py:302-318 | The expansion of a concatenation is the concatenation of the expansions, so packages keep their order. |
| NixHelper.ExpandCrossPassThrough | libs/nix_helper.py:305-307 | Packages that are already `pkgsCross` names pass through unchanged, whatever the flags. |
| NixHelper.ExpandNativeOnly | libs/nix_helper.py:308-317 | On a single-architecture host, asking only for the host's own architecture leaves the list unchanged. |
| NixHelper.ExpandBothTargets | libs/nix_helper.py:308-317 | With both flags on a single-architecture host, and none of the packages already a `pkgsCross` name, each package is followed by its cross-compiled variant for the other architecture. |
| NixHelper.ExpandCrossOnly | libs/nix_helper.py:308-317 | On a single-architecture host asked only for the other architecture, a list of plain packages (none already a `pkgsCross` name) has each package replaced by its cross-compiled variant (`pkgsCross.aarch64-darwin.<pkg>` on Intel, `pkgsCross.x86_64-darwin.<pkg>` on arm), in order. |
| NixHelper.ExpandNoHostArch | libs/nix_helper.py:308-317 | On a host that reports neither architecture, a list of plain packages (none already a `pkgsCross` name) expands to nothing. |
| NixHelper.ExpandWgetOnX86 | libs/nix_helper.py:308-312 | On an Intel host with both flags, `wget` becomes `wget` then `pkgsCross.aarch64-darwin.wget`. |
| NixHelper.Search | libs/nix_helper.py:136-143 | The result holds each package containing the term as often as the listing does, and no other. It is ordered by length, and packages of equal length keep their listing order (stable sort). |
| NixHelper.MatchingCounts | libs/nix_helper.py:138-141 | The filter keeps exactly the entries that contain the term, with their multiplicities. |
| NixHelper.SortByLengthPermutes | libs/nix_helper.py:142 | `SortByLength`, the model of `sorted(rank, key=len)`, is a permutation: the same elements, each as often as before. |
| NixHelper.SortByLengthSorted | libs/nix_helper.py:142 | `SortByLength` yields a list ordered by length. |
| NixHelper.InsertByLengthCount | libs/nix_helper.py:142 | An insertion adds exactly the inserted element. |
| NixHelper.InsertByLengthSorted | libs/nix_helper.py:142 | Inserting into a length-ordered list keeps it ordered by length. |
| NixHelper.SortByLengthStable | libs/nix_helper.py:142 | `SortByLength` is stable: for every length, the entries of that length appear in their original order. |
| NixHelper.InsertByLengthStable | libs/nix_helper.py:142 | An insertion puts the new element after the entries of equal length. |
| NixHelper.OfLengthAppend | libs/nix_helper.py:142 | Appending an element adds it to its own length class only. |
| NixHelper.PatchLine | libs/nix_helper.py:101-108 | A line changes iff it contains one of the two `install_name_tool` commands and no `\|\| true`. A changed line no longer needs patching. |
| NixHelper.Marked | libs/nix_helper.py:104 | The rewritten line carries the `\|\| true` mark. |
| NixHelper.PatchBootstrap | libs/nix_helper.py:99-113 | The new script is the line-by-line patch of the old one. `patched` is true iff some line needed patching. |
| NixHelper.PatchAllLines | libs/nix_helper.py:99-108 | The patch keeps the number of lines and rewrites each line on its own. |
| NixHelper.PatchAllIdempotent | libs/nix_helper.py:103 | Patching twice is patching once; a patched script needs no further patch. |
| NixHelper.RepoUrl | libs/nix_helper.py:164-173 | A `unstable` or `NN.NN[-pre\|-beta]` repository, in any case, selects the `nixos-<repo>` archive with the case as typed. `master` selects the master archive. Anything else is used as the URL. |
| NixHelper.IsChannelName | libs/nix_helper.py:165-166 | `^\d\d\.\d\d(-pre\|-beta)?$` as `match` applies it: an accepted name has, before one optional final newline, 5, 9 or 10 characters, starting with two digits, a dot and two digits. |
| NixHelper.RepoUrlPassesUrls | libs/nix_helper.py:172-173 | A repository containing `/` is used verbatim. |
| NixHelper.ChannelNameHasNoSlash | libs/nix_helper.py:165 | No channel name matched by the pattern contains `/`. |
| NixHelper.RepoUrlChannelExample | libs/nix_helper.py:165-169 | `22.05-BETA` is a channel; the URL keeps the upper case. |
| NixHelper.RepoUrlMasterExample | libs/nix_helper.py:170-171 | `MASTER` selects the master archive. |
| NixHelper.Dedup | libs/nix_helper.py:273 | `list(set(...))`: no duplicates, the same members. |
| NixHelper.GetPkgsToPack | libs/nix_helper.py:253-273 | The not-found error is raised iff no directory of the store listing has a name containing a requested name. Otherwise the result has no duplicates, and a path is in it iff the requisites query reports it for one of the matched directories. |
| NixHelper.MatchedDirsEmpty | libs/nix_helper.py:258-263 | The matched list is empty iff no entry/name pair matches. |
| NixHelper.ClosureOfMatchedDirs | libs/nix_helper.py:264-273 | The accumulated requisites are the closure of the matched directories. |
| NixHelper.MatchedDirsMembers | libs/nix_helper.py:258-261 | A path is matched iff it is `root` joined with a directory entry whose name contains a requested name. |
| NixHelper.DirsForMembers | libs/nix_helper.py:259-261 | For one entry, the inner loop adds its path iff some requested name matches it. |
| NixHelper.RequisitesMembers | libs/nix_helper.py:265-272 | A path is accumulated iff the query of some matched directory reports it. |
| Text.SanitizeNoPlus | libs/rpm_helper.py:121 | No `+` survives the `+` to `plus` replacement. |
| Text.SanitizeConcat | libs/rpm_helper.py:121 | The replacement distributes over concatenation. |
| Text.SanitizeChars | libs/rpm_helper.py:121 | The replacement introduces no character other than those of `plus`. |
| Text.SanitizeFixedPoint | libs/pkg_helper.py:78 | The replacement leaves a string unchanged iff it holds no `+`. |
| Text.SanitizeIdempotent | libs/pkg_helper.py:85 | Replacing twice is replacing once. |
| Text.RStrip | libs/nix_helper.py:104 | `rstrip()` removes exactly the trailing white space: a prefix remains that does not end in white space. |
| Text.LStrip | libs/pkg_helper.py:52 | `lstrip("/")` removes exactly the leading slashes: a suffix remains that does not start with `/`. |
| Text.SplitJoin | libs/rpm_helper.py:81 | Splitting a newline-joined list gives the list back when no element holds a newline. |
| Text.ToLower | libs/nix_helper.py:166 | `repo.lower()`: the length is kept, every ASCII upper-case letter becomes its lower-case form, every other character is kept, and no upper-case letter remains. |
| Text.StripFinalNewline | libs/nix_helper.py:286 | What a pattern ending in `$` sees: the input minus one final newline, if it has one, and the input itself otherwise. Also used for the channel pattern at line 165. |
| Text.ContainsInside | libs/nix_helper.py:103 | `in` on strings, modelled by `Contains`: a needle placed anywhere inside a string is found. The same test is used at lines 140, 259 and 305. |
| Text.ContainsWitness | libs/nix_helper.py:103 | Conversely, when `Contains` finds the needle, the string is some text, the needle, then more text. |
| Text.PathJoin | libs/pkg_helper.py:52 | `os.path.join` ends in its second argument; when that is relative, it starts with the first. |
| RpmHelper.RpmName | libs/rpm_helper.py:117-122 | The RPM name contains no `+`. |
| RpmHelper.RpmNameParts | libs/rpm_helper.py:117-122 | The name is `nix2rpm-` + sanitised name + `-` + sanitised hash, and is a fixed point of the sanitisation. |
| RpmHelper.RpmNamePlain | libs/rpm_helper.py:118 | A name and hash without `+` appear verbatim. |
| RpmHelper.RpmNameDeterminesHash | libs/rpm_helper.py:117-122 | Two RPM names built from valid store hashes are equal only if the hashes are. |
| RpmHelper.GetBuildArch | libs/rpm_helper.py:21-36 | The result is `aarch64` or `x86_64`. An `x86_64-apple-darwin-` name gives `x86_64`, even when it also holds the `aarch64` triple. Otherwise an `aarch64-apple-darwin-` name gives `aarch64`. Otherwise the host decides, arm meaning `aarch64`. |
| RpmHelper.BuildRequiresLine | libs/rpm_helper.py:47-54 | The loop produces the `Requires:` line over the references whose hash differs from the package's own, or `None` when there is none. |
| RpmHelper.GenerateSpec | libs/rpm_helper.py:39-81 | The spec text is the newline join of the filtered spec lines. |
| RpmHelper.RequiredNamesConcat | libs/rpm_helper.py:49-52 | Required names follow the reference order, duplicates kept. |
| RpmHelper.RequiredNamesEmpty | libs/rpm_helper.py:48-54 | The `Requires:` line is dropped iff every reference carries the package's own hash. |
| RpmHelper.RequiredNamesMembers | libs/rpm_helper.py:49-52 | A name is required iff it is the RPM name of a reference with a different hash. |
| RpmHelper.NoSelfRequirement | libs/rpm_helper.py:50 | With valid store hashes, a package never requires its own RPM. |
| RpmHelper.PresentConcat | libs/rpm_helper.py:80 | `filter(None, ...)` distributes over concatenation. |
| RpmHelper.PresentSomes | libs/rpm_helper.py:80 | The filter keeps every non-empty string. |
| RpmHelper.SpecLinesParts | libs/rpm_helper.py:56-80 | The spec lines are the header, then the `Requires:` line if any, then the body, then the store path if non-empty, then the clean-up section. |
| RpmHelper.SpecLinesLayout | libs/rpm_helper.py:56-80 | The positions and number of the lines: 18 fixed lines plus one each for `Requires:` and a non-empty store path. The name line comes first and `rm -rf $RPM_BUILD_ROOT` last. |
| RpmHelper.SpecTextLines | libs/rpm_helper.py:80-81 | When no input holds a newline, splitting the spec text at newlines gives exactly the spec lines. |
| RpmHelper.DirsUnder | libs/rpm_helper.py:12-14 | The three directories lie under the working directory and end in `topdir`, `output` and `rpm-tmp`. For a non-empty working directory without a trailing slash they are exactly `<cwd>/topdir`, `<cwd>/output` and `<cwd>/rpm-tmp`. |
| RpmHelper.RpmbuildCommand | libs/rpm_helper.py:84-101 | The command line has 14 words: `rpmbuild --target <arch>`, then `--define` with `_topdir`, `_rpmdir` and `_tmppath` set to the given directories, and the spec file last. |
| RpmHelper.Rpmbuild | libs/rpm_helper.py:84-104 | The command has 14 words and starts `rpmbuild --target <arch>`. Its `--define` words set `_topdir`, `_rpmdir` and `_tmppath` to the directories under the working directory. The spec file comes last. Success means exit code 0 (the run is built by `Subprocess.Exec`). |
| PkgHelper.CompPkgName | libs/pkg_helper.py:75-79 | The component package name contains no `+`. |
| PkgHelper.CompPkgNameParts | libs/pkg_helper.py:75-79 | The component name is sanitised name + `-` + sanitised hash + `.pkg`, and is a fixed point of the sanitisation. |
| PkgHelper.DistPkgName | libs/pkg_helper.py:82-86 | The distribution package name contains no `+`. |
| PkgHelper.DistPkgNameParts | libs/pkg_helper.py:82-86 | The distribution name is `nix2pkg-` + sanitised name + `.pkg`, with no hash, and is a fixed point of the sanitisation. |
| PkgHelper.DistPkgNamePlain | libs/pkg_helper.py:83 | A name without `+` appears verbatim. |
| PkgHelper.DistPkgNameCollision | libs/pkg_helper.py:85 | The sanitisation is not injective: `c++` and `cplusplus` give the same file name. |
| PkgHelper.PackageArgsShape | libs/pkg_helper.py:26-28 | Each component appears once, right after its own `--package` flag, in order. |
| PkgHelper.ProductbuildCommandShape | libs/pkg_helper.py:25-30 | The command is `productbuild`, then the `--package` pairs, then a path ending in the distribution package name and `.pkg`. |
| PkgHelper.BuildDistPkg | libs/pkg_helper.py:16-38 | No components means failure with nothing run. Otherwise the loop builds the `productbuild` command, and success means a zero exit code (the run is built by `Subprocess.Exec`). |
| PkgHelper.BuildComponentPkg | libs/pkg_helper.py:41-72 | The copy target's path string starts with the temporary directory's path and ends in the root path minus its leading slashes. `pkgbuild` gets the temporary root, the identifier, the version and the component package path. Success means exit code 0 (the run is built by `Subprocess.Exec`). |
| PkgHelper.AbsoluteRootEscapesTmp | libs/pkg_helper.py:52 | Joining an absolute root without stripping would discard the temporary directory, and the stripped root is relative. |

## Left out

- Running commands, reading and writing files, and the network:
  - `subprocess.run`, `os.listdir`, `os.path.isdir`, `shutil.copytree`, `shutil.rmtree`, temporary directories, `open`.
  - Exit codes, directory listings, `isdir` answers, requisites-query output, the temporary directory and the working directory are parameters.
  - `print` output is not modelled.
- `write_lines`, `cleanup` and `clean_output` of the RPM helper: they only write or delete files.
- The reading and writing of `unpack-bootstrap-tools.sh` in `_patch_bootstrap`: the model takes the file's lines and returns the new lines.
- The rest of `build_pkg`, and `initial_setup`, `is_installed`, `switch_profile`, `get_pkgs_references`, `get_all_remote_packages` and `_set_enviromentals`: I/O, environment variables and commands only.
- `main.py`, `libs/io_helper.py`, `libs/system_helper.py` and the network helper are not part of this model. `main.py` calls `build_dist_pkg` with four arguments, while the helper takes three.
- `Architecture.is_arm()` / `is_x86()` are the two flags of `NixHelper.Host`, taken as given.
- `split()` of the requisites output: `query` returns the whitespace-separated tokens directly.
- NixHelper.Search: models `sorted(key=len)` as a stable insertion sort. Timsort is not modelled, but its promises are proved: a permutation, ordered by length, stable.
- NixHelper.GetPkgsToPack: models `list(set(...))` by keeping first occurrences. Python leaves that order unspecified, so the contract states only the members and the absence of duplicates.
- Text: ASCII only. `lower()` and `isspace()` are modelled on ASCII characters, and `\d` is taken as `[0-9]`; Unicode case folding and Unicode digits are not modelled.
- PkgHelper.BuildComponentPkg: only the path string of the copy target is guaranteed to start with the temporary directory. `..` components in the root are not resolved, so a root like `/../etc` names a place outside it, as in the code. Nix store paths never contain `..`.
