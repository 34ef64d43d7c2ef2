/** The macOS installer side of packaging (libs/pkg_helper.py): the names
    of component and distribution packages, the `productbuild` and
    `pkgbuild` command lines, and where a component's root is copied. */
module PkgHelper {
  import opened Results
  import opened Text
  import opened Subprocess

  // ---------------------------------------------------------------------
  // _comp_pkg_name and _dist_pkg_name

  /** `<name>-<hash>.pkg` with every `+` spelled `plus`. */
  function CompPkgName(pkgName: string, pkgHash: string): (r: string)
    ensures '+' !in r
  {
    SanitizeNoPlus(pkgName + "-" + pkgHash + ".pkg");
    SanitizePlus(pkgName + "-" + pkgHash + ".pkg")
  }

  /** `nix2pkg-<name>.pkg` with every `+` spelled `plus`; the hash is not part of it. */
  function DistPkgName(pkgName: string): (r: string)
    ensures '+' !in r
  {
    SanitizeNoPlus("nix2pkg-" + pkgName + ".pkg");
    SanitizePlus("nix2pkg-" + pkgName + ".pkg")
  }

  /** The substitution touches only the name and the hash; the separators and
      the `.pkg` extension survive, and a second substitution changes nothing. */
  lemma CompPkgNameParts(pkgName: string, pkgHash: string)
    ensures CompPkgName(pkgName, pkgHash) == SanitizePlus(pkgName) + "-" + SanitizePlus(pkgHash) + ".pkg"
    ensures EndsWith(CompPkgName(pkgName, pkgHash), ".pkg")
    ensures SanitizePlus(CompPkgName(pkgName, pkgHash)) == CompPkgName(pkgName, pkgHash)
  {
    var sep, ext := "-", ".pkg";
    SanitizePair(pkgName, sep, pkgHash, ext);
    Affixes(SanitizePlus(pkgName) + sep + SanitizePlus(pkgHash), ext);
    SanitizeIdempotent(pkgName + sep + pkgHash + ext);
  }

  lemma DistPkgNameParts(pkgName: string)
    ensures DistPkgName(pkgName) == "nix2pkg-" + SanitizePlus(pkgName) + ".pkg"
    ensures IsPrefix("nix2pkg-", DistPkgName(pkgName)) && EndsWith(DistPkgName(pkgName), ".pkg")
    ensures SanitizePlus(DistPkgName(pkgName)) == DistPkgName(pkgName)
  {
    var prefix, name, ext := "nix2pkg-", SanitizePlus(pkgName), ".pkg";
    SanitizeKeeps(prefix, pkgName, ext);
    Affixes(prefix + name, ext);
    AppendAssoc(prefix, name, ext);
    Affixes(prefix, name + ext);
    SanitizeIdempotent(prefix + pkgName + ext);
  }

  /** A name without `+` goes into the package file name unchanged. */
  lemma DistPkgNamePlain(pkgName: string)
    requires '+' !in pkgName
    ensures DistPkgName(pkgName) == "nix2pkg-" + pkgName + ".pkg"
  {
    DistPkgNameParts(pkgName);
    SanitizeFixedPoint(pkgName);
  }

  /** The substitution is not injective: `c++` and `cplusplus` share a file name. */
  lemma DistPkgNameCollision()
    ensures DistPkgName("c++") == DistPkgName("cplusplus")
  {
    DistPkgNamePlain("cplusplus");
    DistPkgNameParts("c++");
    assert SanitizePlus("c++") == "cplusplus";
  }

  // ---------------------------------------------------------------------
  // build_dist_pkg

  const PRODUCTBUILD := "/usr/bin/productbuild"

  /** `--package <pkg>` for every component, in order. */
  function PackageArgs(components: seq<string>): seq<string>
  {
    if components == [] then []
    else PackageArgs(components[..|components| - 1]) + ["--package", components[|components| - 1]]
  }

  function ProductbuildCommand(components: seq<string>, pkgName: string, outputDir: string): seq<string>
  {
    [PRODUCTBUILD] + PackageArgs(components) + [PathJoin(outputDir, DistPkgName(pkgName))]
  }

  /** Every component appears once, right after its own `--package` flag. */
  lemma {:induction false} PackageArgsShape(components: seq<string>)
    ensures |PackageArgs(components)| == 2 * |components|
    ensures forall k :: 0 <= k < |components| ==>
      PackageArgs(components)[2 * k] == "--package" && PackageArgs(components)[2 * k + 1] == components[k]
  {
    if components != [] {
      var init := components[..|components| - 1];
      PackageArgsShape(init);
      assert forall k :: 0 <= k < |init| ==> init[k] == components[k];
    }
  }

  /** The `productbuild` command: the tool, the component flags, then the
      distribution package path under the output directory. */
  lemma ProductbuildCommandShape(components: seq<string>, pkgName: string, outputDir: string)
    ensures var cmd := ProductbuildCommand(components, pkgName, outputDir);
      && |cmd| == 2 * |components| + 2
      && cmd[0] == PRODUCTBUILD
      && (forall k :: 0 <= k < |components| ==> cmd[2 * k + 1] == "--package" && cmd[2 * k + 2] == components[k])
      && EndsWith(cmd[|cmd| - 1], DistPkgName(pkgName))
      && EndsWith(cmd[|cmd| - 1], ".pkg")
  {
    var args := PackageArgs(components);
    var d := DistPkgName(pkgName);
    var last := PathJoin(outputDir, d);
    var cmd := ProductbuildCommand(components, pkgName, outputDir);
    Framed(PRODUCTBUILD, args, last, cmd);
    PackageArgsShape(components);
    forall k | 0 <= k < |components|
      ensures cmd[2 * k + 1] == "--package" && cmd[2 * k + 2] == components[k]
    {
      assert cmd[2 * k + 1] == args[2 * k] && cmd[2 * k + 2] == args[2 * k + 1];
    }
    DistPkgNameParts(pkgName);
    EndsWithTrans(last, d, ".pkg");
  }

  /** Where the parts of `[first] + middle + [last]` sit. */
  lemma Framed(first: string, middle: seq<string>, last: string, s: seq<string>)
    requires s == [first] + middle + [last]
    ensures |s| == |middle| + 2 && s[0] == first && s[|s| - 1] == last
    ensures forall i :: 0 <= i < |middle| ==> s[i + 1] == middle[i]
  {
  }

  /** Returns the `productbuild` run, or `None` with failure when there are no
      components; `exitCode` is what `productbuild` returns. */
  method BuildDistPkg(components: seq<string>, pkgName: string, outputDir: string, exitCode: int)
    returns (run: Option<Run>, ok: bool)
    ensures components == [] ==> run == None && !ok
    ensures components != [] ==> run.Some? && run.value.command == ProductbuildCommand(components, pkgName, outputDir)
    ensures ok <==> components != [] && exitCode == 0
  {
    if |components| == 0 {
      return None, false;
    }
    var cmd := [PRODUCTBUILD];
    for i := 0 to |components|
      invariant cmd == [PRODUCTBUILD] + PackageArgs(components[..i])
    {
      assert components[..i + 1][..i] == components[..i];
      cmd := cmd + ["--package"];
      cmd := cmd + [components[i]];
    }
    assert components[..|components|] == components;
    var target := PathJoin(outputDir, DistPkgName(pkgName));
    cmd := cmd + [target];
    var result := Exec(cmd, exitCode);
    return Some(result), result.succeeded;
  }

  // ---------------------------------------------------------------------
  // build_component_pkg

  const PKGBUILD := "/usr/bin/pkgbuild"

  /** What `build_component_pkg` does: the copy of the root inside the
      temporary directory, and the `pkgbuild` run over it. */
  datatype ComponentBuild = ComponentBuild(copyTarget: string, run: Run)

  /** `tmproot` is the temporary directory and `exitCode` what `pkgbuild`
      returns. The root's path minus its leading slashes is joined under
      `tmproot`, so the copy target's path string starts with `tmproot`
      (`..` components in the root are not resolved). */
  function BuildComponentPkg(rootDir: string, identifier: string, version: string, pkgName: string,
                             pkgHash: string, outputDir: string, tmproot: string, exitCode: int)
    : (r: ComponentBuild)
    ensures IsPrefix(tmproot, r.copyTarget)
    ensures tmproot != "" && !EndsWith(tmproot, "/") ==> r.copyTarget == tmproot + "/" + LStrip(rootDir, '/')
    ensures EndsWith(r.copyTarget, LStrip(rootDir, '/'))
    ensures r.run.command == [PKGBUILD, "--root", tmproot, "--identifier", identifier, "--version", version,
                              PathJoin(outputDir, CompPkgName(pkgName, pkgHash))]
    ensures r.run.succeeded <==> exitCode == 0
  {
    var stripped := LStrip(rootDir, '/');
    PathJoinRelative(tmproot, stripped);
    var fixedRoot := PathJoin(tmproot, stripped);
    var cmd := [PKGBUILD, "--root", tmproot, "--identifier", identifier, "--version", version,
                PathJoin(outputDir, CompPkgName(pkgName, pkgHash))];
    ComponentBuild(fixedRoot, Exec(cmd, exitCode))
  }

  /** Without stripping the leading `/`, joining would discard the temporary
      directory and copy over the root itself. */
  lemma AbsoluteRootEscapesTmp(rootDir: string, tmproot: string)
    requires IsPrefix("/", rootDir)
    ensures PathJoin(tmproot, rootDir) == rootDir
    ensures !IsPrefix("/", LStrip(rootDir, '/'))
  {
    var stripped := LStrip(rootDir, '/');
    if stripped != [] {
      assert stripped[..1][0] == stripped[0] != '/';
    }
  }
}
