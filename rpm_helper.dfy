/** The RPM side of packaging (libs/rpm_helper.py): the RPM name of a store
    path, the build architecture, the text of the spec file and the
    `rpmbuild` command line. Writing the spec file and removing the work
    directories are left out. */
module RpmHelper {
  import opened Results
  import opened Text
  import opened Subprocess
  import NixHelper

  // ---------------------------------------------------------------------
  // _rpm_name

  /** `nix2rpm-<name>-<hash>` with every `+` spelled `plus`. */
  function RpmName(pkgName: string, pkgHash: string): (r: string)
    ensures '+' !in r
  {
    var raw := "nix2rpm-" + pkgName + "-" + pkgHash;
    SanitizeNoPlus(raw);
    SanitizePlus(raw)
  }

  /** The substitution acts on the name and the hash separately, and the
      result is left unchanged by a second substitution. */
  lemma RpmNameParts(pkgName: string, pkgHash: string)
    ensures RpmName(pkgName, pkgHash) == "nix2rpm-" + SanitizePlus(pkgName) + "-" + SanitizePlus(pkgHash)
    ensures SanitizePlus(RpmName(pkgName, pkgHash)) == RpmName(pkgName, pkgHash)
  {
    var prefix, sep := "nix2rpm-", "-";
    SanitizeConcat(prefix + pkgName + sep, pkgHash);
    SanitizeKeeps(prefix, pkgName, sep);
    SanitizeIdempotent(prefix + pkgName + sep + pkgHash);
  }

  /** A name and hash without `+` give the plain concatenation. */
  lemma RpmNamePlain(pkgName: string, pkgHash: string)
    requires '+' !in pkgName && '+' !in pkgHash
    ensures RpmName(pkgName, pkgHash) == "nix2rpm-" + pkgName + "-" + pkgHash
  {
    RpmNameParts(pkgName, pkgHash);
    SanitizeFixedPoint(pkgName);
    SanitizeFixedPoint(pkgHash);
  }

  /** Two RPM names built from store hashes agree only when the hashes do. */
  lemma RpmNameDeterminesHash(name1: string, hash1: string, name2: string, hash2: string)
    requires NixHelper.IsHash(hash1) && NixHelper.IsHash(hash2)
    requires RpmName(name1, hash1) == RpmName(name2, hash2)
    ensures hash1 == hash2
  {
    assert '+' !in hash1 && '+' !in hash2;
    RpmNameParts(name1, hash1);
    RpmNameParts(name2, hash2);
    SanitizeFixedPoint(hash1);
    SanitizeFixedPoint(hash2);
    var r := RpmName(name1, hash1);
    assert r[|r| - 32..] == hash1;
    assert r[|r| - 32..] == hash2;
  }

  // ---------------------------------------------------------------------
  // get_build_arch

  const AARCH64_DARWIN := "aarch64-apple-darwin-"
  const X86_64_DARWIN := "x86_64-apple-darwin-"

  /** The host's own architecture, overridden by a cross-compile triple in
      the package name; the x86_64 triple is tested last and so wins. */
  function GetBuildArch(pkgName: string, host: NixHelper.Host): (arch: string)
    ensures arch == "aarch64" || arch == "x86_64"
    ensures Contains(pkgName, X86_64_DARWIN) ==> arch == "x86_64"
    ensures !Contains(pkgName, X86_64_DARWIN) && Contains(pkgName, AARCH64_DARWIN) ==> arch == "aarch64"
    ensures !Contains(pkgName, X86_64_DARWIN) && !Contains(pkgName, AARCH64_DARWIN) ==>
      (arch == "aarch64" <==> host.isArm)
  {
    var native := if host.isArm then "aarch64" else "x86_64";
    var afterArm := if Contains(pkgName, AARCH64_DARWIN) then "aarch64" else native;
    if Contains(pkgName, X86_64_DARWIN) then "x86_64" else afterArm
  }

  // ---------------------------------------------------------------------
  // generate_spec

  /** One `(dep_hash, dep_name)` pair of the package's references. */
  datatype DepPair = DepPair(hash: string, name: string)

  /** The RPM names of the references other than the package itself, in order. */
  function RequiredNames(deps: seq<DepPair>, pkgHash: string): seq<string>
  {
    if deps == [] then []
    else
      var d := deps[|deps| - 1];
      RequiredNames(deps[..|deps| - 1], pkgHash)
      + (if d.hash != pkgHash then [RpmName(d.name, d.hash)] else [])
  }

  /** Each name preceded by a space. */
  function Spaced(names: seq<string>): string
  {
    if names == [] then "" else Spaced(names[..|names| - 1]) + " " + names[|names| - 1]
  }

  /** The `Requires:` line, absent when every reference is the package itself. */
  function RequiresLine(deps: seq<DepPair>, pkgHash: string): Option<string>
  {
    var names := RequiredNames(deps, pkgHash);
    if names == [] then None else Some("Requires:" + Spaced(names))
  }

  const STORE_IN_BUILD_ROOT := "$RPM_BUILD_ROOT/opt/facebook/nix/store/"

  /** The fixed fields between the name and the `Requires:` line. */
  const SPEC_FIELDS: seq<string> := [
    "Version: 1",
    "Release: 0",
    "Summary: Nix2RPM",
    "Group: Nix2RPM",
    "License: Facebook",
    "AutoReq: No",
    "AutoProv: No",
    "Packager: prod_macos"
  ]

  /** The lines ahead of the `Requires:` line. */
  function SpecHeader(pkgName: string, pkgHash: string): seq<string>
  {
    ["Name: " + RpmName(pkgName, pkgHash)] + SPEC_FIELDS
  }

  /** The description and the install script, up to the `%files` marker. */
  function SpecBody(pkgPath: string, pkgName: string, pkgHash: string): seq<string>
  {
    [ "%description",
      "Packaged " + pkgName + " with hash " + pkgHash + " using nix2rpm",
      "%install",
      "mkdir -p " + STORE_IN_BUILD_ROOT,
      "cp -a " + pkgPath + " " + STORE_IN_BUILD_ROOT,
      "%files" ]
  }

  const SPEC_FOOTER: seq<string> := ["%clean", "chmod -R +w $RPM_BUILD_ROOT", "rm -rf $RPM_BUILD_ROOT"]

  function Somes(xs: seq<string>): seq<Option<string>>
  {
    seq(|xs|, k requires 0 <= k < |xs| => Some(xs[k]))
  }

  /** The list literal of `generate_spec`, before `filter(None, ...)`: the
      `Requires:` entry may be `None` and the store path may be empty. */
  function SpecEntries(pkgPath: string, pkgName: string, pkgHash: string, reqLine: Option<string>)
    : seq<Option<string>>
  {
    Somes(SpecHeader(pkgName, pkgHash)) + [reqLine] + Somes(SpecBody(pkgPath, pkgName, pkgHash))
    + [Some(pkgPath)] + Somes(SPEC_FOOTER)
  }

  /** `filter(None, entries)`: drops the absent and the empty entries. */
  function Present(entries: seq<Option<string>>): seq<string>
  {
    if entries == [] then []
    else
      (if entries[0].Some? && entries[0].value != "" then [entries[0].value] else [])
      + Present(entries[1..])
  }

  /** The one entry that is kept, or nothing. */
  function Kept(entry: Option<string>): seq<string>
  {
    if entry.Some? && entry.value != "" then [entry.value] else []
  }

  function SpecLines(pkgPath: string, pkgName: string, pkgHash: string, deps: seq<DepPair>): seq<string>
  {
    Present(SpecEntries(pkgPath, pkgName, pkgHash, RequiresLine(deps, pkgHash)))
  }

  /** The loop of `generate_spec` that assembles the `Requires:` line. */
  method BuildRequiresLine(deps: seq<DepPair>, pkgHash: string) returns (reqEntry: Option<string>)
    ensures reqEntry == RequiresLine(deps, pkgHash)
  {
    var reqLine := "Requires:";
    var nodeps := true;
    for i := 0 to |deps|
      invariant reqLine == "Requires:" + Spaced(RequiredNames(deps[..i], pkgHash))
      invariant nodeps <==> RequiredNames(deps[..i], pkgHash) == []
    {
      var dep := deps[i];
      ghost var before := RequiredNames(deps[..i], pkgHash);
      assert deps[..i + 1][..i] == deps[..i] && deps[..i + 1][i] == dep;
      if dep.hash != pkgHash {
        var name := RpmName(dep.name, dep.hash);
        assert (before + [name])[..|before|] == before;
        assert RequiredNames(deps[..i + 1], pkgHash) == before + [name];
        reqLine := reqLine + " " + name;
        nodeps := false;
      } else {
        assert RequiredNames(deps[..i + 1], pkgHash) == before + [] == before;
      }
    }
    assert deps[..|deps|] == deps;
    reqEntry := if nodeps then None else Some(reqLine);
  }

  method GenerateSpec(pkgPath: string, pkgName: string, pkgHash: string, deps: seq<DepPair>)
    returns (spec: string)
    ensures spec == Join(SpecLines(pkgPath, pkgName, pkgHash, deps), '\n')
  {
    var reqEntry := BuildRequiresLine(deps, pkgHash);
    var contents := SpecEntries(pkgPath, pkgName, pkgHash, reqEntry);
    spec := Join(Present(contents), '\n');
  }

  /** The required names of a concatenation are those of its parts, in order;
      with the one-element case this fixes the order and keeps duplicates. */
  lemma {:induction false} RequiredNamesConcat(a: seq<DepPair>, b: seq<DepPair>, pkgHash: string)
    ensures RequiredNames(a + b, pkgHash) == RequiredNames(a, pkgHash) + RequiredNames(b, pkgHash)
  {
    if b != [] {
      var b', last := b[..|b| - 1], b[|b| - 1];
      SnocConcat(a, b);
      RequiredNamesLast(a + b, pkgHash);
      RequiredNamesLast(b, pkgHash);
      RequiredNamesConcat(a, b', pkgHash);
      AppendAssoc(RequiredNames(a, pkgHash), RequiredNames(b', pkgHash),
                  if last.hash != pkgHash then [RpmName(last.name, last.hash)] else []);
    } else {
      assert a + b == a;
    }
  }

  lemma RequiredNamesLast(deps: seq<DepPair>, pkgHash: string)
    requires deps != []
    ensures var d := deps[|deps| - 1];
      RequiredNames(deps, pkgHash)
      == RequiredNames(deps[..|deps| - 1], pkgHash) + (if d.hash != pkgHash then [RpmName(d.name, d.hash)] else [])
  {
  }

  /** There is no `Requires:` line exactly when every reference is the package's own hash. */
  lemma {:induction false} RequiredNamesEmpty(deps: seq<DepPair>, pkgHash: string)
    ensures RequiredNames(deps, pkgHash) == [] <==> forall k :: 0 <= k < |deps| ==> deps[k].hash == pkgHash
  {
    if deps != [] {
      var init := deps[..|deps| - 1];
      RequiredNamesEmpty(init, pkgHash);
      assert forall k :: 0 <= k < |init| ==> init[k] == deps[k];
    }
  }

  lemma {:induction false} RequiredNamesMembers(deps: seq<DepPair>, pkgHash: string)
    ensures forall x :: x in RequiredNames(deps, pkgHash) <==>
      exists k :: 0 <= k < |deps| && deps[k].hash != pkgHash && x == RpmName(deps[k].name, deps[k].hash)
  {
    if deps != [] {
      var init := deps[..|deps| - 1];
      RequiredNamesMembers(init, pkgHash);
      assert forall k :: 0 <= k < |init| ==> init[k] == deps[k];
    }
  }

  /** With well-formed store hashes the package never requires its own RPM. */
  lemma NoSelfRequirement(pkgName: string, pkgHash: string, deps: seq<DepPair>)
    requires NixHelper.IsHash(pkgHash)
    requires forall k :: 0 <= k < |deps| ==> NixHelper.IsHash(deps[k].hash)
    ensures RpmName(pkgName, pkgHash) !in RequiredNames(deps, pkgHash)
  {
    RequiredNamesMembers(deps, pkgHash);
    if RpmName(pkgName, pkgHash) in RequiredNames(deps, pkgHash) {
      var k :| 0 <= k < |deps| && deps[k].hash != pkgHash
        && RpmName(pkgName, pkgHash) == RpmName(deps[k].name, deps[k].hash);
      RpmNameDeterminesHash(pkgName, pkgHash, deps[k].name, deps[k].hash);
    }
  }

  lemma {:induction false} PresentConcat(a: seq<Option<string>>, b: seq<Option<string>>)
    ensures Present(a + b) == Present(a) + Present(b)
  {
    if a == [] {
      assert a + b == b;
    } else {
      assert (a + b)[1..] == a[1..] + b;
      PresentConcat(a[1..], b);
    }
  }

  lemma {:induction false} PresentSomes(xs: seq<string>)
    requires forall k :: 0 <= k < |xs| ==> xs[k] != ""
    ensures Present(Somes(xs)) == xs
  {
    if xs != [] {
      assert Somes(xs)[1..] == Somes(xs[1..]);
      PresentSomes(xs[1..]);
    }
  }

  lemma PresentOne(entry: Option<string>)
    ensures Present([entry]) == Kept(entry)
  {
    assert [entry][1..] == [];
  }

  /** `filter(None, ...)` keeps every fixed line and drops only a missing
      `Requires:` line and an empty store path. */
  lemma SpecLinesParts(pkgPath: string, pkgName: string, pkgHash: string, deps: seq<DepPair>)
    ensures SpecLines(pkgPath, pkgName, pkgHash, deps)
         == SpecHeader(pkgName, pkgHash) + Kept(RequiresLine(deps, pkgHash))
            + SpecBody(pkgPath, pkgName, pkgHash) + Kept(Some(pkgPath)) + SPEC_FOOTER
  {
    var head, req, body, path, foot :=
      Somes(SpecHeader(pkgName, pkgHash)), [RequiresLine(deps, pkgHash)],
      Somes(SpecBody(pkgPath, pkgName, pkgHash)), [Some(pkgPath)], Somes(SPEC_FOOTER);
    PresentConcat(head + req + body + path, foot);
    PresentConcat(head + req + body, path);
    PresentConcat(head + req, body);
    PresentConcat(head, req);
    HeaderPresent(pkgName, pkgHash);
    BodyPresent(pkgPath, pkgName, pkgHash);
    FooterPresent();
    PresentOne(RequiresLine(deps, pkgHash));
    PresentOne(Some(pkgPath));
  }

  lemma HeaderPresent(pkgName: string, pkgHash: string)
    ensures Present(Somes(SpecHeader(pkgName, pkgHash))) == SpecHeader(pkgName, pkgHash)
  {
    var fields := SPEC_FIELDS;
    assert |fields[0]| > 0 && |fields[1]| > 0 && |fields[2]| > 0 && |fields[3]| > 0;
    assert |fields[4]| > 0 && |fields[5]| > 0 && |fields[6]| > 0 && |fields[7]| > 0;
    PresentSomes(SpecHeader(pkgName, pkgHash));
  }

  lemma BodyPresent(pkgPath: string, pkgName: string, pkgHash: string)
    ensures Present(Somes(SpecBody(pkgPath, pkgName, pkgHash))) == SpecBody(pkgPath, pkgName, pkgHash)
  {
    PresentSomes(SpecBody(pkgPath, pkgName, pkgHash));
  }

  lemma FooterPresent()
    ensures Present(Somes(SPEC_FOOTER)) == SPEC_FOOTER
  {
    PresentSomes(SPEC_FOOTER);
  }

  /** The layout of the spec: the `Requires:` line, when present, sits between
      the `Packager` and `%description` lines; an empty store path drops the
      `%files` entry. With a store path there are 20 lines with `Requires:`
      and 19 without. */
  lemma SpecLinesLayout(pkgPath: string, pkgName: string, pkgHash: string, deps: seq<DepPair>)
    ensures var lines := SpecLines(pkgPath, pkgName, pkgHash, deps);
      var o := if RequiresLine(deps, pkgHash).Some? then 1 else 0;
      && |lines| == 18 + o + (if pkgPath != "" then 1 else 0)
      && lines[0] == "Name: " + RpmName(pkgName, pkgHash)
      && lines[8] == "Packager: prod_macos"
      && (o == 1 ==> lines[9] == RequiresLine(deps, pkgHash).value)
      && lines[9 + o] == "%description"
      && lines[13 + o] == "cp -a " + pkgPath + " " + STORE_IN_BUILD_ROOT
      && lines[14 + o] == "%files"
      && (pkgPath != "" ==> lines[15 + o] == pkgPath)
      && lines[|lines| - 1] == "rm -rf $RPM_BUILD_ROOT"
  {
    SpecLinesParts(pkgPath, pkgName, pkgHash, deps);
    var req := RequiresLine(deps, pkgHash);
    assert req.Some? ==> req.value != "";
  }

  lemma {:induction false} SpacedHasNo(names: seq<string>, c: char)
    requires c != ' '
    requires forall k :: 0 <= k < |names| ==> c !in names[k]
    ensures c !in Spaced(names)
  {
    if names != [] {
      SpacedHasNo(names[..|names| - 1], c);
    }
  }

  lemma RpmNameHasNo(pkgName: string, pkgHash: string, c: char)
    requires c !in pkgName && c !in pkgHash && c !in "nix2rpm-plus"
    ensures c !in RpmName(pkgName, pkgHash)
  {
    RpmNameParts(pkgName, pkgHash);
    SanitizeChars(pkgName);
    SanitizeChars(pkgHash);
  }

  lemma {:induction false} RequiredNamesHaveNo(deps: seq<DepPair>, pkgHash: string, c: char)
    requires c !in "nix2rpm-plus"
    requires forall k :: 0 <= k < |deps| ==> c !in deps[k].name && c !in deps[k].hash
    ensures forall k :: 0 <= k < |RequiredNames(deps, pkgHash)| ==> c !in RequiredNames(deps, pkgHash)[k]
  {
    if deps != [] {
      var init, d := deps[..|deps| - 1], deps[|deps| - 1];
      RequiredNamesHaveNo(init, pkgHash, c);
      RpmNameHasNo(d.name, d.hash, c);
    }
  }

  /** The spec text is its lines joined by newlines, with none after the
      last: splitting it at newlines gives the lines back, provided no input
      holds a newline. */
  lemma SpecTextLines(pkgPath: string, pkgName: string, pkgHash: string, deps: seq<DepPair>)
    requires '\n' !in pkgPath && '\n' !in pkgName && '\n' !in pkgHash
    requires forall k :: 0 <= k < |deps| ==> '\n' !in deps[k].name && '\n' !in deps[k].hash
    ensures Split(Join(SpecLines(pkgPath, pkgName, pkgHash, deps), '\n'), '\n')
         == SpecLines(pkgPath, pkgName, pkgHash, deps)
  {
    var lines := SpecLines(pkgPath, pkgName, pkgHash, deps);
    var head, req, body := SpecHeader(pkgName, pkgHash), Kept(RequiresLine(deps, pkgHash)),
      SpecBody(pkgPath, pkgName, pkgHash);
    SpecLinesParts(pkgPath, pkgName, pkgHash, deps);
    HeaderHasNoNewline(pkgName, pkgHash);
    RequiresHasNoNewline(deps, pkgHash);
    BodyHasNoNewline(pkgPath, pkgName, pkgHash);
    assert NoLineHas(Kept(Some(pkgPath)), '\n');
    FooterHasNoNewline();
    NoLineHasConcat(head, req, '\n');
    NoLineHasConcat(head + req, body, '\n');
    NoLineHasConcat(head + req + body, Kept(Some(pkgPath)), '\n');
    NoLineHasConcat(head + req + body + Kept(Some(pkgPath)), SPEC_FOOTER, '\n');
    SplitJoin(lines, '\n');
  }

  lemma HeaderHasNoNewline(pkgName: string, pkgHash: string)
    requires '\n' !in pkgName && '\n' !in pkgHash
    ensures NoLineHas(SpecHeader(pkgName, pkgHash), '\n')
  {
    RpmNameHasNo(pkgName, pkgHash, '\n');
    FieldsHaveNoNewline();
    assert '\n' !in "Name: ";
    NoLineHasConcat(["Name: " + RpmName(pkgName, pkgHash)], SPEC_FIELDS, '\n');
  }

  lemma RequiresHasNoNewline(deps: seq<DepPair>, pkgHash: string)
    requires forall k :: 0 <= k < |deps| ==> '\n' !in deps[k].name && '\n' !in deps[k].hash
    ensures NoLineHas(Kept(RequiresLine(deps, pkgHash)), '\n')
  {
    RequiredNamesHaveNo(deps, pkgHash, '\n');
    SpacedHasNo(RequiredNames(deps, pkgHash), '\n');
  }

  lemma BodyHasNoNewline(pkgPath: string, pkgName: string, pkgHash: string)
    requires '\n' !in pkgPath && '\n' !in pkgName && '\n' !in pkgHash
    ensures NoLineHas(SpecBody(pkgPath, pkgName, pkgHash), '\n')
  {
    BodyTextHasNoNewline();
    CommandTextHasNoNewline();
  }

  /** The literal text of the spec holds no line end. */
  lemma FieldsHaveNoNewline()
    ensures NoLineHas(SPEC_FIELDS, '\n')
  {
    var fields := SPEC_FIELDS;
    FieldsHeadHaveNoNewline(fields[..4]);
    FieldsTailHaveNoNewline(fields[4..]);
    assert fields == fields[..4] + fields[4..];
    NoLineHasConcat(fields[..4], fields[4..], '\n');
  }

  lemma FieldsHeadHaveNoNewline(fields: seq<string>)
    requires fields == SPEC_FIELDS[..4]
    ensures NoLineHas(fields, '\n')
  {
    assert fields == ["Version: 1", "Release: 0", "Summary: Nix2RPM", "Group: Nix2RPM"];
    assert '\n' !in fields[0] && '\n' !in fields[1] && '\n' !in fields[2] && '\n' !in fields[3];
  }

  lemma FieldsTailHaveNoNewline(fields: seq<string>)
    requires fields == SPEC_FIELDS[4..]
    ensures NoLineHas(fields, '\n')
  {
    assert fields == ["License: Facebook", "AutoReq: No", "AutoProv: No", "Packager: prod_macos"];
    assert '\n' !in fields[0] && '\n' !in fields[1] && '\n' !in fields[2] && '\n' !in fields[3];
  }

  lemma FooterHasNoNewline()
    ensures NoLineHas(SPEC_FOOTER, '\n')
  {
    var footer := SPEC_FOOTER;
    assert '\n' !in footer[0] && '\n' !in footer[1] && '\n' !in footer[2];
  }

  lemma BodyTextHasNoNewline()
    ensures '\n' !in "%description" && '\n' !in "%install"
    ensures '\n' !in "Packaged " && '\n' !in " with hash " && '\n' !in " using nix2rpm"
  {
  }

  lemma CommandTextHasNoNewline()
    ensures '\n' !in "mkdir -p " && '\n' !in "cp -a " && '\n' !in " " && '\n' !in STORE_IN_BUILD_ROOT
  {
  }

  predicate NoLineHas(lines: seq<string>, c: char)
  {
    forall k :: 0 <= k < |lines| ==> c !in lines[k]
  }

  lemma NoLineHasConcat(a: seq<string>, b: seq<string>, c: char)
    requires NoLineHas(a, c) && NoLineHas(b, c)
    ensures NoLineHas(a + b, c)
  {
    assert forall k :: |a| <= k < |a + b| ==> (a + b)[k] == b[k - |a|];
  }

  // ---------------------------------------------------------------------
  // rpmbuild

  /** The work directories, fixed from the working directory when the class is loaded. */
  datatype RpmDirs = RpmDirs(topdir: string, rpmdir: string, tmppath: string)

  /** The class attributes `topdir`, `rpmdir` and `tmppath`: `topdir`,
      `output` and `rpm-tmp` joined under the working directory `cwd`. */
  function DirsUnder(cwd: string): (d: RpmDirs)
    ensures IsPrefix(cwd, d.topdir) && IsPrefix(cwd, d.rpmdir) && IsPrefix(cwd, d.tmppath)
    ensures EndsWith(d.topdir, "topdir") && EndsWith(d.rpmdir, "output") && EndsWith(d.tmppath, "rpm-tmp")
    ensures cwd != "" && !EndsWith(cwd, "/") ==>
      d.topdir == cwd + "/" + "topdir" && d.rpmdir == cwd + "/" + "output" && d.tmppath == cwd + "/" + "rpm-tmp"
  {
    PathJoinRelative(cwd, "topdir");
    PathJoinRelative(cwd, "output");
    PathJoinRelative(cwd, "rpm-tmp");
    RpmDirs(PathJoin(cwd, "topdir"), PathJoin(cwd, "output"), PathJoin(cwd, "rpm-tmp"))
  }

  function RpmbuildCommand(specfile: string, buildArch: string, dirs: RpmDirs): (c: seq<string>)
    ensures |c| == 14 && c[0] == "rpmbuild" && c[1] == "--target" && c[2] == buildArch
    ensures c[5] == "--define" && c[6] == "_topdir " + dirs.topdir
    ensures c[7] == "--define" && c[8] == "_rpmdir " + dirs.rpmdir
    ensures c[9] == "--define" && c[10] == "_tmppath " + dirs.tmppath
    ensures c[13] == specfile
  {
    [ "rpmbuild", "--target", buildArch, "-bb", "--rmspec",
      "--define", "_topdir " + dirs.topdir,
      "--define", "_rpmdir " + dirs.rpmdir,
      "--define", "_tmppath " + dirs.tmppath,
      "--define", "_invalid_encoding_terminates_build 0",
      specfile ]
  }

  /** Builds the binary RPM for `specfile` with the work directories under
      the working directory `cwd`; `exitCode` is what `rpmbuild` returns. */
  function Rpmbuild(specfile: string, buildArch: string, cwd: string, exitCode: int): (r: Run)
    ensures |r.command| == 14 && r.command[0] == "rpmbuild"
    ensures r.command[1] == "--target" && r.command[2] == buildArch
    ensures r.command[5] == "--define" && r.command[6] == "_topdir " + DirsUnder(cwd).topdir
    ensures r.command[7] == "--define" && r.command[8] == "_rpmdir " + DirsUnder(cwd).rpmdir
    ensures r.command[9] == "--define" && r.command[10] == "_tmppath " + DirsUnder(cwd).tmppath
    ensures r.command[|r.command| - 1] == specfile
    ensures r.succeeded <==> exitCode == 0
  {
    var dirs := DirsUnder(cwd);
    var command := RpmbuildCommand(specfile, buildArch, dirs);
    Exec(command, exitCode)
  }
}
