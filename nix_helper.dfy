/** The deterministic part of the Nix driver (libs/nix_helper.py): parsing
    store paths, expanding the requested package list for cross compilation,
    ranking search results, patching the darwin bootstrap script, choosing
    the nixpkgs archive URL and collecting the closure to package.
    Subprocess output, directory listings and the host architecture are
    parameters. */
module NixHelper {
  import opened Results
  import opened Text

  datatype NixError =
    | PathPatternMismatch   // the RuntimeError of separate_name_hash
    | PackagePathNotFound   // NixPackagePathNotFoundError

  /** The host as `Architecture.is_arm()` / `Architecture.is_x86()` report it. */
  datatype Host = Host(isArm: bool, isX86: bool)

  // ---------------------------------------------------------------------
  // separate_name_hash: `^.*/([a-z0-9]{32})-(.*)$` with `re.match`

  const HASH_LEN: nat := 32

  predicate IsHashChar(c: char)
  {
    'a' <= c <= 'z' || '0' <= c <= '9'
  }

  predicate IsHash(h: string)
  {
    |h| == HASH_LEN && forall k :: 0 <= k < |h| ==> IsHashChar(h[k])
  }

  /** At `p` the string holds `/`, then a 32-character hash, then `-`. */
  predicate SlotAt(body: string, p: int)
  {
    && 0 <= p
    && p + HASH_LEN + 2 <= |body|
    && body[p] == '/'
    && IsHash(body[p + 1..p + HASH_LEN + 1])
    && body[p + HASH_LEN + 1] == '-'
  }

  /** The last slot starting before `k`: where the greedy `.*` stops. */
  function LastSlot(body: string, k: nat): (r: Option<nat>)
    requires k <= |body|
    ensures r.Some? ==> r.value < k && SlotAt(body, r.value)
    ensures r.Some? ==> forall q :: r.value < q < k ==> !SlotAt(body, q)
    ensures r.None? ==> forall q :: 0 <= q < k ==> !SlotAt(body, q)
  {
    if k == 0 then None
    else if SlotAt(body, k - 1) then Some(k - 1)
    else LastSlot(body, k - 1)
  }

  /** The (hash, name) pair the source returns as a tuple. */
  datatype StoreName = StoreName(hash: string, name: string)

  /** `.` never matches a newline and `$` also matches before one final
      newline, so the pattern sees the path without that newline and fails
      on any other one. Among the slots it takes the last. */
  function SeparateNameHash(path: string): (r: Result<StoreName, NixError>)
    ensures r.Ok? <==>
      '\n' !in StripFinalNewline(path) && exists p :: SlotAt(StripFinalNewline(path), p)
    ensures r.Err? ==> r.error == PathPatternMismatch
    ensures r.Ok? ==> IsHash(r.value.hash) && '\n' !in r.value.name
    ensures r.Ok? ==>
      EndsWith(StripFinalNewline(path), "/" + r.value.hash + "-" + r.value.name)
    ensures r.Ok? ==> forall q :: SlotAt(StripFinalNewline(path), q) ==>
      q + HASH_LEN + 2 + |r.value.name| <= |StripFinalNewline(path)|
  {
    var body := StripFinalNewline(path);
    var slot := LastSlot(body, |body|);
    assert slot.Some? ==>
      body[slot.value..] == "/" + body[slot.value + 1..slot.value + HASH_LEN + 1] + "-" + body[slot.value + HASH_LEN + 2..];
    MatchBody(body)
  }

  /** The match on the path without its final newline. */
  function MatchBody(body: string): Result<StoreName, NixError>
  {
    if '\n' in body then Err(PathPatternMismatch)
    else
      match LastSlot(body, |body|)
      case None => Err(PathPatternMismatch)
      case Some(p) => Ok(StoreName(body[p + 1..p + HASH_LEN + 1], body[p + HASH_LEN + 2..]))
  }

  /** Parsing a path built from a directory, a hash and a name gives the hash
      and the name back. */
  lemma SeparateNameHashRoundTrip(dir: string, hash: string, name: string)
    requires IsHash(hash)
    requires '/' !in name
    requires '\n' !in dir && '\n' !in name
    ensures SeparateNameHash(dir + "/" + hash + "-" + name) == Ok(StoreName(hash, name))
  {
    var path := dir + "/" + hash + "-" + name;
    var p := |dir|;
    StorePathParts(path, dir, hash, name);
    assert SlotAt(path, p);
    assert path[|path| - 1] != '\n' by {
      if name == [] { assert path[|path| - 1] == '-'; }
    }
    assert StripFinalNewline(path) == path;
    assert '\n' !in path by {
      forall k | 0 <= k < |path| ensures path[k] != '\n' {
        if p < k <= p + HASH_LEN { assert IsHashChar(hash[k - p - 1]); }
      }
    }
    forall q | p < q < |path| ensures !SlotAt(path, q) {
      if p < q <= p + HASH_LEN { assert IsHashChar(hash[q - p - 1]); }
    }
    var last := LastSlot(path, |path|);
    assert last == Some(p);
  }

  /** Where the directory, the hash and the name sit in a store path. */
  lemma StorePathParts(path: string, dir: string, hash: string, name: string)
    requires path == dir + "/" + hash + "-" + name && |hash| == HASH_LEN
    ensures |path| == |dir| + HASH_LEN + 2 + |name|
    ensures path[|dir|] == '/' && path[|dir| + HASH_LEN + 1] == '-'
    ensures path[|dir| + 1..|dir| + HASH_LEN + 1] == hash && path[|dir| + HASH_LEN + 2..] == name
    ensures forall k :: 0 <= k < |dir| ==> path[k] == dir[k]
    ensures forall k :: |dir| < k <= |dir| + HASH_LEN ==> path[k] == hash[k - |dir| - 1]
    ensures forall k :: |dir| + HASH_LEN + 1 < k < |path| ==> path[k] == name[k - |dir| - HASH_LEN - 2]
  {
    var p := |dir|;
    assert path[p + 1..p + HASH_LEN + 1] == hash;
    assert path[p + HASH_LEN + 2..] == name;
  }

  /** The final newline `$` tolerates: a store path read with its line end
      parses as the bare path. */
  lemma SeparateNameHashFinalNewline(path: string)
    requires '\n' !in path
    ensures SeparateNameHash(path + "\n") == SeparateNameHash(path)
  {
    assert StripFinalNewline(path + "\n") == path by {
      assert (path + "\n")[..|path|] == path;
    }
    assert StripFinalNewline(path) == path by {
      if path != [] {
        assert path[|path| - 1] in path;
      }
    }
  }

  // ---------------------------------------------------------------------
  // add_cross_compile_pkgs

  const CROSS_MARKER := "pkgsCross"
  const TO_AARCH64 := "pkgsCross.aarch64-darwin."
  const TO_X86_64 := "pkgsCross.x86_64-darwin."

  /** What one requested package becomes when at least one target flag is set. */
  function ExpandOne(pkg: string, arm: bool, x86: bool, host: Host): (r: seq<string>)
    ensures |r| <= (if host.isArm && host.isX86 then 4 else 2)
    ensures forall y :: y in r ==> y == pkg || y == TO_AARCH64 + pkg || y == TO_X86_64 + pkg
  {
    if Contains(pkg, CROSS_MARKER) then [pkg]
    else OnX86Host(pkg, arm, x86, host) + OnArmHost(pkg, arm, x86, host)
  }

  /** The entries an Intel host adds: the package itself for `x86`, the
      aarch64 cross build for `arm`. */
  function OnX86Host(pkg: string, arm: bool, x86: bool, host: Host): seq<string>
  {
    if host.isX86 then (if x86 then [pkg] else []) + (if arm then [TO_AARCH64 + pkg] else []) else []
  }

  /** The entries an arm host adds: the package itself for `arm`, the
      x86_64 cross build for `x86`. */
  function OnArmHost(pkg: string, arm: bool, x86: bool, host: Host): seq<string>
  {
    if host.isArm then (if arm then [pkg] else []) + (if x86 then [TO_X86_64 + pkg] else []) else []
  }

  /** The per-package expansions, concatenated in request order. */
  function ExpandAll(pkgs: seq<string>, arm: bool, x86: bool, host: Host): seq<string>
  {
    if pkgs == [] then []
    else ExpandAll(pkgs[..|pkgs| - 1], arm, x86, host) + ExpandOne(pkgs[|pkgs| - 1], arm, x86, host)
  }

  method AddCrossCompilePkgs(pkgs: seq<string>, arm: bool, x86: bool, host: Host)
    returns (newPkgs: seq<string>)
    ensures !arm && !x86 ==> newPkgs == pkgs
    ensures arm || x86 ==> newPkgs == ExpandAll(pkgs, arm, x86, host)
  {
    if !arm && !x86 {
      return pkgs;
    }
    newPkgs := [];
    for i := 0 to |pkgs|
      invariant newPkgs == ExpandAll(pkgs[..i], arm, x86, host)
    {
      var pkg := pkgs[i];
      ghost var before := newPkgs;
      ExpandAllStep(pkgs, i, arm, x86, host);
      if Contains(pkg, CROSS_MARKER) {
        newPkgs := newPkgs + [pkg];
      } else {
        OnX86HostAppend(before, pkg, arm, x86, host);
        if host.isX86 {
          if x86 {
            newPkgs := newPkgs + [pkg];
          }
          if arm {
            newPkgs := newPkgs + [TO_AARCH64 + pkg];
          }
        }
        ghost var mid := newPkgs;
        OnArmHostAppend(mid, pkg, arm, x86, host);
        if host.isArm {
          if arm {
            newPkgs := newPkgs + [pkg];
          }
          if x86 {
            newPkgs := newPkgs + [TO_X86_64 + pkg];
          }
        }
        AppendAssoc(before, OnX86Host(pkg, arm, x86, host), OnArmHost(pkg, arm, x86, host));
      }
    }
    assert pkgs[..|pkgs|] == pkgs;
  }

  lemma ExpandAllStep(pkgs: seq<string>, i: int, arm: bool, x86: bool, host: Host)
    requires 0 <= i < |pkgs|
    ensures ExpandAll(pkgs[..i + 1], arm, x86, host) == ExpandAll(pkgs[..i], arm, x86, host) + ExpandOne(pkgs[i], arm, x86, host)
  {
    assert pkgs[..i + 1][..i] == pkgs[..i];
  }

  /** The Intel-host branch of the loop body, appending to `acc` one entry at a time. */
  lemma OnX86HostAppend(acc: seq<string>, pkg: string, arm: bool, x86: bool, host: Host)
    ensures acc + OnX86Host(pkg, arm, x86, host)
         == if !host.isX86 then acc
            else
              var withNative := if x86 then acc + [pkg] else acc;
              if arm then withNative + [TO_AARCH64 + pkg] else withNative
  {
    if host.isX86 && x86 && arm {
      AppendAssoc(acc, [pkg], [TO_AARCH64 + pkg]);
    }
  }

  /** The arm-host branch of the loop body, appending to `acc` one entry at a time. */
  lemma OnArmHostAppend(acc: seq<string>, pkg: string, arm: bool, x86: bool, host: Host)
    ensures acc + OnArmHost(pkg, arm, x86, host)
         == if !host.isArm then acc
            else
              var withNative := if arm then acc + [pkg] else acc;
              if x86 then withNative + [TO_X86_64 + pkg] else withNative
  {
    if host.isArm && x86 && arm {
      AppendAssoc(acc, [pkg], [TO_X86_64 + pkg]);
    }
  }

  /** The expansion of a list is the expansion of its parts, in order. */
  lemma {:induction false} ExpandAllConcat(a: seq<string>, b: seq<string>, arm: bool, x86: bool, host: Host)
    ensures ExpandAll(a + b, arm, x86, host) == ExpandAll(a, arm, x86, host) + ExpandAll(b, arm, x86, host)
  {
    if b == [] {
      assert a + b == a;
    } else {
      var b', last := b[..|b| - 1], b[|b| - 1];
      var ab := a + b;
      assert ab[..|ab| - 1] == a + b' && ab[|ab| - 1] == last;
      ExpandAllLast(ab, arm, x86, host);
      ExpandAllLast(b, arm, x86, host);
      ExpandAllConcat(a, b', arm, x86, host);
      AppendAssoc(ExpandAll(a, arm, x86, host), ExpandAll(b', arm, x86, host), ExpandOne(last, arm, x86, host));
    }
  }

  /** The last package's expansion comes last. */
  lemma ExpandAllLast(pkgs: seq<string>, arm: bool, x86: bool, host: Host)
    requires pkgs != []
    ensures ExpandAll(pkgs, arm, x86, host)
         == ExpandAll(pkgs[..|pkgs| - 1], arm, x86, host) + ExpandOne(pkgs[|pkgs| - 1], arm, x86, host)
  {
  }

  /** Packages that already name a cross-compile set pass through unchanged. */
  lemma {:induction false} ExpandCrossPassThrough(pkgs: seq<string>, arm: bool, x86: bool, host: Host)
    requires forall k :: 0 <= k < |pkgs| ==> Contains(pkgs[k], CROSS_MARKER)
    ensures ExpandAll(pkgs, arm, x86, host) == pkgs
  {
    if pkgs != [] {
      var init := pkgs[..|pkgs| - 1];
      ExpandCrossPassThrough(init, arm, x86, host);
      assert pkgs == init + [pkgs[|pkgs| - 1]];
    }
  }

  /** Asking only for the host's own architecture leaves the list unchanged. */
  lemma {:induction false} ExpandNativeOnly(pkgs: seq<string>, arm: bool, x86: bool, host: Host)
    requires (host == Host(false, true) && x86 && !arm) || (host == Host(true, false) && arm && !x86)
    ensures ExpandAll(pkgs, arm, x86, host) == pkgs
  {
    if pkgs != [] {
      var init, last := pkgs[..|pkgs| - 1], pkgs[|pkgs| - 1];
      ExpandNativeOnly(init, arm, x86, host);
      ExpandAllLast(pkgs, arm, x86, host);
      ExpandOneNative(last, arm, x86, host);
      assert pkgs == init + [last];
    }
  }

  lemma ExpandOneNative(pkg: string, arm: bool, x86: bool, host: Host)
    requires (host == Host(false, true) && x86 && !arm) || (host == Host(true, false) && arm && !x86)
    ensures ExpandOne(pkg, arm, x86, host) == [pkg]
  {
    if host.isX86 {
      assert OnX86Host(pkg, arm, x86, host) == [pkg] && OnArmHost(pkg, arm, x86, host) == [];
    } else {
      assert OnX86Host(pkg, arm, x86, host) == [] && OnArmHost(pkg, arm, x86, host) == [pkg];
    }
  }

  /** On a single-architecture host with both flags set, each plain package
      gives itself followed by its cross-compiled variant for the other
      architecture. */
  lemma {:induction false} ExpandBothTargets(pkgs: seq<string>, host: Host)
    requires host == Host(false, true) || host == Host(true, false)
    requires forall k :: 0 <= k < |pkgs| ==> !Contains(pkgs[k], CROSS_MARKER)
    ensures Interleaved(ExpandAll(pkgs, true, true, host), pkgs, if host.isX86 then TO_AARCH64 else TO_X86_64)
  {
    if pkgs != [] {
      var init, last := pkgs[..|pkgs| - 1], pkgs[|pkgs| - 1];
      assert forall k :: 0 <= k < |init| ==> init[k] == pkgs[k];
      ExpandBothTargets(init, host);
      ExpandOneBoth(last, host);
      ExpandBothSnoc(pkgs, host, if host.isX86 then TO_AARCH64 else TO_X86_64);
    }
  }

  lemma ExpandBothSnoc(pkgs: seq<string>, host: Host, prefix: string)
    requires pkgs != []
    requires ExpandOne(pkgs[|pkgs| - 1], true, true, host) == [pkgs[|pkgs| - 1], prefix + pkgs[|pkgs| - 1]]
    requires Interleaved(ExpandAll(pkgs[..|pkgs| - 1], true, true, host), pkgs[..|pkgs| - 1], prefix)
    ensures Interleaved(ExpandAll(pkgs, true, true, host), pkgs, prefix)
  {
    var init, last := pkgs[..|pkgs| - 1], pkgs[|pkgs| - 1];
    ExpandAllLast(pkgs, true, true, host);
    InterleavedSnoc(ExpandAll(init, true, true, host), init, last, prefix,
                    ExpandOne(last, true, true, host), ExpandAll(pkgs, true, true, host), pkgs);
  }

  /** `e` lists each package followed by that package under `prefix`. */
  predicate Interleaved(e: seq<string>, pkgs: seq<string>, prefix: string)
  {
    && |e| == 2 * |pkgs|
    && forall k :: 0 <= k < |pkgs| ==> e[2 * k] == pkgs[k] && e[2 * k + 1] == prefix + pkgs[k]
  }

  lemma InterleavedSnoc(e: seq<string>, pkgs: seq<string>, last: string, prefix: string,
                        tail: seq<string>, e': seq<string>, pkgs': seq<string>)
    requires Interleaved(e, pkgs, prefix)
    requires tail == [last, prefix + last] && e' == e + tail
    requires pkgs' != [] && pkgs'[..|pkgs'| - 1] == pkgs && pkgs'[|pkgs'| - 1] == last
    ensures Interleaved(e', pkgs', prefix)
  {
    forall k | 0 <= k < |pkgs'|
      ensures e'[2 * k] == pkgs'[k] && e'[2 * k + 1] == prefix + pkgs'[k]
    {
      if k < |pkgs| {
        assert e'[2 * k] == e[2 * k] && e'[2 * k + 1] == e[2 * k + 1];
        assert pkgs'[k] == pkgs[k];
      }
    }
  }

  lemma ExpandOneBoth(pkg: string, host: Host)
    requires host == Host(false, true) || host == Host(true, false)
    requires !Contains(pkg, CROSS_MARKER)
    ensures ExpandOne(pkg, true, true, host) == [pkg, (if host.isX86 then TO_AARCH64 else TO_X86_64) + pkg]
  {
  }

  /** On a single-architecture host asked only for the other architecture,
      each plain package is replaced by its cross-compiled variant. */
  lemma {:induction false} ExpandCrossOnly(pkgs: seq<string>, arm: bool, x86: bool, host: Host)
    requires (host == Host(false, true) && arm && !x86) || (host == Host(true, false) && x86 && !arm)
    requires forall k :: 0 <= k < |pkgs| ==> !Contains(pkgs[k], CROSS_MARKER)
    ensures Prefixed(ExpandAll(pkgs, arm, x86, host), pkgs, if host.isX86 then TO_AARCH64 else TO_X86_64)
  {
    if pkgs != [] {
      var init, last := pkgs[..|pkgs| - 1], pkgs[|pkgs| - 1];
      assert forall k :: 0 <= k < |init| ==> init[k] == pkgs[k];
      ExpandCrossOnly(init, arm, x86, host);
      ExpandOneCross(last, arm, x86, host);
      ExpandCrossSnoc(pkgs, arm, x86, host, if host.isX86 then TO_AARCH64 else TO_X86_64);
    }
  }

  lemma ExpandCrossSnoc(pkgs: seq<string>, arm: bool, x86: bool, host: Host, prefix: string)
    requires pkgs != []
    requires ExpandOne(pkgs[|pkgs| - 1], arm, x86, host) == [prefix + pkgs[|pkgs| - 1]]
    requires Prefixed(ExpandAll(pkgs[..|pkgs| - 1], arm, x86, host), pkgs[..|pkgs| - 1], prefix)
    ensures Prefixed(ExpandAll(pkgs, arm, x86, host), pkgs, prefix)
  {
    var init, last := pkgs[..|pkgs| - 1], pkgs[|pkgs| - 1];
    ExpandAllLast(pkgs, arm, x86, host);
    PrefixedSnoc(ExpandAll(init, arm, x86, host), init, last, prefix,
                 ExpandAll(pkgs, arm, x86, host), pkgs);
  }

  lemma ExpandOneCross(pkg: string, arm: bool, x86: bool, host: Host)
    requires (host == Host(false, true) && arm && !x86) || (host == Host(true, false) && x86 && !arm)
    requires !Contains(pkg, CROSS_MARKER)
    ensures ExpandOne(pkg, arm, x86, host) == [(if host.isX86 then TO_AARCH64 else TO_X86_64) + pkg]
  {
  }

  /** `e` lists each package under `prefix`, in order. */
  predicate Prefixed(e: seq<string>, pkgs: seq<string>, prefix: string)
  {
    && |e| == |pkgs|
    && forall k :: 0 <= k < |pkgs| ==> e[k] == prefix + pkgs[k]
  }

  lemma PrefixedSnoc(e: seq<string>, pkgs: seq<string>, last: string, prefix: string,
                     e': seq<string>, pkgs': seq<string>)
    requires Prefixed(e, pkgs, prefix)
    requires e' == e + [prefix + last]
    requires pkgs' != [] && pkgs'[..|pkgs'| - 1] == pkgs && pkgs'[|pkgs'| - 1] == last
    ensures Prefixed(e', pkgs', prefix)
  {
    forall k | 0 <= k < |pkgs'|
      ensures e'[k] == prefix + pkgs'[k]
    {
      if k < |pkgs| {
        assert pkgs'[k] == pkgs[k];
      }
    }
  }

  /** A host that reports neither architecture drops every plain package. */
  lemma {:induction false} ExpandNoHostArch(pkgs: seq<string>, arm: bool, x86: bool)
    requires forall k :: 0 <= k < |pkgs| ==> !Contains(pkgs[k], CROSS_MARKER)
    ensures ExpandAll(pkgs, arm, x86, Host(false, false)) == []
  {
    if pkgs != [] {
      var init, last := pkgs[..|pkgs| - 1], pkgs[|pkgs| - 1];
      assert forall k :: 0 <= k < |init| ==> init[k] == pkgs[k];
      ExpandNoHostArch(init, arm, x86);
      ExpandOneNoHostArch(last, arm, x86);
      ExpandAllLast(pkgs, arm, x86, Host(false, false));
    }
  }

  lemma ExpandOneNoHostArch(pkg: string, arm: bool, x86: bool)
    requires !Contains(pkg, CROSS_MARKER)
    ensures ExpandOne(pkg, arm, x86, Host(false, false)) == []
  {
  }

  /** `wget` on an x86 host with both flags. */
  lemma ExpandWgetOnX86()
    ensures ExpandAll(["wget"], true, true, Host(false, true))
         == ["wget", "pkgsCross.aarch64-darwin.wget"]
  {
    assert ["wget"][..0] == [];
    assert !Contains("wget", CROSS_MARKER);
    assert TO_AARCH64 + "wget" == "pkgsCross.aarch64-darwin.wget";
  }

  // ---------------------------------------------------------------------
  // search: keep the packages containing the term, then sorted(key=len)

  /** The packages containing `term`, in their original order. */
  function Matching(pkgs: seq<string>, term: string): seq<string>
  {
    if pkgs == [] then []
    else
      Matching(pkgs[..|pkgs| - 1], term)
      + (if Contains(pkgs[|pkgs| - 1], term) then [pkgs[|pkgs| - 1]] else [])
  }

  predicate SortedByLength(s: seq<string>)
  {
    forall i, j :: 0 <= i < j < |s| ==> |s[i]| <= |s[j]|
  }

  /** Inserts `x` after every entry not longer than it. */
  function InsertByLength(x: string, s: seq<string>): seq<string>
  {
    if s == [] then [x]
    else if |x| < |s[0]| then [x] + s
    else [s[0]] + InsertByLength(x, s[1..])
  }

  /** Python's stable `sorted(s, key=len)`, as an insertion sort. */
  function SortByLength(s: seq<string>): seq<string>
  {
    if s == [] then []
    else InsertByLength(s[|s| - 1], SortByLength(s[..|s| - 1]))
  }

  /** The entries of length `n`, in order: stability says these keep their order. */
  function OfLength(s: seq<string>, n: nat): seq<string>
  {
    if s == [] then []
    else (if |s[0]| == n then [s[0]] else []) + OfLength(s[1..], n)
  }

  method Search(packages: seq<string>, term: string) returns (sortedRank: seq<string>)
    ensures forall x :: multiset(sortedRank)[x] == if Contains(x, term) then multiset(packages)[x] else 0
    ensures SortedByLength(sortedRank)
    ensures forall n: nat :: OfLength(sortedRank, n) == OfLength(Matching(packages, term), n)
  {
    var rank := [];
    for i := 0 to |packages|
      invariant rank == Matching(packages[..i], term)
    {
      if Contains(packages[i], term) {
        rank := rank + [packages[i]];
      }
      assert packages[..i + 1][..i] == packages[..i];
    }
    assert packages[..|packages|] == packages;
    sortedRank := SortByLength(rank);
    MatchingCounts(packages, term);
    SortByLengthPermutes(rank);
    SortByLengthSorted(rank);
    forall n: nat ensures OfLength(sortedRank, n) == OfLength(rank, n) {
      SortByLengthStable(rank, n);
    }
  }

  /** Filtering keeps every copy of a matching package and no other package. */
  lemma {:induction false} MatchingCounts(pkgs: seq<string>, term: string)
    ensures forall x :: multiset(Matching(pkgs, term))[x] == if Contains(x, term) then multiset(pkgs)[x] else 0
  {
    if pkgs != [] {
      var init := pkgs[..|pkgs| - 1];
      MatchingCounts(init, term);
      assert pkgs == init + [pkgs[|pkgs| - 1]];
    }
  }

  /** Insertion adds exactly one copy of `x`. */
  lemma {:induction false} InsertByLengthCount(x: string, s: seq<string>)
    ensures multiset(InsertByLength(x, s)) == multiset(s) + multiset{x}
  {
    if s != [] && |x| >= |s[0]| {
      InsertByLengthCount(x, s[1..]);
      assert s == [s[0]] + s[1..];
    }
  }

  /** A length-ordered list with a first element no longer than any other is length-ordered. */
  lemma ConsSortedByLength(y: string, s: seq<string>)
    requires SortedByLength(s)
    requires forall z :: z in s ==> |y| <= |z|
    ensures SortedByLength([y] + s)
  {
    var r := [y] + s;
    forall i, j | 0 <= i < j < |r| ensures |r[i]| <= |r[j]| {
      assert r[j] == s[j - 1];
      if i > 0 {
        assert r[i] == s[i - 1];
      }
    }
  }

  /** Insertion into a length-ordered list keeps it length-ordered. */
  lemma {:induction false} InsertByLengthSorted(x: string, s: seq<string>)
    requires SortedByLength(s)
    ensures SortedByLength(InsertByLength(x, s))
  {
    if s == [] {
    } else if |x| < |s[0]| {
      forall z | z in s ensures |x| <= |z| {
        var k :| 0 <= k < |s| && s[k] == z;
        if k > 0 {
          assert |s[0]| <= |s[k]|;
        }
      }
      ConsSortedByLength(x, s);
    } else {
      var rest := s[1..];
      SortedTail(s);
      InsertByLengthSorted(x, rest);
      InsertByLengthCount(x, rest);
      var tail := InsertByLength(x, rest);
      forall z | z in tail ensures |s[0]| <= |z| {
        assert z in multiset(tail);
        if z != x {
          var k :| 0 <= k < |rest| && rest[k] == z;
          assert s[k + 1] == z;
        }
      }
      ConsSortedByLength(s[0], tail);
    }
  }

  /** Sorting yields the same multiset of packages. */
  lemma {:induction false} SortByLengthPermutes(s: seq<string>)
    ensures multiset(SortByLength(s)) == multiset(s)
  {
    if s != [] {
      var init, last := s[..|s| - 1], s[|s| - 1];
      SortByLengthPermutes(init);
      InsertByLengthCount(last, SortByLength(init));
      SortByLengthLast(s);
      SnocSplit(s);
    }
  }

  lemma SortByLengthLast(s: seq<string>)
    requires s != []
    ensures SortByLength(s) == InsertByLength(s[|s| - 1], SortByLength(s[..|s| - 1]))
  {
  }

  /** Sorting yields a list ordered by length. */
  lemma {:induction false} SortByLengthSorted(s: seq<string>)
    ensures SortedByLength(SortByLength(s))
  {
    if s != [] {
      var init, last := s[..|s| - 1], s[|s| - 1];
      SortByLengthSorted(init);
      InsertByLengthSorted(last, SortByLength(init));
    }
  }

  lemma {:induction false} OfLengthAppend(s: seq<string>, x: string, n: nat)
    ensures OfLength(s + [x], n) == OfLength(s, n) + (if |x| == n then [x] else [])
  {
    if s != [] {
      assert (s + [x])[1..] == s[1..] + [x];
      OfLengthAppend(s[1..], x, n);
    }
  }

  lemma {:induction false} OfLengthNone(s: seq<string>, n: nat)
    requires forall k :: 0 <= k < |s| ==> |s[k]| > n
    ensures OfLength(s, n) == []
  {
    if s != [] {
      OfLengthNone(s[1..], n);
    }
  }

  /** Inserting into a sorted list puts `x` after the entries of its own length. */
  lemma {:induction false} InsertByLengthStable(x: string, s: seq<string>, n: nat)
    requires SortedByLength(s)
    ensures OfLength(InsertByLength(x, s), n) == OfLength(s, n) + (if |x| == n then [x] else [])
  {
    if s == [] {
    } else if |x| < |s[0]| {
      if |x| == n {
        SortedHeadShortest(s);
        OfLengthNone(s, n);
      }
      OfLengthCons(x, s, n);
    } else {
      SortedTail(s);
      InsertByLengthStable(x, s[1..], n);
      OfLengthCons(s[0], InsertByLength(x, s[1..]), n);
    }
  }

  lemma OfLengthCons(y: string, s: seq<string>, n: nat)
    ensures OfLength([y] + s, n) == (if |y| == n then [y] else []) + OfLength(s, n)
  {
    assert ([y] + s)[1..] == s;
  }

  lemma SortedTail(s: seq<string>)
    requires s != [] && SortedByLength(s)
    ensures SortedByLength(s[1..])
  {
    var rest := s[1..];
    forall i, j | 0 <= i < j < |rest| ensures |rest[i]| <= |rest[j]| {
      assert rest[i] == s[i + 1] && rest[j] == s[j + 1];
    }
  }

  lemma SortedHeadShortest(s: seq<string>)
    requires s != [] && SortedByLength(s)
    ensures forall k :: 0 <= k < |s| ==> |s[0]| <= |s[k]|
  {
    forall k | 0 < k < |s| ensures |s[0]| <= |s[k]| {
    }
  }

  /** Entries of equal length keep their original relative order. */
  lemma {:induction false} SortByLengthStable(s: seq<string>, n: nat)
    ensures OfLength(SortByLength(s), n) == OfLength(s, n)
  {
    if s != [] {
      var init, last := s[..|s| - 1], s[|s| - 1];
      SortByLengthStable(init, n);
      SortByLengthSorted(init);
      InsertByLengthStable(last, SortByLength(init), n);
      SortByLengthLast(s);
      SnocSplit(s);
      OfLengthAppend(init, last, n);
    }
  }

  // ---------------------------------------------------------------------
  // _patch_bootstrap: the line rewrite

  const PATCH_TARGETS: seq<string> := [
    "install_name_tool -id \"$(dirname $i)/$(basename $id)\" $i",
    "install_name_tool -add_rpath $out/lib $i"
  ]
  const PATCH_MARK := "|| true"

  /** A line that holds one of `targets` and is not yet marked. */
  predicate HitsAny(line: string, targets: seq<string>)
  {
    exists k :: 0 <= k < |targets| && Contains(line, targets[k]) && !Contains(line, PATCH_MARK)
  }

  predicate NeedsPatch(line: string)
  {
    HitsAny(line, PATCH_TARGETS)
  }

  /** A line with its trailing white space replaced by ` || true` and a line end. */
  function Marked(line: string): (r: string)
    ensures Contains(r, PATCH_MARK)
  {
    ContainsInside(RStrip(line) + " ", PATCH_MARK, "\n");
    RStrip(line) + " " + PATCH_MARK + "\n"
  }

  function PatchLine(line: string): (r: string)
    ensures r != line <==> NeedsPatch(line)
    ensures !NeedsPatch(r)
  {
    if NeedsPatch(line) then Marked(line) else line
  }

  function PatchAll(lines: seq<string>): seq<string>
  {
    if lines == [] then [] else PatchAll(lines[..|lines| - 1]) + [PatchLine(lines[|lines| - 1])]
  }

  predicate AnyNeedsPatch(lines: seq<string>)
  {
    exists k :: 0 <= k < |lines| && NeedsPatch(lines[k])
  }

  /** The loop over the script's lines (reading and writing the file are left
      out): each line is rewritten or kept, and `patched` says whether any was
      rewritten. */
  method PatchBootstrap(lines: seq<string>) returns (patchedScript: seq<string>, patched: bool)
    ensures patchedScript == PatchAll(lines)
    ensures patched <==> AnyNeedsPatch(lines)
  {
    patchedScript := [];
    patched := false;
    for i := 0 to |lines|
      invariant patchedScript == PatchAll(lines[..i])
      invariant patched <==> AnyNeedsPatch(lines[..i])
    {
      var line := lines[i];
      var newLine := line;
      for j := 0 to |PATCH_TARGETS|
        invariant newLine == if HitsAny(line, PATCH_TARGETS[..j]) then Marked(line) else line
        invariant patched <==> AnyNeedsPatch(lines[..i]) || HitsAny(line, PATCH_TARGETS[..j])
      {
        HitsAnyStep(line, PATCH_TARGETS, j);
        var target := PATCH_TARGETS[j];
        if Contains(line, target) && !Contains(line, PATCH_MARK) {
          newLine := Marked(line);
          patched := true;
        }
      }
      assert PATCH_TARGETS[..|PATCH_TARGETS|] == PATCH_TARGETS;
      PatchAllStep(lines, i);
      AnyNeedsPatchStep(lines, i);
      patchedScript := patchedScript + [newLine];
    }
    assert lines[..|lines|] == lines;
  }

  lemma HitsAnyStep(line: string, targets: seq<string>, j: int)
    requires 0 <= j < |targets|
    ensures HitsAny(line, targets[..j + 1])
        <==> HitsAny(line, targets[..j]) || (Contains(line, targets[j]) && !Contains(line, PATCH_MARK))
  {
    assert targets[..j + 1][j] == targets[j];
    assert forall k :: 0 <= k < j ==> targets[..j + 1][k] == targets[..j][k];
  }

  lemma PatchAllStep(lines: seq<string>, i: int)
    requires 0 <= i < |lines|
    ensures PatchAll(lines[..i + 1]) == PatchAll(lines[..i]) + [PatchLine(lines[i])]
  {
    assert lines[..i + 1][..i] == lines[..i];
  }

  lemma AnyNeedsPatchStep(lines: seq<string>, i: int)
    requires 0 <= i < |lines|
    ensures AnyNeedsPatch(lines[..i + 1]) <==> AnyNeedsPatch(lines[..i]) || NeedsPatch(lines[i])
  {
    assert forall k :: 0 <= k < i ==> lines[..i + 1][k] == lines[..i][k];
    assert lines[..i + 1][i] == lines[i];
  }

  /** The rewrite keeps the line count and works line by line. */
  lemma {:induction false} PatchAllLines(lines: seq<string>)
    ensures |PatchAll(lines)| == |lines|
    ensures forall k :: 0 <= k < |lines| ==> PatchAll(lines)[k] == PatchLine(lines[k])
  {
    if lines != [] {
      var init, last := lines[..|lines| - 1], lines[|lines| - 1];
      PatchAllLines(init);
      var out, outInit := PatchAll(lines), PatchAll(init);
      assert out == outInit + [PatchLine(last)];
      forall k | 0 <= k < |lines| ensures out[k] == PatchLine(lines[k]) {
        if k < |init| {
          assert out[k] == outInit[k] && lines[k] == init[k];
        }
      }
    }
  }

  /** A second run over a patched script changes nothing and reports false. */
  lemma PatchAllIdempotent(lines: seq<string>)
    ensures PatchAll(PatchAll(lines)) == PatchAll(lines)
    ensures !AnyNeedsPatch(PatchAll(lines))
  {
    var once := PatchAll(lines);
    PatchAllLines(lines);
    PatchAllLines(once);
    assert forall k :: 0 <= k < |once| ==> !NeedsPatch(once[k]);
  }

  // ---------------------------------------------------------------------
  // build_pkg: choosing the nixpkgs archive for `repo`

  const NIXPKGS_ARCHIVE := "https://github.com/NixOS/nixpkgs/archive/"

  predicate IsDigit(c: char)
  {
    '0' <= c <= '9'
  }

  /** `^\d\d\.\d\d(-pre|-beta)?$` as `re.match` applies it (ASCII digits). */
  predicate IsChannelName(s: string): (ok: bool)
    ensures ok ==> var b := StripFinalNewline(s); |b| == 5 || |b| == 9 || |b| == 10
    ensures ok ==> IsDigit(s[0]) && IsDigit(s[1]) && s[2] == '.' && IsDigit(s[3]) && IsDigit(s[4])
  {
    var b := StripFinalNewline(s);
    && |b| >= 5
    && IsDigit(b[0]) && IsDigit(b[1]) && b[2] == '.' && IsDigit(b[3]) && IsDigit(b[4])
    && (b[5..] == "" || b[5..] == "-pre" || b[5..] == "-beta")
  }

  /** A named channel, `unstable` or `master` in any letter case selects a
      nixpkgs archive; anything else is taken to be a URL already. */
  function RepoUrl(repo: string): (url: string)
    ensures ToLower(repo) == "unstable" || IsChannelName(ToLower(repo)) ==>
      url == NIXPKGS_ARCHIVE + "nixos-" + repo + ".tar.gz"
    ensures !(ToLower(repo) == "unstable" || IsChannelName(ToLower(repo))) && ToLower(repo) == "master" ==>
      url == NIXPKGS_ARCHIVE + "master.tar.gz"
    ensures !(ToLower(repo) == "unstable" || IsChannelName(ToLower(repo)) || ToLower(repo) == "master") ==>
      url == repo
  {
    var lowered := ToLower(repo);
    if lowered == "unstable" || IsChannelName(lowered) then NIXPKGS_ARCHIVE + "nixos-" + repo + ".tar.gz"
    else if lowered == "master" then NIXPKGS_ARCHIVE + "master.tar.gz"
    else repo
  }

  /** A repository given as a URL (anything with a `/`) is used verbatim. */
  lemma RepoUrlPassesUrls(repo: string)
    requires '/' in repo
    ensures RepoUrl(repo) == repo
  {
    var lowered := ToLower(repo);
    var k :| 0 <= k < |repo| && repo[k] == '/';
    assert lowered[k] == '/';
    assert lowered != "unstable" && lowered != "master";
    ChannelNameHasNoSlash(lowered, k);
  }

  lemma ChannelNameHasNoSlash(s: string, k: int)
    requires 0 <= k < |s| && s[k] == '/'
    ensures !IsChannelName(s)
  {
    var b := StripFinalNewline(s);
    if |b| >= 5 && k < |b| {
      assert b[k] == '/';
      if k >= 5 {
        var tail := b[5..];
        assert tail[k - 5] == '/';
        assert tail != "" && tail != "-pre" && tail != "-beta";
      }
    }
  }

  /** A named channel keeps the letter case the user typed in the archive name. */
  lemma RepoUrlChannelExample()
    ensures RepoUrl("22.05-BETA") == NIXPKGS_ARCHIVE + "nixos-" + "22.05-BETA" + ".tar.gz"
  {
    LowerBeta();
    BetaIsChannel();
  }

  lemma LowerBeta()
    ensures ToLower("22.05-BETA") == "22.05-beta"
  {
    var lowered := ToLower("22.05-BETA");
    forall k | 0 <= k < 10 ensures lowered[k] == "22.05-beta"[k] {}
  }

  lemma BetaIsChannel()
    ensures IsChannelName("22.05-beta")
  {
    var b := "22.05-beta";
    assert StripFinalNewline(b) == b;
    assert b[5..] == "-beta";
  }

  lemma RepoUrlMasterExample()
    ensures RepoUrl("MASTER") == NIXPKGS_ARCHIVE + "master.tar.gz"
  {
    LowerMaster();
    assert !IsChannelName("master") by {
      assert !IsDigit("master"[0]);
    }
  }

  lemma LowerMaster()
    ensures ToLower("MASTER") == "master"
  {
    var lowered := ToLower("MASTER");
    forall k | 0 <= k < 6 ensures lowered[k] == "master"[k] {}
  }

  // ---------------------------------------------------------------------
  // get_pkgs_to_pack

  /** One name of the store listing, with what `os.path.isdir` says of it. */
  datatype StoreEntry = StoreEntry(name: string, isDir: bool)

  predicate Requested(e: StoreEntry, pname: string)
  {
    Contains(e.name, pname) && e.isDir
  }

  /** The store directories appended for one listing entry, one per matching name. */
  function DirsFor(root: string, e: StoreEntry, pnames: seq<string>): seq<string>
  {
    if pnames == [] then []
    else
      DirsFor(root, e, pnames[..|pnames| - 1])
      + (if Requested(e, pnames[|pnames| - 1]) then [PathJoin(root, e.name)] else [])
  }

  function MatchedDirs(root: string, entries: seq<StoreEntry>, pnames: seq<string>): seq<string>
  {
    if entries == [] then []
    else MatchedDirs(root, entries[..|entries| - 1], pnames) + DirsFor(root, entries[|entries| - 1], pnames)
  }

  /** The concatenated `--requisites` answers for `dirs`, `query(d)` being the
      whitespace-split output for `d`. */
  function Requisites(dirs: seq<string>, query: string -> seq<string>): seq<string>
  {
    if dirs == [] then [] else Requisites(dirs[..|dirs| - 1], query) + query(dirs[|dirs| - 1])
  }

  predicate NoDuplicates(s: seq<string>)
  {
    forall i, j :: 0 <= i < j < |s| ==> s[i] != s[j]
  }

  /** `list(set(s))`, keeping first occurrences. */
  function Dedup(s: seq<string>): (r: seq<string>)
    ensures NoDuplicates(r)
    ensures forall x :: x in r <==> x in s
  {
    if s == [] then []
    else
      var rest := Dedup(s[..|s| - 1]);
      if s[|s| - 1] in rest then rest else rest + [s[|s| - 1]]
  }

  /** `p` is a requisite of some listed directory whose name holds a requested name. */
  ghost predicate InClosure(root: string, entries: seq<StoreEntry>, pnames: seq<string>,
                            query: string -> seq<string>, p: string)
  {
    exists e, pname :: e in entries && pname in pnames && Requested(e, pname)
      && p in query(PathJoin(root, e.name))
  }

  method GetPkgsToPack(root: string, entries: seq<StoreEntry>, pnames: seq<string>,
                       query: string -> seq<string>)
    returns (r: Result<seq<string>, NixError>)
    ensures r.Err? <==> forall e, pname :: e in entries && pname in pnames ==> !Requested(e, pname)
    ensures r.Err? ==> r.error == PackagePathNotFound
    ensures r.Ok? ==> NoDuplicates(r.value)
    ensures r.Ok? ==> forall p :: p in r.value <==> InClosure(root, entries, pnames, query, p)
  {
    var dirlist := [];
    for i := 0 to |entries|
      invariant dirlist == MatchedDirs(root, entries[..i], pnames)
    {
      var file := entries[i];
      ghost var before := dirlist;
      for j := 0 to |pnames|
        invariant dirlist == before + DirsFor(root, file, pnames[..j])
      {
        DirsForStep(root, file, pnames, j);
        if Contains(file.name, pnames[j]) && file.isDir {
          AppendAssoc(before, DirsFor(root, file, pnames[..j]), [PathJoin(root, file.name)]);
          dirlist := dirlist + [PathJoin(root, file.name)];
        }
      }
      assert pnames[..|pnames|] == pnames;
      MatchedDirsStep(root, entries, pnames, i);
    }
    assert entries[..|entries|] == entries;
    MatchedDirsEmpty(root, entries, pnames);
    if |dirlist| == 0 {
      return Err(PackagePathNotFound);
    }
    var accum := [];
    for k := 0 to |dirlist|
      invariant accum == Requisites(dirlist[..k], query)
    {
      RequisitesStep(dirlist, query, k);
      accum := accum + query(dirlist[k]);
    }
    assert dirlist[..|dirlist|] == dirlist;
    ClosureOfMatchedDirs(root, entries, pnames, query);
    r := Ok(Dedup(accum));
  }

  lemma DirsForStep(root: string, e: StoreEntry, pnames: seq<string>, j: int)
    requires 0 <= j < |pnames|
    ensures DirsFor(root, e, pnames[..j + 1])
         == DirsFor(root, e, pnames[..j]) + (if Requested(e, pnames[j]) then [PathJoin(root, e.name)] else [])
  {
    assert pnames[..j + 1][..j] == pnames[..j];
  }

  lemma MatchedDirsStep(root: string, entries: seq<StoreEntry>, pnames: seq<string>, i: int)
    requires 0 <= i < |entries|
    ensures MatchedDirs(root, entries[..i + 1], pnames)
         == MatchedDirs(root, entries[..i], pnames) + DirsFor(root, entries[i], pnames)
  {
    assert entries[..i + 1][..i] == entries[..i];
  }

  lemma RequisitesStep(dirs: seq<string>, query: string -> seq<string>, k: int)
    requires 0 <= k < |dirs|
    ensures Requisites(dirs[..k + 1], query) == Requisites(dirs[..k], query) + query(dirs[k])
  {
    assert dirs[..k + 1][..k] == dirs[..k];
  }

  /** No directory is matched exactly when no listed directory's name holds a requested name. */
  lemma MatchedDirsEmpty(root: string, entries: seq<StoreEntry>, pnames: seq<string>)
    ensures MatchedDirs(root, entries, pnames) == [] <==>
      forall e, pname :: e in entries && pname in pnames ==> !Requested(e, pname)
  {
    MatchedDirsMembers(root, entries, pnames);
    var dirs := MatchedDirs(root, entries, pnames);
    if dirs != [] {
      assert dirs[0] in dirs;
    }
    if exists e, pname :: e in entries && pname in pnames && Requested(e, pname) {
      var e, pname :| e in entries && pname in pnames && Requested(e, pname);
      assert PathJoin(root, e.name) in dirs;
    }
  }

  /** The requisites of the matched directories are the closure asked for. */
  lemma ClosureOfMatchedDirs(root: string, entries: seq<StoreEntry>, pnames: seq<string>,
                             query: string -> seq<string>)
    ensures forall p :: p in Requisites(MatchedDirs(root, entries, pnames), query) <==>
      InClosure(root, entries, pnames, query, p)
  {
    var dirs := MatchedDirs(root, entries, pnames);
    MatchedDirsMembers(root, entries, pnames);
    RequisitesMembers(dirs, query);
    forall p ensures p in Requisites(dirs, query) <==> InClosure(root, entries, pnames, query, p) {
      if p in Requisites(dirs, query) {
        var d :| d in dirs && p in query(d);
        var e, pname :| e in entries && pname in pnames && Requested(e, pname) && d == PathJoin(root, e.name);
      }
      if InClosure(root, entries, pnames, query, p) {
        var e, pname :| e in entries && pname in pnames && Requested(e, pname)
          && p in query(PathJoin(root, e.name));
        assert PathJoin(root, e.name) in dirs;
      }
    }
  }

  lemma {:induction false} DirsForMembers(root: string, e: StoreEntry, pnames: seq<string>)
    ensures forall d :: d in DirsFor(root, e, pnames) <==>
      d == PathJoin(root, e.name) && exists pname :: pname in pnames && Requested(e, pname)
  {
    if pnames != [] {
      var init := pnames[..|pnames| - 1];
      DirsForMembers(root, e, init);
      assert pnames == init + [pnames[|pnames| - 1]];
    }
  }

  /** The matched directories are exactly the listed directories whose name
      holds some requested name. */
  lemma {:induction false} MatchedDirsMembers(root: string, entries: seq<StoreEntry>, pnames: seq<string>)
    ensures forall d :: d in MatchedDirs(root, entries, pnames) <==>
      exists e, pname :: e in entries && pname in pnames && Requested(e, pname) && d == PathJoin(root, e.name)
  {
    if entries != [] {
      var init := entries[..|entries| - 1];
      var last := entries[|entries| - 1];
      MatchedDirsMembers(root, init, pnames);
      DirsForMembers(root, last, pnames);
      assert entries == init + [last];
    }
  }

  lemma {:induction false} RequisitesMembers(dirs: seq<string>, query: string -> seq<string>)
    ensures forall p :: p in Requisites(dirs, query) <==> exists d :: d in dirs && p in query(d)
  {
    if dirs != [] {
      var init := dirs[..|dirs| - 1];
      RequisitesMembers(init, query);
      assert dirs == init + [dirs[|dirs| - 1]];
    }
  }
}
