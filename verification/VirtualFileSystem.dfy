/** From a guest path to a host path: normalise, find the mount, translate what is below it, ask the policy. */
module VirtualFileSystem {
  import opened Options
  import opened VirtualPath
  import opened FsPolicy

  const EINVAL: nat := 22
  const ENOENT: nat := 2
  const EACCES: nat := 13

  /** `Undefined`: the source reads the last character of an empty string. */
  datatype Translated = Invalid | Undefined | Host(path: string)

  datatype Outcome = Failed(errno: nat) | Broken | Resolved(hostPath: string, mount: nat)

  /** vfsRoot/hostSubdir; no slash is added after an empty root or one that ends in a slash. */
  function Base(vfsRoot: string, hostSubdir: string): string {
    if vfsRoot != "" && vfsRoot[|vfsRoot| - 1] != '/' then vfsRoot + "/" + hostSubdir else vfsRoot + hostSubdir
  }

  /** The base followed by the components below the mount. */
  function HostPath(vfsRoot: string, hostSubdir: string, rest: seq<string>): (r: Translated)
    ensures r.Host? ==> vfsRoot <= r.path
    ensures r.Undefined? <==> vfsRoot == "" && hostSubdir == "" && rest != []
    ensures !r.Invalid?
  {
    var base := Base(vfsRoot, hostSubdir);
    if rest == [] then Host(base)
    else if base == "" then Undefined
    else Host((if base[|base| - 1] == '/' then base else base + "/") + Join(rest))
  }

  method Translate(guestPath: string, vfsRoot: string, hostSubdir: string) returns (r: Translated)
    ensures Normal(guestPath) == None ==> r == Invalid
    ensures Normal(guestPath).Some? ==>
              Canonical(Normal(guestPath).value)
              && r == HostPath(vfsRoot, hostSubdir, Components(Normal(guestPath).value))
  {
    hide Split, Join, Normal, Canonical, Components;
    var canonical := Normalize(guestPath);
    if canonical.None? {
      return Invalid;
    }
    NormalIsCanonical(guestPath);
    var suffix := canonical.value;
    SuffixShape(suffix);
    if suffix == "/" {
      suffix := "";
    }
    var host := vfsRoot;
    if host != "" && host[|host| - 1] != '/' {
      host := host + "/";
    }
    host := host + hostSubdir;
    if suffix != "" {
      if host == "" {
        return Undefined;
      }
      if host[|host| - 1] != '/' {
        host := host + "/";
      }
      var start := if suffix[0] == '/' then 1 else 0;
      host := host + suffix[start..];
    }
    r := Host(host);
  }

  lemma SuffixShape(s: string)
    requires Canonical(s)
    ensures s != "" && s[0] == '/' && (s == "/" <==> Components(s) == [])
    ensures s != "/" ==> s[1..] == Join(Components(s))
  {
    if s != "/" {
      JoinSplit(s[1..]);
    }
  }

  /** What a resolution may return, in terms of components: for a governed path the prefix of its mount is the first
      components of the normal form, and the host path is the mount's directory followed by all the others. */
  ghost predicate Correct(mounts: seq<MountPoint>, vfsRoot: string, path: string, op: FsOp, r: Outcome) {
    match Normal(path)
    case None => r == Failed(EINVAL)
    case Some(c) =>
      && (Ungoverned(mounts, c) <==> r == Failed(ENOENT))
      && forall k: nat :: Governs(mounts, c, k) ==>
           exists above, below ::
             && LiesBelow(c, mounts[k].guestPrefix, above, below)
             && r == Verdict(HostPath(vfsRoot, mounts[k].hostSubdir, below), Allows(mounts[k], op), k)
  }

  /** The path is `above` followed by `below`, and `above` is the mount's prefix. */
  ghost predicate LiesBelow(path: string, prefix: string, above: seq<string>, below: seq<string>) {
    AllGood(above) && AllGood(below) && path == Render(above + below) && prefix == Render(above)
  }

  function Verdict(host: Translated, allowed: bool, k: nat): Outcome {
    if !host.Host? then Broken else if allowed then Resolved(host.path, k) else Failed(EACCES)
  }

  class FileSystem {
    const policy: Policy

    constructor ()
      ensures fresh(policy)
    {
      policy := new Policy();
    }

    method Configure(vfsRoot: string, mounts: seq<MountPoint>)
      modifies policy
      ensures policy.mounts == mounts && policy.vfsRoot == vfsRoot
    {
      policy.Configure(mounts, vfsRoot);
    }

    method Resolve(guestPath: string, op: FsOp) returns (r: Outcome)
      ensures Correct(policy.mounts, policy.vfsRoot, guestPath, op, r)
    {
      hide Split, Join, Render, Normal, Canonical, Components, Matches, HostPath, Allows, Governs, Ungoverned;
      var normal := Normalize(guestPath);
      if normal.None? {
        return Failed(EINVAL);
      }
      var canonical := normal.value;
      NormalIsCanonical(guestPath);
      var found := policy.Match(canonical);
      OneVerdict(policy.mounts, canonical);
      if found.None? {
        return Failed(ENOENT);
      }
      var k := found.value;
      GovernorMatches(policy.mounts, canonical, k);
      var mp := policy.mounts[k];
      ghost var comps := Components(canonical);
      CanonicalIsRendered(canonical);
      ghost var depth := SuffixIsRendered(mp.guestPrefix, comps);
      ghost var above, below := comps[..depth], comps[depth..];
      assert comps == above + below;
      var suffix := canonical[|mp.guestPrefix|..];
      if suffix == "" {
        suffix := "/";
      }
      SuffixNormal(below, canonical[|mp.guestPrefix|..]);
      var host := Translate(suffix, policy.vfsRoot, mp.hostSubdir);
      if host.Invalid? {
        return Failed(EINVAL);
      }
      if host.Undefined? {
        r := Broken;
      } else {
        var ok, _ := policy.IsAllowed(canonical, op);
        r := if ok then Resolved(host.path, k) else Failed(EACCES);
      }
      assert LiesBelow(canonical, mp.guestPrefix, above, below);
      assert r == Verdict(HostPath(policy.vfsRoot, mp.hostSubdir, below), Allows(mp, op), k);
    }
  }

  lemma OneVerdict(mounts: seq<MountPoint>, path: string)
    ensures forall k :: Governs(mounts, path, k) ==> !Ungoverned(mounts, path)
    ensures forall j, k :: Governs(mounts, path, j) && Governs(mounts, path, k) ==> j == k
  {
    GovernorUnique(mounts, path);
  }

  lemma GovernorMatches(mounts: seq<MountPoint>, path: string, k: nat)
    requires Governs(mounts, path, k)
    ensures k < |mounts| && Matches(mounts[k].guestPrefix, path) && |mounts[k].guestPrefix| <= |path|
  {
  }

  /** What is left below the mount is already canonical, so translating it normalises nothing and cannot fail. */
  lemma SuffixNormal(below: seq<string>, suffix: string)
    requires AllGood(below) && suffix == Tail(below)
    ensures var s := if suffix == "" then "/" else suffix;
            Canonical(s) && Normal(s) == Some(s) && Components(s) == below
  {
    hide Split, Join, Normal, Canonical, Components;
    assert Render(below) == if suffix == "" then "/" else suffix;
    RenderIsCanonical(below);
    FixpointIff(Render(below));
  }

  // ---- what a resolution tells ----

  /** Below one mount the host path determines the components. */
  lemma HostPathInjective(vfsRoot: string, hostSubdir: string, a: seq<string>, b: seq<string>)
    requires AllGood(a) && AllGood(b)
    requires HostPath(vfsRoot, hostSubdir, a).Host?
    requires HostPath(vfsRoot, hostSubdir, a) == HostPath(vfsRoot, hostSubdir, b)
    ensures a == b
  {
    hide Base, Split, Join;
    GoodHasNoSlash(a);
    GoodHasNoSlash(b);
    if a != [] {
      SplitJoin(a);
      JoinNonempty(a);
    }
    if b != [] {
      SplitJoin(b);
      JoinNonempty(b);
    }
    if a != [] && b != [] {
      var base := Base(vfsRoot, hostSubdir);
      var start := if base[|base| - 1] == '/' then base else base + "/";
      assert (start + Join(a))[|start|..] == Join(a);
      assert (start + Join(b))[|start|..] == Join(b);
    }
  }

  lemma JoinNonempty(parts: seq<string>)
    requires AllGood(parts) && parts != []
    ensures Join(parts) != ""
  {
  }

  /** Two guest paths that one mount resolves to the same host path have the same normal form. */
  lemma HostPathDeterminesGuestPath(mounts: seq<MountPoint>, vfsRoot: string, p: string, q: string, op: FsOp,
                                    op': FsOp, r: Outcome)
    requires Correct(mounts, vfsRoot, p, op, r) && Correct(mounts, vfsRoot, q, op', r) && r.Resolved?
    ensures Normal(p) == Normal(q) && Normal(p).Some?
  {
    hide HostPath, Render, Normal, Governs, Ungoverned;
    var a, a' := ResolvedBelow(mounts, vfsRoot, p, op, r);
    var b, b' := ResolvedBelow(mounts, vfsRoot, q, op', r);
    HostPathInjective(vfsRoot, mounts[r.mount].hostSubdir, a', b');
    RenderInjective(a, b);
  }

  lemma RenderInjective(a: seq<string>, b: seq<string>)
    requires AllGood(a) && AllGood(b) && Render(a) == Render(b)
    ensures a == b
  {
    hide Split, Join, Render, Canonical, Components;
    RenderIsCanonical(a);
    RenderIsCanonical(b);
  }

  /** A successful resolution: the mount governs the normal form and allows the operation, and the host path is the
      root, the mount's directory and exactly the components after the mount's prefix, none of them "..". */
  lemma ResolvedBelow(mounts: seq<MountPoint>, vfsRoot: string, path: string, op: FsOp, r: Outcome)
    returns (above: seq<string>, below: seq<string>)
    requires Correct(mounts, vfsRoot, path, op, r) && r.Resolved?
    ensures Normal(path).Some? && r.mount < |mounts|
    ensures Governs(mounts, Normal(path).value, r.mount) && Allows(mounts[r.mount], op)
    ensures LiesBelow(Normal(path).value, mounts[r.mount].guestPrefix, above, below)
    ensures HostPath(vfsRoot, mounts[r.mount].hostSubdir, below) == Host(r.hostPath)
    ensures vfsRoot <= r.hostPath && ".." !in below && "." !in below && "" !in below
  {
    hide HostPath, Render, Normal, Allows;
    var c := Normal(path).value;
    var k := GovernorExists(mounts, c);
    above, below :| LiesBelow(c, mounts[k].guestPrefix, above, below)
      && r == Verdict(HostPath(vfsRoot, mounts[k].hostSubdir, below), Allows(mounts[k], op), k);
  }

  /** The host path from left to right: the root, the mount's directory, the components below the mount; one slash
      between two of them unless the part before ends in one or nothing precedes the directory. */
  lemma HostPathIs(vfsRoot: string, hostSubdir: string, rest: seq<string>, path: string) returns (start: string)
    requires HostPath(vfsRoot, hostSubdir, rest) == Host(path)
    ensures vfsRoot != "" && vfsRoot[|vfsRoot| - 1] != '/' ==> start == vfsRoot + "/" + hostSubdir
    ensures vfsRoot == "" || vfsRoot[|vfsRoot| - 1] == '/' ==> start == vfsRoot + hostSubdir
    ensures rest == [] ==> path == start
    ensures rest != [] ==> start != "" && path == start + (if start[|start| - 1] == '/' then "" else "/") + Join(rest)
  {
    hide Join;
    start := Base(vfsRoot, hostSubdir);
    if rest != [] {
      assert start + "" == start;
    }
  }

  /** A path some mount matches is governed by one. */
  lemma GovernorExists(mounts: seq<MountPoint>, path: string) returns (k: nat)
    requires !Ungoverned(mounts, path)
    ensures k < |mounts| && Governs(mounts, path, k)
  {
    hide Matches;
    k := LongestMatch(mounts, path, |mounts|);
  }

  lemma {:induction false} LongestMatch(mounts: seq<MountPoint>, path: string, n: nat) returns (k: nat)
    requires n <= |mounts| && exists j :: 0 <= j < n && Matches(mounts[j].guestPrefix, path)
    ensures k < n && Governs(mounts[..n], path, k)
  {
    hide Matches;
    if exists j :: 0 <= j < n - 1 && Matches(mounts[j].guestPrefix, path) {
      var i := LongestMatch(mounts, path, n - 1);
      var last := mounts[n - 1].guestPrefix;
      k := if Matches(last, path) && |last| > |mounts[i].guestPrefix| then n - 1 else i;
      assert forall j :: 0 <= j < n - 1 ==> mounts[..n - 1][j] == mounts[..n][j] == mounts[j];
    } else {
      k := n - 1;
    }
  }

  /** Nothing to put the path in: the source reads the last character of an empty string. */
  predicate NoBase(vfsRoot: string, mount: MountPoint, path: string) {
    vfsRoot == "" && mount.hostSubdir == "" && path != mount.guestPrefix
  }

  /** The outcomes: EINVAL exactly for paths that do not normalise, ENOENT exactly for valid paths outside every mount;
      below a governing mount with a base, EACCES exactly when it forbids the operation and success when it allows
      it. */
  lemma ErrnoIff(mounts: seq<MountPoint>, vfsRoot: string, path: string, op: FsOp, r: Outcome)
    requires Correct(mounts, vfsRoot, path, op, r)
    ensures r == Failed(EINVAL) <==> Normal(path) == None
    ensures r == Failed(ENOENT) <==> Normal(path).Some? && Ungoverned(mounts, Normal(path).value)
    ensures r == Failed(EACCES) <==>
            Normal(path).Some? && exists k: nat ::
              && Governs(mounts, Normal(path).value, k) && !Allows(mounts[k], op)
              && !NoBase(vfsRoot, mounts[k], Normal(path).value)
    ensures r.Resolved? <==>
            Normal(path).Some? && exists k: nat ::
              && Governs(mounts, Normal(path).value, k) && Allows(mounts[k], op)
              && !NoBase(vfsRoot, mounts[k], Normal(path).value)
    ensures r == Broken <==>
            Normal(path).Some? && exists k: nat ::
              Governs(mounts, Normal(path).value, k) && NoBase(vfsRoot, mounts[k], Normal(path).value)
  {
    hide HostPath, Render, Normal, Allows, Governs, Ungoverned;
    if Normal(path).Some? && r != Failed(ENOENT) {
      var c := Normal(path).value;
      var k := GovernorExists(mounts, c);
      OneVerdict(mounts, c);
      var above, below :| LiesBelow(c, mounts[k].guestPrefix, above, below)
        && r == Verdict(HostPath(vfsRoot, mounts[k].hostSubdir, below), Allows(mounts[k], op), k);
      BelowEmptyIff(above, below);
    } else if r == Failed(ENOENT) {
      OneVerdict(mounts, Normal(path).value);
    }
  }

  lemma BelowEmptyIff(above: seq<string>, below: seq<string>)
    requires AllGood(above) && AllGood(below)
    ensures below == [] <==> Render(above + below) == Render(above)
  {
    hide Render;
    if Render(above + below) == Render(above) {
      RenderInjective(above + below, above);
    }
    if below == [] {
      assert above + below == above;
    }
  }
}
