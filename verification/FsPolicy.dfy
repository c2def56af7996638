/** The mount table: which mount governs a path and what it allows. */
module FsPolicy {
  import opened Options
  import opened VirtualPath

  datatype MountPoint = MountPoint(guestPrefix: string, hostSubdir: string, readOnly: bool, allowCreate: bool,
                                   allowDelete: bool)

  datatype FsOp = Read | Write | Create | Delete | Rename | List | Chmod | Chown | Truncate

  /** `prefix` ends at a component boundary of `path`. */
  predicate Matches(prefix: string, path: string) {
    && prefix != "" && |prefix| <= |path| && path[..|prefix|] == prefix
    && (|path| == |prefix| || path[|prefix|] == '/')
  }

  /** Mount k governs `path`: it matches, none that matches is longer, and it is the first of that length. */
  ghost predicate Governs(mounts: seq<MountPoint>, path: string, k: nat) {
    && k < |mounts| && Matches(mounts[k].guestPrefix, path)
    && (forall j :: 0 <= j < |mounts| && Matches(mounts[j].guestPrefix, path) ==>
          |mounts[j].guestPrefix| <= |mounts[k].guestPrefix|)
    && (forall j :: 0 <= j < k && Matches(mounts[j].guestPrefix, path) ==>
          |mounts[j].guestPrefix| < |mounts[k].guestPrefix|)
  }

  ghost predicate Ungoverned(mounts: seq<MountPoint>, path: string) {
    forall j :: 0 <= j < |mounts| ==> !Matches(mounts[j].guestPrefix, path)
  }

  /** What a mount lets the guest do. */
  predicate Allows(mp: MountPoint, op: FsOp) {
    && (op in {Write, Truncate, Chmod, Chown, Create, Delete, Rename} ==> !mp.readOnly)
    && (op == Create ==> mp.allowCreate)
    && (op in {Delete, Rename} ==> mp.allowDelete)
  }

  /** Flag by flag: looking is always allowed, a read-only mount forbids all the rest, and creating and removing need
      their own permission as well. */
  lemma AllowsIff(mp: MountPoint, op: FsOp)
    ensures op == Read || op == List ==> Allows(mp, op)
    ensures op == Write || op == Truncate || op == Chmod || op == Chown ==> (Allows(mp, op) <==> !mp.readOnly)
    ensures op == Create ==> (Allows(mp, op) <==> !mp.readOnly && mp.allowCreate)
    ensures op == Delete || op == Rename ==> (Allows(mp, op) <==> !mp.readOnly && mp.allowDelete)
  {
  }

  class Policy {
    var mounts: seq<MountPoint>
    var vfsRoot: string

    constructor ()
      ensures vfsRoot == "virtual_fs" && |mounts| == 6
      ensures forall k :: 0 <= k < 6 ==> mounts[k].guestPrefix == "/" + mounts[k].hostSubdir
      ensures forall k, op :: 0 <= k < 6 ==>
                (Allows(mounts[k], op) <==> op in {Read, List} || mounts[k].guestPrefix !in {"/app", "/system"})
    {
      vfsRoot := "virtual_fs";
      mounts := [
        MountPoint("/app", "app", true, false, false),
        MountPoint("/data", "data", false, true, true),
        MountPoint("/system", "system", true, false, false),
        MountPoint("/temp", "temp", false, true, true),
        MountPoint("/save", "save", false, true, true),
        MountPoint("/user", "user", false, true, true)];
    }

    method Configure(mounts': seq<MountPoint>, vfsRoot': string)
      modifies this
      ensures mounts == mounts' && vfsRoot == vfsRoot'
    {
      mounts := mounts';
      vfsRoot := vfsRoot';
    }

    method Match(path: string) returns (best: Option<nat>)
      ensures best.None? ==> Ungoverned(mounts, path)
      ensures best.Some? ==> Governs(mounts, path, best.value)
    {
      best := None;
      var bestLen := 0;
      for i := 0 to |mounts|
        invariant best.None? ==> bestLen == 0 && Ungoverned(mounts[..i], path)
        invariant best.Some? ==> Governs(mounts[..i], path, best.value)
                                 && bestLen == |mounts[best.value].guestPrefix|
      {
        var prefix := mounts[i].guestPrefix;
        if |path| < |prefix| {
          continue;
        }
        if path[..|prefix|] != prefix {
          continue;
        }
        if |path| > |prefix| && path[|prefix|] != '/' {
          continue;
        }
        if |prefix| > bestLen {
          bestLen := |prefix|;
          best := Some(i);
        }
      }
      assert mounts[..|mounts|] == mounts;
    }

    method IsAllowed(path: string, op: FsOp) returns (ok: bool, reason: string)
      ensures ok <==> exists k: nat :: Governs(mounts, path, k) && Allows(mounts[k], op)
      ensures ok <==> reason == ""
    {
      reason := "";
      var best := Match(path);
      if best.None? {
        return false, "no mount matches path";
      }
      var mp := mounts[best.value];
      assert Governs(mounts, path, best.value);
      GovernorUnique(mounts, path);
      match op
      case Read =>
        ok := true;
      case List =>
        ok := true;
      case Create =>
        if mp.readOnly {
          return false, "mount is read-only";
        }
        if !mp.allowCreate {
          return false, "create not permitted on mount";
        }
        ok := true;
      case Delete =>
        ok, reason := Removal(mp, op);
      case Rename =>
        ok, reason := Removal(mp, op);
      case _ =>
        if mp.readOnly {
          assert !Allows(mp, op);
          return false, "mount is read-only";
        }
        ok := true;
    }

    method Removal(mp: MountPoint, op: FsOp) returns (ok: bool, reason: string)
      requires op == Delete || op == Rename
      ensures ok == Allows(mp, op) && (ok <==> reason == "")
    {
      if mp.readOnly {
        return false, "mount is read-only";
      }
      if !mp.allowDelete {
        return false, "delete not permitted on mount";
      }
      return true, "";
    }
  }

  lemma GovernorUnique(mounts: seq<MountPoint>, path: string)
    ensures forall j, k :: Governs(mounts, path, j) && Governs(mounts, path, k) ==> j == k
  {
    forall j, k | Governs(mounts, path, j) && Governs(mounts, path, k) ensures j == k {
      if j < k {
      } else if k < j {
      }
    }
  }

  // ---- prefixes of strings and prefixes of component lists ----

  lemma RenderIsJoin(stack: seq<string>)
    requires AllGood(stack) && stack != []
    ensures Render(stack) == Join([""] + stack) && Split(Render(stack)) == [""] + stack
  {
    hide Split, Join, Good;
    var text := "/" + Join(stack);
    SplitAppend("", Join(stack));
    assert "" + "/" + Join(stack) == text;
    SplitName("");
    GoodHasNoSlash(stack);
    SplitJoin(stack);
    assert Split(text) == [""] + stack;
    JoinSplit(text);
  }

  /** "" for no components, otherwise each with a slash before it. */
  function Tail(rest: seq<string>): string {
    if rest == [] then "" else "/" + Join(rest)
  }

  lemma RenderPrefix(comps: seq<string>, k: nat)
    requires AllGood(comps) && 1 <= k <= |comps|
    ensures Render(comps) == Render(comps[..k]) + Tail(comps[k..])
  {
    var a, b := comps[..k], comps[k..];
    assert a + b == comps;
    if k == |comps| {
      assert a == comps;
    } else {
      PathJoins(a, b);
    }
  }

  lemma PathJoins(a: seq<string>, b: seq<string>)
    requires AllGood(a) && AllGood(b) && a != [] && b != []
    ensures Render(a + b) == Render(a) + Tail(b)
  {
    hide Split, Join, Render, Good;
    var text := Render(a) + "/" + Join(b);
    RenderIsJoin(a);
    GoodHasNoSlash(b);
    SplitJoin(b);
    SplitAppend(Render(a), Join(b));
    Assoc([""], a, b);
    RenderIsJoin(a + b);
    JoinSplit(text);
    Assoc(Render(a), "/", Join(b));
  }

  /** For canonical paths the string test is the component test; "/" only ever matches "/". */
  lemma MatchesIff(prefix: string, comps: seq<string>)
    requires AllGood(comps)
    ensures Matches(prefix, Render(comps)) <==>
            (comps == [] && prefix == "/") ||
            exists k: nat :: 1 <= k <= |comps| && prefix == Render(comps[..k])
  {
    var path := Render(comps);
    if k: nat :| 1 <= k <= |comps| && prefix == Render(comps[..k]) {
      RenderPrefix(comps, k);
    }
    if comps != [] && Matches(prefix, path) {
      MatchIsPrefix(prefix, comps);
    }
  }

  lemma MatchIsPrefix(prefix: string, comps: seq<string>)
    requires AllGood(comps) && comps != [] && Matches(prefix, Render(comps))
    ensures exists k: nat :: 1 <= k <= |comps| && prefix == Render(comps[..k])
  {
    hide Split, Join, Render;
    var path, n := Render(comps), |prefix|;
    RenderIsJoin(comps);
    if n == |path| {
      assert path[..n] == path && comps[..|comps|] == comps;
    } else {
      assert path == prefix + "/" + path[n + 1..];
      SplitAppend(prefix, path[n + 1..]);
      var front := Split(prefix);
      JoinSplit(prefix);
      assert front == ([""] + comps)[..|front|];
      var k := |front| - 1;
      assert front == [""] + comps[..k];
      if k == 0 {
        JoinOne("");
      } else {
        RenderIsJoin(comps[..k]);
      }
    }
  }

  lemma JoinOne(part: string)
    ensures Join([part]) == part
  {
  }

  /** The part of a canonical path below the mount that matched it. */
  lemma SuffixIsRendered(prefix: string, comps: seq<string>) returns (k: nat)
    requires AllGood(comps) && Matches(prefix, Render(comps))
    ensures k <= |comps| && (k == 0 ==> comps == []) && prefix == Render(comps[..k])
    ensures Render(comps)[|prefix|..] == Tail(comps[k..])
  {
    MatchesIff(prefix, comps);
    if comps == [] {
      k := 0;
    } else {
      k :| 1 <= k <= |comps| && prefix == Render(comps[..k]);
      RenderPrefix(comps, k);
    }
  }
}
