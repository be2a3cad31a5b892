/** What the resolver promises: its results are real paths inside the sysroot, resolving is
    stable, and rewritten links lead where the original ones did. */
module SysrootTheorems {
  import opened Common
  import opened PathText
  import opened Sysroot

  // ----- plain paths and their texts

  lemma {:induction false} DropDotsKeeps(items: seq<string>)
    requires "." !in items
    ensures DropDots(items) == items
  {
    if items != [] {
      DropDotsKeeps(items[1..]);
    }
  }

  lemma {:induction false} DropDotsConcat(a: seq<string>, b: seq<string>)
    ensures DropDots(a + b) == DropDots(a) + DropDots(b)
    decreases |a|
  {
    if a == [] {
      assert a + b == b;
    } else {
      assert (a + b)[1..] == a[1..] + b;
      DropDotsConcat(a[1..], b);
    }
  }

  lemma {:induction false} DropDotsItems(items: seq<string>)
    ensures forall x :: x in DropDots(items) <==> x in items && x != "."
  {
    if items != [] {
      DropDotsItems(items[1..]);
    }
  }

  lemma SegmentsAreItems(path: string)
    ensures forall i :: 0 <= i < |Segments(path)| ==> IsItem(Segments(path)[i]) && Segments(path)[i] != "."
  {
    DropDotsItems(Split(path));
    forall i | 0 <= i < |Segments(path)| ensures IsItem(Segments(path)[i]) && Segments(path)[i] != "." {
      assert Segments(path)[i] in DropDots(Split(path));
    }
  }

  /** A text made of items, "." excepted, has just these segments. */
  lemma TextOfItems(path: Path)
    requires forall i :: 0 <= i < |path| ==> IsItem(path[i]) && path[i] != "."
    ensures Segments(Text(path)) == path && Parts(Text(path)) == path && !IsRooted(Text(path))
    ensures Text(path) == "." <==> path == []
  {
    if path == [] {
      SplitItem(".");
      assert DropDots(["."]) == [];
    } else {
      SplitJoin(path);
      DropDotsKeeps(path);
      JoinIsEmpty(path);
      assert Join(path) == "." ==> path == ["."] by {
        SplitItem(".");
      }
    }
  }

  lemma TextOfPlain(path: Path)
    requires Plain(path)
    ensures Segments(Text(path)) == path && Parts(Text(path)) == path && !IsRooted(Text(path))
    ensures Text(path) == "." <==> path == []
  {
    TextOfItems(path);
  }

  lemma {:induction false} NormalizeNames(names: Path, stack: Path)
    requires Plain(names)
    ensures NormalizeParts(names, stack) == Ok(stack + names)
    decreases |names|
  {
    if names == [] {
      assert stack + names == stack;
    } else {
      NormalizeNames(names[1..], stack + [names[0]]);
      assert stack + [names[0]] + names[1..] == stack + names;
    }
  }

  lemma {:induction false} NormalizeConcat(a: seq<string>, b: seq<string>, stack: Path)
    ensures NormalizeParts(a + b, stack) == match NormalizeParts(a, stack)
      case Err(e) => Err(e)
      case Ok(s) => NormalizeParts(b, s)
    decreases |a|
  {
    if a == [] {
      assert a + b == b;
    } else {
      assert (a + b)[0] == a[0] && (a + b)[1..] == a[1..] + b;
      var next := if a[0] == ".." then (if stack == [] then [] else stack[..|stack| - 1])
                  else if a[0] == "" || a[0] == "." || a[0] == "/" then stack else stack + [a[0]];
      NormalizeConcat(a[1..], b, next);
    }
  }

  lemma {:induction false} NormalizeStaysPlain(parts: seq<string>, stack: Path)
    requires Plain(stack) && forall i :: 0 <= i < |parts| ==> IsItem(parts[i]) && parts[i] != "."
    ensures NormalizeParts(parts, stack).Ok? ==> Plain(NormalizeParts(parts, stack).value)
    decreases |parts|
  {
    if parts != [] {
      if parts[0] == ".." {
        if stack != [] {
          NormalizeStaysPlain(parts[1..], stack[..|stack| - 1]);
        }
      } else {
        NormalizeStaysPlain(parts[1..], stack + [parts[0]]);
      }
    }
  }

  /** Normalising looks at the segments only, unless the path starts with a double slash. */
  lemma NormalizeIsPlain(path: string)
    requires !DoubleSlash(path)
    ensures Normalize(path) == NormalizeParts(Segments(path), [])
    ensures Normalize(path).Ok? ==> Plain(Normalize(path).value)
  {
    NormalizeConcat(Root(path), Segments(path), []);
    SegmentsAreItems(path);
    NormalizeStaysPlain(Segments(path), []);
  }

  // ----- results

  /** Every prefix of the path exists and is not a link. */
  ghost predicate Physical(tree: Tree, path: Path) {
    forall k :: 0 < k <= |path| ==>
      Join(path[..k]) in tree && (tree[Join(path[..k])].Directory? || tree[Join(path[..k])].File?)
  }

  lemma PhysicalPrefix(tree: Tree, path: Path, k: nat)
    requires Physical(tree, path) && k <= |path|
    ensures Physical(tree, path[..k])
  {
    forall j | 0 < j <= k ensures path[..k][..j] == path[..j] {
    }
  }

  lemma PhysicalAppend(tree: Tree, path: Path, name: string)
    requires Physical(tree, path) && Join(path + [name]) in tree
    requires tree[Join(path + [name])].Directory? || tree[Join(path + [name])].File?
    ensures Physical(tree, path + [name])
  {
    forall k | 0 < k <= |path| + 1
      ensures (path + [name])[..k] == if k <= |path| then path[..k] else path + [name] {
    }
  }

  /** One step of a walk that moves: up, down, or not at all. */
  lemma StepStaysPhysical(tree: Tree, base: Path, part: string)
    requires Physical(tree, base) && StepAt(tree, base, part).Go?
    ensures Physical(tree, StepAt(tree, base, part).to)
  {
    if part == ".." {
      PhysicalPrefix(tree, base, |base| - 1);
    } else if part != "" && part != "." {
      PhysicalAppend(tree, base, part);
    }
  }

  lemma {:induction false} WalkStaysPhysical(tree: Tree, base: Path, parts: seq<string>, budget: nat)
    requires Physical(tree, base)
    ensures var o := Walk(tree, base, parts, budget); o.result.Ok? ==> Physical(tree, o.result.value)
    decreases budget, |parts|
  {
    if parts != [] {
      match StepAt(tree, base, parts[0])
      case Halt(_) =>
      case Go(to) =>
        StepStaysPhysical(tree, base, parts[0]);
        WalkStaysPhysical(tree, to, parts[1..], budget);
      case Follow(from, target) =>
        if budget > 0 {
          WalkStaysPhysical(tree, from, target, budget - 1);
          var o := Walk(tree, from, target, budget - 1);
          if o.result.Ok? {
            WalkStaysPhysical(tree, o.result.value, parts[1..], o.left);
          }
        }
    }
  }

  function Ups(n: nat): (r: seq<string>)
    ensures |r| == n && forall i :: 0 <= i < n ==> r[i] == ".."
  {
    if n == 0 then [] else [".."] + Ups(n - 1)
  }

  lemma {:induction false} WalkUps(tree: Tree, base: Path, n: nat, budget: nat)
    requires n <= |base|
    ensures Walk(tree, base, Ups(n), budget) == Outcome(Ok(base[..|base| - n]), budget)
    decreases n
  {
    if n == 0 {
      assert base[..|base|] == base;
    } else {
      var up := base[..|base| - 1];
      assert Ups(n)[1..] == Ups(n - 1);
      WalkUps(tree, up, n - 1, budget);
      assert up[..|up| - (n - 1)] == base[..|base| - n];
    }
  }

  // ----- the resolver is a walk

  lemma ResolveIsWalk(tree: Tree, rel: string)
    ensures Resolve(tree, rel) ==
      if Normalize(rel).Err? then Normalize(rel)
      else Walk(tree, [], Todo(Normalize(rel).value), MAX_SYMLINK_HOPS).result
  {
    if Normalize(rel).Ok? {
      LoopIsWalk(tree, [], Todo(Normalize(rel).value), MAX_SYMLINK_HOPS);
    }
  }

  /** The resolver agrees with the recursive walk of the normalised path under any link
      budget, however large, as long as that walk ends and follows at most 128 links; and it
      reports too many links when no budget up to 128 lets the walk end. */
  lemma ResolveIsUnboundedWalk(tree: Tree, rel: string, path: Path, budget: nat)
    requires Normalize(rel) == Ok(path)
    ensures Plain(path) ==> Todo(path) == path
    ensures var o := Walk(tree, [], Todo(path), budget);
      var used := budget - o.left;
      && (o.result != Err(TooManyLinks) && used <= 128 ==> Resolve(tree, rel) == o.result)
      && (o.result != Err(TooManyLinks) && used > 128 ==> Resolve(tree, rel) == Err(TooManyLinks))
      && (o.result == Err(TooManyLinks) && budget >= 128 ==> Resolve(tree, rel) == Err(TooManyLinks))
  {
    ResolveIsWalk(tree, rel);
    if Plain(path) {
      TextOfPlain(path);
    }
    BudgetsAgree(tree, Todo(path), budget, MAX_SYMLINK_HOPS);
  }

  lemma BudgetsAgree(tree: Tree, todo: seq<string>, budget: nat, bound: nat)
    ensures var o, r := Walk(tree, [], todo, budget), Walk(tree, [], todo, bound).result;
      && (o.result != Err(TooManyLinks) && budget - o.left <= bound ==> r == o.result)
      && (o.result != Err(TooManyLinks) && budget - o.left > bound ==> r == Err(TooManyLinks))
      && (o.result == Err(TooManyLinks) && budget >= bound ==> r == Err(TooManyLinks))
  {
    var o := Walk(tree, [], todo, budget);
    if o.result != Err(TooManyLinks) && budget - o.left <= bound {
      WalkShift(tree, [], todo, budget, bound);
    } else if Walk(tree, [], todo, bound).result != Err(TooManyLinks) && budget >= bound {
      WalkShift(tree, [], todo, bound, budget);
    }
  }

  /** A resolved path is real: every prefix of it exists and is no link. */
  lemma ResolvedIsPhysical(tree: Tree, rel: string)
    requires Resolve(tree, rel).Ok?
    ensures Physical(tree, Resolve(tree, rel).value)
  {
    ResolveIsWalk(tree, rel);
    WalkStaysPhysical(tree, [], Todo(Normalize(rel).value), MAX_SYMLINK_HOPS);
  }

  // ----- staying below the root

  /** A target with the POSIX root "//" comes back below the root only when it goes up at
      once. */
  predicate StaysBelow(target: string) {
    DoubleSlash(target) ==> Segments(target) != [] && Segments(target)[0] == ".."
  }

  /** No link in a real directory leads out for good. */
  ghost predicate LinksStay(tree: Tree) {
    forall path: Path {:trigger Join(path)} ::
      path != [] && Physical(tree, path[..|path| - 1]) && Join(path) in tree && tree[Join(path)].Link?
      ==> StaysBelow(tree[Join(path)].target)
  }

  /** What a walk in such a tree can be about to do: items, or the root "//" and up again. */
  ghost predicate Safe(base: Path, parts: seq<string>) {
    || (forall i :: 0 <= i < |parts| ==> IsItem(parts[i]))
    || (base == [] && |parts| > 1 && parts[0] == "//" && parts[1] == ".."
        && forall i :: 2 <= i < |parts| ==> IsItem(parts[i]))
  }

  /** Names below the root, or below a root "/" that was itself walked as a part. */
  ghost predicate Below(path: Path) {
    Plain(path) || (path != [] && path[0] == "/" && Plain(path[1..]))
  }

  lemma TargetIsSafe(tree: Tree, base: Path, part: string)
    requires LinksStay(tree) && Physical(tree, base) && StepAt(tree, base, part).Follow?
    ensures var s := StepAt(tree, base, part);
      && Safe(s.from, s.target) && (s.from == [] || s.from == base)
  {
    var path := base + [part];
    assert path[..|path| - 1] == base;
    var target := tree[Join(path)].target;
    assert StaysBelow(target);
    SegmentsAreItems(target);
  }

  lemma StepStaysBelow(tree: Tree, base: Path, part: string)
    requires Below(base) && IsItem(part) && StepAt(tree, base, part).Go?
    ensures var to := StepAt(tree, base, part).to; Below(to) && (Plain(base) ==> Plain(to))
  {
    var to := StepAt(tree, base, part).to;
    if !Plain(base) && to != base {
      if part == ".." {
        assert to != [] ==> to[1..] == base[1..][..|base| - 2];
      } else {
        assert to[1..] == base[1..] + [part];
      }
    }
  }

  /** Where links stay, walks stay. */
  lemma {:induction false} WalkStaysBelow(tree: Tree, base: Path, parts: seq<string>, budget: nat)
    requires LinksStay(tree) && Physical(tree, base) && Below(base) && Safe(base, parts)
    ensures var o := Walk(tree, base, parts, budget);
      o.result.Ok? ==> Below(o.result.value) && (Plain(base) ==> Plain(o.result.value))
    decreases budget, |parts|
  {
    if parts != [] {
      match StepAt(tree, base, parts[0])
      case Halt(_) =>
      case Go(to) =>
        if parts[0] == "//" {
          UpAtOnce(tree, parts, budget);
          WalkStaysBelow(tree, [], parts[2..], budget);
        } else {
          SafeTail(base, parts);
          SafeStep(tree, base, parts);
          WalkStaysBelow(tree, to, parts[1..], budget);
        }
      case Follow(from, target) =>
        if budget > 0 {
          FollowStaysBelow(tree, base, parts, budget);
        }
    }
  }

  lemma {:induction false} FollowStaysBelow(tree: Tree, base: Path, parts: seq<string>, budget: nat)
    requires LinksStay(tree) && Physical(tree, base) && Below(base) && Safe(base, parts)
    requires parts != [] && budget > 0 && StepAt(tree, base, parts[0]).Follow?
    ensures var o := Walk(tree, base, parts, budget);
      o.result.Ok? ==> Below(o.result.value) && (Plain(base) ==> Plain(o.result.value))
    decreases budget, 0
  {
    var s, rest := StepAt(tree, base, parts[0]), parts[1..];
    var o := Walk(tree, s.from, s.target, budget - 1);
    TargetIsSafe(tree, base, parts[0]);
    WalkFollows(tree, base, parts, budget, s.from, s.target);
    WalkStaysPhysical(tree, s.from, s.target, budget - 1);
    WalkStaysBelow(tree, s.from, s.target, budget - 1);
    if o.result.Ok? {
      SafeTail(base, parts);
      WalkStaysBelow(tree, o.result.value, rest, o.left);
    }
  }

  /** After a link the rest is walked from wherever it led. */
  lemma SafeTail(base: Path, parts: seq<string>)
    requires parts != [] && Safe(base, parts)
    ensures forall i :: 0 <= i < |parts[1..]| ==> IsItem(parts[1..][i])
  {
    assert forall i :: 0 <= i < |parts[1..]| ==> parts[1..][i] == parts[i + 1];
    assert IsItem("..");
  }

  lemma SafeStep(tree: Tree, base: Path, parts: seq<string>)
    requires Physical(tree, base) && Below(base) && Safe(base, parts)
    requires parts != [] && parts[0] != "//" && StepAt(tree, base, parts[0]).Go?
    ensures var to := StepAt(tree, base, parts[0]).to; Physical(tree, to) && Below(to) && (Plain(base) ==> Plain(to))
  {
    StepStaysPhysical(tree, base, parts[0]);
    StepStaysBelow(tree, base, parts[0]);
  }

  lemma UpAtOnce(tree: Tree, parts: seq<string>, budget: nat)
    requires |parts| > 1 && parts[0] == "//" && parts[1] == ".." && StepAt(tree, [], "//").Go?
    ensures Walk(tree, [], parts, budget) == Walk(tree, [], parts[2..], budget)
  {
    assert parts[1..][0] == ".." && parts[1..][1..] == parts[2..];
    assert [] + ["//"] == ["//"] && ["//"][..0] == [];
  }

  /** The result is made of names below the root when the normalised path is. */
  lemma ResolvedStaysBelow(tree: Tree, rel: string)
    requires LinksStay(tree) && Resolve(tree, rel).Ok? && Plain(Normalize(rel).value)
    ensures Plain(Resolve(tree, rel).value)
  {
    var path := Normalize(rel).value;
    TextOfPlain(path);
    ResolveIsWalk(tree, rel);
    WalkStaysBelow(tree, [], path, MAX_SYMLINK_HOPS);
  }

  // ----- normal forms

  lemma {:induction false} NormalizeStaysUnder(parts: seq<string>, stack: Path)
    requires stack != [] && stack[0] == "//" && Plain(stack[1..])
    requires forall i :: 0 <= i < |parts| ==> IsItem(parts[i]) && parts[i] != "."
    ensures var r := NormalizeParts(parts, stack);
      r.Ok? ==> Plain(r.value) || (r.value != [] && r.value[0] == "//" && Plain(r.value[1..]))
    decreases |parts|
  {
    if parts != [] {
      if parts[0] == ".." {
        var up := stack[..|stack| - 1];
        if up == [] {
          NormalizeStaysPlain(parts[1..], []);
        } else {
          assert up[1..] == stack[1..][..|up| - 1];
          NormalizeStaysUnder(parts[1..], up);
        }
      } else {
        assert (stack + [parts[0]])[1..] == stack[1..] + [parts[0]];
        NormalizeStaysUnder(parts[1..], stack + [parts[0]]);
      }
    }
  }

  /** Normalising starts from nothing, or from the POSIX root "//". */
  lemma NormalizeSegments(path: string)
    ensures Normalize(path) == NormalizeParts(Segments(path), if DoubleSlash(path) then ["//"] else [])
  {
    NormalizeConcat(Root(path), Segments(path), []);
    if DoubleSlash(path) {
      assert ["//"][1..] == [] && [] + ["//"] == ["//"];
    }
  }

  /** A normalised path is plain, or plain below "//", and that only for a double slash. */
  lemma NormalForms(path: string)
    requires Normalize(path).Ok?
    ensures var n := Normalize(path).value;
      Plain(n) || (DoubleSlash(path) && n != [] && n[0] == "//" && Plain(n[1..]))
  {
    NormalizeSegments(path);
    SegmentsAreItems(path);
    if DoubleSlash(path) {
      NormalizeStaysUnder(Segments(path), ["//"]);
    } else {
      NormalizeStaysPlain(Segments(path), []);
    }
  }

  lemma SlashText()
    ensures Split("/") == [] && Split("//") == [] && Segments("/") == [] && Segments("//") == []
  {
    ItemEndAt("//", 0, 0);
    ItemEndAt("/", 0, 0);
    assert "//"[1..] == "/" && "/"[1..] == "";
  }

  lemma SegmentsSlash(p: string, q: string)
    ensures Segments(p + "/" + q) == Segments(p) + Segments(q)
  {
    SplitSlash(p, q);
    DropDotsConcat(Split(p), Split(q));
  }

  lemma JoinBelow(root: string, names: Path)
    requires names != [] && Plain(names)
    ensures Join([root] + names) == root + "/" + Join(names)
    ensures Split(root) == [] ==> Segments(Join([root] + names)) == names
  {
    assert ([root] + names)[1..] == names;
    TextOfPlain(names);
    SegmentsSlash(root, Join(names));
    assert [] + names == names;
  }

  /** The text of names below "/" starts with exactly two slashes, that of names below "//"
      with three: so the one root turns into the other. */
  lemma RootedTexts(names: Path)
    requires names != [] && Plain(names)
    ensures DoubleSlash(Join(["/"] + names)) && |Join(["/"] + names)| > 2 && Segments(Join(["/"] + names)) == names
    ensures Root(Join(["//"] + names)) == ["/"] && Segments(Join(["//"] + names)) == names
  {
    SlashText();
    JoinBelow("/", names);
    JoinBelow("//", names);
    JoinIsEmpty(names);
    SlashesInFront(Join(names));
  }

  lemma SlashesInFront(t: string)
    requires t != "" && t[0] != '/'
    ensures DoubleSlash("/" + "/" + t) && Root("//" + "/" + t) == ["/"]
  {
    var x, y := "/" + "/" + t, "//" + "/" + t;
    assert x[0] == '/' && x[1] == '/' && x[2] == t[0];
    assert y[0] == '/' && y[1] == '/' && y[2] == '/';
  }

  lemma TodoDouble()
    ensures Todo(["//"]) == ["//"]
  {
    SlashText();
    assert Join(["//"]) == "//" && ["//"] + [] == ["//"];
  }

  lemma TodoRooted(names: Path)
    requires Plain(names) && names != []
    ensures Todo(["//"] + names) == ["/"] + names
  {
    RootedTexts(names);
  }

  /** The work list of each normal form. */
  lemma TodoIs(path: Path)
    ensures Plain(path) ==> Todo(path) == path
    ensures path == ["//"] ==> Todo(path) == ["//"]
    ensures |path| > 1 && path[0] == "//" && Plain(path[1..]) ==> Todo(path) == ["/"] + path[1..]
  {
    if Plain(path) {
      TextOfPlain(path);
    }
    TodoDouble();
    if |path| > 1 && path[0] == "//" && Plain(path[1..]) {
      TodoRooted(path[1..]);
      assert path == ["//"] + path[1..];
    }
  }

  // ----- resolving again

  /** Walking a real path from the root follows no link and arrives at it. */
  lemma {:induction false} WalkPhysical(tree: Tree, path: Path, k: nat, budget: nat)
    requires Physical(tree, path) && k <= |path|
    requires forall i :: 0 <= i < |path| ==> path[i] != "" && path[i] != "." && path[i] != ".."
    ensures Walk(tree, path[..k], path[k..], budget) == Outcome(Ok(path), budget)
    decreases |path| - k
  {
    if k == |path| {
      assert path[..k] == path && path[k..] == [];
    } else {
      assert path[..k] + [path[k]] == path[..k + 1] && path[k..][1..] == path[k + 1..];
      WalkPhysical(tree, path, k + 1, budget);
    }
  }

  lemma WalkPhysicalFromRoot(tree: Tree, path: Path, budget: nat)
    requires Physical(tree, path)
    requires forall i :: 0 <= i < |path| ==> path[i] != "" && path[i] != "." && path[i] != ".."
    ensures Walk(tree, [], path, budget) == Outcome(Ok(path), budget)
  {
    WalkPhysical(tree, path, 0, budget);
    assert path[..0] == [] && path[0..] == path;
  }

  /** A walk through a real directory goes on from there. */
  lemma WalkThrough(tree: Tree, dir: Path, parts: seq<string>, budget: nat)
    requires Physical(tree, dir) && Below(dir)
    ensures Walk(tree, [], dir + parts, budget) == Walk(tree, dir, parts, budget)
  {
    BelowHasNoDots(dir);
    WalkPhysicalFromRoot(tree, dir, budget);
    WalkConcat(tree, [], dir, parts, budget);
  }

  lemma BelowHasNoDots(path: Path)
    requires Below(path)
    ensures forall i :: 0 <= i < |path| ==> path[i] != "" && path[i] != "." && path[i] != ".."
  {
    if !Plain(path) {
      assert forall i :: 1 <= i < |path| ==> path[i] == path[1..][i - 1];
    }
  }

  /** The work list that the text of a path below the root gives when it is resolved, alone
      or with a suffix without "..". */
  lemma TodoOfText(path: Path)
    requires Below(path) && path != ["/"]
    ensures Normalize(Text(path)).Ok? && Todo(Normalize(Text(path)).value) == path
  {
    NormalizeSegments(Text(path));
    if Plain(path) {
      TextOfPlain(path);
      NormalizeNames(path, []);
      assert [] + path == path;
      TodoIs(path);
    } else {
      var names := path[1..];
      assert path == ["/"] + names;
      RootedTexts(names);
      NormalizeNames(names, ["//"]);
      TodoIs(["//"] + names);
      assert (["//"] + names)[1..] == names;
    }
  }

  /** A real path below the root resolves to itself. */
  lemma RealPathIsFixed(tree: Tree, path: Path)
    requires Physical(tree, path) && Below(path) && path != ["/"]
    ensures Resolve(tree, Text(path)) == Ok(path)
  {
    TodoOfText(path);
    ResolveIsWalk(tree, Text(path));
    BelowHasNoDots(path);
    WalkPhysicalFromRoot(tree, path, MAX_SYMLINK_HOPS);
  }

  lemma SlashResolvesToRoot(tree: Tree)
    ensures Resolve(tree, Text(["/"])) == Ok([])
  {
    SlashText();
    NormalizeSegments("/");
    assert Join(["/"]) == "/";
  }

  lemma DoubleRootIsFixed(tree: Tree)
    requires Physical(tree, ["//"])
    ensures Resolve(tree, Text(["//"])) == Ok(["//"])
  {
    DoubleRootTodo();
    ResolveIsWalk(tree, "//");
    WalkPhysicalFromRoot(tree, ["//"], MAX_SYMLINK_HOPS);
  }

  lemma DoubleRootTodo()
    ensures Normalize("//") == Ok(["//"]) && Todo(["//"]) == ["//"] && Text(["//"]) == "//"
  {
    SlashText();
    NormalizeSegments("//");
    TodoDouble();
  }

  /** The double root alone resolves to itself, or through a link to names below the root. */
  lemma DoubleRootResolves(tree: Tree, rel: string)
    requires LinksStay(tree) && Normalize(rel) == Ok(["//"]) && Resolve(tree, rel).Ok?
    ensures Resolve(tree, rel).value == ["//"] || Plain(Resolve(tree, rel).value)
  {
    TodoDouble();
    ResolveIsWalk(tree, rel);
    WalkDoubleRoot(tree, MAX_SYMLINK_HOPS);
  }

  lemma WalkDoubleRoot(tree: Tree, budget: nat)
    requires LinksStay(tree)
    ensures var r := Walk(tree, [], ["//"], budget).result; r.Ok? ==> r.value == ["//"] || Plain(r.value)
  {
    var s := StepAt(tree, [], "//");
    if s.Follow? && budget > 0 {
      TargetIsSafe(tree, [], "//");
      WalkStaysBelow(tree, s.from, s.target, budget - 1);
      WalkOneFollows(tree, [], "//", budget, s.from, s.target);
    } else {
      assert ["//"][1..] == [] && [] + ["//"] == ["//"];
    }
  }

  /** All results where links stay: names below the root, below a walked "/", or "//". */
  lemma ResultForms(tree: Tree, rel: string)
    requires LinksStay(tree) && Resolve(tree, rel).Ok?
    ensures Below(Resolve(tree, rel).value) || Resolve(tree, rel).value == ["//"]
  {
    var n := Normalize(rel).value;
    NormalForms(rel);
    if n == ["//"] {
      DoubleRootResolves(tree, rel);
    } else if Plain(n) {
      ResolvedStaysBelow(tree, rel);
    } else {
      UnderDoubleRoot(tree, rel);
    }
  }

  /** Names below a double root are walked from "/". */
  lemma UnderDoubleRoot(tree: Tree, rel: string)
    requires LinksStay(tree) && Resolve(tree, rel).Ok?
    requires var n := Normalize(rel).value; |n| > 1 && n[0] == "//" && Plain(n[1..])
    ensures Below(Resolve(tree, rel).value)
  {
    var n := Normalize(rel).value;
    var todo := ["/"] + n[1..];
    TodoIs(n);
    ResolveIsWalk(tree, rel);
    assert todo[1..] == n[1..] && [] + ["/"] == ["/"];
    var s := StepAt(tree, [], "/");
    if s.Go? {
      StepStaysPhysical(tree, [], "/");
      WalkStaysBelow(tree, ["/"], n[1..], MAX_SYMLINK_HOPS);
    } else if s.Follow? {
      TargetIsSafe(tree, [], "/");
      WalkFollows(tree, [], todo, MAX_SYMLINK_HOPS, s.from, s.target);
      WalkStaysBelow(tree, [], s.target, MAX_SYMLINK_HOPS - 1);
      WalkStaysPhysical(tree, [], s.target, MAX_SYMLINK_HOPS - 1);
      var o := Walk(tree, [], s.target, MAX_SYMLINK_HOPS - 1);
      WalkStaysBelow(tree, o.result.value, n[1..], o.left);
    }
  }

  /** Resolving a result returns it, with one exception: a lone "/" resolves to the root. */
  lemma ResultIsStableIff(tree: Tree, rel: string)
    requires LinksStay(tree) && Resolve(tree, rel).Ok?
    ensures Resolve(tree, Text(Resolve(tree, rel).value)) == Resolve(tree, rel) <==> Resolve(tree, rel).value != ["/"]
  {
    var path := Resolve(tree, rel).value;
    ResolvedIsPhysical(tree, rel);
    ResultForms(tree, rel);
    if path == ["/"] {
      SlashResolvesToRoot(tree);
    } else if path == ["//"] {
      DoubleRootIsFixed(tree);
    } else {
      RealPathIsFixed(tree, path);
    }
  }

  // ----- resolving with a suffix

  /** A suffix without ".." is not touched by normalising the whole. */
  lemma NormalizeSlash(p: string, q: string)
    requires (DoubleSlash(p) <==> DoubleSlash(p + "/" + q)) && ".." !in Segments(q)
    ensures Plain(Segments(q))
    ensures Normalize(p + "/" + q) ==
      if Normalize(p).Err? then Normalize(p) else Ok(Normalize(p).value + Segments(q))
  {
    NormalizeSegments(p);
    NormalizeSegments(p + "/" + q);
    SegmentsSlash(p, q);
    NormalizeConcat(Segments(p), Segments(q), if DoubleSlash(p) then ["//"] else []);
    SegmentsAreItems(q);
    if Normalize(p).Ok? {
      NormalizeNames(Segments(q), Normalize(p).value);
    }
  }

  /** A suffix that adds names: relative, and not only dots. */
  predicate Adds(q: string) {
    Segments(q) != [] && q != "" && q[0] != '/'
  }

  lemma TodoOfTextSlash(path: Path, q: string)
    requires Below(path) && ".." !in Segments(q) && (path == ["/"] ==> Adds(q))
    ensures var rel := Text(path) + "/" + q;
      Normalize(rel).Ok? && Todo(Normalize(rel).value) == path + Segments(q)
  {
    if Plain(path) {
      PlainSlash(path, q);
    } else {
      RootedSlash(path[1..], q);
      assert path == ["/"] + path[1..];
      ConcatAssociative(["/"], path[1..], Segments(q));
    }
  }

  lemma PlainSlash(path: Path, q: string)
    requires Plain(path) && ".." !in Segments(q)
    ensures var rel := Text(path) + "/" + q;
      var all := path + Segments(q);
      Normalize(rel) == Ok(all) && Plain(all) && Todo(all) == all
  {
    var t, all := Text(path), path + Segments(q);
    var rel := t + "/" + q;
    TextOfPlain(path);
    JoinIsEmpty(path);
    assert rel[0] == t[0];
    SegmentsAreItems(q);
    SegmentsSlash(t, q);
    NormalizeSegments(rel);
    NormalizeNames(all, []);
    assert [] + all == all;
    TodoIs(all);
  }

  lemma SamePrefix(t: string, q: string)
    requires DoubleSlash(t) && |t| > 2
    ensures DoubleSlash(t + "/" + q)
  {
    var rel := t + "/" + q;
    assert rel[0] == t[0] && rel[1] == t[1] && rel[2] == t[2];
  }

  lemma SlashAndName(q: string)
    requires q != "" && q[0] != '/'
    ensures DoubleSlash("/" + "/" + q)
  {
    SlashesInFront(q);
  }

  lemma RootedSlashText(names: Path, q: string)
    requires Plain(names) && (names == [] ==> q != "" && q[0] != '/')
    ensures var rel := Text(["/"] + names) + "/" + q; DoubleSlash(rel) && Segments(rel) == names + Segments(q)
  {
    var t := Join(["/"] + names);
    SegmentsSlash(t, q);
    if names == [] {
      assert ["/"] + names == ["/"] && Join(["/"]) == "/";
      SlashText();
      SlashAndName(q);
    } else {
      RootedTexts(names);
      SamePrefix(t, q);
    }
  }

  lemma RootedSlash(names: Path, q: string)
    requires Plain(names) && ".." !in Segments(q) && (names == [] ==> Adds(q))
    ensures var rel := Text(["/"] + names) + "/" + q;
      Normalize(rel).Ok? && Todo(Normalize(rel).value) == ["/"] + (names + Segments(q))
  {
    var rel, all := Text(["/"] + names) + "/" + q, names + Segments(q);
    SegmentsAreItems(q);
    RootedSlashText(names, q);
    NormalizeSegments(rel);
    NormalizeNames(all, ["//"]);
    TodoRooted(all);
  }

  /** Both ways of writing the whole path have the same roots. */
  predicate SameRoot(p: string, q: string) {
    DoubleSlash(p) <==> DoubleSlash(p + "/" + q)
  }

  /** If p/q resolves to r, p resolves too, and r is also what its result followed by q
      resolves to, for a suffix q without "..". With a double slash the suffix has to add
      names, and p must not be the double root alone. */
  lemma ResolvingIsCongruent(tree: Tree, p: string, q: string)
    requires LinksStay(tree) && ".." !in Segments(q) && SameRoot(p, q)
    requires Normalize(p) != Ok(["//"]) && (Normalize(p).Ok? && !Plain(Normalize(p).value) ==> Adds(q))
    requires Resolve(tree, p + "/" + q).Ok?
    ensures Resolve(tree, p).Ok?
    ensures Resolve(tree, Text(Resolve(tree, p).value) + "/" + q) == Resolve(tree, p + "/" + q)
  {
    var left := ResolveInTwo(tree, p, q);
    ResolvedIsPhysical(tree, p);
    ResultBelow(tree, p);
    CongruentTail(tree, Resolve(tree, p).value, q, left);
  }

  lemma SlashIsNotPlain()
    ensures !Plain(["/"])
  {
    var path := ["/"];
    assert path[0] == "/" && '/' in path[0];
  }

  lemma ResultBelow(tree: Tree, rel: string)
    requires LinksStay(tree) && Resolve(tree, rel).Ok? && Normalize(rel) != Ok(["//"])
    ensures Below(Resolve(tree, rel).value)
    ensures Plain(Normalize(rel).value) ==> Resolve(tree, rel).value != ["/"]
  {
    var n := Normalize(rel).value;
    NormalForms(rel);
    if Plain(n) {
      ResolvedStaysBelow(tree, rel);
      SlashIsNotPlain();
    } else {
      assert n != ["//"];
      UnderDoubleRoot(tree, rel);
    }
  }

  /** Resolving p/q is resolving p and walking on, with what is left of the link budget. */
  lemma ResolveInTwo(tree: Tree, p: string, q: string) returns (left: nat)
    requires ".." !in Segments(q) && SameRoot(p, q) && Normalize(p) != Ok(["//"]) && Resolve(tree, p + "/" + q).Ok?
    ensures Normalize(p).Ok? && Resolve(tree, p).Ok? && left <= MAX_SYMLINK_HOPS
    ensures Resolve(tree, p + "/" + q) == Walk(tree, Resolve(tree, p).value, Segments(q), left).result
  {
    NormalizeSlash(p, q);
    var norm, suffix := Normalize(p).value, Segments(q);
    NormalForms(p);
    TodoAppends(norm, suffix);
    ResolveIsWalk(tree, p);
    ResolveIsWalk(tree, p + "/" + q);
    WalkConcat(tree, [], Todo(norm), suffix, MAX_SYMLINK_HOPS);
    left := Walk(tree, [], Todo(norm), MAX_SYMLINK_HOPS).left;
  }

  lemma TodoAppends(norm: Path, suffix: Path)
    requires Plain(suffix) && norm != ["//"]
    requires Plain(norm) || (norm != [] && norm[0] == "//" && Plain(norm[1..]))
    ensures Todo(norm + suffix) == Todo(norm) + suffix
  {
    if Plain(norm) {
      TodoIs(norm);
      TodoIs(norm + suffix);
    } else {
      assert norm == ["//"] + norm[1..];
      TodoRooted(norm[1..]);
      TodoRooted(norm[1..] + suffix);
      ConcatAssociative(["//"], norm[1..], suffix);
      ConcatAssociative(["/"], norm[1..], suffix);
    }
  }

  lemma CongruentTail(tree: Tree, path: Path, q: string, left: nat)
    requires Physical(tree, path) && Below(path) && ".." !in Segments(q) && left <= MAX_SYMLINK_HOPS
    requires path == ["/"] ==> Adds(q)
    requires Walk(tree, path, Segments(q), left).result.Ok?
    ensures Resolve(tree, Text(path) + "/" + q) == Walk(tree, path, Segments(q), left).result
  {
    TodoOfTextSlash(path, q);
    ResolveIsWalk(tree, Text(path) + "/" + q);
    WalkThrough(tree, path, Segments(q), MAX_SYMLINK_HOPS);
    WalkShift(tree, path, Segments(q), left, MAX_SYMLINK_HOPS);
  }
}
