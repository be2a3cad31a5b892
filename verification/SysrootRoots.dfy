/** Exactly which paths and links the resolver keeps below the root, and which results and
    prefixes it resolves again consistently. A tree that makes a property fail is built for
    every other input. */
module SysrootRoots {
  import opened Common
  import opened PathText
  import opened Sysroot
  import opened SysrootTheorems

  // ----- trees without links

  ghost function Texts(path: Path): set<string> {
    set k {:trigger path[..k]} | 0 < k <= |path| :: Join(path[..k])
  }

  /** The path and everything above it, as directories. */
  ghost function Directories(path: Path): Tree {
    map t | t in Texts(path) :: Directory
  }

  lemma DirectoriesAreReal(path: Path)
    ensures Physical(Directories(path), path)
    ensures forall t :: t in Directories(path) ==> Directories(path)[t] == Directory
  {
    forall k | 0 < k <= |path| ensures Join(path[..k]) in Directories(path) {
      assert Join(path[..k]) in Texts(path);
    }
  }

  /** Two paths and everything above them. */
  lemma BothAreReal(a: Path, b: Path)
    ensures Physical(Directories(a) + Directories(b), a) && Physical(Directories(a) + Directories(b), b)
    ensures forall t :: t in Directories(a) + Directories(b) ==> (Directories(a) + Directories(b))[t] == Directory
  {
    DirectoriesAreReal(a);
    DirectoriesAreReal(b);
    MoreIsReal(Directories(a), Directories(a) + Directories(b), a);
    MoreIsReal(Directories(b), Directories(a) + Directories(b), b);
  }

  lemma MoreIsReal(tree: Tree, more: Tree, path: Path)
    requires Physical(tree, path) && forall t :: t in tree ==> t in more && more[t] == tree[t]
    ensures Physical(more, path)
  {
  }

  /** A real path is where the resolver arrives when it has that path as its work list. */
  lemma RealTodo(tree: Tree, rel: string, path: Path)
    requires Normalize(rel).Ok? && Todo(Normalize(rel).value) == path && Physical(tree, path)
    requires forall i :: 0 <= i < |path| ==> path[i] != "" && path[i] != "." && path[i] != ".."
    ensures Resolve(tree, rel) == Ok(path)
  {
    ResolveIsWalk(tree, rel);
    WalkPhysicalFromRoot(tree, path, MAX_SYMLINK_HOPS);
  }

  // ----- staying below the root

  /** A path that is not plain after normalising resolves to itself in a tree of directories. */
  lemma LeavesInDirectories(rel: string)
    requires Normalize(rel).Ok? && !Plain(Normalize(rel).value)
    ensures var todo := Todo(Normalize(rel).value);
      && LinksStay(Directories(todo)) && Resolve(Directories(todo), rel) == Ok(todo) && !Plain(todo)
      && (Normalize(rel).value != ["//"] ==> Below(todo))
  {
    var n := Normalize(rel).value;
    var todo := Todo(n);
    NormalForms(rel);
    TodoIs(n);
    assert n == ["//"] + n[1..];
    DirectoriesAreReal(todo);
    if n != ["//"] {
      assert todo[1..] == n[1..];
      BelowHasNoDots(todo);
    }
    RealTodo(Directories(todo), rel, todo);
  }

  /** In every tree where links stay the result is below the root: exactly when the
      normalised path is. */
  lemma PathStaysIff(rel: string)
    requires Normalize(rel).Ok?
    ensures (forall tree: Tree :: LinksStay(tree) && Resolve(tree, rel).Ok? ==> Plain(Resolve(tree, rel).value))
      <==> Plain(Normalize(rel).value)
  {
    if Plain(Normalize(rel).value) {
      forall tree: Tree | LinksStay(tree) && Resolve(tree, rel).Ok? ensures Plain(Resolve(tree, rel).value) {
        ResolvedStaysBelow(tree, rel);
      }
    } else {
      LeavesInDirectories(rel);
    }
  }

  // ----- link targets

  /** What walking the parts by name alone would enter. */
  ghost function Entered(base: Path, parts: seq<string>): set<string>
    decreases |parts|
  {
    if parts == [] then {}
    else if parts[0] == ".." then (if base == [] then {} else Entered(base[..|base| - 1], parts[1..]))
    else {Join(base + [parts[0]])} + Entered(base + [parts[0]], parts[1..])
  }

  /** Among directories a walk is just normalising. */
  lemma {:induction false} WalkInDirectories(tree: Tree, base: Path, parts: seq<string>, budget: nat)
    requires NormalizeParts(parts, base).Ok?
    requires forall i :: 0 <= i < |parts| ==> parts[i] != "" && parts[i] != "." && parts[i] != "/"
    requires forall t :: t in Entered(base, parts) ==> t in tree && tree[t] == Directory
    ensures Walk(tree, base, parts, budget) == Outcome(NormalizeParts(parts, base), budget)
    decreases |parts|
  {
    if parts != [] {
      if parts[0] == ".." {
        WalkInDirectories(tree, base[..|base| - 1], parts[1..], budget);
      } else {
        assert Join(base + [parts[0]]) in Entered(base, parts);
        WalkInDirectories(tree, base + [parts[0]], parts[1..], budget);
      }
    }
  }

  lemma DoubleRootedDiffer(a: Path, b: Path)
    requires Plain(a) && Plain(b) && a != b && b != []
    ensures Join(["//"] + a) != Join(["//"] + b)
  {
    RootedTexts(b);
    if a == [] {
      assert ["//"] + a == ["//"] && Join(["//"]) == "//";
    } else {
      RootedTexts(a);
    }
  }

  /** From deep enough below "//" and one of its names, parts never come back up to them. */
  lemma {:induction false} DeepStays(stack: Path, parts: seq<string>, other: string)
    requires |stack| > |parts| + 1 && stack[0] == "//" && Plain(stack[1..]) && IsName(other) && stack[1] != other
    requires forall i :: 0 <= i < |parts| ==> IsItem(parts[i]) && parts[i] != "."
    ensures var r := NormalizeParts(parts, stack); r.Ok? && r.value != [] && r.value[0] == "//"
    ensures Join(["//"] + [other]) !in Entered(stack, parts)
    decreases |parts|
  {
    if parts != [] {
      if parts[0] == ".." {
        var up := stack[..|stack| - 1];
        assert up[1..] == stack[1..][..|up| - 1];
        DeepStays(up, parts[1..], other);
      } else {
        var down := stack + [parts[0]];
        assert down[1..] == stack[1..] + [parts[0]] && down == ["//"] + down[1..];
        DoubleRootedDiffer(down[1..], [other]);
        DeepStays(down, parts[1..], other);
      }
    }
  }

  ghost function Repeat(name: string, n: nat): (r: Path)
    ensures |r| == n && forall i :: 0 <= i < n ==> r[i] == name
  {
    seq(n, _ => name)
  }

  lemma TwiceIsName(a: string)
    requires IsName(a)
    ensures IsName(a + a) && a + a != a
  {
    assert |a| == 1 ==> a == [a[0]] && (a + a)[0] == a[0];
  }

  /** A tree in which a target "//a" with further items leads below "//": the name `a` there
      is a link into deep directories. */
  ghost function DeepTree(a: string, deep: Path, rest: seq<string>): Tree {
    (map t | t in Texts(["//"] + deep) + Entered(["//"] + deep, rest) :: Directory)
      [Join(["//"] + [a]) := Link(Text(deep))]
  }

  lemma DeepTreeFits(a: string, deep: Path, rest: seq<string>)
    requires IsName(a) && |deep| > |rest| && Plain(deep) && deep[0] != a
    requires forall i :: 0 <= i < |rest| ==> IsItem(rest[i]) && rest[i] != "."
    ensures var tree := DeepTree(a, deep, rest);
      && LinksStay(tree) && Physical(tree, ["//"] + deep)
      && (forall t :: t in Entered(["//"] + deep, rest) ==> t in tree && tree[t] == Directory)
  {
    var tree, stack, key := DeepTree(a, deep, rest), ["//"] + deep, Join(["//"] + [a]);
    assert stack[1..] == deep;
    DeepStays(stack, rest, a);
    TextOfPlain(deep);
    forall k | 0 < k <= |stack| ensures Join(stack[..k]) in tree && tree[Join(stack[..k])] == Directory {
      assert Join(stack[..k]) in Texts(stack);
      assert stack[..k] == ["//"] + deep[..k - 1];
      DoubleRootedDiffer(deep[..k - 1], [a]);
    }
  }

  lemma DeepTreeLink(a: string, deep: Path, rest: seq<string>)
    requires IsName(a) && |deep| > |rest| && Plain(deep) && deep[0] != a
    requires forall i :: 0 <= i < |rest| ==> IsItem(rest[i]) && rest[i] != "."
    ensures Walk(DeepTree(a, deep, rest), ["//"], [a], 1) == Outcome(Ok(["//"] + deep), 0)
  {
    var tree, stack := DeepTree(a, deep, rest), ["//"] + deep;
    DeepTreeFits(a, deep, rest);
    TextOfPlain(deep);
    WalkOneFollows(tree, ["//"], a, 1, ["//"], deep);
    assert stack[..1] == ["//"] && stack[1..] == deep;
    WalkPhysical(tree, stack, 1, 0);
  }

  lemma DeepTreeLeaves(a: string, deep: Path, rest: seq<string>)
    requires IsName(a) && |deep| > |rest| && Plain(deep) && deep[0] != a
    requires forall i :: 0 <= i < |rest| ==> IsItem(rest[i]) && rest[i] != "."
    ensures var r := Walk(DeepTree(a, deep, rest), [], ["//"] + ([a] + rest), 1).result; r.Ok? && !Plain(r.value)
  {
    var tree, stack := DeepTree(a, deep, rest), ["//"] + deep;
    DeepTreeFits(a, deep, rest);
    assert stack[1..] == deep && stack[..1] == ["//"];
    DeepStays(stack, rest, a);
    PhysicalPrefix(tree, stack, 1);
    WalkPhysicalFromRoot(tree, ["//"], 1);
    WalkConcat(tree, [], ["//"], [a] + rest, 1);
    DeepTreeLink(a, deep, rest);
    WalkConcat(tree, ["//"], [a], rest, 1);
    WalkInDirectories(tree, stack, rest, 0);
  }

  /** A target that does not stay leads out of some tree whose own links all stay. */
  lemma TargetLeaves(target: string) returns (tree: Tree)
    requires !StaysBelow(target)
    ensures LinksStay(tree)
    ensures var r := Walk(tree, [], TargetParts(target), 1).result; r.Ok? && !Plain(r.value)
  {
    var items := Segments(target);
    SegmentsAreItems(target);
    if items == [] {
      tree := Directories(["//"]);
      DirectoriesAreReal(["//"]);
      assert ["//"] + [] == ["//"];
      WalkPhysicalFromRoot(tree, ["//"], 1);
    } else {
      var a, rest := items[0], items[1..];
      var deep := Repeat(a + a, |rest| + 1);
      TwiceIsName(a);
      tree := DeepTree(a, deep, rest);
      DeepTreeFits(a, deep, rest);
      DeepTreeLeaves(a, deep, rest);
      assert items == [a] + rest;
    }
  }

  /** A link in `base` with this target leads below the root, or nowhere. */
  ghost predicate TargetStays(tree: Tree, base: Path, target: string, budget: nat) {
    var r := Walk(tree, TargetBase(base, target), TargetParts(target), budget).result;
    r.Ok? ==> Plain(r.value)
  }

  /** Following a link keeps every walk below the root, in every tree where the other links
      stay: exactly when its target does not start with two slashes or goes up at once. */
  lemma TargetStaysIff(target: string)
    ensures (forall tree: Tree, base: Path, budget: nat ::
               LinksStay(tree) && Physical(tree, base) && Plain(base) ==> TargetStays(tree, base, target, budget))
      <==> StaysBelow(target)
  {
    if StaysBelow(target) {
      SegmentsAreItems(target);
      forall tree: Tree, base: Path, budget: nat | LinksStay(tree) && Physical(tree, base) && Plain(base)
        ensures TargetStays(tree, base, target, budget)
      {
        WalkStaysBelow(tree, TargetBase(base, target), TargetParts(target), budget);
      }
    } else {
      var tree := TargetLeaves(target);
      assert !TargetStays(tree, [], target, 1);
    }
  }

  // ----- resolving again

  /** The last name of `path` is a link that goes up to the first part. */
  ghost function UpTree(names: Path): Tree
    requires names != []
  {
    Directories(["/"] + names[..|names| - 1])[Join(["/"] + names) := Link(Text(Ups(|names| - 1)))]
  }

  lemma RootedDiffer(a: Path, b: Path)
    requires Plain(a) && Plain(b) && a != b
    ensures Join(["/"] + a) != Join(["/"] + b)
  {
    if a == [] {
      RootedTexts(b);
      assert Join(["/"] + a) == "/";
    } else if b == [] {
      RootedTexts(a);
      assert Join(["/"] + b) == "/";
    } else {
      RootedTexts(a);
      RootedTexts(b);
    }
  }

  lemma UpTreeFits(names: Path)
    requires Plain(names) && names != []
    ensures LinksStay(UpTree(names)) && Physical(UpTree(names), ["/"] + names[..|names| - 1])
  {
    var front := names[..|names| - 1];
    var dir := ["/"] + front;
    DirectoriesAreReal(dir);
    TextOfItems(Ups(|names| - 1));
    forall k | 0 < k <= |dir|
      ensures Join(dir[..k]) in UpTree(names) && UpTree(names)[Join(dir[..k])] == Directory
    {
      assert Join(dir[..k]) in Texts(dir) && dir[..k] == ["/"] + front[..k - 1];
      RootedDiffer(front[..k - 1], names);
    }
  }

  lemma UpTreeLink(names: Path)
    requires Plain(names) && names != []
    ensures var n := |names| - 1;
      Walk(UpTree(names), ["/"] + names[..n], [names[n]], MAX_SYMLINK_HOPS).result == Ok(["/"])
  {
    var tree, n := UpTree(names), |names| - 1;
    var dir, last := ["/"] + names[..n], names[n];
    assert dir + [last] == ["/"] + names;
    TextOfItems(Ups(n));
    WalkOneFollows(tree, dir, last, MAX_SYMLINK_HOPS, dir, Ups(n));
    WalkUps(tree, dir, n, MAX_SYMLINK_HOPS - 1);
    assert dir[..|dir| - n] == ["/"];
  }

  lemma UpTreeWalk(names: Path)
    requires Plain(names) && names != []
    ensures Walk(UpTree(names), [], ["/"] + names, MAX_SYMLINK_HOPS).result == Ok(["/"])
  {
    var front, last := names[..|names| - 1], names[|names| - 1];
    UpTreeFits(names);
    UpTreeLink(names);
    assert (["/"] + front)[1..] == front && front + [last] == names;
    WalkThrough(UpTree(names), ["/"] + front, [last], MAX_SYMLINK_HOPS);
    ConcatAssociative(["/"], front, [last]);
  }

  /** In every tree where links stay, resolving the result of `rel` gives it again: exactly
      when the normalised path is below the root or the double root alone. */
  lemma StableIff(rel: string)
    requires Normalize(rel).Ok?
    ensures (forall tree: Tree :: LinksStay(tree) && Resolve(tree, rel).Ok? ==>
               Resolve(tree, Text(Resolve(tree, rel).value)) == Resolve(tree, rel))
      <==> Plain(Normalize(rel).value) || Normalize(rel).value == ["//"]
  {
    var n := Normalize(rel).value;
    NormalForms(rel);
    if Plain(n) || n == ["//"] {
      forall tree: Tree | LinksStay(tree) && Resolve(tree, rel).Ok?
        ensures Resolve(tree, Text(Resolve(tree, rel).value)) == Resolve(tree, rel)
      {
        if Plain(n) {
          ResolvedStaysBelow(tree, rel);
        } else {
          DoubleRootResolves(tree, rel);
        }
        SlashIsNotPlain();
        ResultIsStableIff(tree, rel);
      }
    } else {
      var tree := UpTree(n[1..]);
      UpTreeFits(n[1..]);
      UpTreeWalk(n[1..]);
      TodoIs(n);
      ResolveIsWalk(tree, rel);
      ResultIsStableIff(tree, rel);
    }
  }

  ghost function LeavingTree(a: string, b: string): Tree {
    map[a := Link("/" + "/" + b), "//" := Directory, Join(["//"] + [b]) := File]
  }

  lemma LeavingTarget(b: string)
    requires IsName(b)
    ensures DoubleSlash("/" + "/" + b) && Segments("/" + "/" + b) == [b]
  {
    SlashText();
    SegmentsSlash("/", b);
    TextOfPlain([b]);
    SlashAndName(b);
    assert Text([b]) == b && [] + [b] == [b];
  }

  lemma LeavingWalk(a: string, b: string)
    requires IsName(a) && IsName(b) && a != b
    ensures Walk(LeavingTree(a, b), [], [a], MAX_SYMLINK_HOPS).result == Ok(["//"] + [b])
  {
    var tree, path := LeavingTree(a, b), ["//"] + [b];
    RootedTexts([b]);
    LeavingTarget(b);
    assert Join(["//"]) == "//" && [] + [a] == [a] && Join([a]) == a;
    assert a[0] != '/' && Join(path)[0] == '/';
    assert StepAt(tree, [], a) == Follow([], path);
    assert Physical(tree, path) by {
      assert path[..1] == ["//"] && path[..2] == path;
    }
    WalkPhysicalFromRoot(tree, path, MAX_SYMLINK_HOPS - 1);
    WalkFollows(tree, [], [a], MAX_SYMLINK_HOPS, [], path);
    assert [a][1..] == [];
  }

  lemma LeavingText(b: string)
    requires IsName(b)
    ensures Normalize(Text(["//"] + [b])) == Ok([b])
  {
    RootedTexts([b]);
    NormalizeSegments(Text(["//"] + [b]));
    NormalizeNames([b], []);
    assert [] + [b] == [b];
  }

  lemma LeavingResolves(a: string, b: string)
    requires IsName(a) && IsName(b) && a != b
    ensures Resolve(LeavingTree(a, b), a) == Ok(["//"] + [b])
  {
    assert Text([a]) == a;
    TodoOfText([a]);
    ResolveIsWalk(LeavingTree(a, b), a);
    LeavingWalk(a, b);
  }

  lemma LeavingIsLost(a: string, b: string)
    requires IsName(a) && IsName(b) && a != b
    ensures Resolve(LeavingTree(a, b), Text(["//"] + [b])) == Err(Broken)
  {
    var tree := LeavingTree(a, b);
    LeavingText(b);
    TodoIs([b]);
    ResolveIsWalk(tree, Text(["//"] + [b]));
    RootedTexts([b]);
    assert Join([b]) == b && [] + [b] == [b];
    assert b !in tree;
  }

  /** A single link that does not stay is enough for a result that does not resolve again. */
  lemma LeavingIsNotStable(a: string, b: string)
    requires IsName(a) && IsName(b) && a != b
    ensures Resolve(LeavingTree(a, b), a) == Ok(["//"] + [b])
    ensures Resolve(LeavingTree(a, b), Text(["//"] + [b])) == Err(Broken)
  {
    LeavingResolves(a, b);
    LeavingIsLost(a, b);
  }

  // ----- resolving with a suffix

  lemma AddsIsItem(q: string)
    requires Adds(q) && ".." !in Segments(q)
    ensures Plain(Segments(q)) && Segments(q) != []
  {
    SegmentsAreItems(q);
  }

  /** "/" and then a suffix is read as the double root, so the whole is walked from "/". */
  lemma SlashIsNotCongruent(q: string)
    requires Adds(q) && ".." !in Segments(q)
    ensures var tree := Directories(["/"] + Segments(q));
      && LinksStay(tree) && Resolve(tree, "/") == Ok([])
      && Resolve(tree, "/" + "/" + q).Ok? && Resolve(tree, Text([]) + "/" + q) != Resolve(tree, "/" + "/" + q)
  {
    var todo := ["/"] + Segments(q);
    var tree := Directories(todo);
    AddsIsItem(q);
    DirectoriesAreReal(todo);
    SlashResolvesToRoot(tree);
    assert Join(["/"]) == "/" && todo[1..] == Segments(q);
    RootedSlash([], q);
    assert ["/"] + [] == ["/"] && [] + Segments(q) == Segments(q);
    BelowHasNoDots(todo);
    RealTodo(tree, "/" + "/" + q, todo);
    DotSlashStays(tree, q);
  }

  lemma DotSlashStays(tree: Tree, q: string)
    requires LinksStay(tree) && ".." !in Segments(q)
    ensures var r := Resolve(tree, Text([]) + "/" + q); r.Ok? ==> Plain(r.value)
  {
    var rel := Text([]) + "/" + q;
    assert rel[0] == '.';
    SegmentsAreItems(q);
    TextOfPlain([]);
    SegmentsSlash(Text([]), q);
    NormalizeSegments(rel);
    assert [] + Segments(q) == Segments(q);
    NormalizeNames(Segments(q), []);
    if Resolve(tree, rel).Ok? {
      ResolvedStaysBelow(tree, rel);
    }
  }

  /** The double root and a suffix: three slashes, which are one root. */
  lemma TripleSlash(q: string)
    requires ".." !in Segments(q)
    ensures Normalize("//" + "/" + q) == Ok(Segments(q)) && Plain(Segments(q))
  {
    var rel := "//" + "/" + q;
    assert rel[0] == '/' && rel[1] == '/' && rel[2] == '/';
    SlashText();
    SegmentsAreItems(q);
    SegmentsSlash("//", q);
    NormalizeSegments(rel);
    assert [] + Segments(q) == Segments(q);
    NormalizeNames(Segments(q), []);
  }

  lemma TripleSlashStays(tree: Tree, q: string)
    requires LinksStay(tree) && ".." !in Segments(q)
    ensures var r := Resolve(tree, "//" + "/" + q); r.Ok? ==> Plain(r.value)
  {
    TripleSlash(q);
    if Resolve(tree, "//" + "/" + q).Ok? {
      ResolvedStaysBelow(tree, "//" + "/" + q);
    }
  }

  lemma DoubleRootWhole(tree: Tree, p: string, q: string)
    requires Normalize(p) == Ok(["//"]) && SameRoot(p, q) && Adds(q) && ".." !in Segments(q)
    requires Physical(tree, ["/"] + Segments(q))
    ensures Resolve(tree, p + "/" + q) == Ok(["/"] + Segments(q))
  {
    var names := Segments(q);
    AddsIsItem(q);
    NormalizeSlash(p, q);
    TodoRooted(names);
    assert (["/"] + names)[1..] == names;
    BelowHasNoDots(["/"] + names);
    RealTodo(tree, p + "/" + q, ["/"] + names);
  }

  /** Where p is another way to write the double root, its result is that root, and the text
      of that has three slashes before the suffix. */
  lemma DoubleRootIsNotCongruent(p: string, q: string)
    requires Normalize(p) == Ok(["//"]) && SameRoot(p, q) && Adds(q) && ".." !in Segments(q)
    ensures var tree := Directories(["/"] + Segments(q)) + Directories(["//"]);
      && LinksStay(tree) && Resolve(tree, p) == Ok(["//"])
      && Resolve(tree, p + "/" + q).Ok? && Resolve(tree, Text(["//"]) + "/" + q) != Resolve(tree, p + "/" + q)
  {
    var tree := Directories(["/"] + Segments(q)) + Directories(["//"]);
    BothAreReal(["/"] + Segments(q), ["//"]);
    TodoDouble();
    RealTodo(tree, p, ["//"]);
    DoubleRootWhole(tree, p, q);
    TripleSlashStays(tree, q);
    assert Text(["//"]) == "//" && !IsName("/");
    assert (["/"] + Segments(q))[0] == "/";
  }

  /** No link is met on plain names: the walk arrives where the names say, or fails. */
  lemma {:induction false} WalkByName(tree: Tree, base: Path, names: Path, budget: nat)
    requires Plain(base) && Plain(names)
    requires forall t :: t in tree && !IsRooted(t) ==> !tree[t].Link?
    ensures var r := Walk(tree, base, names, budget).result; r.Ok? ==> r.value == base + names
    decreases |names|
  {
    if names == [] {
      assert base + names == base;
    } else {
      var to := base + [names[0]];
      JoinIsEmpty(to);
      if StepAt(tree, base, names[0]).Go? {
        WalkByName(tree, to, names[1..], budget);
        assert to + names[1..] == base + names;
      }
    }
  }

  /** The double root as a link: its result is elsewhere, the three slashes are not. */
  ghost function DetourTree(names: Path): Tree {
    (Directories(names) + Directories(["f"]))["//" := Link("f")]
  }

  lemma DetourTreeFits(names: Path)
    requires Plain(names)
    ensures var tree := DetourTree(names);
      && LinksStay(tree) && Physical(tree, names) && Physical(tree, ["f"])
      && forall t :: t in tree && !IsRooted(t) ==> !tree[t].Link?
  {
    var tree := DetourTree(names);
    DirectoriesAreReal(names);
    DirectoriesAreReal(["f"]);
    forall path: Path, k | (path == names || path == ["f"]) && 0 < k <= |path|
      ensures Join(path[..k]) in tree && tree[Join(path[..k])] == Directory
    {
      JoinIsEmpty(path[..k]);
      assert Join(path[..k]) in Texts(path);
    }
  }

  /** Three slashes and names resolve to the names. */
  lemma TripleSlashEnds(tree: Tree, q: string)
    requires ".." !in Segments(q) && Physical(tree, Segments(q))
    ensures Resolve(tree, "//" + "/" + q) == Ok(Segments(q))
  {
    TripleSlash(q);
    TodoIs(Segments(q));
    RealTodo(tree, "//" + "/" + q, Segments(q));
  }

  /** Names below another name never end at the names alone, where no link is met. */
  lemma BelowEnds(tree: Tree, f: string, q: string)
    requires IsName(f) && ".." !in Segments(q)
    requires forall t :: t in tree && !IsRooted(t) ==> !tree[t].Link?
    ensures Resolve(tree, Text([f]) + "/" + q) != Ok(Segments(q))
  {
    var names := Segments(q);
    SegmentsAreItems(q);
    assert Plain([f] + names) && |[f] + names| != |names|;
    TodoOfTextSlash([f], q);
    ResolveIsWalk(tree, Text([f]) + "/" + q);
    WalkByName(tree, [], [f] + names, MAX_SYMLINK_HOPS);
    assert [] + ([f] + names) == [f] + names;
  }

  lemma DetourIsNotCongruent(q: string)
    requires ".." !in Segments(q)
    ensures var tree := DetourTree(Segments(q));
      && LinksStay(tree) && Resolve(tree, "//") == Ok(["f"])
      && Resolve(tree, "//" + "/" + q).Ok? && Resolve(tree, Text(["f"]) + "/" + q) != Resolve(tree, "//" + "/" + q)
  {
    var tree := DetourTree(Segments(q));
    TripleSlash(q);
    DetourTreeFits(Segments(q));
    TripleSlashEnds(tree, q);
    BelowEnds(tree, "f", q);
    DetourResolves(tree);
  }

  lemma DetourResolves(tree: Tree)
    requires "//" in tree && tree["//"] == Link("f") && Physical(tree, ["f"])
    ensures Resolve(tree, "//") == Ok(["f"])
  {
    DoubleRootTodo();
    ResolveIsWalk(tree, "//");
    DetourStep(tree);
    WalkOneFollows(tree, [], "//", MAX_SYMLINK_HOPS, [], ["f"]);
    WalkPhysicalFromRoot(tree, ["f"], MAX_SYMLINK_HOPS - 1);
  }

  lemma DetourStep(tree: Tree)
    requires "//" in tree && tree["//"] == Link("f")
    ensures StepAt(tree, [], "//") == Follow([], ["f"])
  {
    TextOfPlain(["f"]);
    assert [] + ["//"] == ["//"] && Join(["//"]) == "//" && Text(["f"]) == "f";
  }

  lemma RootsAgree(p: string, q: string)
    requires Adds(q) && p != "/" && p != "//"
    ensures SameRoot(p, q)
  {
    var rel := p + "/" + q;
    if |p| > 2 {
      assert rel[0] == p[0] && rel[1] == p[1] && rel[2] == p[2];
    } else if |p| == 2 {
      assert rel[0] == p[0] && rel[1] == p[1] && p == [p[0], p[1]];
    } else if |p| == 1 {
      assert rel[0] == p[0] && p == [p[0]];
    } else {
      assert rel[0] == '/' && rel[1] == q[0];
    }
  }

  /** The result of `p`, followed by `q`, resolves to what p/q resolves to. */
  ghost predicate IsCongruent(tree: Tree, p: string, q: string) {
    Resolve(tree, p + "/" + q).Ok? ==>
      Resolve(tree, p).Ok? && Resolve(tree, Text(Resolve(tree, p).value) + "/" + q) == Resolve(tree, p + "/" + q)
  }

  /** For a suffix that adds names: congruent in every tree where links stay, exactly when
      `p` is neither "/" nor a way to write the double root. */
  lemma CongruentIff(p: string, q: string)
    requires Normalize(p).Ok? && Adds(q) && ".." !in Segments(q)
    ensures (forall tree: Tree :: LinksStay(tree) ==> IsCongruent(tree, p, q))
      <==> p != "/" && Normalize(p).value != ["//"]
  {
    if p == "/" {
      SlashIsNotCongruent(q);
    } else if p == "//" {
      DetourIsNotCongruent(q);
      SlashText();
      NormalizeSegments("//");
    } else {
      RootsAgree(p, q);
      if Normalize(p).value == ["//"] {
        DoubleRootIsNotCongruent(p, q);
      } else {
        CongruentEverywhere(p, q);
      }
    }
  }

  lemma CongruentEverywhere(p: string, q: string)
    requires Adds(q) && ".." !in Segments(q) && SameRoot(p, q) && Normalize(p) != Ok(["//"])
    ensures forall tree: Tree :: LinksStay(tree) ==> IsCongruent(tree, p, q)
  {
    forall tree: Tree | LinksStay(tree) ensures IsCongruent(tree, p, q) {
      if Resolve(tree, p + "/" + q).Ok? {
        ResolvingIsCongruent(tree, p, q);
      }
    }
  }

  /** Below a double slash the suffix has to add names: an empty one does not do. */
  lemma EmptySuffixIsNotCongruent(a: string)
    requires IsName(a)
    ensures LinksStay(UpTree([a])) && !IsCongruent(UpTree([a]), Join(["/"] + [a]), "")
  {
    var tree, p := UpTree([a]), Join(["/"] + [a]);
    var rel := p + "/" + "";
    RootedTexts([a]);
    assert rel[0] == p[0] && rel[1] == p[1] && rel[2] == p[2];
    UpTreeFits([a]);
    UpTreeWalk([a]);
    NormalizeSegments(p);
    NormalizeNames([a], ["//"]);
    NormalizeSlash(p, "");
    assert ["//"] + [a] + [] == ["//"] + [a];
    TodoRooted([a]);
    ResolveIsWalk(tree, p);
    ResolveIsWalk(tree, rel);
    NoDoubleRoot(tree, a);
  }

  lemma NoDoubleRoot(tree: Tree, a: string)
    requires IsName(a) && tree == UpTree([a])
    ensures Resolve(tree, Text(["/"]) + "/" + "") == Err(Broken)
  {
    DoubleRootTodo();
    ResolveIsWalk(tree, "//");
    DoubleRootIsMissing(a);
    assert Join(["/"]) == "/" && "/" + "/" + "" == "//" && [] + ["//"] == ["//"] && Join(["//"]) == "//";
  }

  lemma DoubleRootIsMissing(a: string)
    requires IsName(a)
    ensures "//" !in UpTree([a])
  {
    RootedTexts([a]);
    assert ["/"] + [a][..0] == ["/"] && ["/"][..1] == ["/"] && Join(["/"]) == "/";
    assert forall t :: t in Texts(["/"]) ==> |t| == 1;
  }
}
