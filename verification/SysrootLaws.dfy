/** Where the resolver arrives: links of each kind in real directories, chains of links, what
    is missing, and which path texts normalise. */
module SysrootLaws {
  import opened Common
  import opened PathText
  import opened Sysroot
  import opened SysrootTheorems

  // ----- normalising

  /** How far a part moves down from the root. */
  function Weight(part: string): int {
    if part == "" || part == "." || part == "/" then 0 else if part == ".." then -1 else 1
  }

  function Depth(parts: seq<string>): int {
    if parts == [] then 0 else Weight(parts[0]) + Depth(parts[1..])
  }

  /** The parts normalise exactly when no prefix of them climbs above the root; the result is
      as deep as they say. */
  lemma {:induction false} NormalizesIff(parts: seq<string>, stack: Path)
    ensures NormalizeParts(parts, stack).Ok? <==> forall k :: 0 <= k <= |parts| ==> |stack| + Depth(parts[..k]) >= 0
    ensures NormalizeParts(parts, stack).Ok? ==> |NormalizeParts(parts, stack).value| == |stack| + Depth(parts)
    ensures NormalizeParts(parts, stack).Err? ==> NormalizeParts(parts, stack).error == Escapes
    decreases |parts|
  {
    if parts == [] {
      assert parts[..0] == [];
    } else {
      var rest := parts[1..];
      assert forall k :: 0 < k <= |parts| ==> parts[..k][1..] == rest[..k - 1];
      assert forall k :: 0 < k <= |parts| ==> Depth(parts[..k]) == Weight(parts[0]) + Depth(rest[..k - 1]);
      assert forall k :: 0 <= k <= |rest| ==> rest[..k] == parts[..k + 1][1..];
      if parts[0] == ".." {
        if stack == [] {
          assert Depth(parts[..1]) == -1;
        } else {
          NormalizesIff(rest, stack[..|stack| - 1]);
        }
      } else {
        NormalizesIff(rest, if Weight(parts[0]) == 0 then stack else stack + [parts[0]]);
      }
    }
  }

  lemma DownAndUp(x: string, b: seq<string>, stack: Path)
    requires Weight(x) == 1
    ensures NormalizeParts([x, ".."] + b, stack) == NormalizeParts(b, stack)
  {
    var parts := [x, ".."] + b;
    assert parts[0] == x && parts[1..] == [".."] + b && parts[1..][1..] == b;
    assert (stack + [x])[..|stack|] == stack;
  }

  /** A name and the ".." behind it cancel at any place, and parts that name nothing do not
      matter. */
  lemma PartsCancel(a: seq<string>, x: string, b: seq<string>, stack: Path)
    ensures Weight(x) == 1 ==> NormalizeParts(a + ([x, ".."] + b), stack) == NormalizeParts(a + b, stack)
    ensures Weight(x) == 0 ==> NormalizeParts(a + ([x] + b), stack) == NormalizeParts(a + b, stack)
  {
    NormalizeConcat(a, b, stack);
    NormalizeConcat(a, [x, ".."] + b, stack);
    NormalizeConcat(a, [x] + b, stack);
    assert ([x] + b)[1..] == b;
    if Weight(x) == 1 && NormalizeParts(a, stack).Ok? {
      DownAndUp(x, b, NormalizeParts(a, stack).value);
    }
  }

  lemma SlashThenText(text: string)
    ensures Segments("/" + text) == Segments(text)
  {
    SplitFirst("", text);
    assert "/" + text == "" + "/" + text && Item("") + Split(text) == Split(text);
  }

  lemma FirstPart(root: string, names: Path)
    requires Plain(names)
    ensures Weight(root) == 0 ==> NormalizeParts([root] + names, []) == Ok(names)
    ensures Weight(root) == 1 ==> NormalizeParts([root] + names, []) == Ok([root] + names)
  {
    assert ([root] + names)[1..] == names && [] + names == names && [] + [root] == [root];
    NormalizeNames(names, []);
    NormalizeNames(names, [root]);
  }

  lemma RootOf(text: string)
    ensures Root("/" + ("/" + ("/" + text))) == ["/"]
    ensures (text == "" || text[0] != '/') ==> Root("/" + text) == ["/"] && Root("/" + ("/" + text)) == ["//"]
  {
  }

  /** One slash in front of a path, or three, is the root; exactly two are a component. */
  lemma SlashesInFront(names: Path)
    requires Plain(names)
    ensures Normalize("/" + Join(names)) == Ok(names)
    ensures Normalize("/" + ("/" + Join(names))) == Ok(["//"] + names)
    ensures Normalize("/" + ("/" + ("/" + Join(names)))) == Ok(names)
  {
    var text := Join(names);
    JoinIsEmpty(names);
    SplitJoin(names);
    DropDotsKeeps(names);
    SlashThenText(text);
    SlashThenText("/" + text);
    SlashThenText("/" + ("/" + text));
    RootOf(text);
    FirstPart("/", names);
    assert |"//"| == 2 && Weight("//") == 1;
    FirstPart("//", names);
  }

  lemma ResolvePlain(tree: Tree, path: Path)
    requires Plain(path)
    ensures Resolve(tree, Text(path)) == Walk(tree, [], path, 128).result
  {
    TextOfPlain(path);
    NormalizeIsPlain(Text(path));
    NormalizeNames(path, []);
    assert [] + path == path;
    ResolveIsWalk(tree, Text(path));
  }

  lemma PlainPathsAreWalked(tree: Tree, path: Path, budget: nat)
    requires Physical(tree, path) && Plain(path)
    ensures Walk(tree, [], path, budget) == Outcome(Ok(path), budget)
  {
    WalkPhysicalFromRoot(tree, path, budget);
  }

  lemma ThroughDirectories(tree: Tree, dirs: Path, parts: seq<string>, budget: nat)
    requires Physical(tree, dirs) && Plain(dirs)
    ensures Walk(tree, [], dirs + parts, budget) == Walk(tree, dirs, parts, budget)
  {
    PlainPathsAreWalked(tree, dirs, budget);
    WalkConcat(tree, [], dirs, parts, budget);
  }

  // ----- one link

  lemma RelativeTarget(names: Path)
    requires Plain(names)
    ensures TargetParts(Text(names)) == names && !IsRooted(Text(names))
  {
    TextOfPlain(names);
  }

  lemma AbsoluteTarget(names: Path)
    requires Plain(names)
    ensures TargetParts("/" + Join(names)) == names && IsRooted("/" + Join(names))
  {
    var text := "/" + Join(names);
    assert text == "" + "/" + Join(names);
    SplitFirst("", Join(names));
    SplitJoin(names);
    DropDotsKeeps(names);
    JoinIsEmpty(names);
    assert names != [] ==> text[1] == Join(names)[0];
    assert !DoubleSlash(text) && Split(text) == [] + names == names;
  }

  lemma UpTarget(names: Path)
    requires Plain(names)
    ensures TargetParts("../" + Join(names)) == [".."] + names && !IsRooted("../" + Join(names))
  {
    var text := "../" + Join(names);
    assert text == ".." + "/" + Join(names) && text[0] == '.';
    SplitFirst("..", Join(names));
    SplitJoin(names);
    DropDotsKeeps(names);
    assert Split(text) == [".."] + names && ([".."] + names)[1..] == names;
  }

  lemma LinkStep(tree: Tree, dirs: Path, n: string, text: string)
    requires IsName(n) && Join(dirs + [n]) in tree && tree[Join(dirs + [n])] == Link(text)
    ensures StepAt(tree, dirs, n) == Follow(if IsRooted(text) then [] else dirs, TargetParts(text))
  {
  }

  lemma StepFollows(tree: Tree, dirs: Path, n: string, from: Path, target: seq<string>, rest: Path, budget: nat)
    requires StepAt(tree, dirs, n) == Follow(from, target) && budget > 0
    ensures Walk(tree, dirs, [n] + rest, budget).result == Walk(tree, from, target + rest, budget - 1).result
  {
    WalkFollows(tree, dirs, [n] + rest, budget, from, target);
    assert ([n] + rest)[1..] == rest;
    WalkConcat(tree, from, target, rest, budget - 1);
  }

  lemma LinkIsFollowed(tree: Tree, dirs: Path, n: string, text: string, rest: Path)
    requires Plain(dirs + [n] + rest) && Physical(tree, dirs)
    requires Join(dirs + [n]) in tree && tree[Join(dirs + [n])] == Link(text)
    ensures Resolve(tree, Text(dirs + [n] + rest))
         == Walk(tree, if IsRooted(text) then [] else dirs, TargetParts(text) + rest, 127).result
  {
    ResolvePlain(tree, dirs + [n] + rest);
    PlainParts(dirs, [n], rest);
    assert IsName([n][0]);
    LinkStep(tree, dirs, n, text);
    ConcatAssociative(dirs, [n], rest);
    ThroughDirectories(tree, dirs, [n] + rest, 128);
    StepFollows(tree, dirs, n, if IsRooted(text) then [] else dirs, TargetParts(text), rest, 128);
  }

  /** From a real directory on, through real ones. */
  lemma WalkOn(tree: Tree, base: Path, names: Path, rest: Path, budget: nat)
    requires Plain(base + names + rest) && Physical(tree, base + names + rest)
    ensures Walk(tree, base, names + rest, budget).result == Ok(base + names + rest)
  {
    var path := base + names + rest;
    assert path[..|base|] == base && path[|base|..] == names + rest;
    WalkPhysical(tree, path, |base|, budget);
  }

  /** A relative target leads on from the directory of the link. */
  lemma RelativeLinkLeads(tree: Tree, dirs: Path, n: string, names: Path, rest: Path)
    requires Plain(dirs + [n] + rest) && Plain(dirs + names + rest)
    requires Physical(tree, dirs) && Physical(tree, dirs + names + rest)
    requires Join(dirs + [n]) in tree && tree[Join(dirs + [n])] == Link(Text(names))
    ensures Resolve(tree, Text(dirs + [n] + rest)) == Ok(dirs + names + rest)
  {
    WalkOn(tree, dirs, names, rest, 127);
    LinkIsFollowed(tree, dirs, n, Text(names), rest);
    PlainParts(dirs, names, rest);
    RelativeTarget(names);
  }

  /** An absolute target leads on from the root of the sysroot. */
  lemma AbsoluteLinkLeads(tree: Tree, dirs: Path, n: string, names: Path, rest: Path)
    requires Plain(dirs + [n] + rest) && Plain(names + rest)
    requires Physical(tree, dirs) && Physical(tree, names + rest)
    requires Join(dirs + [n]) in tree && tree[Join(dirs + [n])] == Link("/" + Join(names))
    ensures Resolve(tree, Text(dirs + [n] + rest)) == Ok(names + rest)
  {
    assert [] + names + rest == names + rest;
    WalkOn(tree, [], names, rest, 127);
    LinkIsFollowed(tree, dirs, n, "/" + Join(names), rest);
    PlainParts([], names, rest);
    AbsoluteTarget(names);
  }

  /** A target that goes up leads on from the parent of the link's directory. */
  lemma UpLinkLeads(tree: Tree, dirs: Path, n: string, names: Path, rest: Path)
    requires dirs != [] && Plain(dirs + [n] + rest) && Plain(dirs[..|dirs| - 1] + names + rest)
    requires Physical(tree, dirs) && Physical(tree, dirs[..|dirs| - 1] + names + rest)
    requires Join(dirs + [n]) in tree && tree[Join(dirs + [n])] == Link("../" + Join(names))
    ensures Resolve(tree, Text(dirs + [n] + rest)) == Ok(dirs[..|dirs| - 1] + names + rest)
  {
    PlainParts(dirs[..|dirs| - 1], names, rest);
    WalkOn(tree, dirs[..|dirs| - 1], names, rest, 127);
    UpLinkIsFollowed(tree, dirs, n, names, rest);
  }

  /** In the root there is no parent to go on from. */
  lemma UpLinkEscapes(tree: Tree, n: string, names: Path, rest: Path)
    requires Plain([n] + names + rest) && n in tree && tree[n] == Link("../" + Join(names))
    ensures Resolve(tree, Text([n] + rest)) == Err(Escapes)
  {
    PlainParts([n], names, rest);
    assert [] + [n] + rest == [n] + rest && [] + [n] == [n] && Join([n]) == n;
    UpLinkIsFollowed(tree, [], n, names, rest);
  }

  lemma UpLinkIsFollowed(tree: Tree, dirs: Path, n: string, names: Path, rest: Path)
    requires Plain(dirs + [n] + rest) && Plain(names) && Physical(tree, dirs)
    requires Join(dirs + [n]) in tree && tree[Join(dirs + [n])] == Link("../" + Join(names))
    ensures Resolve(tree, Text(dirs + [n] + rest))
         == if dirs == [] then Err(Escapes) else Walk(tree, dirs[..|dirs| - 1], names + rest, 127).result
  {
    UpTarget(names);
    LinkFollowedFrom(tree, dirs, n, "../" + Join(names), rest, dirs, [".."] + names);
    ConcatAssociative([".."], names, rest);
    WalkUp(tree, dirs, names + rest, 127);
  }

  lemma LinkFollowedFrom(tree: Tree, dirs: Path, n: string, text: string, rest: Path, from: Path, target: seq<string>)
    requires Plain(dirs + [n] + rest) && Physical(tree, dirs)
    requires Join(dirs + [n]) in tree && tree[Join(dirs + [n])] == Link(text)
    requires TargetParts(text) == target && from == if IsRooted(text) then [] else dirs
    ensures Resolve(tree, Text(dirs + [n] + rest)) == Walk(tree, from, target + rest, 127).result
  {
    LinkIsFollowed(tree, dirs, n, text, rest);
  }

  lemma WalkUp(tree: Tree, dir: Path, parts: seq<string>, budget: nat)
    ensures Walk(tree, dir, [".."] + parts, budget)
         == if dir == [] then Outcome(Err(Escapes), budget) else Walk(tree, dir[..|dir| - 1], parts, budget)
  {
    assert ([".."] + parts)[0] == ".." && ([".."] + parts)[1..] == parts;
  }

  lemma PlainParts(a: Path, b: Path, c: Path)
    requires Plain(a + b + c)
    ensures Plain(a) && Plain(b) && Plain(c)
  {
    var all := a + b + c;
    assert forall i :: 0 <= i < |a| ==> all[i] == a[i];
    assert forall i :: 0 <= i < |b| ==> all[|a| + i] == b[i];
    assert forall i :: 0 <= i < |c| ==> all[|a| + |b| + i] == c[i];
  }

  // ----- what is not there

  /** A name that a real directory does not have is reported, and so is one that cannot be
      looked at. */
  lemma MissingIsReported(tree: Tree, dirs: Path, n: string, rest: Path)
    requires Plain(dirs + [n] + rest) && Physical(tree, dirs)
    ensures Join(dirs + [n]) !in tree ==> Resolve(tree, Text(dirs + [n] + rest)) == Err(Broken)
    ensures Join(dirs + [n]) in tree && tree[Join(dirs + [n])].Blocked? ==>
      Resolve(tree, Text(dirs + [n] + rest)) == Err(OsFailure)
  {
    PlainParts(dirs, [n], rest);
    assert dirs + [n] + rest == dirs + ([n] + rest);
    ResolvePlain(tree, dirs + [n] + rest);
    ThroughDirectories(tree, dirs, [n] + rest, 128);
    assert IsName([n][0]);
  }

  // ----- chains of links

  /** Each name is a link in the root whose target is the next one; the last is a file. */
  ghost predicate IsChain(tree: Tree, names: Path) {
    && names != [] && Plain(names)
    && (forall i :: 0 <= i < |names| ==> names[i] in tree)
    && (forall i, j :: 0 <= i < |names| - 1 && j == i + 1 ==> tree[names[i]] == Link(names[j]))
    && tree[names[|names| - 1]].File?
  }

  lemma {:induction false} ChainIsWalked(tree: Tree, names: Path, budget: nat)
    requires IsChain(tree, names)
    ensures Walk(tree, [], [names[0]], budget).result
         == if |names| - 1 <= budget then Ok([names[|names| - 1]]) else Err(TooManyLinks)
    decreases |names|
  {
    assert [] + [names[0]] == [names[0]] && Join([names[0]]) == names[0] && [names[0]][1..] == [];
    assert IsName(names[0]);
    if |names| > 1 {
      var next := names[1];
      assert IsName(next) && Text([next]) == next;
      RelativeTarget([next]);
      assert tree[names[0]] == Link(next);
      assert StepAt(tree, [], names[0]) == Follow([], [next]);
      if budget > 0 {
        WalkOneFollows(tree, [], names[0], budget, [], [next]);
        var rest := names[1..];
        forall i, j | 0 <= i < |rest| - 1 && j == i + 1 ensures tree[rest[i]] == Link(rest[j]) {
          assert rest[i] == names[i + 1] && rest[j] == names[j + 1];
        }
        ChainIsWalked(tree, rest, budget - 1);
      }
    }
  }

  /** A chain of links arrives exactly when it has at most 128 of them. */
  lemma ChainArrivesIff(tree: Tree, names: Path)
    requires IsChain(tree, names)
    ensures Resolve(tree, names[0]) == if |names| - 1 <= 128 then Ok([names[|names| - 1]]) else Err(TooManyLinks)
  {
    assert IsName(names[0]) && Text([names[0]]) == names[0];
    ResolvePlain(tree, [names[0]]);
    ChainIsWalked(tree, names, 128);
  }
}
