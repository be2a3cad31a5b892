/** Links rewritten for another tree: relative to their own directory, and to the same place. */
module SysrootLinks {
  import opened Common
  import opened PathText
  import opened Sysroot
  import opened SysrootTheorems
  import opened SysrootRoots

  function CommonLength(a: Path, b: Path): (n: nat)
    ensures n <= |a| && n <= |b| && a[..n] == b[..n]
    decreases |a|
  {
    if a == [] || b == [] || a[0] != b[0] then 0
    else
      var n := CommonLength(a[1..], b[1..]);
      assert a[..n + 1] == [a[0]] + a[1..][..n] && b[..n + 1] == [b[0]] + b[1..][..n];
      n + 1
  }

  /** The relative path from a directory to a target: up to what they share, then down. */
  function RelativeTo(target: Path, start: Path): seq<string> {
    var n := CommonLength(target, start);
    Ups(|start| - n) + target[n..]
  }

  lemma WalkUpThen(tree: Tree, start: Path, n: nat, down: seq<string>, budget: nat)
    requires n <= |start|
    ensures Walk(tree, start, Ups(|start| - n) + down, budget) == Walk(tree, start[..n], down, budget)
  {
    WalkUps(tree, start, |start| - n, budget);
    WalkConcat(tree, start, Ups(|start| - n), down, budget);
  }

  /** The link that is written for a resolved target, walked from the real directory of the
      link, arrives at that target without following any link. */
  lemma RewrittenLinkArrives(tree: Tree, target: Path, start: Path, budget: nat)
    requires Physical(tree, target) && Plain(target)
    ensures Walk(tree, start, RelativeTo(target, start), budget) == Outcome(Ok(target), budget)
  {
    var n := CommonLength(target, start);
    WalkUpThen(tree, start, n, target[n..], budget);
    WalkPhysical(tree, target, n, budget);
  }

  /** Leading slashes stripped. */
  function Stripped(path: string): (r: string)
    ensures !IsRooted(r)
  {
    if IsRooted(path) then Stripped(path[1..]) else path
  }

  /** The target that is written for a link in the directory `parent`: a relative target
      stays as it is, an absolute one is made relative. Either must stay in the sysroot. */
  function RewrittenTarget(parent: Path, target: string): Result<string, Error> {
    if !IsRooted(target) then
      match Normalize(Text(parent) + "/" + target)
      case Err(e) => Err(e)
      case Ok(_) => Ok(target)
    else
      match Normalize(Stripped(target))
      case Err(e) => Err(e)
      case Ok(path) => Ok(Text(RelativeTo(path, parent)))
  }

  /** Where a link in `parent` points to by its text alone, with the sysroot as "/". */
  function LexicalTarget(parent: Path, target: string): Result<Path, Error> {
    NormalizeParts((if IsRooted(target) then [] else parent) + Segments(target), [])
  }

  lemma {:induction false} StrippedSegments(path: string)
    ensures Segments(Stripped(path)) == Segments(path)
  {
    if IsRooted(path) {
      StrippedSegments(path[1..]);
      SplitFirst("", path[1..]);
      assert "" + "/" + path[1..] == path;
      assert Item("") + Split(path[1..]) == Split(path[1..]);
    }
  }

  lemma AbsoluteNormal(target: string)
    requires IsRooted(target)
    ensures Normalize(Stripped(target)) == NormalizeParts(Segments(target), [])
    ensures Normalize(Stripped(target)).Ok? ==> Plain(Normalize(Stripped(target)).value)
  {
    StrippedSegments(target);
    NormalizeIsPlain(Stripped(target));
  }

  lemma RelativeNormal(parent: Path, target: string)
    requires Plain(parent) && !IsRooted(target)
    ensures Normalize(Text(parent) + "/" + target) == NormalizeParts(parent + Segments(target), [])
  {
    var path := Text(parent) + "/" + target;
    TextOfPlain(parent);
    JoinIsEmpty(parent);
    assert path[0] == Text(parent)[0];
    SegmentsSlash(Text(parent), target);
    NormalizeIsPlain(path);
  }

  lemma RelativeText(path: Path, parent: Path)
    requires Plain(path)
    ensures Segments(Text(RelativeTo(path, parent))) == RelativeTo(path, parent)
    ensures !IsRooted(Text(RelativeTo(path, parent)))
  {
    var n := CommonLength(path, parent);
    var items := RelativeTo(path, parent);
    forall i | 0 <= i < |items| ensures IsItem(items[i]) && items[i] != "." {
      assert items[i] == if i < |parent| - n then ".." else path[i - (|parent| - n) + n];
    }
    TextOfItems(items);
  }

  /** Exactly the targets that stay inside the sysroot are accepted, and what is written for
      them is relative and means the same place by its text. */
  lemma RewrittenMeansTheSame(parent: Path, target: string)
    requires Plain(parent)
    ensures var r := RewrittenTarget(parent, target);
      && (r.Ok? <==> LexicalTarget(parent, target).Ok?)
      && (r.Ok? ==> !IsRooted(r.value) && LexicalTarget(parent, r.value) == LexicalTarget(parent, target))
  {
    if !IsRooted(target) {
      RelativeNormal(parent, target);
    } else {
      AbsoluteNormal(target);
      assert [] + Segments(target) == Segments(target);
      if Normalize(Stripped(target)).Ok? {
        var path := Normalize(Stripped(target)).value;
        RelativeText(path, parent);
        RewrittenTargetIsSame(path, parent);
      }
    }
  }

  // ----- following links too

  /** Every ".." stands where the names before it lead to the link's own directory, or to one
      above it. */
  predicate UpsOnTheWay(parent: Path, stack: Path, parts: seq<string>)
    decreases |parts|
  {
    if parts == [] then true
    else if parts[0] == ".." then
      stack != [] && stack <= parent && UpsOnTheWay(parent, stack[..|stack| - 1], parts[1..])
    else UpsOnTheWay(parent, stack + [parts[0]], parts[1..])
  }

  lemma {:induction false} NamesNeverStray(parent: Path, stack: Path, parts: seq<string>)
    requires ".." !in parts
    ensures UpsOnTheWay(parent, stack, parts)
    decreases |parts|
  {
    if parts != [] {
      NamesNeverStray(parent, stack + [parts[0]], parts[1..]);
    }
  }

  /** Then normalising the names first changes nothing, because nothing above a real
      directory is a link. */
  lemma {:induction false} WalkNormalized(tree: Tree, parent: Path, stack: Path, parts: seq<string>, budget: nat)
    requires Physical(tree, parent) && Plain(parent) && UpsOnTheWay(parent, stack, parts)
    requires Plain(stack) && forall i :: 0 <= i < |parts| ==> IsItem(parts[i]) && parts[i] != "."
    ensures NormalizeParts(parts, stack).Ok?
    ensures Walk(tree, [], stack + parts, budget) == Walk(tree, [], NormalizeParts(parts, stack).value, budget)
    decreases |parts|
  {
    if parts == [] {
      assert stack + parts == stack;
    } else if parts[0] == ".." {
      var up := stack[..|stack| - 1];
      WalkNormalized(tree, parent, up, parts[1..], budget);
      WalkUpFromReal(tree, parent, stack, parts, budget);
    } else {
      WalkNormalized(tree, parent, stack + [parts[0]], parts[1..], budget);
      assert stack + [parts[0]] + parts[1..] == stack + parts;
    }
  }

  lemma WalkUpFromReal(tree: Tree, parent: Path, stack: Path, parts: seq<string>, budget: nat)
    requires Physical(tree, parent) && Plain(parent) && stack != [] && stack <= parent
    requires parts != [] && parts[0] == ".."
    ensures Walk(tree, [], stack + parts, budget) == Walk(tree, [], stack[..|stack| - 1] + parts[1..], budget)
  {
    var up := stack[..|stack| - 1];
    assert stack == parent[..|stack|] && up == parent[..|up|];
    PrefixIsReal(tree, parent, |stack|);
    PrefixIsReal(tree, parent, |up|);
    WalkPhysicalThen(tree, stack, parts, budget);
    WalkPhysicalThen(tree, up, parts[1..], budget);
  }

  /** The parts before the first ".." that strays. */
  lemma {:induction false} FirstStray(parent: Path, stack: Path, parts: seq<string>) returns (k: nat)
    requires !UpsOnTheWay(parent, stack, parts) && NormalizeParts(parts, stack).Ok?
    requires forall i :: 0 <= i < |parts| ==> IsItem(parts[i]) && parts[i] != "."
    ensures k < |parts| && parts[k] == ".." && UpsOnTheWay(parent, stack, parts[..k])
    ensures var r := NormalizeParts(parts[..k], stack); r.Ok? && r.value != [] && !(r.value <= parent)
    decreases |parts|
  {
    if parts[0] == ".." && !(stack <= parent) {
      k := 0;
    } else {
      var next := if parts[0] == ".." then stack[..|stack| - 1] else stack + [parts[0]];
      var rest := FirstStray(parent, next, parts[1..]);
      k := rest + 1;
      assert parts[..k][1..] == parts[1..][..rest] && parts[..k][0] == parts[0];
    }
  }

  /** A tree where the last of some names is a link to the root. */
  ghost function StrayTree(parent: Path, names: Path): Tree
    requires names != []
  {
    (Directories(parent) + Directories(names[..|names| - 1]))[Join(names) := Link(Text(Ups(|names| - 1)))]
  }

  lemma PlainDiffer(a: Path, b: Path)
    requires Plain(a) && Plain(b) && a != b
    ensures Join(a) != Join(b)
  {
    SplitJoin(a);
    SplitJoin(b);
  }

  lemma StrayTreeFits(parent: Path, names: Path)
    requires Plain(parent) && Plain(names) && names != [] && !(names <= parent)
    ensures Physical(StrayTree(parent, names), parent) && Physical(StrayTree(parent, names), names[..|names| - 1])
  {
    var tree, dir := StrayTree(parent, names), names[..|names| - 1];
    forall path: Path, k | (path == parent || path == dir) && 0 < k <= |path|
      ensures Join(path[..k]) in tree && tree[Join(path[..k])] == Directory
    {
      assert Join(path[..k]) in Texts(path);
      PlainDiffer(path[..k], names);
    }
  }

  /** Names alone never climb above the root in it. */
  lemma {:induction false} NamesNeverEscape(parent: Path, names: Path, base: Path, parts: Path, budget: nat)
    requires Plain(parent) && Plain(names) && names != [] && Plain(base) && Plain(parts)
    ensures Walk(StrayTree(parent, names), base, parts, budget).result != Err(Escapes)
    decreases |parts|
  {
    if parts != [] {
      var tree, to := StrayTree(parent, names), base + [parts[0]];
      if to == names {
        FromStray(parent, names, parts, budget);
        assert base == names[..|names| - 1];
        if budget > 0 {
          NamesNeverEscape(parent, names, [], parts[1..], budget - 1);
        }
      } else {
        PlainDiffer(to, names);
        if StepAt(tree, base, parts[0]).Go? {
          NamesNeverEscape(parent, names, to, parts[1..], budget);
        }
      }
    }
  }

  lemma FromStray(parent: Path, names: Path, parts: Path, budget: nat)
    requires Plain(names) && names != [] && parts != [] && parts[0] == names[|names| - 1]
    ensures var tree, dir := StrayTree(parent, names), names[..|names| - 1];
      Walk(tree, dir, parts, budget)
        == if budget == 0 then Outcome(Err(TooManyLinks), 0) else Walk(tree, [], parts[1..], budget - 1)
  {
    var tree, dir := StrayTree(parent, names), names[..|names| - 1];
    if budget == 0 {
      StrayStep(parent, names);
    } else {
      StrayLink(parent, names, budget);
      WalkConcat(tree, dir, [parts[0]], parts[1..], budget);
      assert [parts[0]] + parts[1..] == parts;
    }
  }

  lemma StrayStep(parent: Path, names: Path)
    requires names != []
    ensures var dir, last := names[..|names| - 1], names[|names| - 1];
      IsName(last) ==> StepAt(StrayTree(parent, names), dir, last) == Follow(dir, Ups(|dir|))
  {
    var dir, last := names[..|names| - 1], names[|names| - 1];
    assert dir + [last] == names;
    TextOfItems(Ups(|dir|));
  }

  lemma StrayLink(parent: Path, names: Path, budget: nat)
    requires Plain(names) && names != [] && budget > 0
    ensures Walk(StrayTree(parent, names), names[..|names| - 1], [names[|names| - 1]], budget)
         == Outcome(Ok([]), budget - 1)
  {
    var tree, dir, last := StrayTree(parent, names), names[..|names| - 1], names[|names| - 1];
    StrayStep(parent, names);
    WalkOneFollows(tree, dir, last, budget, dir, Ups(|dir|));
    WalkUps(tree, dir, |dir|, budget - 1);
    assert dir[..0] == [];
  }

  /** The original target climbs above the root in it. */
  lemma StrayEscapes(parent: Path, before: seq<string>, after: seq<string>)
    requires Plain(parent) && UpsOnTheWay(parent, [], before)
    requires forall i :: 0 <= i < |before| ==> IsItem(before[i]) && before[i] != "."
    requires var r := NormalizeParts(before, []); r.Ok? && r.value != [] && Plain(r.value) && !(r.value <= parent)
    ensures var names := NormalizeParts(before, []).value;
      Walk(StrayTree(parent, names), [], before + ([".."] + after), 1).result == Err(Escapes)
  {
    var names := NormalizeParts(before, []).value;
    var tree, dir, last := StrayTree(parent, names), names[..|names| - 1], names[|names| - 1];
    StrayTreeFits(parent, names);
    WalkNormalized(tree, parent, [], before, 1);
    assert [] + before == before && dir + [last] == names;
    WalkPhysicalFromRoot(tree, dir, 1);
    WalkConcat(tree, [], dir, [last], 1);
    StrayLink(parent, names, 1);
    WalkConcat(tree, [], before, [".."] + after, 1);
  }

  lemma StrayAt(parent: Path, parts: seq<string>, k: nat)
    requires Plain(parent) && k < |parts| && parts[k] == ".." && UpsOnTheWay(parent, [], parts[..k])
    requires forall i :: 0 <= i < |parts| ==> IsItem(parts[i]) && parts[i] != "."
    requires var r := NormalizeParts(parts[..k], []); r.Ok? && r.value != [] && !(r.value <= parent)
    ensures var names := NormalizeParts(parts[..k], []).value;
      Plain(names) && Walk(StrayTree(parent, names), [], parts, 1).result == Err(Escapes)
  {
    NormalizeStaysPlain(parts[..k], []);
    StrayEscapes(parent, parts[..k], parts[k + 1..]);
    assert parts[..k] + ([".."] + parts[k + 1..]) == parts;
  }

  /** A target that strays is led elsewhere by its rewritten form in some tree. */
  lemma StrayTargetDiffers(parent: Path, parts: seq<string>) returns (tree: Tree)
    requires Plain(parent) && !UpsOnTheWay(parent, [], parts) && NormalizeParts(parts, []).Ok?
    requires forall i :: 0 <= i < |parts| ==> IsItem(parts[i]) && parts[i] != "."
    ensures Physical(tree, parent)
    ensures Walk(tree, [], parts, 1) != Walk(tree, [], NormalizeParts(parts, []).value, 1)
  {
    var k := FirstStray(parent, [], parts);
    var names := NormalizeParts(parts[..k], []).value;
    tree := StrayTree(parent, names);
    StrayAt(parent, parts, k);
    StrayTreeFits(parent, names);
    NormalizeStaysPlain(parts, []);
    NamesNeverEscape(parent, names, [], NormalizeParts(parts, []).value, 1);
  }

  /** A target with the double root is looked up there, its rewritten form is not. */
  lemma DoubleSlashDiffers(parent: Path, items: seq<string>, path: Path) returns (tree: Tree)
    requires Plain(parent) && Plain(path)
    ensures Physical(tree, parent) && Walk(tree, [], ["//"] + items, 1) != Walk(tree, [], path, 1)
  {
    tree := Directories(parent) + Directories(path);
    BothAreReal(parent, path);
    WalkPhysicalFromRoot(tree, path, 1);
    forall k, p: Path | (p == parent || p == path) && 0 < k <= |p| ensures Join(p[..k]) != "//" {
      JoinIsEmpty(p[..k]);
    }
    assert "//" !in tree && [] + ["//"] == ["//"] && Join(["//"]) == "//";
  }

  /** The rewritten target leads the same way as the original, failures and link count
      included, from the real directory of the link. */
  ghost predicate LeadsTheSameWay(tree: Tree, parent: Path, target: string, budget: nat)
    requires RewrittenTarget(parent, target).Ok?
  {
    var r := RewrittenTarget(parent, target).value;
    Walk(tree, TargetBase(parent, r), TargetParts(r), budget)
      == Walk(tree, TargetBase(parent, target), TargetParts(target), budget)
  }

  /** Both ways, for an absolute target. */
  lemma AbsoluteWays(tree: Tree, parent: Path, target: string, budget: nat)
    requires Physical(tree, parent) && Plain(parent) && IsRooted(target) && RewrittenTarget(parent, target).Ok?
    ensures NormalizeParts(Segments(target), []).Ok?
    ensures LeadsTheSameWay(tree, parent, target, budget) <==>
      Walk(tree, [], NormalizeParts(Segments(target), []).value, budget) == Walk(tree, [], TargetParts(target), budget)
  {
    AbsoluteNormal(target);
    var path := NormalizeParts(Segments(target), []).value;
    RelativeText(path, parent);
    RelativeWalk(tree, path, parent, budget);
  }

  /** For an accepted absolute target: it leads the same way in every tree, exactly when the
      original has no double slash and only goes up on the way to the link's directory. */
  lemma LeadsTheSameWayIff(parent: Path, target: string)
    requires Plain(parent) && IsRooted(target) && RewrittenTarget(parent, target).Ok?
    ensures (forall tree: Tree, budget: nat :: Physical(tree, parent) ==> LeadsTheSameWay(tree, parent, target, budget))
      <==> !DoubleSlash(target) && UpsOnTheWay(parent, [], Segments(target))
  {
    var parts := Segments(target);
    AbsoluteNormal(target);
    SegmentsAreItems(target);
    var path := NormalizeParts(parts, []).value;
    if DoubleSlash(target) {
      var tree := DoubleSlashDiffers(parent, parts, path);
      AbsoluteWays(tree, parent, target, 1);
    } else if UpsOnTheWay(parent, [], parts) {
      assert [] + parts == parts;
      forall tree: Tree, budget: nat | Physical(tree, parent) ensures LeadsTheSameWay(tree, parent, target, budget) {
        WalkNormalized(tree, parent, [], parts, budget);
        AbsoluteWays(tree, parent, target, budget);
      }
    } else {
      var tree := StrayTargetDiffers(parent, parts);
      AbsoluteWays(tree, parent, target, 1);
    }
  }

  /** A relative target is kept, so it leads the same way by itself. */
  lemma RelativeIsKept(tree: Tree, parent: Path, target: string, budget: nat)
    requires !IsRooted(target) && RewrittenTarget(parent, target).Ok?
    ensures LeadsTheSameWay(tree, parent, target, budget)
  {
  }

  // ----- an example

  ghost function ExampleTree(a: string, b: string, c: string, d: string): Tree {
    map[Join([a]) := Link(Text([c, d])), Join([c]) := Directory, Join([c, d]) := Directory,
        Join([c, b]) := File, Join([b]) := File]
  }

  ghost function ExampleTarget(a: string, b: string): string {
    "" + "/" + Join([a, "..", b])
  }

  lemma ExampleTexts(a: string, b: string)
    requires IsName(a) && IsName(b)
    ensures IsRooted(ExampleTarget(a, b)) && TargetParts(ExampleTarget(a, b)) == [a, "..", b]
    ensures Segments(ExampleTarget(a, b)) == [a, "..", b]
  {
    var items, t := [a, "..", b], ExampleTarget(a, b);
    TextOfItems(items);
    SegmentsSlash("", Join(items));
    assert [] + items == items;
    assert t[0] == '/' && t[1] == Join(items)[0];
    JoinIsEmpty(items);
  }

  lemma ExampleNormal(a: string, b: string)
    requires IsName(a) && IsName(b)
    ensures NormalizeParts([a, "..", b], []) == Ok([b])
  {
    var all, rest := [a, "..", b], ["..", b];
    assert all[1..] == rest && rest[1..] == [b] && [] + [a] == [a] && [a][..0] == [];
    NormalizeNames([b], []);
    assert [] + [b] == [b];
    assert NormalizeParts(rest, [a]) == NormalizeParts([b], []);
  }

  lemma ExampleIsReal(a: string, b: string, c: string, d: string)
    requires IsName(a) && IsName(b) && IsName(c) && IsName(d) && a != b && a != c && b != d
    ensures var tree := ExampleTree(a, b, c, d);
      Physical(tree, [c, d]) && Physical(tree, [c, b]) && Physical(tree, [b]) && Join([a]) in tree
      && tree[Join([a])] == Link(Text([c, d]))
  {
    PlainDiffer([a], [b]);
    PlainDiffer([a], [c]);
    PlainDiffer([a], [c, d]);
    PlainDiffer([a], [c, b]);
    PlainDiffer([c, d], [c, b]);
    PlainDiffer([c], [c, d]);
    PlainDiffer([c], [c, b]);
    PlainDiffer([b], [c, d]);
    PlainDiffer([b], [c, b]);
    assert [c, d][..1] == [c] && [c, d][..2] == [c, d] && [b][..1] == [b];
    assert [c, b][..1] == [c] && [c, b][..2] == [c, b];
  }

  lemma ExampleLink(a: string, b: string, c: string, d: string)
    requires IsName(a) && IsName(b) && IsName(c) && IsName(d) && a != b && a != c && b != d
    ensures Walk(ExampleTree(a, b, c, d), [], [a], 1) == Outcome(Ok([c, d]), 0)
  {
    var tree := ExampleTree(a, b, c, d);
    ExampleIsReal(a, b, c, d);
    TextOfPlain([c, d]);
    assert [] + [a] == [a];
    WalkOneFollows(tree, [], a, 1, [], [c, d]);
    WalkPhysicalFromRoot(tree, [c, d], 0);
  }

  lemma ExampleWalk(a: string, b: string, c: string, d: string)
    requires IsName(a) && IsName(b) && IsName(c) && IsName(d) && a != b && a != c && b != d
    ensures Walk(ExampleTree(a, b, c, d), [], [a, "..", b], 1) == Outcome(Ok([c, b]), 0)
  {
    var tree, rest := ExampleTree(a, b, c, d), ["..", b];
    ExampleLink(a, b, c, d);
    assert [a] + rest == [a, "..", b];
    WalkConcat(tree, [], [a], rest, 1);
    assert rest[1..] == [b] && [c, d][..1] == [c] && [c, b][..1] == [c] && [c, b][1..] == [b];
    ExampleIsReal(a, b, c, d);
    WalkPhysical(tree, [c, b], 1, 0);
  }

  /** Beside a link `a` to c/d, the target /a/../b means c/b; the rewritten target is b. */
  lemma RewrittenGoesElsewhere(a: string, b: string, c: string, d: string)
    requires IsName(a) && IsName(b) && IsName(c) && IsName(d) && a != b && a != c && b != d
    ensures var tree, target := ExampleTree(a, b, c, d), ExampleTarget(a, b);
      && RewrittenTarget([], target) == Ok(b)
      && Walk(tree, TargetBase([], target), TargetParts(target), 1) == Outcome(Ok([c, b]), 0)
      && Walk(tree, TargetBase([], b), TargetParts(b), 1) == Outcome(Ok([b]), 1)
  {
    var tree := ExampleTree(a, b, c, d);
    ExampleTexts(a, b);
    ExampleNormal(a, b);
    AbsoluteNormal(ExampleTarget(a, b));
    assert Ups(0) + [b] == [b] && Text([b]) == b;
    ExampleWalk(a, b, c, d);
    ExampleIsReal(a, b, c, d);
    TextOfPlain([b]);
    WalkPhysicalFromRoot(tree, [b], 1);
  }

  lemma WalkPhysicalThen(tree: Tree, shared: Path, down: seq<string>, budget: nat)
    requires Physical(tree, shared) && Plain(shared)
    ensures Walk(tree, [], shared + down, budget) == Walk(tree, shared, down, budget)
  {
    WalkPhysicalFromRoot(tree, shared, budget);
    WalkConcat(tree, [], shared, down, budget);
  }

  lemma CommonRejoins(target: Path, start: Path)
    ensures var n := CommonLength(target, start); start[..n] + target[n..] == target
  {
  }

  lemma PrefixIsReal(tree: Tree, start: Path, n: nat)
    requires Physical(tree, start) && Plain(start) && n <= |start|
    ensures Physical(tree, start[..n]) && Plain(start[..n])
  {
    PhysicalPrefix(tree, start, n);
  }

  lemma RelativeWalk(tree: Tree, target: Path, start: Path, budget: nat)
    requires Physical(tree, start) && Plain(start)
    ensures Walk(tree, start, RelativeTo(target, start), budget) == Walk(tree, [], target, budget)
  {
    var n := CommonLength(target, start);
    var shared, down := start[..n], target[n..];
    WalkUpThen(tree, start, n, down, budget);
    PrefixIsReal(tree, start, n);
    WalkPhysicalThen(tree, shared, down, budget);
    CommonRejoins(target, start);
  }

  /** The lexical part alone: an absolute target rewritten relative to the link's directory
      names the same place, and does not climb above the root on the way. */
  lemma RewrittenTargetIsSame(target: Path, start: Path)
    requires Plain(target) && Plain(start)
    ensures NormalizeParts(start + RelativeTo(target, start), []) == Ok(target)
  {
    NormalizeNames(start, []);
    assert [] + start == start;
    NormalizeConcat(start, RelativeTo(target, start), []);
    NormalizeRelative(target, start);
  }

  lemma NormalizeRelative(target: Path, start: Path)
    requires Plain(target)
    ensures NormalizeParts(RelativeTo(target, start), start) == Ok(target)
  {
    var n := CommonLength(target, start);
    var ups, down := Ups(|start| - n), target[n..];
    NormalizeConcat(ups, down, start);
    NormalizeUps(start, |start| - n);
    assert start[..|start| - (|start| - n)] == target[..n];
    NormalizeNames(down, target[..n]);
    assert target[..n] + down == target;
  }

  lemma {:induction false} NormalizeUps(stack: Path, n: nat)
    requires n <= |stack|
    ensures NormalizeParts(Ups(n), stack) == Ok(stack[..|stack| - n])
    decreases n
  {
    if n == 0 {
      assert stack[..|stack|] == stack;
    } else {
      var up := stack[..|stack| - 1];
      assert Ups(n)[1..] == Ups(n - 1);
      NormalizeUps(up, n - 1);
      assert up[..|up| - (n - 1)] == stack[..|stack| - n];
    }
  }
}