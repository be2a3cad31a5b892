/** The sysroot exporter's symlink resolver: a worklist walk that takes the sysroot as "/",
    against a recursive walk that resolves each link before it goes on. */
module Sysroot {
  import opened Common
  import opened PathText

  type Path = seq<string>

  const MAX_SYMLINK_HOPS: nat := 128

  /** What lstat finds at a path inside the sysroot. Blocked stands for any failure other
      than a missing file, such as a file where a directory is needed. */
  datatype Entry = Directory | File | Link(target: string) | Blocked

  /** The sysroot: the entries by the relative path text that lstat is asked for. */
  type Tree = map<string, Entry>

  datatype Error = Escapes | Broken | TooManyLinks | OsFailure

  // ----- path texts

  /** The root part of a POSIX path: two leading slashes are not the same as one or three. */
  function Root(path: string): seq<string> {
    if !IsRooted(path) then []
    else if |path| > 1 && path[1] == '/' && (|path| == 2 || path[2] != '/') then ["//"]
    else ["/"]
  }

  predicate IsRooted(path: string) {
    path != "" && path[0] == '/'
  }

  predicate DoubleSlash(path: string) {
    Root(path) == ["//"]
  }

  function DropDots(items: seq<string>): seq<string> {
    if items == [] then []
    else (if items[0] == "." then [] else [items[0]]) + DropDots(items[1..])
  }

  /** The parts of a path after its root: no empty ones and no ".". */
  function Segments(path: string): seq<string> {
    DropDots(Split(path))
  }

  function Parts(path: string): seq<string> {
    Root(path) + Segments(path)
  }

  function Text(path: Path): string {
    if path == [] then "." else Join(path)
  }

  /** The loop of normalize_rel_posix. */
  function NormalizeParts(parts: seq<string>, stack: Path): Result<Path, Error>
    decreases |parts|
  {
    if parts == [] then Ok(stack)
    else if parts[0] == "" || parts[0] == "." || parts[0] == "/" then NormalizeParts(parts[1..], stack)
    else if parts[0] == ".." then
      if stack == [] then Err(Escapes) else NormalizeParts(parts[1..], stack[..|stack| - 1])
    else NormalizeParts(parts[1..], stack + [parts[0]])
  }

  function Normalize(path: string): Result<Path, Error> {
    NormalizeParts(Parts(path), [])
  }

  method NormalizeRelPosix(path: string) returns (r: Result<string, Error>)
    ensures r == match Normalize(path) case Ok(p) => Ok(Text(p)) case Err(e) => Err(e)
  {
    var parts: Path := [];
    var all := Parts(path);
    assert all[0..] == all;
    for i := 0 to |all|
      invariant NormalizeParts(all, []) == NormalizeParts(all[i..], parts)
    {
      var part := all[i];
      assert all[i..][1..] == all[i + 1..];
      if part == "" || part == "." || part == "/" {
        continue;
      }
      if part == ".." {
        if parts == [] {
          return Err(Escapes);
        }
        parts := parts[..|parts| - 1];
      } else {
        parts := parts + [part];
      }
    }
    return Ok(if parts != [] then Join(parts) else ".");
  }

  // ----- the resolver

  /** The parts of a link target, without its root unless that is a double slash. */
  function TargetParts(target: string): seq<string> {
    if DoubleSlash(target) then ["//"] + Segments(target) else Segments(target)
  }

  function TargetBase(base: Path, target: string): Path {
    if IsRooted(target) then [] else base
  }

  /** What one part of a path does to the directory reached so far: move, stop, or follow
      a link whose target is walked from another directory. */
  datatype Step = Go(to: Path) | Follow(from: Path, target: seq<string>) | Halt(error: Error)

  function StepAt(tree: Tree, base: Path, part: string): Step {
    if part == "" || part == "." then Go(base)
    else if part == ".." then (if base == [] then Halt(Escapes) else Go(base[..|base| - 1]))
    else if Join(base + [part]) !in tree then Halt(Broken)
    else
      match tree[Join(base + [part])]
      case Blocked => Halt(OsFailure)
      case Link(target) => Follow(TargetBase(base, target), TargetParts(target))
      case _ => Go(base + [part])
  }

  /** The worklist loop, with the number of links that may still be followed. */
  function Loop(tree: Tree, resolved: Path, todo: seq<string>, budget: nat): Result<Path, Error>
    decreases budget, |todo|
  {
    if todo == [] then Ok(resolved)
    else
      match StepAt(tree, resolved, todo[0])
      case Halt(e) => Err(e)
      case Go(to) => Loop(tree, to, todo[1..], budget)
      case Follow(from, target) =>
        if budget == 0 then Err(TooManyLinks) else Loop(tree, from, target + todo[1..], budget - 1)
  }

  function Resolve(tree: Tree, rel: string): Result<Path, Error> {
    match Normalize(rel)
    case Err(e) => Err(e)
    case Ok(path) => Loop(tree, [], Todo(path), MAX_SYMLINK_HOPS)
  }

  /** The work list for a normalised path: the parts of its text. A root in the path can
      become another root that way. */
  function Todo(path: Path): seq<string> {
    if Text(path) == "." then [] else Parts(Text(path))
  }

  /** The loop as it runs. The hop count and the work list are its termination measure. */
  method FollowTodo(tree: Tree, start: seq<string>) returns (r: Result<Path, Error>)
    ensures r == Loop(tree, [], start, MAX_SYMLINK_HOPS)
  {
    var todo := start;
    var resolved: Path := [];
    var hops: nat := 0;
    while todo != []
      invariant hops <= MAX_SYMLINK_HOPS
      invariant Loop(tree, [], start, MAX_SYMLINK_HOPS) == Loop(tree, resolved, todo, MAX_SYMLINK_HOPS - hops)
      decreases MAX_SYMLINK_HOPS - hops, |todo|
    {
      var part := todo[0];
      todo := todo[1..];
      if part == "" || part == "." {
        continue;
      }
      if part == ".." {
        if resolved == [] {
          return Err(Escapes);
        }
        resolved := resolved[..|resolved| - 1];
        continue;
      }
      var candidate := Join(resolved + [part]);
      if candidate !in tree {
        return Err(Broken);
      }
      match tree[candidate]
      case Blocked => return Err(OsFailure);
      case Link(target) =>
        if hops + 1 > MAX_SYMLINK_HOPS {
          return Err(TooManyLinks);
        }
        hops := hops + 1;
        if IsRooted(target) {
          resolved := [];
        }
        todo := TargetParts(target) + todo;
      case _ => resolved := resolved + [part];
    }
    return Ok(resolved);
  }

  method ResolveSysrootRel(tree: Tree, rel: string) returns (r: Result<Path, Error>)
    ensures r == Resolve(tree, rel)
  {
    var normal := NormalizeRelPosix(rel);
    if normal.Err? {
      return Err(normal.error);
    }
    r := FollowTodo(tree, if normal.value == "." then [] else Parts(normal.value));
  }

  // ----- the reference: resolve a link completely, then go on

  /** Where a walk ends, and how many more links it could have followed. */
  datatype Outcome = Outcome(result: Result<Path, Error>, left: nat)

  function Walk(tree: Tree, base: Path, parts: seq<string>, budget: nat): (o: Outcome)
    ensures o.left <= budget
    decreases budget, |parts|
  {
    if parts == [] then Outcome(Ok(base), budget)
    else
      match StepAt(tree, base, parts[0])
      case Halt(e) => Outcome(Err(e), budget)
      case Go(to) => Walk(tree, to, parts[1..], budget)
      case Follow(from, target) =>
        if budget == 0 then Outcome(Err(TooManyLinks), 0)
        else
          var o := Walk(tree, from, target, budget - 1);
          if o.result.Err? then o else Walk(tree, o.result.value, parts[1..], o.left)
  }

  /** Walking a first part completely and then a second is walking both. */
  lemma {:induction false} WalkConcat(tree: Tree, base: Path, a: seq<string>, b: seq<string>, budget: nat)
    ensures var o := Walk(tree, base, a, budget);
      Walk(tree, base, a + b, budget) == if o.result.Err? then o else Walk(tree, o.result.value, b, o.left)
    decreases budget, |a|
  {
    if a == [] {
      assert a + b == b;
    } else {
      assert (a + b)[0] == a[0] && (a + b)[1..] == a[1..] + b;
      match StepAt(tree, base, a[0])
      case Halt(_) =>
      case Go(to) => WalkConcat(tree, to, a[1..], b, budget);
      case Follow(from, target) =>
        if budget > 0 {
          var o := Walk(tree, from, target, budget - 1);
          if o.result.Ok? {
            WalkConcat(tree, o.result.value, a[1..], b, o.left);
          }
        }
    }
  }

  /** The worklist loop computes the recursive walk, link budget included. */
  lemma {:induction false} LoopIsWalk(tree: Tree, resolved: Path, todo: seq<string>, budget: nat)
    ensures Loop(tree, resolved, todo, budget) == Walk(tree, resolved, todo, budget).result
    decreases budget, |todo|
  {
    if todo != [] {
      match StepAt(tree, resolved, todo[0])
      case Halt(_) =>
      case Go(to) => LoopIsWalk(tree, to, todo[1..], budget);
      case Follow(from, target) =>
        if budget > 0 {
          LoopIsWalk(tree, from, target + todo[1..], budget - 1);
          WalkConcat(tree, from, target, todo[1..], budget - 1);
        }
    }
  }

  lemma WalkFollows(tree: Tree, base: Path, parts: seq<string>, budget: nat, from: Path, target: seq<string>)
    requires parts != [] && budget > 0 && StepAt(tree, base, parts[0]) == Follow(from, target)
    ensures var o := Walk(tree, from, target, budget - 1);
      Walk(tree, base, parts, budget) == if o.result.Err? then o else Walk(tree, o.result.value, parts[1..], o.left)
  {
  }

  lemma WalkOneFollows(tree: Tree, base: Path, part: string, budget: nat, from: Path, target: seq<string>)
    requires budget > 0 && StepAt(tree, base, part) == Follow(from, target)
    ensures Walk(tree, base, [part], budget) == Walk(tree, from, target, budget - 1)
  {
    WalkFollows(tree, base, [part], budget, from, target);
    assert [part][1..] == [];
  }

  /** The budget only cuts a walk short: a walk that ends within some budget ends the same
      way within any budget that covers the links it followed. */
  lemma {:induction false} WalkShift(tree: Tree, base: Path, parts: seq<string>, budget: nat, other: nat)
    requires Walk(tree, base, parts, budget).result != Err(TooManyLinks)
    requires budget - Walk(tree, base, parts, budget).left <= other
    ensures var o := Walk(tree, base, parts, budget);
      Walk(tree, base, parts, other) == Outcome(o.result, other - (budget - o.left))
    decreases budget, |parts|
  {
    if parts != [] {
      match StepAt(tree, base, parts[0])
      case Halt(_) =>
      case Go(to) => WalkShift(tree, to, parts[1..], budget, other);
      case Follow(from, target) => WalkShiftFollow(tree, base, parts, budget, other, from, target);
    }
  }

  lemma {:induction false} WalkShiftFollow(tree: Tree, base: Path, parts: seq<string>, budget: nat, other: nat,
                                           from: Path, target: seq<string>)
    requires parts != [] && budget > 0 && StepAt(tree, base, parts[0]) == Follow(from, target)
    requires Walk(tree, base, parts, budget).result != Err(TooManyLinks)
    requires budget - Walk(tree, base, parts, budget).left <= other
    ensures var o := Walk(tree, base, parts, budget);
      Walk(tree, base, parts, other) == Outcome(o.result, other - (budget - o.left))
    decreases budget, 0
  {
    var o, rest := Walk(tree, from, target, budget - 1), parts[1..];
    WalkFollows(tree, base, parts, budget, from, target);
    WalkShift(tree, from, target, budget - 1, other - 1);
    WalkFollows(tree, base, parts, other, from, target);
    if o.result.Ok? {
      WalkShift(tree, o.result.value, rest, o.left, other - budget + o.left);
    }
  }
}
