/** Module paths: resolving a use against the current module, the module id it gets, and the
    second resolver that finds the source again from ids alone. Directories are sequences of
    names below the file system root. */
module ModulePath {
  import opened Common
  import opened PathText

  type Dir = seq<string>

  datatype Kind = Package | LocalRelative | RootRelative

  // ----- texts

  function KindOf(text: string): Kind {
    if "./" <= text || "../" <= text then LocalRelative
    else if "^/" <= text then RootRelative
    else Package
  }

  /** Applies the items of a use to a stack of local names. It fails when they climb above
      the package root, or when nothing is left. */
  function NormalizeFrom(stack: seq<string>, suffix: seq<string>): Option<seq<string>>
    decreases |suffix|
  {
    if suffix == [] then (if stack == [] then None else Some(stack))
    else if suffix[0] == "." then NormalizeFrom(stack, suffix[1..])
    else if suffix[0] == ".." then (if stack == [] then None else NormalizeFrom(stack[..|stack| - 1], suffix[1..]))
    else NormalizeFrom(stack + [suffix[0]], suffix[1..])
  }

  method NormalizeLocalPath(start: seq<string>, suffix: seq<string>) returns (r: Option<seq<string>>)
    ensures r == NormalizeFrom(start, suffix)
  {
    var stack := start;
    assert suffix[0..] == suffix;
    for i := 0 to |suffix|
      invariant NormalizeFrom(start, suffix) == NormalizeFrom(stack, suffix[i..])
    {
      var item := suffix[i];
      assert suffix[i..][1..] == suffix[i + 1..];
      if item == "." {
        continue;
      }
      if item == ".." {
        if stack == [] {
          return None;
        }
        stack := stack[..|stack| - 1];
      } else {
        stack := stack + [item];
      }
    }
    return if stack == [] then None else Some(stack);
  }

  function ModuleIdOf(package: string, local: string): string {
    if local == package then package else package + "/" + local
  }

  /** The package and local path that a module id is taken apart into. */
  function Decode(id: string): Option<(string, string)> {
    var parts := Split(id);
    if parts == [] then None
    else Some((parts[0], if |parts| == 1 then parts[0] else Join(parts[1..])))
  }

  /** The lexical normal form of an absolute path. */
  function LexicallyNormal(path: Dir, done: Dir): Dir
    decreases |path|
  {
    if path == [] then done
    else if path[0] == "." then LexicallyNormal(path[1..], done)
    else if path[0] == ".." then LexicallyNormal(path[1..], if done == [] then [] else done[..|done| - 1])
    else LexicallyNormal(path[1..], done + [path[0]])
  }

  /** Appends an extension to the last name. */
  function Extended(path: Dir, ext: string): Dir {
    if path == [] then [ext] else path[..|path| - 1] + [path[|path| - 1] + ext]
  }

  function SourcePathFor(root: Dir, local: string): Dir {
    LexicallyNormal(Extended(root + Split(local), ".dq"), [])
  }

  // ----- the first resolver

  /** The items of a use that apply below the place it starts from. */
  function Suffix(text: string): seq<string> {
    var items := Split(text);
    if KindOf(text) == RootRelative && items != [] && items[0] == "^" then items[1..] else items
  }

  /** Where a local use starts from: beside the current module, or at the package root. */
  function Start(text: string, currentLocal: string): seq<string> {
    var items := Split(currentLocal);
    if KindOf(text) != LocalRelative || items == [] then [] else items[..|items| - 1]
  }

  class ModulePath {
    var sourceText: string
    var packageName: string
    var localPath: string
    var rootDir: Dir
    var moduleId: string
    var sourcePath: Dir

    /** `packages` gives the root directory of each package that the search paths offer. */
    method ResolveFrom(current: ModulePath, packages: map<string, Dir>) returns (ok: bool)
      requires current != this
      modifies this
      ensures sourceText == old(sourceText)
      ensures var from := Resolved(sourceText, current.packageName, current.localPath, current.rootDir, packages);
        && ok == from.Some?
        && (ok ==> (packageName, localPath, rootDir) == from.value
                   && moduleId == ModuleIdOf(packageName, localPath) && sourcePath == SourcePathFor(rootDir, localPath))
        && (!ok ==> unchanged(this))
    {
      var package, local, root;
      if KindOf(sourceText) == Package {
        var parts := Split(sourceText);
        if parts == [] {
          return false;
        }
        package := parts[0];
        local := if |parts| == 1 then package else Join(parts[1..]);
        if package !in packages {
          return false;
        }
        root := packages[package];
      } else {
        package, root := current.packageName, current.rootDir;
        var stack := NormalizeLocalPath(Start(sourceText, current.localPath), Suffix(sourceText));
        if stack.None? {
          return false;
        }
        local := Join(stack.value);
      }
      packageName, localPath, rootDir := package, local, root;
      moduleId := ModuleIdOf(package, local);
      sourcePath := SourcePathFor(root, local);
      return true;
    }
  }

  /** The package, local path and root directory that a use resolves to. */
  function Resolved(text: string, package: string, local: string, root: Dir,
                    packages: map<string, Dir>): Option<(string, string, Dir)> {
    if KindOf(text) == Package then
      match Decode(text)
      case None => None
      case Some((p, l)) => if p in packages then Some((p, l, packages[p])) else None
    else
      match NormalizeFrom(Start(text, local), Suffix(text))
      case None => None
      case Some(stack) => Some((package, Join(stack), root))
  }

  // ----- the second resolver

  function WithoutExtension(name: string, i: nat): (stem: string)
    requires i <= |name|
    decreases i
  {
    if i <= 1 then name
    else if name[i - 1] == '.' then name[..i - 1]
    else WithoutExtension(name, i - 1)
  }

  function Ancestor(path: Dir, n: nat): Dir {
    if n == 0 || path == [] then path else Ancestor(path[..|path| - 1], n - 1)
  }

  /** The root directory of a module, from its source file and the number of parts of its id. */
  function ContextRoot(source: Dir, parts: nat): Dir
    requires source != [] && parts > 0
  {
    var last := source[|source| - 1];
    Ancestor(source[..|source| - 1] + [WithoutExtension(last, |last|)], parts - 1)
  }

  /** Finds the source of a module from its id and the id and source of the module that
      mentions it. `package` is the root the search paths give for the target's package;
      `buildRoot` is used for a context artifact that was built locally. */
  function ResolveCanonicalSource(id: string, contextId: string, contextSource: Dir, package: Option<Dir>,
                                  builtLocally: bool, buildRoot: Dir): Option<Dir> {
    match Decode(id)
    case None => None
    case Some((packageName, local)) =>
      var context := Split(contextId);
      if contextSource != [] && |Split(id)| > 1 && |context| > 1 && context[0] == packageName
      then Some(SourcePathFor(ContextRoot(contextSource, |context|), local))
      else if package.Some? then Some(SourcePathFor(package.value, local))
      else if context != [] && context[0] == packageName && builtLocally then Some(SourcePathFor(buildRoot, local))
      else None
  }

  // ----- local uses stay inside the package

  lemma {:induction false} NormalizeIsPlain(stack: seq<string>, suffix: seq<string>)
    requires Plain(stack) && forall i :: 0 <= i < |suffix| ==> IsItem(suffix[i])
    ensures var r := NormalizeFrom(stack, suffix); r.Some? ==> r.value != [] && Plain(r.value)
    decreases |suffix|
  {
    if suffix != [] {
      if suffix[0] == "." {
        NormalizeIsPlain(stack, suffix[1..]);
      } else if suffix[0] == ".." {
        if stack != [] {
          NormalizeIsPlain(stack[..|stack| - 1], suffix[1..]);
        }
      } else {
        NormalizeIsPlain(stack + [suffix[0]], suffix[1..]);
      }
    }
  }

  /** How far an item moves down from the package root. */
  function Weight(item: string): int {
    if item == "." then 0 else if item == ".." then -1 else 1
  }

  function Depth(items: seq<string>): int {
    if items == [] then 0 else Weight(items[0]) + Depth(items[1..])
  }

  /** A use resolves exactly when no prefix of it climbs above the package root and something
      is left at the end; the result is as deep as the items say. */
  lemma {:induction false} NormalizesIff(stack: seq<string>, suffix: seq<string>)
    ensures NormalizeFrom(stack, suffix).Some? <==>
      (forall k :: 0 <= k <= |suffix| ==> |stack| + Depth(suffix[..k]) >= 0) && |stack| + Depth(suffix) > 0
    ensures NormalizeFrom(stack, suffix).Some? ==> |NormalizeFrom(stack, suffix).value| == |stack| + Depth(suffix)
    decreases |suffix|
  {
    if suffix == [] {
      assert suffix[..0] == [];
    } else {
      var rest := suffix[1..];
      assert forall k :: 0 < k <= |suffix| ==> suffix[..k][1..] == rest[..k - 1];
      assert forall k :: 0 < k <= |suffix| ==> Depth(suffix[..k]) == Weight(suffix[0]) + Depth(rest[..k - 1]);
      assert forall k :: 0 <= k <= |rest| ==> rest[..k] == suffix[..k + 1][1..];
      if suffix[0] == "." {
        NormalizesIff(stack, rest);
      } else if suffix[0] == ".." {
        if stack == [] {
          assert Depth(suffix[..1]) == -1;
        } else {
          NormalizesIff(stack[..|stack| - 1], rest);
        }
      } else {
        NormalizesIff(stack + [suffix[0]], rest);
      }
    }
  }

  /** Plain names are appended. */
  lemma {:induction false} NamesAppend(stack: seq<string>, names: seq<string>)
    requires Plain(names)
    ensures NormalizeFrom(stack, names) == if stack + names == [] then None else Some(stack + names)
    decreases |names|
  {
    if names == [] {
      assert stack + names == stack;
    } else {
      NamesAppend(stack + [names[0]], names[1..]);
      assert stack + [names[0]] + names[1..] == stack + names;
    }
  }

  lemma DownAndUp(stack: seq<string>, x: string, b: seq<string>)
    requires x != "." && x != ".."
    ensures NormalizeFrom(stack, [x, ".."] + b) == NormalizeFrom(stack, b)
  {
    var items := [x, ".."] + b;
    assert items[0] == x && items[1..] == [".."] + b && items[1..][1..] == b;
    assert (stack + [x])[..|stack|] == stack;
  }

  /** Anywhere in a use, a name and the ".." behind it cancel out. */
  lemma {:induction false} NameAndUpCancel(stack: seq<string>, a: seq<string>, x: string, b: seq<string>)
    requires x != "." && x != ".."
    ensures NormalizeFrom(stack, a + ([x, ".."] + b)) == NormalizeFrom(stack, a + b)
    decreases |a|
  {
    if a == [] {
      assert a + ([x, ".."] + b) == [x, ".."] + b && a + b == b;
      DownAndUp(stack, x, b);
    } else {
      assert (a + ([x, ".."] + b))[1..] == a[1..] + ([x, ".."] + b) && (a + b)[1..] == a[1..] + b;
      if a[0] == "." {
        NameAndUpCancel(stack, a[1..], x, b);
      } else if a[0] == ".." {
        if stack != [] {
          NameAndUpCancel(stack[..|stack| - 1], a[1..], x, b);
        }
      } else {
        NameAndUpCancel(stack + [a[0]], a[1..], x, b);
      }
    }
  }

  lemma {:induction false} NormalOfPlain(path: Dir, done: Dir)
    requires Plain(path)
    ensures LexicallyNormal(path, done) == done + path
    decreases |path|
  {
    if path == [] {
      assert done + path == done;
    } else {
      NormalOfPlain(path[1..], done + [path[0]]);
      assert done + [path[0]] + path[1..] == done + path;
    }
  }

  lemma ExtendedIsPlain(path: Dir)
    requires Plain(path) && path != []
    ensures Plain(Extended(path, ".dq"))
  {
    var last := path[|path| - 1] + ".dq";
    assert |last| > 3 && '/' !in last;
  }

  lemma ExtendedBelow(root: Dir, local: seq<string>)
    requires local != []
    ensures Extended(root + local, ".dq") == root + Extended(local, ".dq")
  {
    assert (root + local)[..|root + local| - 1] == root + local[..|local| - 1];
    ConcatAssociative(root, local[..|local| - 1], [local[|local| - 1] + ".dq"]);
  }

  lemma NormalOfExtended(path: Dir)
    requires Plain(path) && path != []
    ensures LexicallyNormal(Extended(path, ".dq"), []) == Extended(path, ".dq")
  {
    ExtendedIsPlain(path);
    NormalOfPlain(Extended(path, ".dq"), []);
  }

  lemma SourceOfPlain(root: Dir, local: seq<string>)
    requires Plain(root) && Plain(local) && local != []
    ensures Split(Join(local)) == local
    ensures SourcePathFor(root, Join(local)) == root + Extended(local, ".dq")
  {
    SplitJoin(local);
    NormalOfExtended(root + local);
    ExtendedBelow(root, local);
  }

  /** A local use that resolves stays below the package root: its path is made of plain
      names, and its source file is the one these names lead to from the root. */
  lemma LocalUseStaysInside(text: string, package: string, local: seq<string>, root: Dir, packages: map<string, Dir>)
    requires KindOf(text) != Package && Plain(root) && Plain(local) && local != []
    requires Resolved(text, package, Join(local), root, packages).Some?
    ensures var r := Resolved(text, package, Join(local), root, packages).value;
      && r.0 == package && r.2 == root
      && exists names: seq<string> ::
           && names != [] && Plain(names) && r.1 == Join(names)
           && SourcePathFor(root, r.1) == root + Extended(names, ".dq")
  {
    SplitJoin(local);
    NormalizeIsPlain(Start(text, Join(local)), Suffix(text));
    var names := NormalizeFrom(Start(text, Join(local)), Suffix(text)).value;
    SourceOfPlain(root, names);
  }

  // ----- which module a use names

  /** A path text whose first item is `first`. */
  lemma SplitUse(first: string, names: seq<string>)
    requires '/' !in first && first != "" && Plain(names) && names != []
    ensures Split(first + "/" + Join(names)) == [first] + names
  {
    SplitJoin(names);
    SplitFirst(first, Join(names));
  }

  lemma StartBeside(text: string, dirs: seq<string>, m: string)
    requires KindOf(text) == LocalRelative && Plain(dirs) && IsName(m)
    ensures Start(text, Join(dirs + [m])) == dirs
  {
    SplitJoin(dirs + [m]);
    assert (dirs + [m])[..|dirs|] == dirs;
  }

  lemma LocalKinds(rest: string)
    ensures KindOf("." + "/" + rest) == LocalRelative && KindOf(".." + "/" + rest) == LocalRelative
    ensures KindOf("^" + "/" + rest) == RootRelative
  {
    var a, b, c := "." + "/" + rest, ".." + "/" + rest, "^" + "/" + rest;
    assert a[..2] == "./" && b[..3] == "../" && c[..2] == "^/";
    assert a[0] == '.' && b[0] == '.' && c[0] == '^';
  }

  /** "./names" names a module beside the current one. */
  lemma UseBeside(dirs: seq<string>, m: string, names: seq<string>, package: string, root: Dir,
                  packages: map<string, Dir>)
    requires Plain(dirs) && IsName(m) && Plain(names) && names != []
    ensures Resolved("." + "/" + Join(names), package, Join(dirs + [m]), root, packages)
         == Some((package, Join(dirs + names), root))
  {
    var text := "." + "/" + Join(names);
    LocalKinds(Join(names));
    SplitUse(".", names);
    StartBeside(text, dirs, m);
    assert (["."] + names)[1..] == names;
    NamesAppend(dirs, names);
  }

  /** "../names" names a module in the directory above, if there is one. */
  lemma UseAbove(dirs: seq<string>, m: string, names: seq<string>, package: string, root: Dir,
                  packages: map<string, Dir>)
    requires Plain(dirs) && IsName(m) && Plain(names) && names != []
    ensures Resolved(".." + "/" + Join(names), package, Join(dirs + [m]), root, packages)
         == if dirs == [] then None else Some((package, Join(dirs[..|dirs| - 1] + names), root))
  {
    var text := ".." + "/" + Join(names);
    LocalKinds(Join(names));
    SplitUse("..", names);
    StartBeside(text, dirs, m);
    UpAndNames(dirs, names);
  }

  lemma UpAndNames(dirs: seq<string>, names: seq<string>)
    requires Plain(names) && names != []
    ensures NormalizeFrom(dirs, [".."] + names) == if dirs == [] then None else Some(dirs[..|dirs| - 1] + names)
  {
    assert ([".."] + names)[1..] == names;
    if dirs != [] {
      NamesAppend(dirs[..|dirs| - 1], names);
    }
  }

  /** "^/names" names a module from the package root, wherever it is used. */
  lemma UseFromRoot(local: string, names: seq<string>, package: string, root: Dir, packages: map<string, Dir>)
    requires Plain(names) && names != []
    ensures Resolved("^" + "/" + Join(names), package, local, root, packages) == Some((package, Join(names), root))
  {
    var text := "^" + "/" + Join(names);
    LocalKinds(Join(names));
    SplitUse("^", names);
    assert (["^"] + names)[1..] == names && [] + names == names;
    NamesAppend([], names);
  }

  lemma FirstItemOf(item: string, rest: string, first: string)
    requires '/' !in item && '/' !in first
    ensures first + "/" <= item + "/" + rest <==> item == first
    ensures !(first + "/" <= item)
  {
    var text, prefix := item + "/" + rest, first + "/";
    assert prefix[|first|] == '/';
    if prefix <= text {
      assert text[|first|] == '/' && text[|item|] == '/';
      assert forall k :: 0 <= k < |first| ==> text[k] == first[k];
      assert forall k :: 0 <= k < |item| ==> text[k] == item[k];
      assert |first| == |item|;
    }
  }

  lemma PackageKind(items: seq<string>)
    requires Plain(items) && items != [] && (items[0] == "^" ==> |items| == 1)
    ensures KindOf(Join(items)) == Package
  {
    var rest := Join(items[1..]);
    FirstItemOf(items[0], rest, ".");
    FirstItemOf(items[0], rest, "..");
    FirstItemOf(items[0], rest, "^");
    assert "." + "/" == "./" && ".." + "/" == "../" && "^" + "/" == "^/";
  }

  /** Any other use names a module of the package that its first item names, under the root of
      that package; the package alone names its main module. */
  lemma UseOfPackage(items: seq<string>, local: string, package: string, root: Dir, packages: map<string, Dir>)
    requires Plain(items) && items != [] && (items[0] == "^" ==> |items| == 1)
    ensures Resolved(Join(items), package, local, root, packages)
         == if items[0] !in packages then None
            else Some((items[0], if |items| == 1 then items[0] else Join(items[1..]), packages[items[0]]))
  {
    SplitJoin(items);
    PackageKind(items);
  }

  /** The id of a module is its local path below the package, and its source file carries that
      path and the extension below the package root. */
  lemma IdAndSource(package: string, root: Dir, dirs: seq<string>, m: string)
    requires IsName(package) && Plain(root) && Plain(dirs) && IsName(m)
    ensures SourcePathFor(root, Join(dirs + [m])) == root + dirs + [m + ".dq"]
    ensures ModuleIdOf(package, package) == package
    ensures Join(dirs + [m]) != package ==> ModuleIdOf(package, Join(dirs + [m])) == Join([package] + (dirs + [m]))
  {
    var local := dirs + [m];
    SourceOfPlain(root, local);
    assert local[..|dirs|] == dirs && ([package] + local)[1..] == local;
    ConcatAssociative(root, dirs, [m + ".dq"]);
  }

  // ----- ids

  /** The id of a module of a package takes apart into that package and its local path. */
  lemma IdDecodes(package: string, local: seq<string>)
    requires IsName(package) && Plain(local) && local != []
    ensures Decode(ModuleIdOf(package, Join(local))) == Some((package, Join(local)))
    ensures Split(ModuleIdOf(package, Join(local))) == if Join(local) == package then [package] else [package] + local
  {
    SplitItem(package);
    SplitJoin(local);
    if Join(local) != package {
      SplitFirst(package, Join(local));
      assert ([package] + local)[1..] == local;
    }
  }

  // ----- the two resolvers agree

  lemma {:induction false} AncestorOf(root: Dir, below: seq<string>)
    ensures Ancestor(root + below, |below|) == root
    decreases |below|
  {
    if below == [] {
      assert root + below == root;
    } else {
      AncestorOf(root, below[..|below| - 1]);
      assert (root + below)[..|root + below| - 1] == root + below[..|below| - 1];
    }
  }

  lemma StemOf(name: string)
    requires name != ""
    ensures WithoutExtension(name + ".dq", |name + ".dq"|) == name
  {
    var n := name + ".dq";
    assert n[|n| - 1] == 'q' && n[|n| - 2] == 'd' && n[|n| - 3] == '.' && n[..|n| - 3] == name;
    assert WithoutExtension(n, |n|) == WithoutExtension(n, |n| - 1) == WithoutExtension(n, |n| - 2);
  }

  lemma ContextRootOf(root: Dir, local: seq<string>)
    requires Plain(local) && local != []
    ensures ContextRoot(root + Extended(local, ".dq"), |local| + 1) == root
  {
    var source := root + Extended(local, ".dq");
    var last := local[|local| - 1];
    StemOf(last);
    assert source[|source| - 1] == last + ".dq";
    assert source[..|source| - 1] + [last] == root + local;
    AncestorOf(root, local);
  }

  lemma SourcePathInjective(a: Dir, b: Dir, local: seq<string>)
    requires Plain(a) && Plain(b) && Plain(local) && local != []
    ensures SourcePathFor(a, Join(local)) == SourcePathFor(b, Join(local)) <==> a == b
  {
    SourceOfPlain(a, local);
    SourceOfPlain(b, local);
    var tail := Extended(local, ".dq");
    if a + tail == b + tail {
      assert (a + tail)[..|a|] == a && (b + tail)[..|b|] == b;
    }
  }

  /** With two long ids of one package the second resolver goes by the context source;
      otherwise it uses the search root, or the build root of a local artifact. */
  lemma SecondResolver(package: string, current: seq<string>, target: seq<string>, root: Dir,
                       search: Option<Dir>, builtLocally: bool, buildRoot: Dir)
    requires IsName(package) && Plain(root)
    requires Plain(current) && current != [] && Plain(target) && target != []
    ensures var contextId, id := ModuleIdOf(package, Join(current)), ModuleIdOf(package, Join(target));
      ResolveCanonicalSource(id, contextId, SourcePathFor(root, Join(current)), search, builtLocally, buildRoot)
        == if Join(current) != package && Join(target) != package then Some(SourcePathFor(root, Join(target)))
           else if search.Some? then Some(SourcePathFor(search.value, Join(target)))
           else if builtLocally then Some(SourcePathFor(buildRoot, Join(target)))
           else None
  {
    IdDecodes(package, current);
    IdDecodes(package, target);
    SourceOfPlain(root, current);
    if Join(current) != package && Join(target) != package {
      ContextRootOf(root, current);
    }
  }

  /** A module of another package, or one without a context source, is only found by the search
      path, or in the build root for a local artifact of its own package. */
  lemma WithoutContextSource(package: string, other: string, current: seq<string>, target: seq<string>, source: Dir,
                             search: Option<Dir>, builtLocally: bool, buildRoot: Dir)
    requires IsName(package) && IsName(other) && (other != package || source == [])
    requires Plain(current) && current != [] && Plain(target) && target != []
    ensures var contextId, id := ModuleIdOf(other, Join(current)), ModuleIdOf(package, Join(target));
      ResolveCanonicalSource(id, contextId, source, search, builtLocally, buildRoot)
        == if search.Some? then Some(SourcePathFor(search.value, Join(target)))
           else if other == package && builtLocally then Some(SourcePathFor(buildRoot, Join(target)))
           else None
    ensures forall id :: Split(id) == [] ==>
      ResolveCanonicalSource(id, other, source, search, builtLocally, buildRoot) == None
  {
    IdDecodes(other, current);
    IdDecodes(package, target);
  }

  /** Both resolvers find the same source for a module of the current package exactly when
      both ids have more than one part, or the root that is searched instead happens to be
      the package root: the search path's, else the build root of a local artifact. */
  lemma ResolversAgreeIff(package: string, current: seq<string>, target: seq<string>, root: Dir,
                          search: Option<Dir>, builtLocally: bool, buildRoot: Dir)
    requires IsName(package) && Plain(root) && Plain(buildRoot) && (search.Some? ==> Plain(search.value))
    requires Plain(current) && current != [] && Plain(target) && target != []
    ensures var contextId, id := ModuleIdOf(package, Join(current)), ModuleIdOf(package, Join(target));
      ResolveCanonicalSource(id, contextId, SourcePathFor(root, Join(current)), search, builtLocally, buildRoot)
        == Some(SourcePathFor(root, Join(target)))
      <==>
      || (Join(current) != package && Join(target) != package)
      || (if search.Some? then search.value == root else builtLocally && buildRoot == root)
  {
    SecondResolver(package, current, target, root, search, builtLocally, buildRoot);
    if search.Some? {
      SourcePathInjective(search.value, root, target);
    }
    SourcePathInjective(buildRoot, root, target);
  }

  /** They disagree for any module used from the main module of a package, whose id is the
      package alone, when the search paths offer another root for that package. */
  lemma ResolversDisagree(package: string, target: seq<string>, root: Dir, other: Dir)
    requires IsName(package) && Plain(root) && Plain(other) && root != other && Plain(target) && target != []
    ensures var id := ModuleIdOf(package, Join(target));
      ResolveCanonicalSource(id, package, SourcePathFor(root, package), Some(other), false, root)
        == Some(SourcePathFor(other, Join(target)))
        != Some(SourcePathFor(root, Join(target)))
  {
    assert Join([package]) == package;
    SecondResolver(package, [package], target, root, Some(other), false, root);
    SourcePathInjective(other, root, target);
  }
}
