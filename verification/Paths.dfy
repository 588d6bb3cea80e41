/** Storage paths: the lexical rules of Go's path and filepath packages (on '/'), the identifiers a
    store accepts and the paths it resolves. */
module Paths {
  import opened Wrappers
  import opened Text

  type Components = seq<string>

  // Cleaning, component by component

  /** One component met while cleaning: empty and "." vanish, ".." cancels a name before it. */
  function Step(stack: Components, c: string, rooted: bool): Components {
    if c == "" || c == "." then stack
    else if c == ".." then
      (if stack != [] && stack[|stack| - 1] != ".." then stack[..|stack| - 1]
       else if rooted then stack
       else stack + [".."])
    else stack + [c]
  }

  function Walk(stack: Components, parts: Components, rooted: bool): Components
    decreases |parts|
  {
    if parts == [] then stack else Walk(Step(stack, parts[0], rooted), parts[1..], rooted)
  }

  predicate IsAbs(path: string) {
    path != "" && path[0] == '/'
  }

  /** The components a path comes down to. */
  function Reduced(path: string): Components {
    Walk([], Split(path, '/'), IsAbs(path))
  }

  function Render(rooted: bool, comps: Components): string {
    if rooted then "/" + Join(comps, '/') else if comps == [] then "." else Join(comps, '/')
  }

  /** path.Clean. */
  function Clean(path: string): string {
    Render(IsAbs(path), Reduced(path))
  }

  /** path.Join: empty elements are left out and the rest is cleaned. */
  function JoinPath(elems: seq<string>): string {
    if elems == [] then ""
    else if elems[0] == "" then JoinPath(elems[1..])
    else Clean(Join(elems, '/'))
  }

  /** A component that names something: no separator, not empty, neither "." nor "..". */
  predicate Name(c: string) {
    c != "" && c != "." && c != ".." && '/' !in c
  }

  ghost predicate Names(comps: Components) {
    forall i :: 0 <= i < |comps| ==> Name(comps[i])
  }

  /** What cleaning leaves: names, after a run of ".." that a rooted path cannot have. */
  ghost predicate Settled(comps: Components, rooted: bool) {
    forall i :: 0 <= i < |comps| ==>
      Name(comps[i]) || (comps[i] == ".." && !rooted && forall j :: 0 <= j < i ==> comps[j] == "..")
  }

  lemma {:induction false} WalkSettles(stack: Components, parts: Components, rooted: bool)
    requires Settled(stack, rooted)
    requires forall i :: 0 <= i < |parts| ==> '/' !in parts[i]
    ensures Settled(Walk(stack, parts, rooted), rooted)
    decreases |parts|
  {
    if parts != [] {
      StepSettles(stack, parts[0], rooted);
      WalkSettles(Step(stack, parts[0], rooted), parts[1..], rooted);
    }
  }

  lemma StepSettles(stack: Components, c: string, rooted: bool)
    requires Settled(stack, rooted) && '/' !in c
    ensures Settled(Step(stack, c, rooted), rooted)
  {
  }

  /** Settled components are taken over as they are. */
  lemma {:induction false} WalkSettled(stack: Components, parts: Components, rooted: bool)
    requires Settled(stack + parts, rooted)
    ensures Walk(stack, parts, rooted) == stack + parts
    decreases |parts|
  {
    if parts == [] {
      assert stack + parts == stack;
    } else {
      assert (stack + parts)[|stack|] == parts[0];
      var next := stack + [parts[0]];
      if parts[0] == ".." && stack != [] {
        assert (stack + parts)[|stack| - 1] == stack[|stack| - 1];
      }
      assert Step(stack, parts[0], rooted) == next;
      assert next + parts[1..] == stack + parts;
      WalkSettled(next, parts[1..], rooted);
    }
  }

  lemma {:induction false} WalkAppend(stack: Components, a: Components, b: Components, rooted: bool)
    ensures Walk(stack, a + b, rooted) == Walk(Walk(stack, a, rooted), b, rooted)
    decreases |a|
  {
    if a == [] {
      assert a + b == b;
    } else {
      assert (a + b)[1..] == a[1..] + b;
      WalkAppend(Step(stack, a[0], rooted), a[1..], b, rooted);
    }
  }

  /** Names are appended to whatever came before. */
  lemma {:induction false} WalkNames(stack: Components, names: Components, rooted: bool)
    requires Names(names)
    ensures Walk(stack, names, rooted) == stack + names
    decreases |names|
  {
    if names != [] {
      WalkNames(stack + [names[0]], names[1..], rooted);
      assert stack + [names[0]] + names[1..] == stack + names;
    }
  }

  lemma ReducedSettled(path: string)
    ensures Settled(Reduced(path), IsAbs(path))
  {
    JoinSplit(path, '/');
    WalkSettles([], Split(path, '/'), IsAbs(path));
  }

  /** The walk over the components of a settled list gives the list back. */
  lemma WalkJoined(rooted: bool, comps: Components)
    requires Settled(comps, rooted) && comps != []
    ensures Split(Join(comps, '/'), '/') == comps && Walk([], comps, rooted) == comps
    ensures Join(comps, '/') != "" && Join(comps, '/')[0] != '/'
  {
    assert forall i :: 0 <= i < |comps| ==> '/' !in comps[i] && comps[i] != "";
    SplitJoin(comps, '/');
    JoinStarts(comps);
    assert comps[0][0] in comps[0];
    WalkSettled([], comps, rooted);
    assert [] + comps == comps;
  }

  lemma ReducedOfEmpty(rooted: bool)
    ensures Reduced(Render(rooted, [])) == []
  {
    assert "/"[1..] == "";
    assert Split("/", '/') == ["", ""] && ["", ""][1..] == [""] && [""][1..] == [];
    SplitPlain(".", '/');
    assert ["."][1..] == [];
  }

  /** A settled list of components is read back from its rendering. */
  lemma ReducedOfRender(rooted: bool, comps: Components)
    requires Settled(comps, rooted)
    ensures Reduced(Render(rooted, comps)) == comps
    ensures IsAbs(Render(rooted, comps)) == rooted
  {
    if comps == [] {
      ReducedOfEmpty(rooted);
    } else {
      WalkJoined(rooted, comps);
      if rooted {
        var text := Join(comps, '/');
        assert "/" + text == "" + ['/'] + text;
        SplitAppend("", text, '/');
        assert ([""] + comps)[1..] == comps;
      }
    }
  }

  lemma JoinStarts(comps: Components)
    requires comps != [] && comps[0] != ""
    ensures Join(comps, '/') != "" && Join(comps, '/')[0] == comps[0][0]
  {
  }

  /** Cleaning a second time changes nothing. */
  lemma CleanIdempotent(path: string)
    ensures Clean(Clean(path)) == Clean(path)
  {
    ReducedSettled(path);
    ReducedOfRender(IsAbs(path), Reduced(path));
  }

  /** A cleaned path is its components joined; without any it is the root or ".". */
  lemma CleanIs(path: string)
    ensures Clean(path) != "" && (Clean(path) == "." <==> !IsAbs(path) && Reduced(path) == [])
    ensures Clean(path) == "/" <==> IsAbs(path) && Reduced(path) == []
    ensures Reduced(path) != [] ==> Split(Clean(path), '/') == (if IsAbs(path) then [""] else []) + Reduced(path)
  {
    var comps := Reduced(path);
    ReducedSettled(path);
    if comps == [] {
      assert Clean(path) == if IsAbs(path) then "/" else ".";
    } else {
      WalkJoined(IsAbs(path), comps);
      SplitAppend("", Join(comps, '/'), '/');
      assert "" + ['/'] + Join(comps, '/') == "/" + Join(comps, '/');
      NotJustADot(comps, IsAbs(path));
    }
  }

  lemma NotJustADot(comps: Components, rooted: bool)
    requires Settled(comps, rooted) && comps != []
    ensures Join(comps, '/') != "" && Join(comps, '/') != "."
  {
    SplitPlain(".", '/');
    WalkJoined(rooted, comps);
    assert comps[0] != ".";
  }

  lemma ReducedOfClean(path: string)
    ensures Reduced(Clean(path)) == Reduced(path) && IsAbs(Clean(path)) == IsAbs(path)
  {
    ReducedSettled(path);
    ReducedOfRender(IsAbs(path), Reduced(path));
  }

  /** Joining a suffix to a nonempty path walks on from where the path had come. */
  lemma ReducedJoin(path: string, suffix: string)
    requires path != ""
    ensures Reduced(path + "/" + suffix) == Walk(Reduced(path), Split(suffix, '/'), IsAbs(path))
    ensures IsAbs(path + "/" + suffix) == IsAbs(path)
  {
    assert path + "/" + suffix == path + ['/'] + suffix;
    SplitAppend(path, suffix, '/');
    WalkAppend([], Split(path, '/'), Split(suffix, '/'), IsAbs(path));
  }

  /** What cleaning may drop: a name with the ".." that follows it, ".", and doubled separators. */
  lemma DetoursCleaned(path: string, name: string, suffix: string)
    requires path != "" && Name(name)
    ensures Clean(path + "/" + (name + "/" + (".." + "/" + suffix))) == Clean(path + "/" + suffix)
    ensures Clean(path + "/" + ("." + "/" + suffix)) == Clean(path + "/" + suffix)
    ensures Clean(path + "/" + ("" + "/" + suffix)) == Clean(path + "/" + suffix)
  {
    var rest := Split(suffix, '/');
    ReducedJoin(path, suffix);
    ReducedAfter(path, "", suffix);
    ReducedAfter(path, ".", suffix);
    assert ([""] + rest)[1..] == rest && (["."] + rest)[1..] == rest;
    NamedDetour(path, name, suffix);
  }

  lemma NamedDetour(path: string, name: string, suffix: string)
    requires path != "" && Name(name)
    ensures Reduced(path + "/" + (name + "/" + (".." + "/" + suffix))) == Reduced(path + "/" + suffix)
    ensures IsAbs(path + "/" + (name + "/" + (".." + "/" + suffix))) == IsAbs(path + "/" + suffix)
  {
    ReducedJoin(path, suffix);
    SplitAfter("..", suffix);
    ReducedAfter(path, name, ".." + "/" + suffix);
    WalkDetour(Reduced(path), name, Split(suffix, '/'), IsAbs(path));
  }

  lemma ReducedAfter(path: string, c: string, suffix: string)
    requires path != "" && '/' !in c
    ensures Reduced(path + "/" + (c + "/" + suffix)) == Walk(Reduced(path), [c] + Split(suffix, '/'), IsAbs(path))
    ensures IsAbs(path + "/" + (c + "/" + suffix)) == IsAbs(path)
  {
    SplitAfter(c, suffix);
    ReducedJoin(path, c + "/" + suffix);
  }

  lemma WalkDetour(stack: Components, name: string, rest: Components, rooted: bool)
    requires Name(name)
    ensures Walk(stack, [name] + ([".."] + rest), rooted) == Walk(stack, rest, rooted)
  {
    assert ([name] + ([".."] + rest))[1..] == [".."] + rest && ([".."] + rest)[1..] == rest;
    assert (stack + [name])[..|stack|] == stack;
  }

  lemma SplitAfter(c: string, suffix: string)
    requires '/' !in c
    ensures Split(c + "/" + suffix, '/') == [c] + Split(suffix, '/')
  {
    assert c + "/" + suffix == c + ['/'] + suffix;
    SplitAppend(c, suffix, '/');
    SplitPlain(c, '/');
  }

  // Identifiers and the paths made of them

  /** validateIdentifiers on one component. The component "." passes. */
  predicate ValidIdentifier(p: string) {
    p != "" && !ContainsPair(p, '.', '.') && '/' !in p && '\\' !in p
  }

  predicate ValidIdentifiers(product: string, version: string, filename: string) {
    ValidIdentifier(product) && ValidIdentifier(version) && ValidIdentifier(filename)
  }

  /** A name without two dots in a row and without a separator of either kind. */
  ghost predicate PlainIdentifier(p: string) {
    p != "" && forall a, b :: p != a + ".." + b && p != a + "/" + b && p != a + "\\" + b
  }

  lemma CharOccurs(s: string, c: char)
    ensures c in s <==> exists a, b :: s == a + [c] + b
  {
    if c in s {
      var i :| 0 <= i < |s| && s[i] == c;
      assert s == s[..i] + [c] + s[i + 1..];
    }
    forall a, b | s == a + [c] + b
      ensures c in s
    {
      assert s[|a|] == c;
    }
  }

  lemma PairOccurs(s: string, c: char, d: char)
    ensures ContainsPair(s, c, d) <==> exists a, b :: s == a + [c, d] + b
  {
    if ContainsPair(s, c, d) {
      var i :| 0 <= i < |s| - 1 && s[i] == c && s[i + 1] == d;
      assert s == s[..i] + [c, d] + s[i + 2..];
    }
    forall a, b | s == a + [c, d] + b
      ensures ContainsPair(s, c, d)
    {
      assert s[|a|] == c && s[|a| + 1] == d;
    }
  }

  /** What is accepted, by what a name contains. */
  lemma ValidExactly(p: string)
    ensures ValidIdentifier(p) <==> PlainIdentifier(p)
  {
    PairOccurs(p, '.', '.');
    CharOccurs(p, '/');
    CharOccurs(p, '\\');
    assert ".." == ['.', '.'] && "/" == ['/'] && "\\" == ['\\'];
  }

  ghost predicate PlainIdentifiers(product: string, version: string, filename: string) {
    PlainIdentifier(product) && PlainIdentifier(version) && PlainIdentifier(filename)
  }

  lemma TripleValidExactly(product: string, version: string, filename: string)
    ensures ValidIdentifiers(product, version, filename) <==> PlainIdentifiers(product, version, filename)
  {
    ValidExactly(product);
    ValidExactly(version);
    ValidExactly(filename);
  }

  /** A file name with an extension is accepted, and no cleaning drops it. */
  lemma ExtendedNameIsValid(stem: string, ext: string)
    requires stem != "" && ext != ""
    requires forall c :: c in stem + ext ==> c != '.' && c != '/' && c != '\\'
    ensures ValidIdentifier(stem + "." + ext) && stem + "." + ext != "."
  {
    var name := stem + "." + ext;
    forall i | 0 <= i < |name|
      ensures name[i] == '.' <==> i == |stem|
      ensures name[i] != '/' && name[i] != '\\'
    {
      assert i != |stem| ==> name[i] in stem + ext;
    }
  }

  /** What path cleaning keeps of identifiers. */
  function DropDots(parts: Components): Components {
    if parts == [] then []
    else (if parts[0] == "." then [] else [parts[0]]) + DropDots(parts[1..])
  }

  lemma ValidIsNameOrDot(p: string)
    requires ValidIdentifier(p)
    ensures p == "." || Name(p)
  {
    if p == ".." {
      assert p[0] == '.' && p[1] == '.';
      assert ContainsPair(p, '.', '.');
    }
  }

  lemma {:induction false} DropDotsNames(parts: Components)
    requires forall i :: 0 <= i < |parts| ==> ValidIdentifier(parts[i])
    ensures Names(DropDots(parts))
  {
    if parts != [] {
      ValidIsNameOrDot(parts[0]);
      DropDotsNames(parts[1..]);
    }
  }

  lemma {:induction false} WalkIdentifiers(stack: Components, parts: Components, rooted: bool)
    requires forall i :: 0 <= i < |parts| ==> ValidIdentifier(parts[i])
    ensures Walk(stack, parts, rooted) == stack + DropDots(parts)
    decreases |parts|
  {
    if parts == [] {
      assert stack + DropDots(parts) == stack;
    } else {
      var first, rest := parts[0], parts[1..];
      ValidIsNameOrDot(first);
      if first == "." {
        WalkIdentifiers(stack, rest, rooted);
        assert DropDots(parts) == DropDots(rest);
      } else {
        WalkIdentifiers(stack + [first], rest, rooted);
        assert stack + [first] + DropDots(rest) == stack + ([first] + DropDots(rest));
      }
    }
  }

  lemma {:induction false} NamesDropNothing(parts: Components)
    requires Names(parts)
    ensures DropDots(parts) == parts
  {
    if parts != [] {
      NamesDropNothing(parts[1..]);
      assert [parts[0]] + parts[1..] == parts;
    }
  }

  lemma JoinThree(a: string, b: string, c: string)
    ensures Join([a, b, c], '/') == a + "/" + (b + "/" + c)
    ensures Join([a, b], '/') == a + "/" + b
  {
    assert [a, b, c][1..] == [b, c];
    assert [b, c][1..] == [c];
    assert [a, b][1..] == [b];
    assert ['/'] == "/";
    assert Join([b, c], '/') == b + "/" + c;
  }

  /** The path the filesystem driver returns. */
  function RelPath(product: string, version: string, filename: string): string {
    JoinPath([product, version, filename])
  }

  /** The key the S3 driver uses and returns. */
  function ObjectKey(product: string, version: string, filename: string): string {
    JoinPath(["artifacts", product, version, filename])
  }

  /** Where the filesystem driver puts the file. */
  function DestFile(root: string, product: string, version: string, filename: string): string {
    JoinPath([JoinPath([root, product, version]), filename])
  }

  lemma JoinedIdentifiers(parts: seq<string>)
    requires |parts| > 0
    requires forall i :: 0 <= i < |parts| ==> ValidIdentifier(parts[i])
    ensures JoinPath(parts) == Render(false, DropDots(parts))
    ensures Names(DropDots(parts))
  {
    var joined := Join(parts, '/');
    SplitJoin(parts, '/');
    assert joined != "" && joined[0] == parts[0][0];
    WalkIdentifiers([], parts, false);
    DropDotsNames(parts);
    assert [] + DropDots(parts) == DropDots(parts);
    assert parts[0][0] in parts[0];
  }

  /** Two accepted triples get one path exactly when they agree once their "." components are dropped;
      in particular triples without "." get distinct paths. */
  lemma RelPathCollision(p: string, v: string, f: string, p': string, v': string, f': string)
    requires ValidIdentifiers(p, v, f) && ValidIdentifiers(p', v', f')
    ensures RelPath(p, v, f) == RelPath(p', v', f') <==> DropDots([p, v, f]) == DropDots([p', v', f'])
    ensures "." !in [p, v, f, p', v', f'] && RelPath(p, v, f) == RelPath(p', v', f') ==> p == p' && v == v' && f == f'
  {
    var a, b := [p, v, f], [p', v', f'];
    JoinedIdentifiers(a);
    JoinedIdentifiers(b);
    NamesSettled(DropDots(a));
    NamesSettled(DropDots(b));
    ReducedOfRender(false, DropDots(a));
    ReducedOfRender(false, DropDots(b));
    if "." !in [p, v, f, p', v', f'] {
      AllNames(p, v, f);
      AllNames(p', v', f');
      NamesDropNothing(a);
      NamesDropNothing(b);
      assert RelPath(p, v, f) == RelPath(p', v', f') ==> a[0] == b[0] && a[1] == b[1] && a[2] == b[2];
    }
  }

  lemma AllNames(p: string, v: string, f: string)
    requires ValidIdentifiers(p, v, f) && p != "." && v != "." && f != "."
    ensures Names([p, v, f])
  {
    ValidIsNameOrDot(p);
    ValidIsNameOrDot(v);
    ValidIsNameOrDot(f);
  }

  lemma NamesSettled(comps: Components)
    requires Names(comps)
    ensures Settled(comps, false) && Settled(comps, true)
  {
  }

  /** With a "." for product or version, two products can share a file. */
  lemma DotsCollide()
    ensures ValidIdentifiers(".", "city", "mmdb") && ValidIdentifiers("city", ".", "mmdb")
    ensures RelPath(".", "city", "mmdb") == RelPath("city", ".", "mmdb")
    ensures DestFile("/data", ".", "city", "mmdb") == DestFile("/data", "city", ".", "mmdb")
  {
    var a, b := [".", "city", "mmdb"], ["city", ".", "mmdb"];
    assert !ContainsPair("city", '.', '.') && !ContainsPair(".", '.', '.') && !ContainsPair("mmdb", '.', '.');
    assert a[1..] == ["city", "mmdb"] && a[1..][1..] == ["mmdb"] && a[1..][1..][1..] == [];
    assert b[1..] == [".", "mmdb"] && b[1..][1..] == ["mmdb"];
    assert DropDots(["mmdb"]) == ["mmdb"];
    assert DropDots(["city", "mmdb"]) == ["city", "mmdb"] && DropDots([".", "mmdb"]) == ["mmdb"];
    RelPathCollision(".", "city", "mmdb", "city", ".", "mmdb");
    DestUnder("/data", ".", "city", "mmdb");
    DestUnder("/data", "city", ".", "mmdb");
  }

  // Resolving a stored path

  datatype PathError = InvalidPath

  /** resolveSafePath. */
  function ResolveSafePath(root: string, storagePath: string): Result<string, PathError> {
    var clean := Clean(storagePath);
    if HasPrefix(clean, "..") || IsAbs(clean) then Err(InvalidPath) else Ok(JoinPath([root, clean]))
  }

  /** What is resolved lies under the root: its components are those of the root followed by names
      only. A path is refused exactly when it is absolute or comes down to something whose first
      component begins with two dots. */
  lemma ResolvedIsContained(root: string, storagePath: string)
    ensures ResolveSafePath(root, storagePath).Ok?
            <==> !IsAbs(storagePath) && (Reduced(storagePath) == [] || !HasPrefix(Reduced(storagePath)[0], ".."))
    ensures ResolveSafePath(root, storagePath).Ok? ==>
              var full := ResolveSafePath(root, storagePath).value;
              Names(Reduced(storagePath)) && Reduced(full) == Reduced(root) + Reduced(storagePath) && IsAbs(full) == IsAbs(root)
  {
    var comps := Reduced(storagePath);
    var clean := Clean(storagePath);
    ReducedSettled(storagePath);
    ReducedOfClean(storagePath);
    PrefixOfRendered(comps, IsAbs(storagePath));
    if ResolveSafePath(root, storagePath).Ok? {
      SettledWithoutParent(comps);
      JoinUnder(root, clean, comps);
    }
  }

  lemma PrefixOfRendered(comps: Components, rooted: bool)
    requires Settled(comps, rooted)
    ensures !rooted ==> (HasPrefix(Render(rooted, comps), "..") <==> comps != [] && HasPrefix(comps[0], ".."))
  {
    if !rooted && comps != [] {
      var text := Join(comps, '/');
      var first := comps[0];
      assert |comps| > 1 ==> text == first + "/" + Join(comps[1..], '/');
      assert |first| <= |text| && text[..|first|] == first;
      if |first| == 1 && |comps| > 1 {
        assert text[1] == '/';
        assert text[..2][1] == text[1];
      } else if |first| >= 2 {
        assert text[..2] == first[..2];
      }
    }
  }

  lemma {:induction false} SettledWithoutParent(comps: Components)
    requires Settled(comps, false)
    requires comps == [] || !HasPrefix(comps[0], "..")
    ensures Names(comps)
  {
  }

  /** Joining a clean relative path of names to a root. */
  lemma JoinUnder(root: string, clean: string, comps: Components)
    requires Names(comps) && clean == Render(false, comps)
    ensures JoinPath([root, clean]) == Render(IsAbs(root), Reduced(root) + comps)
    ensures Settled(Reduced(root) + comps, IsAbs(root))
    ensures Reduced(JoinPath([root, clean])) == Reduced(root) + comps
    ensures IsAbs(JoinPath([root, clean])) == IsAbs(root)
  {
    NamesSettled(comps);
    ReducedSettled(root);
    SettledThenNames(Reduced(root), comps, IsAbs(root));
    assert [root, clean][1..] == [clean];
    if root == "" {
      ReducedOfRender(false, comps);
      assert Split("", '/') == [""];
      assert Reduced(root) == [];
      assert [] + comps == comps;
      assert JoinPath([clean]) == Clean(clean) by {
        assert clean != "";
      }
    } else {
      JoinThree(root, clean, "");
      ReducedJoin(root, clean);
      WalkRendered(Reduced(root), comps, IsAbs(root));
    }
    ReducedOfRender(IsAbs(root), Reduced(root) + comps);
  }

  lemma SettledThenNames(a: Components, b: Components, rooted: bool)
    requires Settled(a, rooted) && Names(b)
    ensures Settled(a + b, rooted)
  {
  }

  lemma WalkRendered(stack: Components, comps: Components, rooted: bool)
    requires Names(comps)
    ensures Walk(stack, Split(Render(false, comps), '/'), rooted) == stack + comps
    ensures Render(false, comps) != ""
  {
    if comps == [] {
      SplitPlain(".", '/');
      assert ["."][1..] == [];
      assert stack + comps == stack;
    } else {
      SplitJoin(comps, '/');
      WalkNames(stack, comps, rooted);
    }
  }

  /** Every path a store returns is accepted, and resolves to the very file the store wrote. */
  lemma StoredPathResolvesBack(root: string, p: string, v: string, f: string)
    requires ValidIdentifiers(p, v, f)
    ensures ResolveSafePath(root, RelPath(p, v, f)) == Ok(DestFile(root, p, v, f))
  {
    var dir, all := DropDots([p, v]), DropDots([p, v, f]);
    JoinedIdentifiers([p, v, f]);
    JoinedIdentifiers([p, v]);
    JoinedIdentifiers([f]);
    NamesSettled(all);
    ReducedOfRender(false, all);
    PrefixOfRendered(all, false);
    if all != [] {
      NoParentPrefix(p, v, f);
    }
    JoinUnder(root, RelPath(p, v, f), all);
    DestUnder(root, p, v, f);
  }

  lemma NoParentPrefix(p: string, v: string, f: string)
    requires ValidIdentifiers(p, v, f)
    ensures DropDots([p, v, f]) != [] ==> !HasPrefix(DropDots([p, v, f])[0], "..")
  {
    var parts := [p, v, f];
    assert parts[1..] == [v, f] && parts[1..][1..] == [f] && parts[1..][1..][1..] == [];
    assert DropDots([f]) == if f == "." then [] else [f];
    assert DropDots([v, f]) == (if v == "." then [] else [v]) + DropDots([f]);
    ValidHasNoParentPrefix(p);
    ValidHasNoParentPrefix(v);
    ValidHasNoParentPrefix(f);
  }

  lemma ValidHasNoParentPrefix(c: string)
    requires ValidIdentifier(c)
    ensures !HasPrefix(c, "..")
  {
    if |c| >= 2 {
      assert c[..2][0] == c[0] && c[..2][1] == c[1];
      assert !(c[0] == '.' && c[0 + 1] == '.');
    }
  }

  /** The directory the store makes. */
  lemma DirUnder(root: string, p: string, v: string)
    requires ValidIdentifier(p) && ValidIdentifier(v)
    ensures JoinPath([root, p, v]) == Render(IsAbs(root), Reduced(root) + DropDots([p, v]))
    ensures Settled(Reduced(root) + DropDots([p, v]), IsAbs(root))
  {
    var pv := DropDots([p, v]);
    JoinedIdentifiers([p, v]);
    ReducedSettled(root);
    SettledThenNames(Reduced(root), pv, IsAbs(root));
    assert [root, p, v][1..] == [p, v];
    if root == "" {
      assert Split("", '/') == [""];
      assert Reduced(root) == [];
      assert [] + pv == pv;
    } else {
      JoinThree(root, p, v);
      JoinThree(p, v, "");
      assert Join([root, p, v], '/') == root + "/" + (p + "/" + v);
      ReducedJoin(root, p + "/" + v);
      SplitJoin([p, v], '/');
      assert Join([p, v], '/') == p + "/" + v;
      WalkIdentifiers(Reduced(root), [p, v], IsAbs(root));
    }
  }

  lemma DropDotsLast(p: string, v: string, f: string)
    ensures DropDots([p, v, f]) == DropDots([p, v]) + DropDots([f])
  {
  }

  /** The destination the store computes in two joins. */
  lemma DestUnder(root: string, p: string, v: string, f: string)
    requires ValidIdentifiers(p, v, f)
    ensures DestFile(root, p, v, f) == Render(IsAbs(root), Reduced(root) + DropDots([p, v, f]))
  {
    var dir := Reduced(root) + DropDots([p, v]);
    var dirPath := JoinPath([root, p, v]);
    DirUnder(root, p, v);
    ReducedOfRender(IsAbs(root), dir);
    RenderNotEmpty(IsAbs(root), dir);
    JoinThree(dirPath, f, "");
    assert Join([dirPath, f], '/') == dirPath + "/" + f;
    ReducedJoin(dirPath, f);
    SplitPlain(f, '/');
    WalkIdentifiers(dir, [f], IsAbs(root));
    DropDotsLast(p, v, f);
    assert dir + DropDots([f]) == Reduced(root) + DropDots([p, v, f]);
  }

  lemma RenderNotEmpty(rooted: bool, comps: Components)
    requires Settled(comps, rooted)
    ensures Render(rooted, comps) != ""
  {
  }

  /** Identifiers a store accepts and that no cleaning drops. */
  predicate ProperIdentifiers(p: string, v: string, f: string) {
    ValidIdentifiers(p, v, f) && p != "." && v != "." && f != "."
  }
}
