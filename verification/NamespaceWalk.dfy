/** The loops of `get_paths` and `get_scope`, proved against the functions of `Namespace`. */
module NamespaceWalk {
  import opened Options
  import opened HexListing
  import opened Sequences
  import opened Text
  import opened Namespace

  predicate Increasing(stack: seq<Entry>) {
    forall a, b :: 0 <= a < b < |stack| ==> stack[a].depth < stack[b].depth
  }

  function Reversed(names: seq<string>): seq<string> {
    if names == [] then [] else [names[|names| - 1]] + Reversed(names[..|names| - 1])
  }

  lemma ReversedPush(names: seq<string>, name: string)
    ensures Reversed(names + [name]) == [name] + Reversed(names)
  {
    assert (names + [name])[..|names|] == names;
  }

  lemma NamesStep(stack: seq<Entry>, k: nat)
    requires 0 < k <= |stack|
    ensures
      var name := stack[k - 1].name;
      QualifiedNames(stack[..k]) == (if Qualified(name) then [] else QualifiedNames(stack[..k - 1])) + [name]
  {
    assert stack[..k][..k - 1] == stack[..k - 1];
  }

  /** What the names read from the top of the stack, in reading order, still lack. */
  predicate Reading(all: seq<string>, names: seq<string>, rest: seq<string>) {
    all == rest + Reversed(names)
  }

  lemma ReadingOn(all: seq<string>, names: seq<string>, rest: seq<string>, name: string)
    requires Reading(all, names, rest + [name])
    ensures Reading(all, names + [name], rest)
  {
    ReversedPush(names, name);
    assert rest + [name] + Reversed(names) == rest + ([name] + Reversed(names));
  }

  /** The innermost names up to the first qualified one, read from the top of the stack. */
  method NamesOf(stack: seq<Entry>) returns (names: seq<string>)
    ensures Reversed(names) == QualifiedNames(stack)
  {
    names := [];
    var k, done := |stack|, false;
    ghost var all, rest := QualifiedNames(stack), QualifiedNames(stack);
    assert stack[..k] == stack && rest + [] == rest;
    while k > 0 && !done
      invariant 0 <= k <= |stack| && Reading(all, names, rest)
      invariant rest == if done then [] else QualifiedNames(stack[..k])
      decreases k
    {
      var name := stack[k - 1].name;
      NamesStep(stack, k);
      done := Qualified(name);
      rest := if done then [] else QualifiedNames(stack[..k - 1]);
      ReadingOn(all, names, rest, name);
      names := names + [name];
      k := k - 1;
    }
    assert [] + Reversed(names) == Reversed(names);
  }

  method ClimbCarets(path: seq<string>) returns (r: seq<string>)
    ensures r == Climb([], path)
  {
    r := [];
    for k := 0 to |path|
      invariant Climb(r, path[k..]) == Climb([], path)
    {
      var x := path[k];
      assert path[k..][0] == x && path[k..][1..] == path[k + 1..];
      if CountOf(x, '^') > 0 {
        var up := CountOf(x, '^');
        r := r[..if up <= |r| then |r| - up else 0];
      } else {
        assert r[..|r|] == r;
      }
      r := r + [Without(x, '^')];
    }
    assert path[|path|..] == [];
  }

  /** The path of the object on top of the stack; the climb is only run when a caret occurs. */
  method PathOf(stack: seq<Entry>) returns (path: seq<string>)
    requires stack != []
    ensures path == StackPath(stack)
  {
    var names := NamesOf(stack);
    path := Split(Join(Reversed(names), '.'), '.');
    if path != [] && path[0] == "\\" { path := path[1..]; }
    if exists x :: x in path && '^' in x {
      path := ClimbCarets(path);
    } else {
      ClimbPlain([], path);
      assert [] + path == path;
    }
  }

  /** What is reported so far and what the walk from line `i` still reports make up `all`. */
  predicate Splits(lines: seq<Line>, naming: Naming, all: seq<ObjectPath>,
                   done: seq<ObjectPath>, i: nat, stack: seq<Entry>, brackets: int)
  {
    all == done + PathsFrom(lines, i, stack, brackets, naming)
  }

  lemma SplitsStep(lines: seq<Line>, naming: Naming, all: seq<ObjectPath>,
                   done: seq<ObjectPath>, i: nat, stack: seq<Entry>, brackets: int,
                   outer: seq<Entry>, depth: int, found: seq<ObjectPath>)
    requires i < |lines| && lines[i].Text? && depth == brackets + lines[i].opens - lines[i].closes
    requires outer == Pop(stack, depth) && Splits(lines, naming, all, done, i, stack, brackets)
    ensures lines[i].decl.None? ==> Splits(lines, naming, all, done, i + 1, outer, depth)
    ensures lines[i].decl.Some? ==>
      var pushed := outer + [Entry(lines[i].decl.value.name, depth)];
      found == naming.report(naming.path(pushed), i, lines[i].decl.value.kind) ==>
      Splits(lines, naming, all, done + found, i + 1, pushed, depth)
  {
    if lines[i].decl.Some? {
      var pushed := outer + [Entry(lines[i].decl.value.name, depth)];
      Assoc(done, found, PathsFrom(lines, i + 1, pushed, depth, naming));
    }
  }

  method GetPaths(lines: seq<Line>) returns (pathList: seq<ObjectPath>)
    ensures pathList == Paths(lines)
  {
    ghost var naming := AcpiNaming();
    pathList := [];
    var stack: seq<Entry>, brackets, i := [], 0, 0;
    while i < |lines|
      invariant i <= |lines| && Increasing(stack)
      invariant Splits(lines, naming, Paths(lines), pathList, i, stack, brackets)
    {
      if lines[i].Text? {
        pathList, stack, brackets := VisitLine(lines, i, pathList, stack, brackets, naming, Paths(lines));
      }
      i := i + 1;
    }
  }

  method VisitLine(lines: seq<Line>, i: nat, pathList: seq<ObjectPath>, stack: seq<Entry>, brackets: int,
                   ghost naming: Naming, ghost all: seq<ObjectPath>)
    returns (list: seq<ObjectPath>, pushed: seq<Entry>, depth: int)
    requires naming == AcpiNaming() && Increasing(stack)
    requires i < |lines| && lines[i].Text? && Splits(lines, naming, all, pathList, i, stack, brackets)
    ensures Splits(lines, naming, all, list, i + 1, pushed, depth) && Increasing(pushed)
  {
    var line := lines[i];
    list, depth := pathList, brackets + line.opens - line.closes;
    pushed := PopNested(stack, depth);
    ghost var outer, found := pushed, [];
    if line.decl.Some? {
      pushed := pushed + [Entry(line.decl.value.name, depth)];
      var entry := ReportTop(pushed, i, line.decl.value.kind, naming);
      list := list + entry;
      found := entry;
    }
    SplitsStep(lines, naming, all, pathList, i, stack, brackets, outer, depth, found);
  }

  method ReportTop(stack: seq<Entry>, line: nat, kind: Kind, ghost naming: Naming) returns (found: seq<ObjectPath>)
    requires stack != [] && naming == AcpiNaming()
    ensures found == naming.report(naming.path(stack), line, kind)
  {
    found := [];
    if !kind.Scope? {
      var path := PathOf(stack);
      if path != [] { found := [ObjectPath(Render(path), line, kind)]; }
    }
  }

  method PopNested(stack: seq<Entry>, brackets: int) returns (r: seq<Entry>)
    requires Increasing(stack)
    ensures r == Pop(stack, brackets) && Increasing(r)
    ensures forall e :: e in r ==> e.depth < brackets
  {
    r := stack;
    while r != [] && r[|r| - 1].depth >= brackets
      invariant Increasing(r) && Pop(r, brackets) == Pop(stack, brackets)
      decreases |r|
    {
      r := r[..|r| - 1];
    }
  }

  lemma ScopeHexStep(lines: seq<Line>, i: nat, brackets: Option<int>, addHex: bool, scope: seq<Line>, all: seq<Line>)
    requires i < |lines| && lines[i].Hex? && all == scope + ScopeFrom(lines, i, brackets, addHex)
    ensures all == (if addHex then scope + [lines[i]] else scope) + ScopeFrom(lines, i + 1, brackets, addHex)
  {
    Assoc(scope, [lines[i]], ScopeFrom(lines, i + 1, brackets, addHex));
  }

  lemma ScopeTextStep(lines: seq<Line>, i: nat, brackets: Option<int>, addHex: bool, scope: seq<Line>, all: seq<Line>)
    requires i < |lines| && lines[i].Text? && all == scope + ScopeFrom(lines, i, brackets, addHex)
    ensures all == scope + [lines[i]] + ScopeAfter(lines, i, brackets, addHex)
  {
    Assoc(scope, [lines[i]], ScopeAfter(lines, i, brackets, addHex));
  }

  method GetScope(lines: seq<Line>, start: nat, addHex: bool) returns (scope: seq<Line>)
    ensures scope == ScopeFrom(lines, start, None, addHex)
  {
    scope := [];
    var brackets: Option<int> := None;
    var i := start;
    ghost var all := ScopeFrom(lines, start, None, addHex);
    assert [] + all == all;
    while i < |lines|
      invariant all == scope + ScopeFrom(lines, i, brackets, addHex)
      decreases |lines| - i
    {
      var line := lines[i];
      if line.Hex? {
        ScopeHexStep(lines, i, brackets, addHex, scope, all);
        if addHex { scope := scope + [line]; }
      } else {
        ScopeTextStep(lines, i, brackets, addHex, scope, all);
        scope := scope + [line];
        if brackets.None? {
          if line.opens > 0 { brackets := Some(line.opens); }
        } else {
          brackets := Some(brackets.value + line.opens - line.closes);
          if brackets.value <= 0 {
            assert scope + [] == scope;
            return;
          }
        }
      }
      i := i + 1;
    }
    assert scope + [] == scope;
  }
}
