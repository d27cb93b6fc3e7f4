/**
 * The ACPI namespace of a listing: `get_paths` recovers the fully qualified path of every declared object from a
 * bracket counter and a stack, `get_scope` the lines of one object.
 */
module Namespace {
  import opened Options
  import opened HexListing
  import opened Sequences
  import opened Text

  // ------------------------------------------------------------------ names

  /** A name that is not relative to the scopes around it. */
  predicate Qualified(name: string) {
    var first := StripRight(Split(name, '.')[0], '_');
    (first != "" && first[0] == '\\') || first == "_SB" || first == "_PR"
  }

  /** The scope some levels above, or the root. */
  function Above(scope: seq<string>, up: nat): seq<string> { scope[..if up <= |scope| then |scope| - up else 0] }

  /** Segments are appended one by one; each caret first goes up one level. */
  function Climb(scope: seq<string>, segments: seq<string>): seq<string>
    decreases |segments|
  {
    if segments == [] then scope
    else
      Climb(Above(scope, CountOf(segments[0], '^')) + [Without(segments[0], '^')], segments[1..])
  }

  function DropRoot(segments: seq<string>): seq<string> {
    if segments != [] && segments[0] == "\\" then segments[1..] else segments
  }

  /** Reference definition: the scope that a name declared inside `scope` denotes. */
  function Resolve(scope: seq<string>, name: string): seq<string> {
    var segments := Split(name, '.');
    if Qualified(name) then Climb([], DropRoot(segments)) else Climb(scope, segments)
  }

  /** The printed form: a root prefix, no trailing underscores. */
  function Render(scope: seq<string>): string {
    Join(seq(|scope|, j requires 0 <= j < |scope| =>
      (if j == 0 then "\\" else "") + StripRight(StripLeft(scope[j], '\\'), '_')), '.')
  }

  lemma {:induction false} ClimbConcat(scope: seq<string>, a: seq<string>, b: seq<string>)
    ensures Climb(scope, a + b) == Climb(Climb(scope, a), b)
    decreases |a|
  {
    if a == [] {
      assert a + b == b;
    } else {
      ClimbConcat(Above(scope, CountOf(a[0], '^')) + [Without(a[0], '^')], a[1..], b);
      assert (a + b)[1..] == a[1..] + b && (a + b)[0] == a[0];
    }
  }

  lemma {:induction false} ClimbPlain(scope: seq<string>, segments: seq<string>)
    requires forall s :: s in segments ==> '^' !in s
    ensures Climb(scope, segments) == scope + segments
    decreases |segments|
  {
    if segments != [] {
      NothingToRemove(segments[0], '^');
      ClimbPlain(scope + [segments[0]], segments[1..]);
      assert scope[..|scope|] == scope;
      assert scope + [segments[0]] + segments[1..] == scope + segments;
    }
  }

  // ------------------------------------------------------------------ the stack

  /** A declared name and the bracket depth of its line. */
  datatype Entry = Entry(name: string, depth: int)

  datatype ObjectPath = ObjectPath(path: string, line: nat, kind: Kind)

  function Pop(stack: seq<Entry>, depth: int): (r: seq<Entry>)
    ensures r <= stack
    ensures r != [] ==> r[|r| - 1].depth < depth
  {
    if stack != [] && stack[|stack| - 1].depth >= depth then Pop(stack[..|stack| - 1], depth) else stack
  }

  /** The names from the innermost qualified one inwards. */
  function QualifiedNames(stack: seq<Entry>): seq<string> {
    if stack == [] then []
    else
      var top := stack[|stack| - 1].name;
      if Qualified(top) then [top] else QualifiedNames(stack[..|stack| - 1]) + [top]
  }

  function PathOfNames(names: seq<string>): seq<string> { Climb([], DropRoot(Split(Join(names, '.'), '.'))) }

  /** The path the source computes from its stack. */
  function StackPath(stack: seq<Entry>): seq<string> {
    if stack == [] then [] else PathOfNames(QualifiedNames(stack))
  }

  lemma PopBelow(stack: seq<Entry>, d: int, e: int)
    requires e <= d
    ensures Pop(Pop(stack, d), e) == Pop(stack, e)
  {
    if stack != [] && stack[|stack| - 1].depth >= d { PopBelow(stack[..|stack| - 1], d, e); }
  }

  lemma {:induction false} NamesNonEmpty(stack: seq<Entry>)
    requires stack != []
    ensures QualifiedNames(stack) != []
  { }

  lemma DropRootOfBoth(outer: seq<string>, inner: seq<string>)
    requires outer != []
    ensures DropRoot(outer + inner) == DropRoot(outer) + inner
  { }

  lemma NamesPathGrows(names: seq<string>, name: string)
    requires names != []
    ensures PathOfNames(names + [name]) == Climb(PathOfNames(names), Split(name, '.'))
  {
    hide Join, Split, Climb, DropRoot;
    var outer, inner := Split(Join(names, '.'), '.'), Split(name, '.');
    JoinMore(names, name, '.');
    SplitConcat(Join(names, '.'), '.', name);
    DropRootOfBoth(outer, inner);
    ClimbConcat([], DropRoot(outer), inner);
  }

  /** The path of a pushed name is the name resolved in the path of the stack below. */
  lemma StackPathResolves(stack: seq<Entry>, e: Entry)
    ensures StackPath(stack + [e]) == Resolve(StackPath(stack), e.name)
  {
    var all := stack + [e];
    assert all[|all| - 1] == e && all[..|all| - 1] == stack;
    if !Qualified(e.name) && stack != [] {
      assert QualifiedNames(all) == QualifiedNames(stack) + [e.name];
      NamesNonEmpty(stack);
      NamesPathGrows(QualifiedNames(stack), e.name);
    } else {
      assert QualifiedNames(all) == [e.name];
      if !Qualified(e.name) { UnqualifiedKeepsFirst(e.name); }
    }
  }

  lemma UnqualifiedKeepsFirst(name: string)
    requires !Qualified(name)
    ensures DropRoot(Split(name, '.')) == Split(name, '.')
  { }

  // ------------------------------------------------------------------ get_paths

  /** How a stack is named and reported; the walk itself does not look into it. */
  datatype Naming = Naming(
    path: seq<Entry> -> seq<string>,
    resolve: (seq<string>, string) -> seq<string>,
    report: (seq<string>, nat, Kind) -> seq<ObjectPath>
  ) {
    /** Pushing a name resolves it in the path below. */
    ghost predicate Coherent() {
      forall stack: seq<Entry>, e: Entry {:trigger path(stack + [e])} ::
        path(stack + [e]) == resolve(path(stack), e.name)
    }

    /** A report carries the line and kind of its declaration, and scopes are not reported. */
    ghost predicate Labelled() {
      forall segments: seq<string>, line: nat, kind: Kind, p: ObjectPath {:trigger p in report(segments, line, kind)} ::
        p in report(segments, line, kind) ==> p.line == line && p.kind == kind && !kind.Scope?
    }
  }

  function AcpiNaming(): (r: Naming)
    ensures r.Coherent() && r.Labelled()
    ensures r.path([]) == []
  {
    var r := Naming(StackPath, Resolve, Report);
    assert r.Coherent() by {
      forall stack: seq<Entry>, e: Entry
        ensures r.path(stack + [e]) == r.resolve(r.path(stack), e.name)
      {
        StackPathResolves(stack, e);
      }
    }
    r
  }

  function PathsFrom(lines: seq<Line>, i: nat, stack: seq<Entry>, brackets: int, naming: Naming): seq<ObjectPath>
    decreases |lines| - i
  {
    if i >= |lines| then []
    else
      match lines[i]
      case Hex(_) => PathsFrom(lines, i + 1, stack, brackets, naming)
      case Text(opens, closes, decl) =>
        var depth := brackets + opens - closes;
        var outer := Pop(stack, depth);
        match decl
        case None => PathsFrom(lines, i + 1, outer, depth, naming)
        case Some(d) =>
          naming.report(naming.path(outer + [Entry(d.name, depth)]), i, d.kind)
          + PathsFrom(lines, i + 1, outer + [Entry(d.name, depth)], depth, naming)
  }

  /** Scopes are not reported, nor is the root itself. */
  function Report(path: seq<string>, line: nat, kind: Kind): seq<ObjectPath> {
    if kind.Scope? || path == [] then [] else [ObjectPath(Render(path), line, kind)]
  }

  function Paths(lines: seq<Line>): seq<ObjectPath> {
    PathsFrom(lines, 0, [], 0, AcpiNaming())
  }

  // ------------------------------------------------------------------ printed trees

  /**
   * What a listing shows. `Plain` is any line without declaration whose braces cancel; `Block` is a nameless pair of
   * brace lines; `Leaf` declares an object without a body; `Node` declares one whose body stands between brace lines.
   */
  datatype Forest =
    | Empty
    | Plain(braces: nat, rest: Forest)
    | Block(body: Forest, rest: Forest)
    | Leaf(decl: Decl, braces: nat, rest: Forest)
    | Node(decl: Decl, body: Forest, rest: Forest)

  const OPEN := Line.Text(1, 0, None)
  const CLOSE := Line.Text(0, 1, None)

  /** The text lines of a forest; a listing has hex lines anywhere between them. */
  function Print(f: Forest): seq<Line> {
    match f
    case Empty => []
    case Plain(n, rest) => [Line.Text(n, n, None)] + Print(rest)
    case Block(body, rest) => [OPEN] + Print(body) + [CLOSE] + Print(rest)
    case Leaf(d, n, rest) => [Line.Text(n, n, Some(d))] + Print(rest)
    case Node(d, body, rest) => [Line.Text(0, 0, Some(d)), OPEN] + Print(body) + [CLOSE] + Print(rest)
  }

  /** A brace line directly after an object without a body would be that object's body. */
  predicate Unambiguous(f: Forest) {
    match f
    case Empty => true
    case Plain(_, rest) => Unambiguous(rest)
    case Block(body, rest) => Unambiguous(body) && Unambiguous(rest)
    case Leaf(_, _, rest) => !rest.Block? && Unambiguous(rest)
    case Node(_, body, rest) => Unambiguous(body) && Unambiguous(rest)
  }

  function SkipHex(lines: seq<Line>, i: nat): (j: nat)
    ensures i <= j
    decreases |lines| - i
  {
    if i < |lines| && lines[i].Hex? then SkipHex(lines, i + 1) else i
  }

  /** The line is `text` at the next text line after `i`. */
  predicate NextIs(lines: seq<Line>, i: nat, text: Line) {
    SkipHex(lines, i) < |lines| && lines[SkipHex(lines, i)] == text
  }

  function Next(lines: seq<Line>, i: nat): nat { SkipHex(lines, i) + 1 }

  /** If the listing shows the forest from line `i` on, the line after it. */
  function Shown(lines: seq<Line>, i: nat, f: Forest): Option<nat>
    decreases f
  {
    match f
    case Empty => Some(i)
    case Plain(n, rest) =>
      if NextIs(lines, i, Line.Text(n, n, None)) then Shown(lines, Next(lines, i), rest) else None
    case Leaf(d, n, rest) =>
      if NextIs(lines, i, Line.Text(n, n, Some(d))) then Shown(lines, Next(lines, i), rest) else None
    case Block(body, rest) =>
      if !NextIs(lines, i, OPEN) then None
      else
        var close := Shown(lines, Next(lines, i), body);
        if close.Some? && NextIs(lines, close.value, CLOSE) then Shown(lines, Next(lines, close.value), rest) else None
    case Node(d, body, rest) =>
      if !NextIs(lines, i, Line.Text(0, 0, Some(d))) || !NextIs(lines, Next(lines, i), OPEN) then None
      else
        var close := Shown(lines, Next(lines, Next(lines, i)), body);
        if close.Some? && NextIs(lines, close.value, CLOSE) then Shown(lines, Next(lines, close.value), rest) else None
  }

  /** The line after the opening brace line, the body and the closing brace line. */
  function ShownBody(lines: seq<Line>, i: nat, body: Forest): Option<nat> {
    if !NextIs(lines, i, OPEN) then None
    else
      match Shown(lines, Next(lines, i), body)
      case None => None
      case Some(j) => if NextIs(lines, j, CLOSE) then Some(Next(lines, j)) else None
  }

  // ------------------------------------------------------------------ what get_paths recovers

  /** Reference definition: the objects of the shown forest in printed order, each resolved in its enclosing scope. */
  function Expected(lines: seq<Line>, i: nat, f: Forest, scope: seq<string>, naming: Naming): seq<ObjectPath>
    requires Shown(lines, i, f).Some?
    decreases f
  {
    match f
    case Empty => []
    case Plain(_, rest) => Expected(lines, Next(lines, i), rest, scope, naming)
    case Leaf(d, _, rest) =>
      naming.report(naming.resolve(scope, d.name), SkipHex(lines, i), d.kind)
      + Expected(lines, Next(lines, i), rest, scope, naming)
    case Block(body, rest) =>
      Expected(lines, Next(lines, i), body, scope, naming)
      + Expected(lines, ShownBody(lines, i, body).value, rest, scope, naming)
    case Node(d, body, rest) =>
      var inner := Next(lines, i);
      naming.report(naming.resolve(scope, d.name), SkipHex(lines, i), d.kind)
      + Expected(lines, Next(lines, inner), body, naming.resolve(scope, d.name), naming)
      + Expected(lines, ShownBody(lines, inner, body).value, rest, scope, naming)
  }

  lemma {:induction false} PathsSkipHex(lines: seq<Line>, i: nat, stack: seq<Entry>, depth: int, naming: Naming)
    ensures PathsFrom(lines, i, stack, depth, naming) == PathsFrom(lines, SkipHex(lines, i), stack, depth, naming)
    decreases |lines| - i
  {
    if i < |lines| && lines[i].Hex? { PathsSkipHex(lines, i + 1, stack, depth, naming); }
  }

  /** From line `i` with stack `from` the walk reports `found` and reaches line `j` with stack `to`. */
  predicate Walks(lines: seq<Line>, naming: Naming, depth: int,
                  i: nat, from: seq<Entry>, found: seq<ObjectPath>, j: nat, to: seq<Entry>)
  {
    PathsFrom(lines, i, from, depth, naming) == found + PathsFrom(lines, j, to, depth, naming)
  }

  lemma WalksOn(lines: seq<Line>, naming: Naming, depth: int, i: nat, from: seq<Entry>, a: seq<ObjectPath>,
                j: nat, mid: seq<Entry>, b: seq<ObjectPath>, k: nat, to: seq<Entry>)
    requires Walks(lines, naming, depth, i, from, a, j, mid)
    requires Walks(lines, naming, depth, j, mid, b, k, to)
    ensures Walks(lines, naming, depth, i, from, a + b, k, to)
  {
    var rest := PathsFrom(lines, k, to, depth, naming);
    assert a + (b + rest) == a + b + rest;
  }

  lemma WalksStay(lines: seq<Line>, naming: Naming, depth: int, i: nat, stack: seq<Entry>)
    ensures Walks(lines, naming, depth, i, stack, [], i, stack)
  { }

  /** One text line without declaration only pops. */
  lemma PathsPlainLine(lines: seq<Line>, i: nat, text: Line, stack: seq<Entry>, depth: int, naming: Naming)
    requires NextIs(lines, i, text) && text.Text? && text.decl.None?
    ensures
      var after := depth + text.opens - text.closes;
      PathsFrom(lines, i, stack, depth, naming) == PathsFrom(lines, Next(lines, i), Pop(stack, after), after, naming)
  {
    hide Pop;
    PathsSkipHex(lines, i, stack, depth, naming);
  }

  lemma PlainWalks(lines: seq<Line>, i: nat, n: nat, stack: seq<Entry>, depth: int, naming: Naming)
    requires NextIs(lines, i, Line.Text(n, n, None))
    ensures Walks(lines, naming, depth, i, stack, [], Next(lines, i), Pop(stack, depth))
  {
    hide PathsFrom, Pop;
    PathsPlainLine(lines, i, Line.Text(n, n, None), stack, depth, naming);
  }

  lemma PathsAtDecl(lines: seq<Line>, k: nat, n: nat, d: Decl, stack: seq<Entry>, depth: int, naming: Naming)
    requires naming.Coherent() && k < |lines| && lines[k] == Line.Text(n, n, Some(d))
    ensures
      var outer := Pop(stack, depth);
      PathsFrom(lines, k, stack, depth, naming) ==
        naming.report(naming.resolve(naming.path(outer), d.name), k, d.kind)
        + PathsFrom(lines, k + 1, outer + [Entry(d.name, depth)], depth, naming)
  {
    var outer := Pop(stack, depth);
    var pushed := outer + [Entry(d.name, depth)];
    assert naming.path(pushed) == naming.resolve(naming.path(outer), d.name);
    assert depth + n - n == depth;
    assert PathsFrom(lines, k, stack, depth, naming) ==
      naming.report(naming.path(pushed), k, d.kind) + PathsFrom(lines, k + 1, pushed, depth, naming);
  }

  /** One declaration with balanced braces reports the resolved name and pushes it. */
  lemma PathsDeclLine(lines: seq<Line>, i: nat, n: nat, d: Decl, stack: seq<Entry>, depth: int, naming: Naming)
    returns (pushed: seq<Entry>)
    requires naming.Coherent() && NextIs(lines, i, Line.Text(n, n, Some(d)))
    ensures pushed == Pop(stack, depth) + [Entry(d.name, depth)]
    ensures naming.path(pushed) == naming.resolve(naming.path(Pop(stack, depth)), d.name)
    ensures Pop(pushed, depth) == Pop(stack, depth) && Pop(pushed, depth + 1) == pushed
    ensures Walks(lines, naming, depth, i, stack,
                  naming.report(naming.path(pushed), SkipHex(lines, i), d.kind), Next(lines, i), pushed)
  {
    hide Pop, SkipHex;
    var outer := Pop(stack, depth);
    pushed := outer + [Entry(d.name, depth)];
    PopBelow(stack, depth, depth);
    PopPushed(outer, Entry(d.name, depth));
    PathsSkipHex(lines, i, stack, depth, naming);
    PathsAtDecl(lines, SkipHex(lines, i), n, d, stack, depth, naming);
    assert naming.path(pushed) == naming.resolve(naming.path(outer), d.name);
  }

  lemma PopPushed(outer: seq<Entry>, e: Entry)
    ensures Pop(outer + [e], e.depth + 1) == outer + [e]
    ensures Pop(outer + [e], e.depth) == Pop(outer, e.depth)
  {
    var all := outer + [e];
    assert all[..|all| - 1] == outer && all[|all| - 1] == e;
  }

  function Size(f: Forest): nat {
    match f
    case Empty => 0
    case Plain(_, rest) => 1 + Size(rest)
    case Leaf(_, _, rest) => 1 + Size(rest)
    case Block(body, rest) => 1 + Size(body) + Size(rest)
    case Node(_, body, rest) => 1 + Size(body) + Size(rest)
  }

  /** The walk over a shown forest reports exactly its objects and leaves the enclosing stack as it was. */
  lemma {:induction false} PathsOfForest(
    lines: seq<Line>, i: nat, f: Forest, stack: seq<Entry>, depth: int, naming: Naming)
    returns (after: seq<Entry>)
    requires naming.Coherent() && Shown(lines, i, f).Some? && Unambiguous(f)
    requires f.Block? ==> Pop(stack, depth) == stack
    ensures Walks(lines, naming, depth, i, stack,
                  Expected(lines, i, f, naming.path(Pop(stack, depth)), naming), Shown(lines, i, f).value, after)
    ensures Pop(after, depth) == Pop(stack, depth)
    decreases Size(f), 0
  {
    hide PathsFrom, Walks;
    var outer := Pop(stack, depth);
    PopBelow(stack, depth, depth);
    match f {
      case Empty =>
        after := stack;
        WalksStay(lines, naming, depth, i, stack);
      case Plain(n, rest) =>
        PlainWalks(lines, i, n, stack, depth, naming);
        after := PathsOfForest(lines, Next(lines, i), rest, outer, depth, naming);
        var found := Expected(lines, Next(lines, i), rest, naming.path(outer), naming);
        WalksOn(lines, naming, depth, i, stack, [], Next(lines, i), outer, found, Shown(lines, i, f).value, after);
        assert [] + found == found;
      case Leaf(d, n, rest) =>
        var pushed := PathsDeclLine(lines, i, n, d, stack, depth, naming);
        after := PathsOfForest(lines, Next(lines, i), rest, pushed, depth, naming);
        WalksOn(lines, naming, depth, i, stack, naming.report(naming.path(pushed), SkipHex(lines, i), d.kind),
                Next(lines, i), pushed, Expected(lines, Next(lines, i), rest, naming.path(outer), naming),
                Shown(lines, i, f).value, after);
      case Block(body, rest) =>
        after := PathsOfBodyThenRest(lines, i, body, rest, stack, depth, naming);
      case Node(d, body, rest) =>
        var pushed := PathsDeclLine(lines, i, 0, d, stack, depth, naming);
        after := PathsOfBodyThenRest(lines, Next(lines, i), body, rest, pushed, depth, naming);
        NodeFound(lines, i, f, stack, after, pushed, depth, naming);
    }
  }

  lemma ExpectedOfNode(lines: seq<Line>, i: nat, f: Forest, scope: seq<string>, naming: Naming)
    requires f.Node? && Shown(lines, i, f).Some?
    ensures
      var inner, path := Next(lines, i), naming.resolve(scope, f.decl.name);
      ShownBody(lines, inner, f.body).Some? &&
      Expected(lines, i, f, scope, naming) ==
        naming.report(path, SkipHex(lines, i), f.decl.kind)
        + (Expected(lines, Next(lines, inner), f.body, path, naming)
           + Expected(lines, ShownBody(lines, inner, f.body).value, f.rest, scope, naming))
  {
    var inner, path := Next(lines, i), naming.resolve(scope, f.decl.name);
    var own := naming.report(path, SkipHex(lines, i), f.decl.kind);
    var inside := Expected(lines, Next(lines, inner), f.body, path, naming);
    var beyond := Expected(lines, ShownBody(lines, inner, f.body).value, f.rest, scope, naming);
    assert own + (inside + beyond) == own + inside + beyond;
  }

  lemma NodeFound(lines: seq<Line>, i: nat, f: Forest, stack: seq<Entry>, after: seq<Entry>, pushed: seq<Entry>,
                  depth: int, naming: Naming)
    requires f.Node? && Shown(lines, i, f).Some?
    requires
      var outer, inner := naming.path(Pop(stack, depth)), Next(lines, i);
      naming.path(pushed) == naming.resolve(outer, f.decl.name) &&
      Walks(lines, naming, depth, i, stack,
            naming.report(naming.path(pushed), SkipHex(lines, i), f.decl.kind), inner, pushed) &&
      Walks(lines, naming, depth, inner, pushed,
            Expected(lines, Next(lines, inner), f.body, naming.path(pushed), naming)
            + Expected(lines, ShownBody(lines, inner, f.body).value, f.rest, outer, naming),
            Shown(lines, i, f).value, after)
    ensures Walks(lines, naming, depth, i, stack,
                  Expected(lines, i, f, naming.path(Pop(stack, depth)), naming), Shown(lines, i, f).value, after)
  {
    ExpectedOfNode(lines, i, f, naming.path(Pop(stack, depth)), naming);
    var outer, inner := naming.path(Pop(stack, depth)), Next(lines, i);
    var own := naming.report(naming.path(pushed), SkipHex(lines, i), f.decl.kind);
    var inside := Expected(lines, Next(lines, inner), f.body, naming.path(pushed), naming);
    var beyond := Expected(lines, ShownBody(lines, inner, f.body).value, f.rest, outer, naming);
    WalksOn(lines, naming, depth, i, stack, own, inner, pushed, inside + beyond, Shown(lines, i, f).value, after);
  }

  lemma {:induction false} PathsOfBodyThenRest(
    lines: seq<Line>, i: nat, body: Forest, rest: Forest, stack: seq<Entry>, depth: int, naming: Naming)
    returns (after: seq<Entry>)
    requires naming.Coherent() && Unambiguous(body) && Unambiguous(rest)
    requires ShownBody(lines, i, body).Some? && Shown(lines, ShownBody(lines, i, body).value, rest).Some?
    requires Pop(stack, depth + 1) == stack
    ensures
      var beyond := ShownBody(lines, i, body).value;
      Walks(lines, naming, depth, i, stack,
            Expected(lines, Next(lines, i), body, naming.path(stack), naming)
            + Expected(lines, beyond, rest, naming.path(Pop(stack, depth)), naming),
            Shown(lines, beyond, rest).value, after)
    ensures Pop(after, depth) == Pop(stack, depth)
    decreases Size(body) + Size(rest), 2
  {
    var beyond, outer := ShownBody(lines, i, body).value, Pop(stack, depth);
    PathsOfBody(lines, i, body, stack, depth, naming);
    PopBelow(stack, depth, depth);
    after := PathsOfForest(lines, beyond, rest, outer, depth, naming);
    WalksOn(lines, naming, depth, i, stack, Expected(lines, Next(lines, i), body, naming.path(stack), naming), beyond,
            outer, Expected(lines, beyond, rest, naming.path(outer), naming), Shown(lines, beyond, rest).value, after);
  }

  lemma {:induction false} PathsOfBody(
    lines: seq<Line>, i: nat, body: Forest, stack: seq<Entry>, depth: int, naming: Naming)
    requires naming.Coherent() && ShownBody(lines, i, body).Some? && Unambiguous(body)
    requires Pop(stack, depth + 1) == stack
    ensures Walks(lines, naming, depth, i, stack,
                  Expected(lines, Next(lines, i), body, naming.path(stack), naming),
                  ShownBody(lines, i, body).value, Pop(stack, depth))
    decreases Size(body), 1
  {
    var found := Expected(lines, Next(lines, i), body, naming.path(stack), naming);
    var inside := PathsOfForest(lines, Next(lines, i), body, stack, depth + 1, naming);
    PopBelow(inside, depth + 1, depth);
    PathsOfBraces(lines, i, found, Shown(lines, Next(lines, i), body).value, stack, inside, depth, naming);
  }

  lemma PathsOfBraces(lines: seq<Line>, i: nat, found: seq<ObjectPath>, close: nat,
                      stack: seq<Entry>, inside: seq<Entry>, depth: int, naming: Naming)
    requires NextIs(lines, i, OPEN) && NextIs(lines, close, CLOSE)
    requires Pop(stack, depth + 1) == stack && Pop(inside, depth) == Pop(stack, depth)
    requires Walks(lines, naming, depth + 1, Next(lines, i), stack, found, close, inside)
    ensures Walks(lines, naming, depth, i, stack, found, Next(lines, close), Pop(stack, depth))
  {
    PathsPlainLine(lines, i, OPEN, stack, depth, naming);
    PathsPlainLine(lines, close, CLOSE, inside, depth + 1, naming);
  }

  // ------------------------------------------------------------------ get_scope

  /** The count after a text line: unset until the first opening brace, and closing braces on that line are ignored. */
  function Counted(line: Line, brackets: Option<int>): Option<int>
    requires line.Text?
  {
    match brackets
    case None => if line.opens > 0 then Some(line.opens) else None
    case Some(b) => Some(b + line.opens - line.closes)
  }

  function ScopeFrom(lines: seq<Line>, i: nat, brackets: Option<int>, addHex: bool): seq<Line>
    decreases |lines| - i
  {
    if i >= |lines| then []
    else if lines[i].Hex? then (if addHex then [lines[i]] else []) + ScopeFrom(lines, i + 1, brackets, addHex)
    else
      var now := Counted(lines[i], brackets);
      [lines[i]] + if brackets.Some? && now.value <= 0 then [] else ScopeFrom(lines, i + 1, now, addHex)
  }

  /** What the scope still takes after the text line `k`. */
  function ScopeAfter(lines: seq<Line>, k: nat, brackets: Option<int>, addHex: bool): seq<Line>
    requires k < |lines| && lines[k].Text?
  {
    var now := Counted(lines[k], brackets);
    if brackets.Some? && now.value <= 0 then [] else ScopeFrom(lines, k + 1, now, addHex)
  }

  /** The lines in `i..j`, with or without the hex lines. */
  function Cut(lines: seq<Line>, i: nat, j: nat, addHex: bool): seq<Line>
    requires j <= |lines|
    decreases j - i
  {
    if i >= j then []
    else (if addHex || lines[i].Text? then [lines[i]] else []) + Cut(lines, i + 1, j, addHex)
  }

  lemma {:induction false} CutSplits(lines: seq<Line>, i: nat, j: nat, k: nat, addHex: bool)
    requires i <= j <= k <= |lines|
    ensures Cut(lines, i, k, addHex) == Cut(lines, i, j, addHex) + Cut(lines, j, k, addHex)
    decreases j - i
  {
    if i < j { CutSplits(lines, i + 1, j, k, addHex); }
  }

  lemma {:induction false} CutWhole(lines: seq<Line>, i: nat, j: nat)
    requires i <= j <= |lines|
    ensures Cut(lines, i, j, true) == lines[i..j]
    decreases j - i
  {
    if i < j {
      CutWhole(lines, i + 1, j);
      assert lines[i..j] == [lines[i]] + lines[i + 1..j];
    }
  }

  /** The piece up to and including the next text line. */
  lemma {:induction false} CutNext(lines: seq<Line>, i: nat)
    requires SkipHex(lines, i) < |lines|
    ensures Next(lines, i) <= |lines|
    ensures Cut(lines, i, Next(lines, i), false) == [lines[SkipHex(lines, i)]]
    decreases |lines| - i
  {
    if lines[i].Hex? { CutNext(lines, i + 1); }
  }

  lemma {:induction false} SkipHexIsText(lines: seq<Line>, i: nat)
    ensures SkipHex(lines, i) < |lines| ==> lines[SkipHex(lines, i)].Text?
    decreases |lines| - i
  {
    if i < |lines| && lines[i].Hex? { SkipHexIsText(lines, i + 1); }
  }

  /** A hex line is taken or dropped, by the scope as by the cut. */
  lemma ScopeHexLine(lines: seq<Line>, i: nat, j: nat, brackets: Option<int>, addHex: bool) returns (head: seq<Line>)
    requires i < j <= |lines| && lines[i].Hex?
    ensures ScopeFrom(lines, i, brackets, addHex) == head + ScopeFrom(lines, i + 1, brackets, addHex)
    ensures Cut(lines, i, j, addHex) == head + Cut(lines, i + 1, j, addHex)
    ensures SkipHex(lines, i) == SkipHex(lines, i + 1)
  {
    head := if addHex then [lines[i]] else [];
  }

  lemma ScopeTextLine(lines: seq<Line>, i: nat, brackets: Option<int>, addHex: bool)
    requires i < |lines| && lines[i].Text?
    ensures SkipHex(lines, i) == i && Cut(lines, i, i + 1, addHex) == [lines[i]]
    ensures ScopeFrom(lines, i, brackets, addHex) == [lines[i]] + ScopeAfter(lines, i, brackets, addHex)
  { }

  lemma {:induction false} ScopeNext(lines: seq<Line>, i: nat, brackets: Option<int>, addHex: bool)
    requires SkipHex(lines, i) < |lines|
    ensures lines[SkipHex(lines, i)].Text?
    ensures ScopeFrom(lines, i, brackets, addHex) ==
      Cut(lines, i, Next(lines, i), addHex) + ScopeAfter(lines, SkipHex(lines, i), brackets, addHex)
    decreases |lines| - i
  {
    hide ScopeFrom, ScopeAfter, Cut;
    SkipHexIsText(lines, i);
    var after := ScopeAfter(lines, SkipHex(lines, i), brackets, addHex);
    if lines[i].Hex? {
      var head := ScopeHexLine(lines, i, Next(lines, i), brackets, addHex);
      ScopeNext(lines, i + 1, brackets, addHex);
      Assoc(head, Cut(lines, i + 1, Next(lines, i), addHex), after);
    } else {
      ScopeTextLine(lines, i, brackets, addHex);
    }
  }

  /** With an open scope at count `b`, exactly the lines `i..j` are kept and the count stays. */
  predicate Keeps(lines: seq<Line>, b: int, addHex: bool, i: nat, j: nat) {
    i <= j <= |lines| &&
    ScopeFrom(lines, i, Some(b), addHex) == Cut(lines, i, j, addHex) + ScopeFrom(lines, j, Some(b), addHex)
  }

  lemma {:induction false} KeepsOn(lines: seq<Line>, b: int, addHex: bool, i: nat, j: nat, k: nat)
    requires Keeps(lines, b, addHex, i, j) && Keeps(lines, b, addHex, j, k)
    ensures Keeps(lines, b, addHex, i, k)
  {
    hide ScopeFrom, Cut;
    CutSplits(lines, i, j, k, addHex);
  }

  /** Inside an open scope a balanced text line is kept and the count stays. */
  lemma {:induction false} ScopeKeepsLine(lines: seq<Line>, i: nat, n: nat, decl: Option<Decl>, b: int, addHex: bool)
    requires NextIs(lines, i, Line.Text(n, n, decl)) && b > 0
    ensures Keeps(lines, b, addHex, i, Next(lines, i))
  {
    ScopeNext(lines, i, Some(b), addHex);
  }

  lemma {:induction false} ShownAdvances(lines: seq<Line>, i: nat, f: Forest)
    requires Shown(lines, i, f).Some? && i <= |lines|
    ensures i <= Shown(lines, i, f).value <= |lines|
    decreases f, 0
  {
    match f {
      case Empty =>
      case Plain(_, rest) => ShownAdvances(lines, Next(lines, i), rest);
      case Leaf(_, _, rest) => ShownAdvances(lines, Next(lines, i), rest);
      case Block(body, rest) =>
        ShownBodyAdvances(lines, i, body);
        ShownAdvances(lines, ShownBody(lines, i, body).value, rest);
      case Node(_, body, rest) =>
        ShownBodyAdvances(lines, Next(lines, i), body);
        ShownAdvances(lines, ShownBody(lines, Next(lines, i), body).value, rest);
    }
  }

  lemma {:induction false} ShownBodyAdvances(lines: seq<Line>, i: nat, body: Forest)
    requires ShownBody(lines, i, body).Some?
    ensures i <= Next(lines, i) <= Shown(lines, Next(lines, i), body).value <= |lines|
    ensures i < ShownBody(lines, i, body).value <= |lines|
    decreases body, 1
  {
    ShownAdvances(lines, Next(lines, i), body);
  }

  /** Inside an open scope a whole forest is kept and the count stays. */
  lemma {:induction false} ScopeKeepsForest(lines: seq<Line>, i: nat, f: Forest, b: int, addHex: bool)
    requires i <= |lines| && Shown(lines, i, f).Some? && b > 0
    ensures Keeps(lines, b, addHex, i, Shown(lines, i, f).value)
    decreases f, 0
  {
    var end := Shown(lines, i, f).value;
    match f {
      case Empty =>
      case Plain(n, rest) =>
        ScopeKeepsLine(lines, i, n, None, b, addHex);
        ScopeKeepsForest(lines, Next(lines, i), rest, b, addHex);
        KeepsOn(lines, b, addHex, i, Next(lines, i), end);
      case Leaf(d, n, rest) =>
        ScopeKeepsLine(lines, i, n, Some(d), b, addHex);
        ScopeKeepsForest(lines, Next(lines, i), rest, b, addHex);
        KeepsOn(lines, b, addHex, i, Next(lines, i), end);
      case Block(body, rest) =>
        var after := ShownBody(lines, i, body).value;
        ScopeKeepsBody(lines, i, body, b, addHex);
        ScopeKeepsForest(lines, after, rest, b, addHex);
        KeepsOn(lines, b, addHex, i, after, end);
      case Node(d, body, rest) =>
        var inner := Next(lines, i);
        var after := ShownBody(lines, inner, body).value;
        ScopeKeepsLine(lines, i, 0, Some(d), b, addHex);
        ScopeKeepsBody(lines, inner, body, b, addHex);
        ScopeKeepsForest(lines, after, rest, b, addHex);
        KeepsOn(lines, b, addHex, i, inner, after);
        KeepsOn(lines, b, addHex, i, after, end);
    }
  }

  lemma {:induction false} ScopeKeepsBody(lines: seq<Line>, i: nat, body: Forest, b: int, addHex: bool)
    requires ShownBody(lines, i, body).Some? && b > 0
    ensures Keeps(lines, b, addHex, i, ShownBody(lines, i, body).value)
    decreases body, 1
  {
    ShownBodyAdvances(lines, i, body);
    var close := Shown(lines, Next(lines, i), body).value;
    ScopeKeepsForest(lines, Next(lines, i), body, b + 1, addHex);
    ScopeOfBraces(lines, i, Some(b), b + 1, close, addHex);
  }

  /** An opening brace line, lines that keep the count `inside`, and a closing brace line. */
  lemma {:induction false} ScopeOfBraces(lines: seq<Line>, i: nat, before: Option<int>, inside: int, close: nat,
                                         addHex: bool)
    requires NextIs(lines, i, OPEN) && Counted(OPEN, before) == Some(inside) && inside > 0
    requires Keeps(lines, inside, addHex, Next(lines, i), close) && NextIs(lines, close, CLOSE)
    ensures i <= Next(lines, close) <= |lines|
    ensures ScopeFrom(lines, i, before, addHex) ==
      Cut(lines, i, Next(lines, close), addHex) + ScopeBeyond(lines, Next(lines, close), inside, addHex)
  {
    var inner, end := Next(lines, i), Next(lines, close);
    ScopeOpens(lines, i, before, inside, addHex);
    ScopeCloses(lines, close, inside, addHex);
    BodyCut(lines, i, inner, close, end, addHex);
    Regroup(Cut(lines, i, inner, addHex), Cut(lines, inner, close, addHex), Cut(lines, close, end, addHex),
            ScopeBeyond(lines, end, inside, addHex));
  }

  /** What the scope takes after a closing brace that brings the count down from `inside`. */
  function ScopeBeyond(lines: seq<Line>, end: nat, inside: int, addHex: bool): seq<Line> {
    if inside > 1 then ScopeFrom(lines, end, Some(inside - 1), addHex) else []
  }

  lemma {:induction false} AfterOpen(lines: seq<Line>, k: nat, before: Option<int>, inside: int, addHex: bool)
    requires k < |lines| && lines[k] == OPEN && Counted(OPEN, before) == Some(inside) && inside > 0
    ensures ScopeAfter(lines, k, before, addHex) == ScopeFrom(lines, k + 1, Some(inside), addHex)
  { }

  lemma {:induction false} ScopeOpens(lines: seq<Line>, i: nat, before: Option<int>, inside: int, addHex: bool)
    requires NextIs(lines, i, OPEN) && Counted(OPEN, before) == Some(inside) && inside > 0
    ensures ScopeFrom(lines, i, before, addHex) ==
      Cut(lines, i, Next(lines, i), addHex) + ScopeFrom(lines, Next(lines, i), Some(inside), addHex)
  {
    ScopeNext(lines, i, before, addHex);
    var k := SkipHex(lines, i);
    var after := ScopeAfter(lines, k, before, addHex);
    AfterOpen(lines, k, before, inside, addHex);
    assert after == ScopeFrom(lines, k + 1, Some(inside), addHex);
  }

  lemma {:induction false} ScopeCloses(lines: seq<Line>, close: nat, inside: int, addHex: bool)
    requires NextIs(lines, close, CLOSE) && inside > 0
    ensures ScopeFrom(lines, close, Some(inside), addHex) ==
      Cut(lines, close, Next(lines, close), addHex) + ScopeBeyond(lines, Next(lines, close), inside, addHex)
  {
    ScopeNext(lines, close, Some(inside), addHex);
  }

  lemma Regroup<T>(a: seq<T>, b: seq<T>, c: seq<T>, rest: seq<T>)
    ensures a + (b + (c + rest)) == a + b + c + rest
  { }

  lemma {:induction false} BodyCut(lines: seq<Line>, i: nat, inner: nat, close: nat, end: nat, addHex: bool)
    requires i <= inner <= close <= end <= |lines|
    ensures Cut(lines, i, end, addHex) ==
      Cut(lines, i, inner, addHex) + Cut(lines, inner, close, addHex) + Cut(lines, close, end, addHex)
  {
    CutSplits(lines, inner, close, end, addHex);
    CutSplits(lines, i, inner, end, addHex);
  }

  /** Without its hex lines, `i..j` reads `text`. */
  predicate Reads(lines: seq<Line>, i: nat, j: nat, text: seq<Line>) {
    i <= j <= |lines| && Cut(lines, i, j, false) == text
  }

  lemma {:induction false} ReadsOn(lines: seq<Line>, i: nat, j: nat, k: nat, a: seq<Line>, b: seq<Line>)
    requires Reads(lines, i, j, a) && Reads(lines, j, k, b)
    ensures Reads(lines, i, k, a + b)
  {
    CutSplits(lines, i, j, k, false);
  }

  lemma {:induction false} ReadsNext(lines: seq<Line>, i: nat, text: Line)
    requires NextIs(lines, i, text)
    ensures Reads(lines, i, Next(lines, i), [text])
  {
    CutNext(lines, i);
  }

  /** Removing the hex lines of a shown forest leaves its printed form. */
  lemma {:induction false} ShownReads(lines: seq<Line>, i: nat, f: Forest)
    requires i <= |lines| && Shown(lines, i, f).Some?
    ensures Reads(lines, i, Shown(lines, i, f).value, Print(f))
    decreases f, 0
  {
    var end := Shown(lines, i, f).value;
    match f {
      case Empty =>
      case Plain(n, rest) =>
        ReadsNext(lines, i, Line.Text(n, n, None));
        ShownReads(lines, Next(lines, i), rest);
        ReadsOn(lines, i, Next(lines, i), end, [Line.Text(n, n, None)], Print(rest));
      case Leaf(d, n, rest) =>
        ReadsNext(lines, i, Line.Text(n, n, Some(d)));
        ShownReads(lines, Next(lines, i), rest);
        ReadsOn(lines, i, Next(lines, i), end, [Line.Text(n, n, Some(d))], Print(rest));
      case Block(body, rest) =>
        var after := ShownBody(lines, i, body).value;
        BodyReads(lines, i, body);
        ShownReads(lines, after, rest);
        ReadsOn(lines, i, after, end, [OPEN] + Print(body) + [CLOSE], Print(rest));
      case Node(d, body, rest) =>
        NodeReads(lines, i, d, body);
        var after := ShownBody(lines, Next(lines, i), body).value;
        ShownReads(lines, after, rest);
        ReadsOn(lines, i, after, end, [Line.Text(0, 0, Some(d)), OPEN] + Print(body) + [CLOSE], Print(rest));
    }
  }

  lemma {:induction false} NodeReads(lines: seq<Line>, i: nat, d: Decl, body: Forest)
    requires NextIs(lines, i, Line.Text(0, 0, Some(d))) && ShownBody(lines, Next(lines, i), body).Some?
    ensures Reads(lines, i, ShownBody(lines, Next(lines, i), body).value,
                  [Line.Text(0, 0, Some(d)), OPEN] + Print(body) + [CLOSE])
    decreases body, 2
  {
    var inner, head := Next(lines, i), Line.Text(0, 0, Some(d));
    ReadsNext(lines, i, head);
    BodyReads(lines, inner, body);
    ReadsOn(lines, i, inner, ShownBody(lines, inner, body).value, [head], [OPEN] + Print(body) + [CLOSE]);
    assert [head] + ([OPEN] + Print(body) + [CLOSE]) == [head, OPEN] + Print(body) + [CLOSE];
  }

  lemma {:induction false} BodyReads(lines: seq<Line>, i: nat, body: Forest)
    requires ShownBody(lines, i, body).Some?
    ensures Reads(lines, i, ShownBody(lines, i, body).value, [OPEN] + Print(body) + [CLOSE])
    decreases body, 1
  {
    var inner := Next(lines, i);
    var close := Shown(lines, inner, body).value;
    ReadsNext(lines, i, OPEN);
    ShownReads(lines, inner, body);
    ReadsNext(lines, close, CLOSE);
    ReadsOn(lines, i, inner, close, [OPEN], Print(body));
    ReadsOn(lines, i, close, Next(lines, close), [OPEN] + Print(body), [CLOSE]);
  }

  // ------------------------------------------------------------------ the two together

  /** The text lines of the listing, hex lines removed, are the printed forest. */
  predicate Lists(lines: seq<Line>, f: Forest) {
    Unambiguous(f) && Cut(lines, 0, |lines|, false) == Print(f)
  }

  lemma {:induction false} NextRead(lines: seq<Line>, i: nat, text: Line, rest: seq<Line>)
    requires i <= |lines| && text.Text? && Cut(lines, i, |lines|, false) == [text] + rest
    ensures NextIs(lines, i, text) && Cut(lines, Next(lines, i), |lines|, false) == rest
    decreases |lines| - i
  {
    if lines[i].Hex? {
      NextRead(lines, i + 1, text, rest);
    } else {
      var all := Cut(lines, i, |lines|, false);
      assert all[0] == text && all[1..] == rest;
      assert all == [lines[i]] + Cut(lines, i + 1, |lines|, false);
      assert all[1..] == Cut(lines, i + 1, |lines|, false);
    }
  }

  /** Wherever the hex lines stand, a listing that reads as the printed forest shows it. */
  lemma {:induction false} ReadIsShown(lines: seq<Line>, i: nat, f: Forest, rest: seq<Line>)
    requires i <= |lines| && Cut(lines, i, |lines|, false) == Print(f) + rest
    ensures Shown(lines, i, f).Some? && Shown(lines, i, f).value <= |lines|
    ensures Cut(lines, Shown(lines, i, f).value, |lines|, false) == rest
    decreases f, 0
  {
    match f {
      case Empty =>
        assert Print(f) + rest == rest;
      case Plain(n, more) =>
        assert Print(f) + rest == [Line.Text(n, n, None)] + (Print(more) + rest);
        NextRead(lines, i, Line.Text(n, n, None), Print(more) + rest);
        ReadIsShown(lines, Next(lines, i), more, rest);
      case Leaf(d, n, more) =>
        assert Print(f) + rest == [Line.Text(n, n, Some(d))] + (Print(more) + rest);
        NextRead(lines, i, Line.Text(n, n, Some(d)), Print(more) + rest);
        ReadIsShown(lines, Next(lines, i), more, rest);
      case Block(body, more) =>
        assert Print(f) + rest == [OPEN] + Print(body) + [CLOSE] + (Print(more) + rest);
        BodyReadIsShown(lines, i, body, Print(more) + rest);
        ReadIsShown(lines, ShownBody(lines, i, body).value, more, rest);
      case Node(d, body, more) =>
        var head, tail := Line.Text(0, 0, Some(d)), [OPEN] + Print(body) + [CLOSE] + (Print(more) + rest);
        assert Print(f) + rest == [head] + tail;
        NextRead(lines, i, head, tail);
        BodyReadIsShown(lines, Next(lines, i), body, Print(more) + rest);
        ReadIsShown(lines, ShownBody(lines, Next(lines, i), body).value, more, rest);
    }
  }

  lemma {:induction false} BodyReadIsShown(lines: seq<Line>, i: nat, body: Forest, rest: seq<Line>)
    requires i <= |lines| && Cut(lines, i, |lines|, false) == [OPEN] + Print(body) + [CLOSE] + rest
    ensures ShownBody(lines, i, body).Some? && ShownBody(lines, i, body).value <= |lines|
    ensures Cut(lines, ShownBody(lines, i, body).value, |lines|, false) == rest
    decreases body, 1
  {
    var inner := [CLOSE] + rest;
    assert [OPEN] + Print(body) + [CLOSE] + rest == [OPEN] + (Print(body) + inner);
    NextRead(lines, i, OPEN, Print(body) + inner);
    ReadIsShown(lines, Next(lines, i), body, inner);
    NextRead(lines, Shown(lines, Next(lines, i), body).value, CLOSE, rest);
  }

  lemma {:induction false} NoTextLeft(lines: seq<Line>, i: nat)
    requires i <= |lines| && Cut(lines, i, |lines|, false) == []
    ensures SkipHex(lines, i) == |lines|
    decreases |lines| - i
  {
    if i < |lines| { NoTextLeft(lines, i + 1); }
  }

  lemma ListedIsShown(lines: seq<Line>, f: Forest)
    requires Lists(lines, f)
    ensures Shown(lines, 0, f).Some? && SkipHex(lines, Shown(lines, 0, f).value) == |lines|
  {
    assert Print(f) + [] == Print(f);
    ReadIsShown(lines, 0, f, []);
    NoTextLeft(lines, Shown(lines, 0, f).value);
  }

  lemma ListedIsReported(lines: seq<Line>, f: Forest, naming: Naming)
    requires Lists(lines, f) && naming.Coherent()
    ensures Shown(lines, 0, f).Some?
    ensures PathsFrom(lines, 0, [], 0, naming) == Expected(lines, 0, f, naming.path([]), naming)
  {
    hide Expected, Shown;
    ListedIsShown(lines, f);
    var found := Expected(lines, 0, f, naming.path([]), naming);
    var after := PathsOfForest(lines, 0, f, [], 0, naming);
    PathsSkipHex(lines, Shown(lines, 0, f).value, after, 0, naming);
    assert found + [] == found;
  }

  /** `get_paths` inverts the printer: one entry for every object but scopes, resolved, with its declaration line. */
  lemma PathsRecoverNamespace(lines: seq<Line>, f: Forest)
    requires Lists(lines, f)
    ensures Shown(lines, 0, f).Some? && Paths(lines) == Expected(lines, 0, f, [], AcpiNaming())
  {
    hide Expected, Shown, PathsFrom, Lists;
    ListedIsReported(lines, f, AcpiNaming());
  }

  /** The forest shown from line `i` declares `object`, a single leaf or node, at line `k`. */
  predicate Declares(lines: seq<Line>, i: nat, f: Forest, k: nat, obj: Forest)
    requires Shown(lines, i, f).Some?
    decreases f
  {
    match f
    case Empty => false
    case Plain(_, rest) => Declares(lines, Next(lines, i), rest, k, obj)
    case Leaf(d, n, rest) =>
      (k == SkipHex(lines, i) && obj == Leaf(d, n, Empty)) || Declares(lines, Next(lines, i), rest, k, obj)
    case Block(body, rest) =>
      Declares(lines, Next(lines, i), body, k, obj)
      || Declares(lines, ShownBody(lines, i, body).value, rest, k, obj)
    case Node(d, body, rest) =>
      var inner := Next(lines, i);
      (k == SkipHex(lines, i) && obj == Node(d, body, Empty))
      || Declares(lines, Next(lines, inner), body, k, obj)
      || Declares(lines, ShownBody(lines, inner, body).value, rest, k, obj)
  }

  /** Every reported line declares an object of the reported kind. */
  lemma {:induction false} ReportedIsDeclared(
    lines: seq<Line>, i: nat, f: Forest, scope: seq<string>, naming: Naming, p: ObjectPath)
    returns (obj: Forest)
    requires naming.Labelled() && Shown(lines, i, f).Some? && p in Expected(lines, i, f, scope, naming)
    ensures Declares(lines, i, f, p.line, obj)
    ensures (obj.Leaf? || obj.Node?) && obj.decl.kind == p.kind && !p.kind.Scope?
    decreases f
  {
    match f {
      case Plain(_, rest) => obj := ReportedIsDeclared(lines, Next(lines, i), rest, scope, naming, p);
      case Leaf(d, n, rest) =>
        if p in naming.report(naming.resolve(scope, d.name), SkipHex(lines, i), d.kind) {
          obj := Leaf(d, n, Empty);
        } else {
          obj := ReportedIsDeclared(lines, Next(lines, i), rest, scope, naming, p);
        }
      case Block(body, rest) =>
        if p in Expected(lines, Next(lines, i), body, scope, naming) {
          obj := ReportedIsDeclared(lines, Next(lines, i), body, scope, naming, p);
        } else {
          obj := ReportedIsDeclared(lines, ShownBody(lines, i, body).value, rest, scope, naming, p);
        }
      case Node(d, body, rest) =>
        var inner := Next(lines, i);
        if p in naming.report(naming.resolve(scope, d.name), SkipHex(lines, i), d.kind) {
          obj := Node(d, body, Empty);
        } else if p in Expected(lines, Next(lines, inner), body, naming.resolve(scope, d.name), naming) {
          obj := ReportedIsDeclared(lines, Next(lines, inner), body, naming.resolve(scope, d.name), naming, p);
        } else {
          obj := ReportedIsDeclared(lines, ShownBody(lines, inner, body).value, rest, scope, naming, p);
        }
    }
  }

  /** A declared node stands in the listing with its whole body. */
  lemma {:induction false} DeclaredIsShown(lines: seq<Line>, i: nat, f: Forest, k: nat, obj: Forest)
    requires Shown(lines, i, f).Some? && Declares(lines, i, f, k, obj) && obj.Node?
    ensures k < |lines| && lines[k] == Line.Text(0, 0, Some(obj.decl)) && obj.rest == Empty
    ensures ShownBody(lines, k + 1, obj.body).Some?
    decreases f
  {
    match f {
      case Plain(_, rest) => DeclaredIsShown(lines, Next(lines, i), rest, k, obj);
      case Leaf(_, _, rest) => DeclaredIsShown(lines, Next(lines, i), rest, k, obj);
      case Block(body, rest) =>
        if Declares(lines, Next(lines, i), body, k, obj) {
          DeclaredIsShown(lines, Next(lines, i), body, k, obj);
        } else {
          DeclaredIsShown(lines, ShownBody(lines, i, body).value, rest, k, obj);
        }
      case Node(d, body, rest) =>
        var inner := Next(lines, i);
        if k == SkipHex(lines, i) && obj == Node(d, body, Empty) {
        } else if Declares(lines, Next(lines, inner), body, k, obj) {
          DeclaredIsShown(lines, Next(lines, inner), body, k, obj);
        } else {
          DeclaredIsShown(lines, ShownBody(lines, inner, body).value, rest, k, obj);
        }
    }
  }

  /** `get_scope` from the declaration line of any braced object returns exactly that object. */
  lemma ScopeIsObject(lines: seq<Line>, f: Forest, k: nat, obj: Forest)
    requires Shown(lines, 0, f).Some? && Declares(lines, 0, f, k, obj) && obj.Node?
    ensures ScopeFrom(lines, k, None, false) == Print(obj)
    ensures ShownBody(lines, k + 1, obj.body).Some?
    ensures k < ShownBody(lines, k + 1, obj.body).value <= |lines|
    ensures ScopeFrom(lines, k, None, true) == lines[k..ShownBody(lines, k + 1, obj.body).value]
  {
    DeclaredIsShown(lines, 0, f, k, obj);
    NodeReads(lines, k, obj.decl, obj.body);
    ShownBodyAdvances(lines, k + 1, obj.body);
    ScopeOfNode(lines, k, obj.decl, obj.body, false);
    ScopeOfNode(lines, k, obj.decl, obj.body, true);
    CutWhole(lines, k, ShownBody(lines, k + 1, obj.body).value);
  }

  lemma ScopeOfNode(lines: seq<Line>, k: nat, d: Decl, body: Forest, addHex: bool)
    requires k < |lines| && lines[k] == Line.Text(0, 0, Some(d)) && ShownBody(lines, k + 1, body).Some?
    ensures ShownBody(lines, k + 1, body).value <= |lines|
    ensures ScopeFrom(lines, k, None, addHex) == Cut(lines, k, ShownBody(lines, k + 1, body).value, addHex)
  {
    ShownBodyAdvances(lines, k + 1, body);
    ScopeOfBody(lines, k + 1, body, addHex);
  }

  lemma ScopeOfBody(lines: seq<Line>, i: nat, body: Forest, addHex: bool)
    requires ShownBody(lines, i, body).Some?
    ensures ShownBody(lines, i, body).value <= |lines|
    ensures ScopeFrom(lines, i, None, addHex) == Cut(lines, i, ShownBody(lines, i, body).value, addHex)
  {
    ShownBodyAdvances(lines, i, body);
    var close := Shown(lines, Next(lines, i), body).value;
    ScopeKeepsForest(lines, Next(lines, i), body, 1, addHex);
    ScopeOfBraces(lines, i, None, 1, close, addHex);
  }

  /** From the line of every reported braced object, `get_scope` returns that object's printed subtree. */
  lemma ScopeOfReportedObject(lines: seq<Line>, f: Forest, p: ObjectPath) returns (obj: Forest)
    requires Lists(lines, f) && p in Paths(lines)
    ensures Shown(lines, 0, f).Some? && Declares(lines, 0, f, p.line, obj)
    ensures (obj.Leaf? || obj.Node?) && obj.decl.kind == p.kind && !p.kind.Scope?
    ensures obj.Node? ==> ScopeFrom(lines, p.line, None, false) == Print(obj)
  {
    PathsRecoverNamespace(lines, f);
    obj := ReportedIsDeclared(lines, 0, f, [], AcpiNaming(), p);
    if obj.Node? { ScopeIsObject(lines, f, p.line, obj); }
  }
}
