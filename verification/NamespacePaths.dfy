/**
 * The entries that `get_paths` returns, told by the declarations of the printed tree: the segments of a path by the
 * names and carets of the enclosing declarations, and the text of a path by its segments.
 */
module NamespacePaths {
  import opened HexListing
  import opened Sequences
  import opened Text
  import opened Namespace

  // ------------------------------------------------------------------ the text of a path

  /** `t` stands at `a` in `s` after backslashes and before underscores, beginning and ending otherwise. */
  ghost predicate TrimmedAt(s: string, t: string, a: nat) {
    && OccursAt(s, t, a)
    && (forall k :: 0 <= k < a ==> s[k] == '\\')
    && (forall k :: a + |t| <= k < |s| ==> s[k] == '_')
    && (t != "" ==> t[0] != '\\' && t[|t| - 1] != '_')
  }

  ghost predicate IsTrimmed(s: string, t: string) { exists a: nat :: TrimmedAt(s, t, a) }

  lemma TrimIs(s: string)
    ensures IsTrimmed(s, StripRight(StripLeft(s, '\\'), '_'))
  {
    var u := StripLeft(s, '\\');
    var t := StripRight(u, '_');
    StripLeftIs(s, '\\');
    StripRightIs(u, '_');
    var a := |s| - |u|;
    assert s[a..] == u && s[a..a + |t|] == u[..|t|];
    forall k | a + |t| <= k < |s|
      ensures s[k] == '_'
    {
      assert s[k] == u[k - a];
    }
    if t != "" { assert t[0] == u[0]; }
    assert TrimmedAt(s, t, a);
  }

  lemma TrimIsUnique(s: string, t: string, u: string)
    requires IsTrimmed(s, t) && IsTrimmed(s, u)
    ensures t == u
  {
    var a: nat :| TrimmedAt(s, t, a);
    var b: nat :| TrimmedAt(s, u, b);
    if t != "" { assert t[0] == s[a] && t[|t| - 1] == s[a + |t| - 1]; }
    if u != "" { assert u[0] == s[b] && u[|u| - 1] == s[b + |u| - 1]; }
    if t != "" && u != "" { assert a == b && |t| == |u|; }
  }

  /**
   * The text of a path: its parts between dots are the segments, each without backslashes in front and underscores
   * behind, and the first part alone has a backslash in front.
   */
  ghost predicate IsPathText(path: seq<string>, text: string) {
    var parts := Split(text, '.');
    && |parts| == |path|
    && parts[0] != "" && parts[0][0] == '\\'
    && forall j {:trigger path[j]} :: 0 <= j < |path| ==>
         IsTrimmed(path[j], if j == 0 then parts[0][1..] else parts[j])
  }

  predicate NoDots(path: seq<string>) { forall s :: s in path ==> '.' !in s }

  lemma TrimHasNoDot(s: string)
    requires '.' !in s
    ensures '.' !in StripRight(StripLeft(s, '\\'), '_')
  {
    StripLeftIs(s, '\\');
    StripRightIs(StripLeft(s, '\\'), '_');
  }

  /** One part of the printed path. */
  function Part(path: seq<string>, j: nat): string
    requires j < |path|
  {
    (if j == 0 then "\\" else "") + StripRight(StripLeft(path[j], '\\'), '_')
  }

  lemma PartIs(path: seq<string>, j: nat)
    requires j < |path| && '.' !in path[j]
    ensures '.' !in Part(path, j)
    ensures j == 0 ==> Part(path, 0) != "" && Part(path, 0)[0] == '\\' && IsTrimmed(path[0], Part(path, 0)[1..])
    ensures j > 0 ==> IsTrimmed(path[j], Part(path, j))
  {
    hide StripRight, StripLeft, IsTrimmed;
    var t := StripRight(StripLeft(path[j], '\\'), '_');
    TrimIs(path[j]);
    TrimHasNoDot(path[j]);
    if j == 0 { assert ("\\" + t)[1..] == t; } else { assert "" + t == t; }
  }

  lemma RenderIsPathText(path: seq<string>)
    requires path != [] && NoDots(path)
    ensures IsPathText(path, Render(path))
  {
    hide IsTrimmed;
    var parts := seq(|path|, j requires 0 <= j < |path| =>
      (if j == 0 then "\\" else "") + StripRight(StripLeft(path[j], '\\'), '_'));
    assert Render(path) == Join(parts, '.');
    forall j | 0 <= j < |path|
      ensures parts[j] == Part(path, j) && '.' !in parts[j]
    {
      assert path[j] in path;
      PartIs(path, j);
    }
    SplitJoin(parts, '.');
    forall j | 0 <= j < |path|
      ensures IsTrimmed(path[j], if j == 0 then parts[0][1..] else parts[j])
    {
      assert path[j] in path;
      PartIs(path, j);
    }
    assert path[0] in path;
    PartIs(path, 0);
  }

  /** The text of a path is told by its segments alone. */
  lemma PathTextIff(path: seq<string>, text: string)
    requires path != [] && NoDots(path)
    ensures IsPathText(path, text) <==> text == Render(path)
  {
    RenderIsPathText(path);
    if IsPathText(path, text) {
      var parts, own := Split(text, '.'), Split(Render(path), '.');
      forall j | 0 <= j < |path|
        ensures parts[j] == own[j]
      {
        var t, u := if j == 0 then parts[0][1..] else parts[j], if j == 0 then own[0][1..] else own[j];
        assert IsTrimmed(path[j], t) && IsTrimmed(path[j], u);
        TrimIsUnique(path[j], t, u);
        if j == 0 { assert parts[0] == ['\\'] + t && own[0] == ['\\'] + u; }
      }
      assert parts == own;
      JoinSplit(text, '.');
      JoinSplit(Render(path), '.');
    }
  }

  // ------------------------------------------------------------------ the segments of a path

  /** The first segment, underscores behind it aside, begins with a backslash or is one of two predefined scopes. */
  lemma QualifiedIff(name: string)
    ensures Qualified(name) <==>
      || (name != "" && name[0] == '\\')
      || IsStrippedRight(Split(name, '.')[0], '_', "_SB")
      || IsStrippedRight(Split(name, '.')[0], '_', "_PR")
  {
    var first := Split(name, '.')[0];
    StripRightIs(first, '_');
    FirstOfSplit(name);
    if IsStrippedRight(first, '_', "_SB") { StrippedRightUnique(first, '_', "_SB", StripRight(first, '_')); }
    if IsStrippedRight(first, '_', "_PR") { StrippedRightUnique(first, '_', "_PR", StripRight(first, '_')); }
  }

  lemma FirstOfSplit(name: string)
    ensures name != "" && name[0] != '.' <==> Split(name, '.')[0] != ""
    ensures Split(name, '.')[0] != "" ==> Split(name, '.')[0][0] == name[0]
  { }

  lemma StrippedRightUnique(s: string, c: char, t: string, u: string)
    requires IsStrippedRight(s, c, t) && IsStrippedRight(s, c, u)
    ensures t == u
  {
    if t != "" { assert t[|t| - 1] == s[|t| - 1]; }
    if u != "" { assert u[|u| - 1] == s[|u| - 1]; }
  }

  function Carets(n: nat): string { seq(n, _ => '^') }

  lemma {:induction false} CaretsInFront(n: nat, rest: string)
    requires '^' !in rest
    ensures CountOf(Carets(n) + rest, '^') == n && Without(Carets(n) + rest, '^') == rest
  {
    if n == 0 {
      assert Carets(0) + rest == rest;
      NothingToRemove(rest, '^');
    } else {
      CaretsInFront(n - 1, rest);
      assert (Carets(n) + rest)[1..] == Carets(n - 1) + rest;
    }
  }

  lemma CaretIsRelative(ups: nat, name: string)
    requires ups == 0 ==> !Qualified(name)
    ensures !Qualified(Carets(ups) + name)
  {
    if ups == 0 {
      assert Carets(0) + name == name;
    } else {
      var whole := Carets(ups) + name;
      assert whole[0] == '^';
      QualifiedIff(whole);
      FirstOfSplit(whole);
    }
  }

  lemma ClimbFirst(scope: seq<string>, segment: string, rest: seq<string>)
    ensures Climb(scope, [segment] + rest) ==
      Climb(Above(scope, CountOf(segment, '^')) + [Without(segment, '^')], rest)
  {
    hide CountOf, Without, Above;
    var all := [segment] + rest;
    assert all[0] == segment && all[1..] == rest;
  }

  lemma ClimbOnce(scope: seq<string>, ups: nat, first: string, rest: seq<string>)
    requires '^' !in first && forall s :: s in rest ==> '^' !in s
    ensures Climb(scope, [Carets(ups) + first] + rest) == Above(scope, ups) + ([first] + rest)
  {
    hide Climb, CountOf, Without, Carets, Above;
    CaretsInFront(ups, first);
    ClimbFirst(scope, Carets(ups) + first, rest);
    ClimbPlain(Above(scope, ups) + [first], rest);
    Assoc(Above(scope, ups), [first], rest);
  }

  /** A name with carets in front goes up as many levels as it has carets, but not above the root. */
  lemma ResolveUp(scope: seq<string>, ups: nat, name: string)
    requires '^' !in name && (ups == 0 ==> !Qualified(name))
    ensures Resolve(scope, Carets(ups) + name) ==
      scope[..if ups <= |scope| then |scope| - ups else 0] + Split(name, '.')
  {
    assert Above(scope, ups) == scope[..if ups <= |scope| then |scope| - ups else 0];
    hide Qualified, Climb, Split, Above;
    var parts := Split(name, '.');
    SplitInFront(Carets(ups), name);
    PartsAreInside(name, '.', '^');
    CaretIsRelative(ups, name);
    ClimbOnce(scope, ups, parts[0], parts[1..]);
    assert parts == [parts[0]] + parts[1..];
  }

  /** A qualified name stands for its own segments, without the bare root in front. */
  lemma ResolveAbsolute(scope: seq<string>, name: string)
    requires '^' !in name && Qualified(name)
    ensures Resolve(scope, name) ==
      if Split(name, '.')[0] == "\\" then Split(name, '.')[1..] else Split(name, '.')
  {
    PartsAreInside(name, '.', '^');
    var segments := DropRoot(Split(name, '.'));
    ClimbPlain([], segments);
    assert [] + segments == segments;
  }

  lemma {:induction false} SplitInFront(head: string, s: string)
    requires '.' !in head
    ensures Split(head + s, '.') == [head + Split(s, '.')[0]] + Split(s, '.')[1..]
  {
    if head == "" {
      assert "" + s == s && "" + Split(s, '.')[0] == Split(s, '.')[0];
    } else {
      SplitInFront(head[1..], s);
      assert (head + s)[1..] == head[1..] + s && (head + s)[0] == head[0];
      assert [head[0]] + (head[1..] + Split(s, '.')[0]) == head + Split(s, '.')[0];
    }
  }

  /** The parts of a text hold no character that the text lacks. */
  lemma {:induction false} PartsAreInside(s: string, c: char, d: char)
    requires d !in s
    ensures forall p :: p in Split(s, c) ==> d !in p
  {
    if s != "" {
      PartsAreInside(s[1..], c, d);
      SplitStep(s, c, s[1..]);
    }
  }

  lemma {:induction false} PartsHaveNoDots(s: string)
    ensures NoDots(Split(s, '.'))
  {
    if s != "" {
      PartsHaveNoDots(s[1..]);
      SplitStep(s, '.', s[1..]);
    }
  }

  lemma {:induction false} WithoutIsInside(s: string, c: char, d: char)
    requires d !in s
    ensures d !in Without(s, c)
  {
    if s != "" { WithoutIsInside(s[1..], c, d); }
  }

  lemma {:induction false} ClimbHasNoDots(scope: seq<string>, segments: seq<string>)
    requires NoDots(scope) && NoDots(segments)
    ensures NoDots(Climb(scope, segments))
    decreases |segments|
  {
    if segments != [] {
      WithoutIsInside(segments[0], '^', '.');
      ClimbHasNoDots(Above(scope, CountOf(segments[0], '^')) + [Without(segments[0], '^')], segments[1..]);
    }
  }

  lemma ResolveHasNoDots(scope: seq<string>, name: string)
    requires NoDots(scope)
    ensures NoDots(Resolve(scope, name))
  {
    PartsHaveNoDots(name);
    ClimbHasNoDots(scope, Split(name, '.'));
    ClimbHasNoDots([], DropRoot(Split(name, '.')));
  }

  // ------------------------------------------------------------------ the entries

  /** The shown forest declares `d` at line `k`, below the scope `scope`, so that it has the path `path`. */
  ghost predicate DeclaresAt(lines: seq<Line>, i: nat, f: Forest, scope: seq<string>, k: nat, d: Decl,
                             path: seq<string>)
    requires Shown(lines, i, f).Some?
    decreases f
  {
    match f
    case Empty => false
    case Plain(_, rest) => DeclaresAt(lines, Next(lines, i), rest, scope, k, d, path)
    case Leaf(own, _, rest) =>
      || (k == SkipHex(lines, i) && d == own && path == Resolve(scope, own.name))
      || DeclaresAt(lines, Next(lines, i), rest, scope, k, d, path)
    case Block(body, rest) =>
      || DeclaresAt(lines, Next(lines, i), body, scope, k, d, path)
      || DeclaresAt(lines, ShownBody(lines, i, body).value, rest, scope, k, d, path)
    case Node(own, body, rest) =>
      var inner := Next(lines, i);
      || (k == SkipHex(lines, i) && d == own && path == Resolve(scope, own.name))
      || DeclaresAt(lines, Next(lines, inner), body, Resolve(scope, own.name), k, d, path)
      || DeclaresAt(lines, ShownBody(lines, inner, body).value, rest, scope, k, d, path)
  }

  /** The entry of a declaration: its line and kind, and the text of its path; scopes and the bare root have none. */
  ghost predicate IsEntry(p: ObjectPath, k: nat, d: Decl, path: seq<string>) {
    !d.kind.Scope? && path != [] && p.line == k && p.kind == d.kind && IsPathText(path, p.path)
  }

  ghost predicate HasEntry(lines: seq<Line>, i: nat, f: Forest, scope: seq<string>, p: ObjectPath)
    requires Shown(lines, i, f).Some?
  {
    exists k: nat, d: Decl, path: seq<string> {:trigger DeclaresAt(lines, i, f, scope, k, d, path)} ::
      DeclaresAt(lines, i, f, scope, k, d, path) && IsEntry(p, k, d, path)
  }

  lemma ReportIff(scope: seq<string>, d: Decl, k: nat, p: ObjectPath)
    requires NoDots(scope)
    ensures p in Report(Resolve(scope, d.name), k, d.kind) <==> IsEntry(p, k, d, Resolve(scope, d.name))
  {
    var path := Resolve(scope, d.name);
    ResolveHasNoDots(scope, d.name);
    if path != [] { PathTextIff(path, p.path); }
  }

  /** A part of the tree has the entries of the declarations in it. */
  lemma EntryOfPart(lines: seq<Line>, i: nat, f: Forest, scope: seq<string>, at: nat, part: Forest, inside: seq<string>,
                    p: ObjectPath)
    requires Shown(lines, i, f).Some? && Shown(lines, at, part).Some?
    requires forall k: nat, d: Decl, path: seq<string> {:trigger DeclaresAt(lines, at, part, inside, k, d, path)} ::
      DeclaresAt(lines, at, part, inside, k, d, path) ==> DeclaresAt(lines, i, f, scope, k, d, path)
    ensures HasEntry(lines, at, part, inside, p) ==> HasEntry(lines, i, f, scope, p)
  {
    if HasEntry(lines, at, part, inside, p) {
      var k: nat, d: Decl, path: seq<string> :|
        DeclaresAt(lines, at, part, inside, k, d, path) && IsEntry(p, k, d, path);
      assert DeclaresAt(lines, i, f, scope, k, d, path);
    }
  }

  /** What one declaration and the parts around it contribute. */
  lemma HasEntrySplits(lines: seq<Line>, i: nat, f: Forest, scope: seq<string>, p: ObjectPath)
    requires Shown(lines, i, f).Some?
    ensures
      var inner := Next(lines, i);
      HasEntry(lines, i, f, scope, p) <==>
        match f
        case Empty => false
        case Plain(_, rest) => HasEntry(lines, inner, rest, scope, p)
        case Leaf(d, _, rest) =>
          IsEntry(p, SkipHex(lines, i), d, Resolve(scope, d.name)) || HasEntry(lines, inner, rest, scope, p)
        case Block(body, rest) =>
          HasEntry(lines, inner, body, scope, p)
          || HasEntry(lines, ShownBody(lines, i, body).value, rest, scope, p)
        case Node(d, body, rest) =>
          IsEntry(p, SkipHex(lines, i), d, Resolve(scope, d.name))
          || HasEntry(lines, Next(lines, inner), body, Resolve(scope, d.name), p)
          || HasEntry(lines, ShownBody(lines, inner, body).value, rest, scope, p)
  {
    hide Resolve, IsEntry, SkipHex;
    if f.Leaf? || f.Node? {
      var k, path := SkipHex(lines, i), Resolve(scope, f.decl.name);
      assert DeclaresAt(lines, i, f, scope, k, f.decl, path);
    }
    match f {
      case Empty =>
      case Plain(_, rest) => EntryOfPart(lines, i, f, scope, Next(lines, i), rest, scope, p);
      case Leaf(_, _, rest) => EntryOfPart(lines, i, f, scope, Next(lines, i), rest, scope, p);
      case Block(body, rest) =>
        EntryOfPart(lines, i, f, scope, Next(lines, i), body, scope, p);
        EntryOfPart(lines, i, f, scope, ShownBody(lines, i, body).value, rest, scope, p);
      case Node(d, body, rest) =>
        var inner := Next(lines, i);
        EntryOfPart(lines, i, f, scope, Next(lines, inner), body, Resolve(scope, d.name), p);
        EntryOfPart(lines, i, f, scope, ShownBody(lines, inner, body).value, rest, scope, p);
    }
    if HasEntry(lines, i, f, scope, p) { EntryIsInPart(lines, i, f, scope, p); }
  }

  lemma EntryIsInPart(lines: seq<Line>, i: nat, f: Forest, scope: seq<string>, p: ObjectPath)
    requires Shown(lines, i, f).Some? && HasEntry(lines, i, f, scope, p)
    ensures
      var inner := Next(lines, i);
      match f
      case Empty => false
      case Plain(_, rest) => HasEntry(lines, inner, rest, scope, p)
      case Leaf(d, _, rest) =>
        IsEntry(p, SkipHex(lines, i), d, Resolve(scope, d.name)) || HasEntry(lines, inner, rest, scope, p)
      case Block(body, rest) =>
        HasEntry(lines, inner, body, scope, p)
        || HasEntry(lines, ShownBody(lines, i, body).value, rest, scope, p)
      case Node(d, body, rest) =>
        IsEntry(p, SkipHex(lines, i), d, Resolve(scope, d.name))
        || HasEntry(lines, Next(lines, inner), body, Resolve(scope, d.name), p)
        || HasEntry(lines, ShownBody(lines, inner, body).value, rest, scope, p)
  {
    hide Resolve, IsEntry, SkipHex;
    var k: nat, d: Decl, path: seq<string> :| DeclaresAt(lines, i, f, scope, k, d, path) && IsEntry(p, k, d, path);
    match f {
      case Empty =>
      case Plain(_, rest) => assert DeclaresAt(lines, Next(lines, i), rest, scope, k, d, path);
      case Leaf(own, _, rest) =>
        if !(k == SkipHex(lines, i) && d == own && path == Resolve(scope, own.name)) {
          assert DeclaresAt(lines, Next(lines, i), rest, scope, k, d, path);
        }
      case Block(body, rest) =>
        if !DeclaresAt(lines, Next(lines, i), body, scope, k, d, path) {
          assert DeclaresAt(lines, ShownBody(lines, i, body).value, rest, scope, k, d, path);
        }
      case Node(own, body, rest) =>
        var inner := Next(lines, i);
        if !(k == SkipHex(lines, i) && d == own && path == Resolve(scope, own.name)) {
          if !DeclaresAt(lines, Next(lines, inner), body, Resolve(scope, own.name), k, d, path) {
            assert DeclaresAt(lines, ShownBody(lines, inner, body).value, rest, scope, k, d, path);
          }
        }
    }
  }

  lemma {:induction false} ExpectedIff(lines: seq<Line>, i: nat, f: Forest, scope: seq<string>, p: ObjectPath)
    requires Shown(lines, i, f).Some? && NoDots(scope)
    ensures p in Expected(lines, i, f, scope, AcpiNaming()) <==> HasEntry(lines, i, f, scope, p)
    decreases f
  {
    hide HasEntry, Resolve, Report, NoDots;
    HasEntrySplits(lines, i, f, scope, p);
    match f {
      case Empty =>
      case Plain(_, rest) => ExpectedIff(lines, Next(lines, i), rest, scope, p);
      case Leaf(d, _, rest) =>
        ReportIff(scope, d, SkipHex(lines, i), p);
        ExpectedIff(lines, Next(lines, i), rest, scope, p);
      case Block(body, rest) =>
        ExpectedIff(lines, Next(lines, i), body, scope, p);
        ExpectedIff(lines, ShownBody(lines, i, body).value, rest, scope, p);
      case Node(d, body, rest) =>
        var inner := Next(lines, i);
        ReportIff(scope, d, SkipHex(lines, i), p);
        ResolveHasNoDots(scope, d.name);
        ExpectedIff(lines, Next(lines, inner), body, Resolve(scope, d.name), p);
        ExpectedIff(lines, ShownBody(lines, inner, body).value, rest, scope, p);
    }
  }

  /**
   * For every printed tree with hex lines anywhere: an entry is returned exactly if the tree declares an object that is
   * no scope and not the root, and the entry holds its line, its kind, and the text of its path.
   */
  lemma EntriesIff(lines: seq<Line>, f: Forest, p: ObjectPath)
    requires Lists(lines, f)
    ensures Shown(lines, 0, f).Some? && (p in Paths(lines) <==> HasEntry(lines, 0, f, [], p))
  {
    PathsRecoverNamespace(lines, f);
    ExpectedIff(lines, 0, f, [], p);
  }

  /** A declaration makes at most one entry, with its own line. */
  ghost predicate OneAtMost(naming: Naming) {
    forall segments: seq<string>, line: nat, kind: Kind {:trigger naming.report(segments, line, kind)} ::
      |naming.report(segments, line, kind)| <= 1 &&
      forall p :: p in naming.report(segments, line, kind) ==> p.line == line
  }

  lemma {:induction false} PathsFromAscend(lines: seq<Line>, i: nat, stack: seq<Entry>, brackets: int, naming: Naming,
                                           a: nat, b: nat)
    requires OneAtMost(naming) && a <= b < |PathsFrom(lines, i, stack, brackets, naming)|
    ensures
      var found := PathsFrom(lines, i, stack, brackets, naming);
      i <= found[a].line && (a < b ==> found[a].line < found[b].line)
    decreases |lines| - i
  {
    hide Pop;
    if i < |lines| {
      match lines[i]
      case Hex(_) => PathsFromAscend(lines, i + 1, stack, brackets, naming, a, b);
      case Text(opens, closes, decl) =>
        var depth := brackets + opens - closes;
        var outer := Pop(stack, depth);
        match decl
        case None => PathsFromAscend(lines, i + 1, outer, depth, naming, a, b);
        case Some(d) =>
          var pushed := outer + [Entry(d.name, depth)];
          var own := naming.report(naming.path(pushed), i, d.kind);
          if own == [] {
            PathsFromAscend(lines, i + 1, pushed, depth, naming, a, b);
          } else if b > 0 {
            assert own[0] in own;
            PathsFromAscend(lines, i + 1, pushed, depth, naming, if a > 0 then a - 1 else b - 1, b - 1);
          } else {
            assert own[0] in own;
          }
    }
  }

  /** No line has two entries: the lines of the entries strictly increase. */
  lemma OneEntryPerLine(lines: seq<Line>, a: nat, b: nat)
    requires a < b < |Paths(lines)|
    ensures Paths(lines)[a].line < Paths(lines)[b].line
  {
    PathsFromAscend(lines, 0, [], 0, AcpiNaming(), a, b);
  }

  /** Every declaration that is no scope and not the root has exactly one entry. */
  lemma DeclarationHasEntry(lines: seq<Line>, f: Forest, k: nat, d: Decl, path: seq<string>) returns (a: nat)
    requires Lists(lines, f) && Shown(lines, 0, f).Some? && DeclaresAt(lines, 0, f, [], k, d, path)
    requires !d.kind.Scope? && path != []
    ensures a < |Paths(lines)| && IsEntry(Paths(lines)[a], k, d, path)
    ensures forall b :: 0 <= b < |Paths(lines)| && Paths(lines)[b].line == k ==> b == a
  {
    var p := ObjectPath(Render(path), k, d.kind);
    DeclaredHasNoDots(lines, 0, f, [], k, d, path);
    RenderIsPathText(path);
    assert IsEntry(p, k, d, path);
    EntriesIff(lines, f, p);
    a :| a < |Paths(lines)| && Paths(lines)[a] == p;
    forall b | 0 <= b < |Paths(lines)| && Paths(lines)[b].line == k
      ensures b == a
    {
      if a < b { OneEntryPerLine(lines, a, b); }
      if b < a { OneEntryPerLine(lines, b, a); }
    }
  }

  lemma {:induction false} DeclaredHasNoDots(lines: seq<Line>, i: nat, f: Forest, scope: seq<string>, k: nat, d: Decl,
                                             path: seq<string>)
    requires Shown(lines, i, f).Some? && NoDots(scope) && DeclaresAt(lines, i, f, scope, k, d, path)
    ensures NoDots(path)
    decreases f
  {
    hide Resolve, NoDots, SkipHex;
    match f {
      case Plain(_, rest) => DeclaredHasNoDots(lines, Next(lines, i), rest, scope, k, d, path);
      case Leaf(own, _, rest) =>
        ResolveHasNoDots(scope, own.name);
        if DeclaresAt(lines, Next(lines, i), rest, scope, k, d, path) {
          DeclaredHasNoDots(lines, Next(lines, i), rest, scope, k, d, path);
        }
      case Block(body, rest) =>
        if DeclaresAt(lines, Next(lines, i), body, scope, k, d, path) {
          DeclaredHasNoDots(lines, Next(lines, i), body, scope, k, d, path);
        } else {
          DeclaredHasNoDots(lines, ShownBody(lines, i, body).value, rest, scope, k, d, path);
        }
      case Node(own, body, rest) =>
        var inner := Next(lines, i);
        ResolveHasNoDots(scope, own.name);
        if DeclaresAt(lines, Next(lines, inner), body, Resolve(scope, own.name), k, d, path) {
          DeclaredHasNoDots(lines, Next(lines, inner), body, Resolve(scope, own.name), k, d, path);
        } else if DeclaresAt(lines, ShownBody(lines, inner, body).value, rest, scope, k, d, path) {
          DeclaredHasNoDots(lines, ShownBody(lines, inner, body).value, rest, scope, k, d, path);
        }
    }
  }

  /** A path of two segments is a backslash, the first, a dot, and the second. */
  lemma TwoSegments(first: string, second: string)
    requires '.' !in first && '.' !in second && IsTrimmed(first, first) && IsTrimmed(second, second)
    ensures Render([first, second]) == "\\" + first + ['.'] + second
  {
    hide IsTrimmed, Render;
    var text := "\\" + first + ['.'] + second;
    SplitConcat("\\" + first, '.', second);
    SplitWithout("\\" + first, '.');
    SplitWithout(second, '.');
    assert ("\\" + first)[1..] == first;
    PathTextIff([first, second], text);
  }

  /** The device of `Scope (_SB) { Device (PCI0) { } }` is reported with its whole path. */
  lemma WholePathIsReported()
    ensures Render(["_SB", "PCI0"]) == "\\_SB.PCI0"
  {
    assert TrimmedAt("_SB", "_SB", 0) && TrimmedAt("PCI0", "PCI0", 0);
    TwoSegments("_SB", "PCI0");
    assert "\\_SB.PCI0" == "\\" + "_SB" + ['.'] + "PCI0";
  }
}
