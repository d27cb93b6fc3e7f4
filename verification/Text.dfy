/** The string operations the sources use: splitting and joining at a character, stripping, counting, removing. */
module Text {
  import opened Options
  import opened Sequences

  function Split(s: string, c: char): (parts: seq<string>)
    ensures parts != []
  {
    if s == "" then [""]
    else
      var rest := Split(s[1..], c);
      if s[0] == c then [""] + rest else [[s[0]] + rest[0]] + rest[1..]
  }

  function Join(parts: seq<string>, c: char): string {
    if parts == [] then ""
    else if |parts| == 1 then parts[0]
    else parts[0] + [c] + Join(parts[1..], c)
  }

  /** The parts of a text with one more character in front. */
  function PushFront(head: char, parts: seq<string>, c: char): seq<string>
    requires parts != []
  {
    if head == c then [""] + parts else [[head] + parts[0]] + parts[1..]
  }

  lemma SplitStep(s: string, c: char, tail: string)
    requires s != "" && s[1..] == tail
    ensures Split(s, c) == PushFront(s[0], Split(tail, c), c)
  { }

  lemma PushFrontConcat(head: char, x: seq<string>, y: seq<string>, c: char)
    requires x != []
    ensures PushFront(head, x + y, c) == PushFront(head, x, c) + y
  { }

  lemma {:induction false} SplitConcat(a: string, c: char, b: string)
    ensures Split(a + [c] + b, c) == Split(a, c) + Split(b, c)
  {
    var whole := a + [c] + b;
    if a == "" {
      SplitStep(whole, c, b);
      assert Split(a, c) == [""];
    } else {
      SplitConcat(a[1..], c, b);
      SplitStep(whole, c, a[1..] + [c] + b);
      SplitStep(a, c, a[1..]);
      PushFrontConcat(a[0], Split(a[1..], c), Split(b, c), c);
    }
  }

  lemma {:induction false} SplitWithout(a: string, c: char)
    requires c !in a
    ensures Split(a, c) == [a]
  {
    if a != "" {
      SplitWithout(a[1..], c);
      assert a == [a[0]] + a[1..];
    }
  }

  /** Joining parts that do not contain the separator and splitting again gives the parts. */
  lemma {:induction false} SplitJoin(parts: seq<string>, c: char)
    requires parts != [] && forall p :: p in parts ==> c !in p
    ensures Split(Join(parts, c), c) == parts
  {
    SplitWithout(parts[0], c);
    if |parts| > 1 {
      SplitJoin(parts[1..], c);
      SplitConcat(parts[0], c, Join(parts[1..], c));
      assert parts == [parts[0]] + parts[1..];
    }
  }

  lemma {:induction false} SplitSize(s: string, c: char)
    ensures |Split(s, c)| == 1 <==> c !in s
  {
    if s != "" {
      SplitSize(s[1..], c);
      assert s == [s[0]] + s[1..];
    }
  }

  /** Splitting joined parts gives no fewer, and as many exactly when none of them contains the separator. */
  lemma {:induction false} SplitJoinSize(parts: seq<string>, c: char)
    requires parts != []
    ensures |Split(Join(parts, c), c)| >= |parts|
    ensures |Split(Join(parts, c), c)| == |parts| <==> forall k :: 0 <= k < |parts| ==> c !in parts[k]
  {
    SplitSize(parts[0], c);
    if |parts| > 1 {
      var rest := parts[1..];
      SplitJoinSize(rest, c);
      SplitConcat(parts[0], c, Join(rest, c));
      assert forall k :: 0 < k < |parts| ==> parts[k] == rest[k - 1];
      assert forall k :: 0 <= k < |rest| ==> rest[k] == parts[k + 1];
    }
  }

  lemma {:induction false} InJoin(parts: seq<string>, sep: char, k: nat, c: char)
    requires k < |parts| && c in parts[k]
    ensures c in Join(parts, sep)
  {
    if k > 0 { InJoin(parts[1..], sep, k - 1, c); }
  }

  lemma {:induction false} JoinMore(parts: seq<string>, last: string, c: char)
    requires parts != []
    ensures Join(parts + [last], c) == Join(parts, c) + [c] + last
  {
    assert (parts + [last])[1..] == parts[1..] + [last];
    if |parts| == 1 {
      assert parts[1..] + [last] == [last];
    } else {
      JoinMore(parts[1..], last, c);
      assert parts[0] + [c] + (Join(parts[1..], c) + [c] + last) == parts[0] + [c] + Join(parts[1..], c) + [c] + last;
    }
  }

  function StripRight(s: string, c: char): string {
    if s != "" && s[|s| - 1] == c then StripRight(s[..|s| - 1], c) else s
  }

  function StripLeft(s: string, c: char): string {
    if s != "" && s[0] == c then StripLeft(s[1..], c) else s
  }

  function CountOf(s: string, c: char): nat {
    if s == "" then 0 else (if s[0] == c then 1 else 0) + CountOf(s[1..], c)
  }

  function Without(s: string, c: char): string {
    if s == "" then "" else (if s[0] == c then "" else [s[0]]) + Without(s[1..], c)
  }

  lemma {:induction false} NothingToRemove(s: string, c: char)
    requires c !in s
    ensures CountOf(s, c) == 0 && Without(s, c) == s
  {
    if s != "" { NothingToRemove(s[1..], c); }
  }

  /** Removes the characters that count as blank from both ends. */
  function Strip(s: string, blank: char -> bool): string {
    if s != "" && blank(s[0]) then Strip(s[1..], blank)
    else if s != "" && blank(s[|s| - 1]) then Strip(s[..|s| - 1], blank)
    else s
  }

  /** The first occurrence at or after `start`. */
  function Find(s: string, part: string, start: nat): (r: Option<nat>)
    ensures r.Some? ==> start <= r.value && OccursAt(s, part, r.value)
    ensures forall k: nat {:trigger OccursAt(s, part, k)} ::
              start <= k && OccursAt(s, part, k) ==> r.Some? && r.value <= k
  {
    FindFromIsFirst(s, part, start);
    FindFrom(s, part, start)
  }

  // ------------------------------------------------------------------ what the operations leave and remove

  /** Putting the parts of a text together again gives the text. */
  lemma {:induction false} JoinSplit(s: string, c: char)
    ensures Join(Split(s, c), c) == s
  {
    if s != "" {
      JoinSplit(s[1..], c);
      var rest := Split(s[1..], c);
      SplitStep(s, c, s[1..]);
      assert s == [s[0]] + s[1..];
      if s[0] != c && |rest| > 1 { assert ([[s[0]] + rest[0]] + rest[1..])[1..] == rest[1..]; }
    }
  }

  /** `t` is `s` without the run of `c` at its end. */
  predicate IsStrippedRight(s: string, c: char, t: string) {
    |t| <= |s| && s[..|t|] == t && (forall k :: |t| <= k < |s| ==> s[k] == c) && (t != "" ==> t[|t| - 1] != c)
  }

  /** `t` is `s` without the run of `c` at its start. */
  predicate IsStrippedLeft(s: string, c: char, t: string) {
    |t| <= |s| && s[|s| - |t|..] == t && (forall k :: 0 <= k < |s| - |t| ==> s[k] == c) && (t != "" ==> t[0] != c)
  }

  lemma {:induction false} StripRightIs(s: string, c: char)
    ensures IsStrippedRight(s, c, StripRight(s, c))
  {
    if s != "" && s[|s| - 1] == c { StripRightIs(s[..|s| - 1], c); }
  }

  lemma {:induction false} StripLeftIs(s: string, c: char)
    ensures IsStrippedLeft(s, c, StripLeft(s, c))
  {
    if s != "" && s[0] == c {
      StripLeftIs(s[1..], c);
      var t := StripLeft(s[1..], c);
      assert s[|s| - |t|..] == s[1..][|s| - 1 - |t|..];
      forall k | 0 <= k < |s| - |t|
        ensures s[k] == c
      {
        if k > 0 { assert s[k] == s[1..][k - 1]; }
      }
    }
  }

  /** `t` stands at `a` in `s` between blank characters, and neither begins nor ends with one. */
  ghost predicate StrippedAt(s: string, blank: char -> bool, t: string, a: nat) {
    OccursAt(s, t, a) && (forall k :: 0 <= k < a || a + |t| <= k < |s| ==> blank(s[k])) &&
    (t != "" ==> !blank(t[0]) && !blank(t[|t| - 1]))
  }

  ghost predicate IsStripped(s: string, blank: char -> bool, t: string) { exists a: nat :: StrippedAt(s, blank, t, a) }

  lemma StretchOfTail(s: string, b: nat, n: nat)
    requires 1 + b + n <= |s|
    ensures s[b + 1..b + 1 + n] == s[1..][b..b + n]
  { }

  lemma StretchOfFront(s: string, a: nat, n: nat)
    requires a + n < |s|
    ensures s[a..a + n] == s[..|s| - 1][a..a + n]
  { }

  lemma {:induction false} StripAt(s: string, blank: char -> bool) returns (a: nat)
    ensures StrippedAt(s, blank, Strip(s, blank), a)
  {
    var t := Strip(s, blank);
    if s != "" && blank(s[0]) {
      var b := StripAt(s[1..], blank);
      a := b + 1;
      StretchOfTail(s, b, |t|);
      forall k | 0 <= k < a || a + |t| <= k < |s|
        ensures blank(s[k])
      {
        if k > 0 { assert s[k] == s[1..][k - 1]; }
      }
    } else if s != "" && blank(s[|s| - 1]) {
      a := StripAt(s[..|s| - 1], blank);
      StretchOfFront(s, a, |t|);
      forall k | 0 <= k < a || a + |t| <= k < |s|
        ensures blank(s[k])
      {
        if k < |s| - 1 { assert s[k] == s[..|s| - 1][k]; }
      }
    } else {
      a := 0;
    }
  }

  /** Stripping is told by what it removes and what it leaves. */
  lemma StripIff(s: string, blank: char -> bool, t: string)
    ensures IsStripped(s, blank, t) <==> t == Strip(s, blank)
  {
    var b := StripAt(s, blank);
    if IsStripped(s, blank, t) {
      var a: nat :| StrippedAt(s, blank, t, a);
      SameStretch(s, blank, t, a, Strip(s, blank), b);
    }
  }

  lemma SameStretch(s: string, blank: char -> bool, t: string, a: nat, u: string, b: nat)
    requires StrippedAt(s, blank, t, a) && StrippedAt(s, blank, u, b)
    ensures t == u
  {
    if t != "" { assert t[0] == s[a] && t[|t| - 1] == s[a + |t| - 1]; }
    if u != "" { assert u[0] == s[b] && u[|u| - 1] == s[b + |u| - 1]; }
    if t != "" && u != "" { assert a == b && |t| == |u|; }
  }

  function Places(s: string, c: char): set<nat> { set k: nat | k < |s| && s[k] == c }

  /** How often a character stands in a text. */
  lemma {:induction false} CountOfIs(s: string, c: char)
    ensures CountOf(s, c) == |Places(s, c)|
  {
    var here := Places(s, c);
    if s == "" {
      assert here == {};
    } else {
      CountOfIs(s[..|s| - 1], c);
      CountOfMore(s[..|s| - 1], s[|s| - 1], c);
      assert s == s[..|s| - 1] + [s[|s| - 1]];
      var before := Places(s[..|s| - 1], c);
      if s[|s| - 1] == c { assert here == before + {|s| - 1}; } else { assert here == before; }
    }
  }

  lemma {:induction false} CountOfMore(s: string, d: char, c: char)
    ensures CountOf(s + [d], c) == CountOf(s, c) + if d == c then 1 else 0
  {
    if s != "" {
      CountOfMore(s[1..], d, c);
      assert (s + [d])[1..] == s[1..] + [d];
    }
  }
}
