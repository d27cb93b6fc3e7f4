/** Bytes, their hexadecimal digits, and the non-overlapping search that `bytes.count` and byte patches perform. */
module ByteSearch {
  import opened Options
  import opened Sequences

  type Nibble = char

  /** A byte is given by its two hexadecimal digits, upper case as the listing prints them. */
  datatype Byte = Byte(high: Nibble, low: Nibble)

  // ------------------------------------------------------------------ hexadecimal digits

  function Digits(bytes: seq<Byte>): (d: seq<Nibble>)
    ensures |d| == 2 * |bytes|
  {
    if bytes == [] then [] else [bytes[0].high, bytes[0].low] + Digits(bytes[1..])
  }

  /** `binascii.unhexlify`: an odd number of digits is an error. */
  function Unhex(d: seq<Nibble>): (r: Option<seq<Byte>>)
    ensures r.Some? <==> |d| % 2 == 0
    ensures r.Some? ==> 2 * |r.value| == |d|
  {
    if |d| == 0 then Some([])
    else if |d| == 1 then None
    else
      match Unhex(d[2..])
      case None => None
      case Some(rest) => Some([Byte(d[0], d[1])] + rest)
  }

  lemma {:induction false} UnhexDigits(bytes: seq<Byte>)
    ensures Unhex(Digits(bytes)) == Some(bytes)
  {
    if bytes != [] {
      UnhexDigits(bytes[1..]);
      assert Digits(bytes)[2..] == Digits(bytes[1..]);
      assert bytes == [bytes[0]] + bytes[1..];
    }
  }

  lemma {:induction false} DigitsConcat(a: seq<Byte>, b: seq<Byte>)
    ensures Digits(a + b) == Digits(a) + Digits(b)
  {
    if a == [] {
      assert a + b == b;
    } else {
      DigitsConcat(a[1..], b);
      assert (a + b)[1..] == a[1..] + b && (a + b)[0] == a[0];
      Assoc([a[0].high, a[0].low], Digits(a[1..]), Digits(b));
    }
  }

  lemma DigitsAt(bytes: seq<Byte>, k: nat)
    requires k <= |bytes|
    ensures Digits(bytes)[..2 * k] == Digits(bytes[..k]) && Digits(bytes)[2 * k..] == Digits(bytes[k..])
  {
    var a, b := bytes[..k], bytes[k..];
    assert bytes == a + b;
    DigitsConcat(a, b);
    ConcatParts(Digits(bytes), Digits(a), Digits(b), 2 * k);
  }

  lemma ConcatParts<T>(all: seq<T>, a: seq<T>, b: seq<T>, n: nat)
    requires all == a + b && n == |a|
    ensures n <= |all| && all[..n] == a && all[n..] == b
  { }

  // ------------------------------------------------------------------ searching

  /** Non-overlapping occurrences counted from the left, as `bytes.count` does. */
  function CountFrom(raw: seq<Byte>, pattern: seq<Byte>, i: nat): nat
    requires pattern != []
    decreases |raw| - i
  {
    match FindFrom(raw, pattern, i)
    case None => 0
    case Some(k) =>
      FindFromIsFirst(raw, pattern, i);
      1 + CountFrom(raw, pattern, k + |pattern|)
  }

  function Count(raw: seq<Byte>, pattern: seq<Byte>): nat
    requires pattern != []
  {
    CountFrom(raw, pattern, 0)
  }

  lemma SliceOfSlice<T>(s: seq<T>, a: nat, b: nat, c: nat, d: nat)
    requires a <= b <= |s| && c <= d <= b - a
    ensures s[a..b][c..d] == s[a + c..a + d]
  {
    var t := s[a..b];
    forall i | 0 <= i < d - c
      ensures t[c..d][i] == s[a + c..a + d][i]
    {
      assert t[c..d][i] == t[c + i] == s[a + (c + i)];
    }
  }

  lemma MiddleOf<T>(x: seq<T>, m: seq<T>, y: seq<T>)
    ensures (x + m + y)[|x|..|x| + |m|] == m
  { }

  lemma InnerOccurs(raw: seq<Byte>, x: seq<Byte>, pattern: seq<Byte>, y: seq<Byte>, k: nat)
    requires OccursAt(raw, x + pattern + y, k)
    ensures OccursAt(raw, pattern, k + |x|)
  {
    var longer := x + pattern + y;
    MiddleOf(x, pattern, y);
    SliceOfSlice(raw, k, k + |longer|, |x|, |x| + |pattern|);
  }

  /** Every occurrence of `longer` holds one of `pattern`, `d` bytes in. */
  ghost predicate Holds(raw: seq<Byte>, longer: seq<Byte>, pattern: seq<Byte>, d: nat) {
    forall k: nat {:trigger OccursAt(raw, longer, k)} :: OccursAt(raw, longer, k) ==> OccursAt(raw, pattern, k + d)
  }

  lemma NextCounted(raw: seq<Byte>, pattern: seq<Byte>, i: nat) returns (k: nat)
    requires pattern != [] && CountFrom(raw, pattern, i) > 0
    ensures i <= k && OccursAt(raw, pattern, k) && k + |pattern| <= |raw|
    ensures CountFrom(raw, pattern, i) == 1 + CountFrom(raw, pattern, k + |pattern|)
  {
    FindFromIsFirst(raw, pattern, i);
    k := FindFrom(raw, pattern, i).value;
  }

  lemma FirstAtMost(raw: seq<Byte>, pattern: seq<Byte>, j: nat, at: nat) returns (m: nat)
    requires pattern != [] && j <= at && OccursAt(raw, pattern, at)
    ensures FindFrom(raw, pattern, j) == Some(m) && m <= at
    ensures CountFrom(raw, pattern, j) == 1 + CountFrom(raw, pattern, m + |pattern|)
  {
    FindFromIsFirst(raw, pattern, j);
    m := FindFrom(raw, pattern, j).value;
  }

  /** Past the next `longer`, and past a `pattern` that begins no later than the one inside it. */
  lemma NextOfBoth(raw: seq<Byte>, longer: seq<Byte>, pattern: seq<Byte>, d: nat, i: nat, j: nat)
    returns (i': nat, j': nat)
    requires pattern != [] && d + |pattern| <= |longer| && j <= i + d
    requires Holds(raw, longer, pattern, d) && CountFrom(raw, longer, i) > 0
    ensures i < i' <= |raw| && j' <= i' + d
    ensures CountFrom(raw, longer, i) == 1 + CountFrom(raw, longer, i')
    ensures CountFrom(raw, pattern, j) == 1 + CountFrom(raw, pattern, j')
  {
    hide CountFrom, FindFrom;
    var k := NextCounted(raw, longer, i);
    var m := FirstAtMost(raw, pattern, j, k + d);
    i', j' := k + |longer|, m + |pattern|;
  }

  /** Then `longer` is counted no more often. */
  lemma {:induction false} ShiftedCountsLess(raw: seq<Byte>, longer: seq<Byte>, pattern: seq<Byte>, d: nat, i: nat,
                                             j: nat)
    requires pattern != [] && d + |pattern| <= |longer| && j <= i + d
    requires Holds(raw, longer, pattern, d)
    ensures CountFrom(raw, longer, i) <= CountFrom(raw, pattern, j)
    decreases |raw| - i
  {
    if CountFrom(raw, longer, i) > 0 {
      var i', j' := NextOfBoth(raw, longer, pattern, d, i, j);
      ShiftedCountsLess(raw, longer, pattern, d, i', j');
    }
  }

  /**
   * Growing a pattern on either side never raises its count. The search for the longer pattern may start up to
   * `|x|` before the search for the shorter one.
   */
  lemma LongerCountsLess(raw: seq<Byte>, x: seq<Byte>, pattern: seq<Byte>, y: seq<Byte>, i: nat, j: nat)
    requires pattern != [] && j <= i + |x|
    ensures CountFrom(raw, x + pattern + y, i) <= CountFrom(raw, pattern, j)
  {
    var longer := x + pattern + y;
    forall k: nat | OccursAt(raw, longer, k)
      ensures OccursAt(raw, pattern, k + |x|)
    {
      InnerOccurs(raw, x, pattern, y, k);
    }
    ShiftedCountsLess(raw, longer, pattern, |x|, i, j);
  }

  lemma OccurrenceIsCounted(raw: seq<Byte>, pattern: seq<Byte>, k: nat)
    requires pattern != [] && OccursAt(raw, pattern, k)
    ensures Count(raw, pattern) >= 1
  {
    FindFromIsFirst(raw, pattern, 0);
  }

  // ------------------------------------------------------------------ what is counted

  /** The pattern occurs at place `j` of `p`, from `i` on and after the end of the occurrence at the place before. */
  ghost predicate Follows(raw: seq<Byte>, pattern: seq<Byte>, i: nat, p: seq<nat>, j: nat)
    requires j < |p|
  {
    OccursAt(raw, pattern, p[j]) && (if j == 0 then i else p[j - 1] + |pattern|) <= p[j]
  }

  /** Places from `i` on where the pattern occurs, in order and without overlap. */
  ghost predicate ApartFrom(raw: seq<Byte>, pattern: seq<Byte>, i: nat, p: seq<nat>) {
    forall j: nat {:trigger Follows(raw, pattern, i, p, j)} :: j < |p| ==> Follows(raw, pattern, i, p, j)
  }

  lemma ApartOneMore(raw: seq<Byte>, pattern: seq<Byte>, i: nat, k: nat, rest: seq<nat>)
    ensures ApartFrom(raw, pattern, i, [k] + rest) <==>
      OccursAt(raw, pattern, k) && i <= k && ApartFrom(raw, pattern, k + |pattern|, rest)
  {
    var p, end := [k] + rest, k + |pattern|;
    if ApartFrom(raw, pattern, end, rest) {
      forall j: nat | 0 < j < |p|
        ensures Follows(raw, pattern, i, p, j)
      {
        assert Follows(raw, pattern, end, rest, j - 1);
      }
    }
    if ApartFrom(raw, pattern, i, p) {
      assert Follows(raw, pattern, i, p, 0);
      forall j: nat | j < |rest|
        ensures Follows(raw, pattern, end, rest, j)
      {
        assert Follows(raw, pattern, i, p, j + 1);
      }
    }
  }

  lemma {:induction false} CountIsReached(raw: seq<Byte>, pattern: seq<Byte>, i: nat) returns (p: seq<nat>)
    requires pattern != []
    ensures ApartFrom(raw, pattern, i, p) && |p| == CountFrom(raw, pattern, i)
    decreases |raw| - i
  {
    hide CountFrom, FindFrom, Follows, OccursAt;
    p := [];
    if CountFrom(raw, pattern, i) > 0 {
      var k := NextCounted(raw, pattern, i);
      var rest := CountIsReached(raw, pattern, k + |pattern|);
      p := [k] + rest;
      ApartOneMore(raw, pattern, i, k, rest);
    }
  }

  lemma ApartEarlier(raw: seq<Byte>, pattern: seq<Byte>, i: nat, k: nat, p: seq<nat>)
    requires ApartFrom(raw, pattern, i, p) && k <= i
    ensures ApartFrom(raw, pattern, k, p)
  {
    forall j: nat | j < |p|
      ensures Follows(raw, pattern, k, p, j)
    {
      assert Follows(raw, pattern, i, p, j);
    }
  }

  lemma ApartPrefix(raw: seq<Byte>, pattern: seq<Byte>, i: nat, p: seq<nat>, n: nat)
    requires ApartFrom(raw, pattern, i, p) && n <= |p|
    ensures ApartFrom(raw, pattern, i, p[..n])
  {
    forall j: nat | j < n
      ensures Follows(raw, pattern, i, p[..n], j)
    {
      assert Follows(raw, pattern, i, p, j);
    }
  }

  lemma {:induction false} CountIsMost(raw: seq<Byte>, pattern: seq<Byte>, i: nat, p: seq<nat>)
    requires pattern != [] && ApartFrom(raw, pattern, i, p)
    ensures |p| <= CountFrom(raw, pattern, i)
    decreases |p|
  {
    hide CountFrom, FindFrom, Follows, ApartFrom, OccursAt;
    if p != [] {
      var rest := p[1..];
      assert p == [p[0]] + rest;
      ApartOneMore(raw, pattern, i, p[0], rest);
      var k := FirstAtMost(raw, pattern, i, p[0]);
      ApartEarlier(raw, pattern, p[0] + |pattern|, k + |pattern|, rest);
      CountIsMost(raw, pattern, k + |pattern|, rest);
    }
  }

  /** The count is the largest number of occurrences of which no two overlap. */
  lemma CountIsLargest(raw: seq<Byte>, pattern: seq<Byte>, n: nat)
    requires pattern != []
    ensures n <= Count(raw, pattern) <==> exists p :: |p| == n && ApartFrom(raw, pattern, 0, p)
  {
    if n <= Count(raw, pattern) {
      var p := CountIsReached(raw, pattern, 0);
      ApartPrefix(raw, pattern, 0, p, n);
      assert |p[..n]| == n;
    }
    forall p | |p| == n && ApartFrom(raw, pattern, 0, p)
      ensures n <= Count(raw, pattern)
    {
      CountIsMost(raw, pattern, 0, p);
    }
  }

  /** The digits of a byte stand in their order at twice its place. */
  lemma {:induction false} DigitsOfByte(bytes: seq<Byte>, k: nat)
    requires k < |bytes|
    ensures Digits(bytes)[2 * k] == bytes[k].high && Digits(bytes)[2 * k + 1] == bytes[k].low
  {
    if k > 0 { DigitsOfByte(bytes[1..], k - 1); }
  }
}
