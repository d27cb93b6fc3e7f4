/** The string in which `list_irqs` stores the IRQ values of a device and `get_hex_from_irqs` reads them back. */
module IrqFormat {
  import opened Options
  import opened Text

  /**
   * Values of adjacent IRQ descriptors, with the line of their first hex; `#` stands for a descriptor without values.
   */
  datatype Run = Run(index: int, values: seq<string>)

  // ------------------------------------------------------------------ decimal numbers

  function Digit(n: nat): char
    requires n < 10
  {
    '0' + n as char
  }

  function Decimal(n: nat): (s: string)
    ensures s != ""
  {
    if n < 10 then [Digit(n)] else Decimal(n / 10) + [Digit(n % 10)]
  }

  function Printed(i: int): string {
    if i < 0 then "-" + Decimal(-i) else Decimal(i)
  }

  /** The source's `int()` on text; only its behaviour on printed naturals matters. */
  ghost predicate ReadsDecimals(toInt: string -> Option<int>) {
    forall n: nat {:trigger Decimal(n)} :: toInt(Decimal(n)) == Some(n)
  }

  /** One such reader, for plain digits. */
  function ReadDecimal(s: string): Option<int> {
    if s == "" || !('0' <= s[|s| - 1] <= '9') then None
    else
      var last := (s[|s| - 1] - '0') as int;
      if |s| == 1 then Some(last)
      else
        match ReadDecimal(s[..|s| - 1])
        case None => None
        case Some(n) => Some(10 * n + last)
  }

  lemma {:induction false} ReadPrinted(n: nat)
    ensures ReadDecimal(Decimal(n)) == Some(n)
  {
    var s := Decimal(n);
    if n >= 10 {
      ReadPrinted(n / 10);
      assert s[..|s| - 1] == Decimal(n / 10);
    }
  }

  lemma {:induction false} DecimalIsDigits(n: nat, c: char)
    requires !('0' <= c <= '9')
    ensures c !in Decimal(n)
  {
    if n >= 10 { DecimalIsDigits(n / 10, c); }
  }

  // ------------------------------------------------------------------ encoding and decoding

  function EncodeRun(r: Run): string { Printed(r.index) + "|" + Join(r.values, ':') }

  function EncodeEach(runs: seq<Run>): (parts: seq<string>)
    ensures |parts| == |runs|
  {
    if runs == [] then [] else [EncodeRun(runs[0])] + EncodeEach(runs[1..])
  }

  function Encode(runs: seq<Run>): string { Join(EncodeEach(runs), '-') }

  /** `None` where the source raises: a part without exactly one `|`, or an index that is no number. */
  function DecodeRun(part: string, toInt: string -> Option<int>): Option<Run> {
    var fields := Split(part, '|');
    if |fields| != 2 then None
    else
      match toInt(fields[0])
      case None => None
      case Some(n) => Some(Run(n, Split(fields[1], ':')))
  }

  function DecodeEach(parts: seq<string>, decode: string -> Option<Run>): Option<seq<Run>> {
    if parts == [] then Some([])
    else
      match decode(parts[0])
      case None => None
      case Some(r) =>
        match DecodeEach(parts[1..], decode)
        case None => None
        case Some(rest) => Some([r] + rest)
  }

  function Decode(s: string, toInt: string -> Option<int>): Option<seq<Run>> {
    DecodeEach(Split(s, '-'), part => DecodeRun(part, toInt))
  }

  /** The text of a value line that the format can carry. */
  predicate Clean(value: string) {
    '-' !in value && '|' !in value && ':' !in value
  }

  predicate CleanRun(r: Run) {
    r.values != [] && forall v :: v in r.values ==> Clean(v)
  }

  predicate CleanRuns(runs: seq<Run>) {
    forall r :: r in runs ==> CleanRun(r)
  }

  // ------------------------------------------------------------------ the round trip

  lemma {:induction false} NotInJoin(parts: seq<string>, sep: char, c: char)
    requires c != sep && forall p :: p in parts ==> c !in p
    ensures c !in Join(parts, sep)
  {
    if |parts| > 1 { NotInJoin(parts[1..], sep, c); }
  }

  lemma EncodedRun(r: Run, toInt: string -> Option<int>)
    requires CleanRun(r) && r.index >= 0 && ReadsDecimals(toInt)
    ensures DecodeRun(EncodeRun(r), toInt) == Some(r) && '-' !in EncodeRun(r)
  {
    var number, list := Decimal(r.index), Join(r.values, ':');
    DecimalIsDigits(r.index, '|');
    DecimalIsDigits(r.index, '-');
    NotInJoin(r.values, ':', '|');
    NotInJoin(r.values, ':', '-');
    SplitConcat(number, '|', list);
    SplitWithout(number, '|');
    SplitWithout(list, '|');
    assert Split(EncodeRun(r), '|') == [number, list];
    SplitJoin(r.values, ':');
  }

  lemma {:induction false} EncodedRuns(runs: seq<Run>, decode: string -> Option<Run>)
    requires forall k :: 0 <= k < |runs| ==> decode(EncodeRun(runs[k])) == Some(runs[k])
    ensures DecodeEach(EncodeEach(runs), decode) == Some(runs)
  {
    hide EncodeRun;
    if runs != [] {
      EncodedRuns(runs[1..], decode);
      assert EncodeEach(runs)[1..] == EncodeEach(runs[1..]);
      assert runs == [runs[0]] + runs[1..];
    }
  }

  lemma {:induction false} EncodedParts(runs: seq<Run>)
    requires forall k :: 0 <= k < |runs| ==> '-' !in EncodeRun(runs[k])
    ensures forall p :: p in EncodeEach(runs) ==> '-' !in p
  {
    if runs != [] { EncodedParts(runs[1..]); }
  }

  /** Every part of a joined text is split on its own. */
  lemma {:induction false} SplitOfJoin(parts: seq<string>, c: char, k: nat, j: nat) returns (at: nat)
    requires k < |parts| && j < |Split(parts[k], c)|
    ensures at < |Split(Join(parts, c), c)| && Split(Join(parts, c), c)[at] == Split(parts[k], c)[j]
  {
    at := j;
    if |parts| > 1 {
      SplitConcat(parts[0], c, Join(parts[1..], c));
      if k > 0 {
        var rest := SplitOfJoin(parts[1..], c, k - 1, j);
        at := |Split(parts[0], c)| + rest;
      }
    }
  }

  lemma {:induction false} BadPart(parts: seq<string>, k: nat, decode: string -> Option<Run>)
    requires k < |parts| && decode(parts[k]).None?
    ensures DecodeEach(parts, decode).None?
  {
    if k > 0 { BadPart(parts[1..], k - 1, decode); }
  }

  lemma {:induction false} EncodeEachAt(runs: seq<Run>, k: nat)
    requires k < |runs|
    ensures EncodeEach(runs)[k] == EncodeRun(runs[k])
  {
    if k > 0 { EncodeEachAt(runs[1..], k - 1); }
  }

  /** A run whose hex was not found is stored with index -1, and its sign is read as a separator. */
  lemma MissingIndexFails(runs: seq<Run>, k: nat, toInt: string -> Option<int>)
    requires k < |runs| && runs[k].index < 0
    ensures Decode(Encode(runs), toInt) == None
  {
    EncodeEachAt(runs, k);
    var part := EncodeRun(runs[k]);
    assert part[0] == '-';
    assert Split(part, '-')[0] == "";
    var at := SplitOfJoin(EncodeEach(runs), '-', k, 0);
    assert Split("", '|') == [""];
    BadPart(Split(Encode(runs), '-'), at, p => DecodeRun(p, toInt));
  }

  lemma {:induction false} DecodedEach(parts: seq<string>, decode: string -> Option<Run>, k: nat)
    requires DecodeEach(parts, decode).Some?
    ensures |DecodeEach(parts, decode).value| == |parts|
    ensures k < |parts| ==> decode(parts[k]) == Some(DecodeEach(parts, decode).value[k])
  {
    if parts != [] { DecodedEach(parts[1..], decode, if k > 0 then k - 1 else 0); }
  }

  /** A part that reads back as its run has no separator in its values. */
  lemma ReadBackIsClean(r: Run, toInt: string -> Option<int>)
    requires r.values != [] && r.index >= 0 && '-' !in EncodeRun(r)
    requires DecodeRun(EncodeRun(r), toInt) == Some(r)
    ensures CleanRun(r)
  {
    var number, list := Decimal(r.index), Join(r.values, ':');
    DecimalIsDigits(r.index, '|');
    SplitConcat(number, '|', list);
    SplitWithout(number, '|');
    assert Split(EncodeRun(r), '|') == [number] + Split(list, '|');
    SplitSize(list, '|');
    SplitWithout(list, '|');
    SplitJoinSize(r.values, ':');
    forall k | 0 <= k < |r.values|
      ensures Clean(r.values[k])
    {
      if '|' in r.values[k] { InJoin(r.values, ':', k, '|'); }
      if '-' in r.values[k] { InJoin(r.values, ':', k, '-'); }
    }
  }

  /** Every run has its hex index and values that the format can carry. */
  predicate Readable(runs: seq<Run>) {
    forall k :: 0 <= k < |runs| ==> runs[k].index >= 0 && CleanRun(runs[k])
  }

  lemma SignIsKept(r: Run)
    ensures r.index < 0 ==> '-' in EncodeRun(r)
  {
    if r.index < 0 { assert EncodeRun(r)[0] == '-'; }
  }

  lemma ReadableIsRead(runs: seq<Run>, toInt: string -> Option<int>)
    requires runs != [] && Readable(runs) && ReadsDecimals(toInt)
    ensures Decode(Encode(runs), toInt) == Some(runs)
  {
    forall k | 0 <= k < |runs|
      ensures DecodeRun(EncodeRun(runs[k]), toInt) == Some(runs[k]) && '-' !in EncodeRun(runs[k])
    {
      EncodedRun(runs[k], toInt);
    }
    EncodedRuns(runs, p => DecodeRun(p, toInt));
    EncodedParts(runs);
    SplitJoin(EncodeEach(runs), '-');
  }

  lemma ReadIsReadable(runs: seq<Run>, toInt: string -> Option<int>)
    requires runs != [] && forall k :: 0 <= k < |runs| ==> runs[k].values != []
    requires Decode(Encode(runs), toInt) == Some(runs)
    ensures Readable(runs)
  {
    var parts, decode := Split(Encode(runs), '-'), p => DecodeRun(p, toInt);
    DecodedEach(parts, decode, 0);
    SplitJoinSize(EncodeEach(runs), '-');
    SplitJoin(EncodeEach(runs), '-');
    forall k | 0 <= k < |runs|
      ensures runs[k].index >= 0 && CleanRun(runs[k])
    {
      EncodeEachAt(runs, k);
      DecodedEach(parts, decode, k);
      SignIsKept(runs[k]);
      ReadBackIsClean(runs[k], toInt);
    }
  }

  /**
   * Reading back what was stored gives the runs exactly when every run's hex was found and no value text holds one of
   * the separators.
   */
  lemma RoundTripIff(runs: seq<Run>, toInt: string -> Option<int>)
    requires runs != [] && ReadsDecimals(toInt) && forall k :: 0 <= k < |runs| ==> runs[k].values != []
    ensures Decode(Encode(runs), toInt) == Some(runs) <==> Readable(runs)
  {
    if Readable(runs) { ReadableIsRead(runs, toInt); }
    if Decode(Encode(runs), toInt) == Some(runs) { ReadIsReadable(runs, toInt); }
  }

  // ------------------------------------------------------------------ storing one more value

  function ExtendLast(runs: seq<Run>, value: string): (r: seq<Run>)
    requires runs != []
    ensures |r| == |runs|
  {
    var last := runs[|runs| - 1];
    runs[..|runs| - 1] + [last.(values := last.values + [value])]
  }

  lemma {:induction false} EncodeEachMore(runs: seq<Run>, r: Run)
    ensures EncodeEach(runs + [r]) == EncodeEach(runs) + [EncodeRun(r)]
  {
    if runs == [] {
      assert EncodeEach([]) == [];
      assert runs + [r] == [r];
    } else {
      EncodeEachMore(runs[1..], r);
      assert (runs + [r])[1..] == runs[1..] + [r];
    }
  }

  lemma EncodeNewRun(runs: seq<Run>, r: Run)
    requires runs != []
    ensures Encode(runs + [r]) == Encode(runs) + "-" + EncodeRun(r)
  {
    EncodeEachMore(runs, r);
    JoinMore(EncodeEach(runs), EncodeRun(r), '-');
  }

  lemma EncodeOneRun(r: Run)
    ensures Encode([r]) == EncodeRun(r)
  {
    assert EncodeEach([r]) == [EncodeRun(r)];
  }

  lemma EncodeLonger(r: Run, value: string)
    requires r.values != []
    ensures EncodeRun(r.(values := r.values + [value])) == EncodeRun(r) + ":" + value
  {
    hide Join, Decimal;
    JoinMore(r.values, value, ':');
  }

  lemma EncodeExtended(runs: seq<Run>, value: string)
    requires runs != [] && runs[|runs| - 1].values != []
    ensures Encode(ExtendLast(runs, value)) == Encode(runs) + ":" + value
  {
    hide Encode, EncodeRun;
    var last, front := runs[|runs| - 1], runs[..|runs| - 1];
    var longer := last.(values := last.values + [value]);
    EncodeLonger(last, value);
    assert runs == front + [last];
    assert ExtendLast(runs, value) == front + [longer];
    if front == [] {
      assert runs == [last] && front + [longer] == [longer];
      EncodeOneRun(last);
      EncodeOneRun(longer);
    } else {
      EncodeNewRun(front, last);
      EncodeNewRun(front, longer);
    }
  }

  // ------------------------------------------------------------------ the text itself

  /** Two runs, the first of two values: the marks between indices, values and runs as they are stored. */
  lemma StoredText()
    ensures Encode([Run(12, ["0", "8,11"]), Run(7, ["#"])]) == "12|0:8,11-7|#"
    ensures Encode([Run(-1, ["2"])]) == "-1|2"
  {
    assert Decimal(12) == Decimal(1) + [Digit(2)] == "12";
    assert Printed(-1) == "-1" && Printed(7) == "7";
    assert Join(["0", "8,11"], ':') == "0:8,11" by {
      assert ["0", "8,11"][1..] == ["8,11"];
    }
    var first, second, lost := Run(12, ["0", "8,11"]), Run(7, ["#"]), Run(-1, ["2"]);
    assert EncodeRun(first) == "12|0:8,11" && EncodeRun(second) == "7|#" && EncodeRun(lost) == "-1|2";
    EncodeOneRun(lost);
    EncodeOneRun(first);
    EncodeNewRun([first], second);
    assert [first] + [second] == [first, second];
  }
}
