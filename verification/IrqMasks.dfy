/**
 * IRQ sets as sixteen-bit masks and as the bytes of IRQ Descriptors (section 6.4.2.1 of the ACPI Specification 6.x).
 */
module IrqMasks {
  import opened Options
  import opened Text
  import opened Bits

  // ------------------------------------------------------------------ masks

  function Repeat(c: char, n: int): string {
    if n <= 0 then "" else [c] + Repeat(c, n - 1)
  }

  function BinaryValue(s: string): nat {
    if s == "" then 0 else 2 * BinaryValue(s[..|s| - 1]) + if s[|s| - 1] == '1' then 1 else 0
  }

  /** A binary numeral with a one at position `irq` from the right. */
  function ConvertIrq(irq: int): nat {
    BinaryValue(Repeat('0', 16 - irq) + "1" + Repeat('0', irq))
  }

  function AtLeastZero(x: int): nat { if x < 0 then 0 else x }

  lemma {:induction false} RepeatEnd(c: char, n: nat)
    requires n > 0
    ensures Repeat(c, n) == Repeat(c, n - 1) + [c]
  {
    if n > 1 { RepeatEnd(c, n - 1); }
  }

  lemma {:induction false} BinaryOfZeros(n: int)
    ensures BinaryValue(Repeat('0', n)) == 0
    decreases AtLeastZero(n)
  {
    if n > 0 {
      RepeatEnd('0', n);
      BinaryOfZeros(n - 1);
      assert Repeat('0', n)[..|Repeat('0', n)| - 1] == Repeat('0', n - 1);
    }
  }

  lemma {:induction false} BinaryOfShiftedOne(head: string, n: nat)
    requires BinaryValue(head) == 1
    ensures BinaryValue(head + Repeat('0', n)) == Pow2(n)
  {
    if n == 0 {
      assert head + "" == head;
    } else {
      RepeatEnd('0', n);
      BinaryOfShiftedOne(head, n - 1);
      BinaryNext(head + Repeat('0', n - 1), '0');
      assert head + Repeat('0', n) == head + Repeat('0', n - 1) + ['0'];
    }
  }

  lemma BinaryNext(s: string, c: char)
    ensures BinaryValue(s + [c]) == 2 * BinaryValue(s) + if c == '1' then 1 else 0
  {
    assert (s + [c])[..|s|] == s;
  }

  /** A negative number gives the mask of IRQ 0. */
  lemma ConvertIsPow2(irq: int)
    ensures ConvertIrq(irq) == Pow2(AtLeastZero(irq))
  {
    hide BinaryValue;
    var head := Repeat('0', 16 - irq) + "1";
    BinaryOfZeros(16 - irq);
    BinaryNext(Repeat('0', 16 - irq), '1');
    BinaryOfShiftedOne(head, AtLeastZero(irq));
    if irq < 0 { assert Repeat('0', irq) == Repeat('0', 0); }
  }

  /** The value that one item of an IRQ list stands for, if any. */
  function ItemIrq(item: string, toInt: string -> Option<int>): Option<nat> {
    if item == "#" then None
    else
      match toInt(item)
      case None => None
      case Some(i) => if i > 15 || i < 0 then None else Some(i)
  }

  /** The mask of the first `n` items. */
  function MaskOfFirst(items: seq<string>, n: nat, toInt: string -> Option<int>): nat
    requires n <= |items|
  {
    if n == 0 then 0
    else
      var total := MaskOfFirst(items, n - 1, toInt);
      match ItemIrq(items[n - 1], toInt)
      case None => total
      case Some(i) => Or(total, ConvertIrq(i))
  }

  function MaskOf(value: string, toInt: string -> Option<int>): nat {
    var items := Split(value, ',');
    MaskOfFirst(items, |items|, toInt)
  }

  /** Reference definition: one of the first `n` items, other than the mark for no value, reads as the number `k`. */
  predicate Names(items: seq<string>, n: nat, toInt: string -> Option<int>, k: nat)
    requires n <= |items|
  {
    exists j :: 0 <= j < n && items[j] != "#" && toInt(items[j]) == Some(k)
  }

  lemma {:induction false} MaskOfFirstBits(items: seq<string>, n: nat, toInt: string -> Option<int>, k: nat)
    requires n <= |items|
    ensures MaskOfFirst(items, n, toInt) < WORD
    ensures Bit(MaskOfFirst(items, n, toInt), k) <==> k <= 15 && Names(items, n, toInt, k)
  {
    if n == 0 {
      ZeroHasNoBit(k);
    } else {
      MaskOfFirstBits(items, n - 1, toInt, k);
      var item := ItemIrq(items[n - 1], toInt);
      if item.Some? {
        var op := (x: bool, y: bool) => x || y;
        var total := MaskOfFirst(items, n - 1, toInt);
        ConvertIsPow2(item.value);
        WordIsPow2();
        PowBelowWord(item.value);
        OrOf(total, ConvertIrq(item.value), k);
        BitOfPow2(item.value, k);
      }
      NamesOneMore(items, n, toInt, k);
    }
  }

  lemma PowBelowWord(i: nat)
    requires i <= 15
    ensures Pow2(i) < WORD
  {
    Pow2Grows(i, 15);
    WordIsPow2();
  }

  lemma OrOf(a: nat, b: nat, k: nat)
    requires a < WORD && b < WORD
    ensures Or(a, b) < WORD && (Bit(Or(a, b), k) <==> Bit(a, k) || Bit(b, k))
  {
    WordIsPow2();
    BitwiseBit((x, y) => x || y, a, b, k);
    BitwiseBelow((x, y) => x || y, a, b, 16);
  }

  lemma NamesOneMore(items: seq<string>, n: nat, toInt: string -> Option<int>, k: nat)
    requires 0 < n <= |items|
    ensures Names(items, n, toInt, k) <==>
      Names(items, n - 1, toInt, k) || (items[n - 1] != "#" && toInt(items[n - 1]) == Some(k))
  { }

  /** IRQ `k` is one of the numbers from 0 to 15 that stand between the commas of the value. */
  predicate Lists(value: string, toInt: string -> Option<int>, k: nat) {
    k <= 15 && exists item :: item in Split(value, ',') && item != "#" && toInt(item) == Some(k)
  }

  /** The mask of a value has exactly the listed IRQs, and fits sixteen bits. */
  lemma MaskIsListedIrqs(value: string, toInt: string -> Option<int>, k: nat)
    ensures MaskOf(value, toInt) < WORD
    ensures Bit(MaskOf(value, toInt), k) <==> Lists(value, toInt, k)
  {
    var items := Split(value, ',');
    MaskOfFirstBits(items, |items|, toInt, k);
    if Names(items, |items|, toInt, k) {
      var j :| 0 <= j < |items| && items[j] != "#" && toInt(items[j]) == Some(k);
      assert items[j] in items;
    }
    if Lists(value, toInt, k) {
      var item :| item in items && item != "#" && toInt(item) == Some(k);
      var j :| 0 <= j < |items| && items[j] == item;
    }
  }

  method SameLineIrq(irq: string, toInt: string -> Option<int>) returns (total: nat)
    ensures total == MaskOf(irq, toInt)
    ensures total < WORD && forall k: nat :: Bit(total, k) <==> Lists(irq, toInt, k)
  {
    hide Or, ConvertIrq, Split, Lists;
    var items := Split(irq, ',');
    total := 0;
    for j := 0 to |items|
      invariant total == MaskOfFirst(items, j, toInt)
    {
      if items[j] != "#" {
        var i := toInt(items[j]);
        if i.Some? && !(i.value > 15 || i.value < 0) {
          total := Or(total, ConvertIrq(i.value));
        }
      }
    }
    MaskIsListedIrqs(irq, toInt, 0);
    forall k: nat
      ensures Bit(total, k) <==> Lists(irq, toInt, k)
    {
      MaskIsListedIrqs(irq, toInt, k);
    }
  }

  // ------------------------------------------------------------------ removing one IRQ

  function Clear(mask: nat, irq: int): nat {
    var rem := ConvertIrq(irq);
    if mask >= rem then And(mask, Xor(rem, 0xFFFF)) else mask
  }

  lemma ClearedBit(mask: nat, irq: int, k: nat)
    requires mask < WORD
    ensures Clear(mask, irq) < WORD
    ensures Bit(Clear(mask, irq), k) <==> Bit(mask, k) && k != AtLeastZero(irq)
  {
    var i := AtLeastZero(irq);
    var rem := ConvertIrq(irq);
    ConvertIsPow2(irq);
    if mask < rem {
      NoBitAbove(mask, i, i);
    } else {
      WordIsPow2();
      if i >= 16 { Pow2Grows(16, i); assert false; }
      PowBelowWord(i);
      ClearWithMask(mask, rem, k);
      BitOfPow2(i, k);
      if k >= 16 { NoBitAbove(mask, 16, k); }
    }
  }

  lemma ClearWithMask(mask: nat, rem: nat, k: nat)
    requires mask < WORD && rem < WORD
    ensures And(mask, Xor(rem, 0xFFFF)) < WORD
    ensures Bit(And(mask, Xor(rem, 0xFFFF)), k) <==> Bit(mask, k) && Bit(rem, k) != (k < 16)
  {
    WordIsPow2();
    OnesBit(16, k);
    BitwiseBit((x, y) => x != y, rem, 0xFFFF, k);
    BitwiseBelow((x, y) => x != y, rem, 0xFFFF, 16);
    BitwiseBit((x, y) => x && y, mask, Xor(rem, 0xFFFF), k);
    BitwiseBelow((x, y) => x && y, mask, Xor(rem, 0xFFFF), 16);
  }

  // ------------------------------------------------------------------ bytes

  function HexDigit(n: nat): char
    requires n < 16
  {
    if n < 10 then '0' + n as char else 'A' + (n - 10) as char
  }

  function HexDigits(n: nat): (s: string)
    ensures s != ""
  {
    if n < 16 then [HexDigit(n)] else HexDigits(n / 16) + [HexDigit(n % 16)]
  }

  function PadLeft(s: string, width: nat): string {
    Repeat('0', width - |s|) + s
  }

  /** Pairs of digits, last pair first. */
  function PairsReversed(s: string): string {
    if |s| <= 2 then s else PairsReversed(s[2..]) + s[..2]
  }

  function HexFromInt(n: nat): string {
    PairsReversed(PadLeft(HexDigits(n), 4))
  }

  function DigitValue(c: char): Option<nat> {
    if '0' <= c <= '9' then Some((c - '0') as nat)
    else if 'A' <= c <= 'F' then Some((c - 'A') as nat + 10)
    else None
  }

  /** Two bytes, low byte first. */
  function LittleEndian(s: string): Option<nat>
    requires |s| == 4
  {
    var a, b, c, d := DigitValue(s[0]), DigitValue(s[1]), DigitValue(s[2]), DigitValue(s[3]);
    if a.Some? && b.Some? && c.Some? && d.Some?
    then Some(16 * a.value + b.value + 256 * (16 * c.value + d.value))
    else None
  }

  lemma DigitRoundTrip(n: nat)
    requires n < 16
    ensures DigitValue(HexDigit(n)) == Some(n)
  { }

  /** The four digits of a sixteen-bit number. */
  lemma FourDigits(n: nat) returns (a: nat, b: nat, c: nat, d: nat)
    requires n < WORD
    ensures a < 16 && b < 16 && c < 16 && d < 16 && n == 4096 * a + 256 * b + 16 * c + d
    ensures PadLeft(HexDigits(n), 4) == [HexDigit(a), HexDigit(b), HexDigit(c), HexDigit(d)]
  {
    var n1 := n / 16;
    var n2 := n1 / 16;
    var n3 := n2 / 16;
    a, b, c, d := n3, n2 % 16, n1 % 16, n % 16;
    assert n3 < 16;
    var zero := HexDigit(0);
    if n < 16 {
      assert HexDigits(n) == [HexDigit(d)];
      ThreeZeros();
    } else if n1 < 16 {
      assert HexDigits(n) == HexDigits(n1) + [HexDigit(d)] == [HexDigit(c), HexDigit(d)];
      ThreeZeros();
    } else if n2 < 16 {
      assert HexDigits(n1) == HexDigits(n2) + [HexDigit(c)];
      assert HexDigits(n) == [HexDigit(b), HexDigit(c), HexDigit(d)];
      ThreeZeros();
    } else {
      assert HexDigits(n2) == HexDigits(n3) + [HexDigit(b)];
      assert HexDigits(n1) == HexDigits(n2) + [HexDigit(c)];
      assert HexDigits(n) == [HexDigit(a), HexDigit(b), HexDigit(c), HexDigit(d)];
    }
  }

  lemma ThreeZeros()
    ensures Repeat('0', 0) == "" && Repeat('0', 1) == "0" && Repeat('0', 2) == "00" && Repeat('0', 3) == "000"
  { }

  /** The little-endian hex of any sixteen-bit number is four digits that decode to it. */
  lemma HexRoundTrip(n: nat)
    requires n < WORD
    ensures |HexFromInt(n)| == 4 && LittleEndian(HexFromInt(n)) == Some(n)
  {
    var a, b, c, d := FourDigits(n);
    DigitRoundTrip(a);
    DigitRoundTrip(b);
    DigitRoundTrip(c);
    DigitRoundTrip(d);
    var s := [HexDigit(a), HexDigit(b), HexDigit(c), HexDigit(d)];
    assert PairsReversed(s) == [HexDigit(c), HexDigit(d)] + [HexDigit(a), HexDigit(b)];
  }

  const HEX := "0123456789ABCDEF"

  lemma HexDigitIs(n: nat)
    requires n < 16
    ensures HexDigit(n) == HEX[n]
  { }

  /** The two digits of the low byte, then those of the high byte, upper case. */
  lemma HexFromIntIs(n: nat) returns (a: nat, b: nat, c: nat, d: nat)
    requires n < WORD
    ensures a < 16 && b < 16 && c < 16 && d < 16 && n == 4096 * a + 256 * b + 16 * c + d
    ensures HexFromInt(n) == [HEX[c], HEX[d], HEX[a], HEX[b]]
  {
    a, b, c, d := FourDigits(n);
    HexDigitIs(a);
    HexDigitIs(b);
    HexDigitIs(c);
    HexDigitIs(d);
    var s := [HexDigit(a), HexDigit(b), HexDigit(c), HexDigit(d)];
    assert PairsReversed(s) == [HexDigit(c), HexDigit(d)] + [HexDigit(a), HexDigit(b)];
  }

  // ------------------------------------------------------------------ descriptors

  /** One IRQ Descriptor, tag 0x22, for every mask. */
  function Descriptors(masks: seq<nat>): string {
    if masks == [] then "" else "22" + HexFromInt(masks[0]) + Descriptors(masks[1..])
  }

  /** Reading IRQ Descriptors back as masks. */
  function ReadDescriptors(s: string): Option<seq<nat>> {
    if s == "" then Some([])
    else if |s| < 6 || s[..2] != "22" then None
    else
      match LittleEndian(s[2..6])
      case None => None
      case Some(mask) =>
        match ReadDescriptors(s[6..])
        case None => None
        case Some(rest) => Some([mask] + rest)
  }

  predicate Words(masks: seq<nat>) { forall j :: 0 <= j < |masks| ==> masks[j] < WORD }

  lemma {:induction false} DescriptorsRoundTrip(masks: seq<nat>)
    requires Words(masks)
    ensures ReadDescriptors(Descriptors(masks)) == Some(masks) && |Descriptors(masks)| == 6 * |masks|
  {
    if masks != [] {
      DescriptorsRoundTrip(masks[1..]);
      HexRoundTrip(masks[0]);
      ReadOne(HexFromInt(masks[0]), Descriptors(masks[1..]));
      assert masks == [masks[0]] + masks[1..];
    }
  }

  lemma ReadOne(hex: string, rest: string)
    requires |hex| == 4 && LittleEndian(hex).Some? && ReadDescriptors(rest).Some?
    ensures ReadDescriptors("22" + hex + rest) == Some([LittleEndian(hex).value] + ReadDescriptors(rest).value)
  {
    var s := "22" + hex + rest;
    assert s[..2] == "22" && s[2..6] == hex && s[6..] == rest;
  }

  lemma DescriptorsInjective(a: seq<nat>, b: seq<nat>)
    requires Words(a) && Words(b)
    ensures Descriptors(a) == Descriptors(b) <==> a == b
  {
    DescriptorsRoundTrip(a);
    DescriptorsRoundTrip(b);
  }

  /** Descriptor `j` is the tag 22 and the digits of mask `j`, low byte first. */
  lemma {:induction false} DescriptorAt(masks: seq<nat>, j: nat) returns (a: nat, b: nat, c: nat, d: nat)
    requires Words(masks) && j < |masks|
    ensures |Descriptors(masks)| == 6 * |masks|
    ensures a < 16 && b < 16 && c < 16 && d < 16 && masks[j] == 4096 * a + 256 * b + 16 * c + d
    ensures Descriptors(masks)[6 * j..6 * j + 6] == ['2', '2', HEX[c], HEX[d], HEX[a], HEX[b]]
  {
    hide HexFromInt, ReadDescriptors;
    DescriptorsRoundTrip(masks);
    a, b, c, d := HexFromIntIs(masks[0]);
    var first, rest := "22" + HexFromInt(masks[0]), Descriptors(masks[1..]);
    assert Descriptors(masks) == first + rest;
    if j > 0 {
      a, b, c, d := DescriptorAt(masks[1..], j - 1);
      assert masks[1..][j - 1] == masks[j];
      Beyond(first, rest, 6 * (j - 1), 6);
    } else {
      assert (first + rest)[0..6] == first;
    }
  }

  lemma Beyond<T>(first: seq<T>, rest: seq<T>, i: nat, n: nat)
    requires i + n <= |rest|
    ensures (first + rest)[|first| + i..|first| + i + n] == rest[i..i + n]
  { }
}
