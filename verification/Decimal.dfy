/** Big integers as decimal text: operator <<, operator >>, serialize and deserialize. */
module Decimals {
  import opened Digits
  import opened Handles
  import opened Kernels
  import opened Operators
  import opened Records

  predicate IsDigit(c: char)
  {
    '0' <= c <= '9'
  }

  predicate AllDigits(s: string)
  {
    forall i :: 0 <= i < |s| ==> IsDigit(s[i])
  }

  function DigitOf(c: char): (d: int)
    ensures IsDigit(c) ==> 0 <= d < 10
  {
    c as int - '0' as int
  }

  function CharOf(d: nat): (c: char)
    requires d < 10
    ensures IsDigit(c) && DigitOf(c) == d
  {
    ('0' as int + d) as char
  }

  /** The number a string of decimal digits stands for. */
  function DecVal(s: string): int
  {
    if |s| == 0 then 0 else DecVal(s[..|s| - 1]) * 10 + DigitOf(s[|s| - 1])
  }

  /** The decimal numeral of n, without leading zeros. */
  function Numeral(n: nat): (s: string)
    ensures |s| >= 1 && AllDigits(s) && (s[0] == '0' ==> |s| == 1)
    ensures n > 0 ==> s[0] != '0'
  {
    if n < 10 then [CharOf(n)] else Numeral(n / 10) + [CharOf(n % 10)]
  }

  lemma {:induction false} NumeralValue(n: nat)
    ensures DecVal(Numeral(n)) == n
  {
    var s := Numeral(n);
    if n < 10 {
      assert s[..0] == "";
    } else {
      NumeralValue(n / 10);
      assert s[..|s| - 1] == Numeral(n / 10);
    }
  }

  lemma {:induction false} DecValNonNegative(s: string)
    requires AllDigits(s)
    ensures 0 <= DecVal(s) < Pow(10, |s|)
  {
    if |s| > 0 { DecValNonNegative(s[..|s| - 1]); }
  }

  /** The only numeral without leading zeros. */
  lemma {:induction false} NumeralUnique(s: string)
    requires |s| >= 1 && AllDigits(s) && (s[0] == '0' ==> |s| == 1)
    ensures DecVal(s) >= 0 && s == Numeral(DecVal(s))
    ensures |s| > 1 ==> DecVal(s) >= 10
  {
    var front, last := s[..|s| - 1], DigitOf(s[|s| - 1]);
    if |s| == 1 {
      assert front == "";
    } else {
      NumeralUnique(front);
      if |front| == 1 { assert front[..0] == "" && DecVal(front) == DigitOf(s[0]); }
      assert DecVal(s) / 10 == DecVal(front) && DecVal(s) % 10 == last;
      assert s == front + [CharOf(last)];
    }
  }

  lemma {:induction false} DecValAppend(a: string, b: string)
    ensures DecVal(a + b) == DecVal(a) * Pow(10, |b|) + DecVal(b)
  {
    if |b| == 0 {
      assert a + b == a;
    } else {
      var rest := b[..|b| - 1];
      assert (a + b)[..|a + b| - 1] == a + rest;
      DecValAppend(a, rest);
      MulAssociates(DecVal(a), 10, Pow(10, |rest|));
      MulAssociates(DecVal(a), Pow(10, |rest|), 10);
    }
  }

  /** The four decimal digits of a number below 10000. */
  function Group(r: nat): (s: string)
    requires r < 10000
    ensures |s| == 4 && AllDigits(s)
  {
    [CharOf(r / 10 / 10 / 10 % 10), CharOf(r / 10 / 10 % 10), CharOf(r / 10 % 10), CharOf(r % 10)]
  }

  lemma GroupValue(r: nat)
    requires r < 10000
    ensures DecVal(Group(r)) == r
  {
    FourDigits(Group(r));
  }

  lemma FourDigits(s: string)
    requires |s| == 4
    ensures DecVal(s) == 1000 * DigitOf(s[0]) + 100 * DigitOf(s[1]) + 10 * DigitOf(s[2]) + DigitOf(s[3])
  {
    var s3 := s[..3];
    var s2 := s3[..2];
    var s1 := s2[..1];
    assert s1[..0] == "" && s == s3 + [s[3]];
    assert DecVal(s1) == DigitOf(s[0]);
    assert DecVal(s2) == 10 * DecVal(s1) + DigitOf(s[1]);
    assert DecVal(s3) == 10 * DecVal(s2) + DigitOf(s[2]);
  }

  /** Writes the digits of a group from the last to the first. */
  method PutGroup(buffer: array<char>, str: int, group: nat, ghost end: nat, ghost w: string) returns (next: int)
    requires group < 10000 && 3 <= str < end <= buffer.Length && buffer[str + 1..end] == w
    modifies buffer
    ensures next == str - 4 && buffer[next + 1..end] == Group(group) + w
  {
    var remainder := group;
    var a := CharOf(remainder % 10);
    remainder := remainder / 10;
    var b := CharOf(remainder % 10);
    remainder := remainder / 10;
    var c := CharOf(remainder % 10);
    remainder := remainder / 10;
    var d := CharOf(remainder % 10);
    buffer[str] := a;
    buffer[str - 1] := b;
    buffer[str - 2] := c;
    buffer[str - 3] := d;
    next := str - 4;
  }

  /** A base-65536 digit needs at most five decimal digits. */
  lemma {:induction false} WeightBelowPower(n: nat)
    ensures Weight(n) <= Pow(10, 5 * n)
  {
    if n > 0 {
      WeightBelowPower(n - 1);
      PowAdd(10, 5, 5 * (n - 1));
      FifthPower();
      MulMonotone(65536, 100000, Weight(n - 1));
      MulMonotone(Weight(n - 1), Pow(10, 5 * (n - 1)), 100000);
    }
  }

  lemma FifthPower()
    ensures Pow(10, 5) == 100000 && Pow(10, 4) == 10000
  {
    assert Pow(10, 2) == 100;
    PowAdd(10, 2, 2);
    PowAdd(10, 4, 1);
  }

  /** While something is left to print, fewer than five characters a digit are written. */
  lemma RoomForGroup(v: nat, n: nat, t: nat, written: nat, w: nat)
    requires v < Weight(n) && t > 0 && v == t * Pow(10, written) + w
    ensures written < 5 * n
  {
    WeightBelowPower(n);
    MulMonotone(1, t, Pow(10, written));
    if written >= 5 * n { PowMonotone(10, 5 * n, written); }
  }

  function StripZero(s: string): string
    requires |s| >= 1
  {
    if s[0] == '0' then s[1..] else s
  }

  lemma StripZeroValue(s: string)
    requires |s| >= 1
    ensures DecVal(StripZero(s)) == DecVal(s)
  {
    if s[0] == '0' {
      assert s == ['0'] + s[1..];
      DecValAppend(['0'], s[1..]);
      assert ['0'][..0] == "" && DecVal(['0']) == 0;
    }
  }

  /** Dropping up to three zeros leaves the numeral when the first group is not zero or is the only one. */
  lemma StripThree(w: string)
    requires |w| >= 4 && AllDigits(w) && (|w| == 4 || DecVal(w[..4]) != 0)
    ensures DecVal(w) >= 0 && StripZero(StripZero(StripZero(w))) == Numeral(DecVal(w))
  {
    var w1 := StripZero(w);
    var w2 := StripZero(w1);
    var w3 := StripZero(w2);
    StripZeroValue(w);
    StripZeroValue(w1);
    StripZeroValue(w2);
    if w3[0] == '0' { FourZeros(w); }
    hide DecVal;
    NumeralUnique(w3);
  }

  lemma FourZeros(w: string)
    requires |w| >= 4 && StripZero(StripZero(StripZero(w)))[0] == '0'
    ensures w[..4] == "0000" && DecVal(w[..4]) == 0
  {
    hide DecVal;
    assert w[..4] == "0000";
    FourDigits(w[..4]);
  }

  /** What the printing loop has done: t is left, and w is written. */
  ghost predicate Printed(v: nat, t: nat, w: string)
  {
    && |w| >= 4 && AllDigits(w)
    && v == t * Pow(10, |w|) + DecVal(w)
    && (|w| == 4 || t != 0 || DecVal(w[..4]) != 0)
  }

  lemma PrintStep(v: nat, t: nat, w: string, t': nat, r: nat)
    requires Printed(v, t, w) && t > 0 && t == 10000 * t' + r && r < 10000
    ensures Printed(v, t', Group(r) + w)
  {
    var g := Group(r);
    GroupValue(r);
    DecValAppend(g, w);
    PowAdd(10, 4, |w|);
    FifthPower();
    PrintStepArithmetic(t, t', r, Pow(10, |w|));
    assert (g + w)[..4] == g;
  }

  lemma PrintStepArithmetic(t: int, t': int, r: int, p: int)
    requires t == 10000 * t' + r
    ensures t * p == t' * (10000 * p) + r * p
  {
  }

  lemma PrintStart(v: nat, t: nat, r: nat)
    requires v == 10000 * t + r && r < 10000
    ensures Printed(v, t, Group(r))
  {
    GroupValue(r);
    FifthPower();
  }

  lemma RoomLeft(v: nat, n: nat, t: nat, w: string)
    requires Printed(v, t, w) && t > 0 && v < Weight(n)
    ensures |w| < 5 * n
  {
    DecValNonNegative(w);
    RoomForGroup(v, n, t, |w|, DecVal(w));
  }

  /** What is left represents zero exactly when it is the one digit zero. */
  lemma ZeroDigits(s: seq<Digit>)
    requires Canonical(s)
    ensures Val(s) == 0 <==> |s| == 1 && s[0] == 0
  {
    ValBound(s);
    OneDigit(s);
  }

  lemma Finished(v: nat, w: string)
    requires Printed(v, 0, w)
    ensures |w| >= 4 && StripZero(StripZero(StripZero(w))) == Numeral(v)
  {
    StripThree(w);
  }

  method SkipZero(buffer: array<char>, str: nat, end: nat) returns (next: nat)
    requires str < end <= buffer.Length
    ensures str <= next <= str + 1 && buffer[next..end] == StripZero(buffer[str..end])
  {
    next := if buffer[str] == '0' then str + 1 else str;
  }

  /** Writes the groups of a number, the last one first; w is what is written. */
  method PrintGroups(temp: DataRecord, buffer: array<char>, end: nat) returns (str: nat, ghost w: string)
    requires temp.Proper() && end == temp.digitsUsed * 5 + 9 < buffer.Length
    modifies temp`digitsUsed, temp.number, buffer
    ensures str == end - |w| && buffer[str..end] == w
    ensures Printed(old(temp.Value()), 0, w)
  {
    hide Val, Canonical, Printed, DecVal, Pow, Weight, Group;
    ghost var v, n := temp.Value(), temp.digitsUsed;
    ValBound(temp.Digits());
    var remainder := ShortDiv(temp, 10000, temp);
    PrintStart(v, temp.Value(), remainder);
    var next: int := PutGroup(buffer, end - 1, remainder, end, "");
    w := Group(remainder) + "";
    assert w == Group(remainder);
    while temp.digitsUsed != 1 || temp.number[0] != 0
      invariant temp.Proper() && Printed(v, temp.Value(), w)
      invariant -1 <= next == end - 1 - |w| && buffer[next + 1..end] == w
      decreases temp.Value()
    {
      ghost var t := temp.Value();
      ZeroDigits(temp.Digits());
      RoomLeft(v, n, t, w);
      remainder := ShortDiv(temp, 10000, temp);
      PrintStep(v, t, w, temp.Value(), remainder);
      next := PutGroup(buffer, next, remainder, end, w);
      w := Group(remainder) + w;
    }
    ZeroDigits(temp.Digits());
    str := next + 1;
  }

  /** The operator <<. The array of 5 * digitsUsed + 10 characters is never overrun. */
  method Print(data: DataRecord) returns (text: string)
    requires data.Proper()
    ensures text == Numeral(data.Value())
  {
    hide Val, Canonical, Printed, DecVal, Pow, Weight, Numeral;
    var temp := new DataRecord.Copy(data, 0);
    var end := data.digitsUsed * 5 + 9;
    var buffer := new char[data.digitsUsed * 5 + 10];
    buffer[end] := '\0';
    var str, w := PrintGroups(temp, buffer, end);
    Finished(data.Value(), w);
    str := SkipZero(buffer, str, end);
    str := SkipZero(buffer, str, end);
    str := SkipZero(buffer, str, end);
    text := buffer[str..end];
  }

  predicate IsBlank(c: char)
  {
    c == ' ' || c == '\t' || c == '\n'
  }

  /** Where the blanks that start at position i end. */
  function BlanksEnd(input: string, i: nat): (j: nat)
    requires i <= |input|
    ensures i <= j <= |input|
    decreases |input| - i
  {
    if i < |input| && IsBlank(input[i]) then BlanksEnd(input, i + 1) else i
  }

  /** Where the digits that start at position i end. */
  function DigitsEnd(input: string, i: nat): (j: nat)
    requires i <= |input|
    ensures i <= j <= |input| && AllDigits(input[i..j]) && (j == |input| || !IsDigit(input[j]))
    decreases |input| - i
  {
    if i < |input| && IsDigit(input[i]) then
      assert forall j :: i < j <= |input| ==> input[i..j] == [input[i]] + input[i + 1..j];
      DigitsEnd(input, i + 1)
    else i
  }

  lemma {:induction false} DigitsEndUnique(input: string, i: nat, j: nat)
    requires i <= j <= |input| && AllDigits(input[i..j]) && (j == |input| || !IsDigit(input[j]))
    ensures DigitsEnd(input, i) == j
    decreases j - i
  {
    if i < j {
      assert input[i] == input[i..j][0];
      assert input[i + 1..j] == input[i..j][1..];
      DigitsEndUnique(input, i + 1, j);
    }
  }

  lemma {:induction false} BlanksEndUnique(input: string, i: nat, j: nat)
    requires i <= j < |input| && !IsBlank(input[j])
    requires forall k :: i <= k < j ==> IsBlank(input[k])
    ensures BlanksEnd(input, i) == j
    decreases j - i
  {
    if i < j { BlanksEndUnique(input, i + 1, j); }
  }

  datatype Parsed = NoNumber(next: nat) | Found(value: nat, next: nat)

  /** Reading a number: skip blanks, then take the longest run of digits. */
  function Reading(input: string, pos: nat): (p: Parsed)
    requires pos <= |input|
    ensures p.next <= |input|
  {
    var start := BlanksEnd(input, pos);
    var end := DigitsEnd(input, start);
    DecValNonNegative(input[start..end]);
    if start == end then NoNumber(start) else Found(DecVal(input[start..end]), end)
  }

  /** Reading undoes printing, after any blanks and before anything but a digit. */
  lemma ReadingNumeral(input: string, pos: nat, blanks: string, n: nat, rest: string)
    requires pos <= |input| && input[pos..] == blanks + Numeral(n) + rest
    requires forall i :: 0 <= i < |blanks| ==> blanks[i] == ' ' || blanks[i] == '\t' || blanks[i] == '\n'
    requires rest == "" || !IsDigit(rest[0])
    ensures Reading(input, pos) == Found(n, |input| - |rest|)
  {
    hide Numeral, DecVal;
    var start, end := pos + |blanks|, |input| - |rest|;
    NumeralAt(input, pos, blanks, n, rest);
    BlanksEndUnique(input, pos, start);
    DigitsEndUnique(input, start, end);
    NumeralValue(n);
  }

  /** After blanks, the end of the input or any character but a digit and those three is no number. */
  lemma ReadingNothing(input: string, pos: nat, stop: nat)
    requires pos <= stop <= |input|
    requires forall i :: pos <= i < stop ==> input[i] == ' ' || input[i] == '\t' || input[i] == '\n'
    requires stop < |input| ==> input[stop] !in [' ', '\t', '\n'] && (input[stop] < '0' || '9' < input[stop])
    ensures Reading(input, pos) == NoNumber(stop)
  {
    if stop < |input| { BlanksEndUnique(input, pos, stop); } else { BlanksToEnd(input, pos); }
  }

  lemma {:induction false} BlanksToEnd(input: string, pos: nat)
    requires pos <= |input| && forall i :: pos <= i < |input| ==> IsBlank(input[i])
    ensures BlanksEnd(input, pos) == |input|
    decreases |input| - pos
  {
    if pos < |input| { BlanksToEnd(input, pos + 1); }
  }

  /** Reading takes leading zeros, and as many digits as there are, the first one the most significant. */
  lemma {:induction false} ReadingDigits(input: string, pos: nat, end: nat)
    requires pos < end <= |input| && (end < |input| ==> input[end] < '0' || '9' < input[end])
    requires forall i :: pos <= i < end ==> '0' <= input[i] <= '9'
    ensures Reading(input, pos).Found? && Reading(input, pos).next == end
    ensures end == pos + 1 ==> Reading(input, pos).value == input[pos] as int - '0' as int
    ensures end > pos + 1 ==> DecVal(input[pos..end - 1]) >= 0
    ensures end > pos + 1 ==>
      Reading(input, pos).value == 10 * DecVal(input[pos..end - 1]) + (input[end - 1] as int - '0' as int)
  {
    var s := input[pos..end];
    BlanksEndUnique(input, pos, pos);
    DigitsEndUnique(input, pos, end);
    DecValNonNegative(s);
    DecValNonNegative(input[pos..end - 1]);
    assert s[..|s| - 1] == input[pos..end - 1] && s[|s| - 1] == input[end - 1];
    if end == pos + 1 { assert input[pos..end - 1] == ""; }
  }

  /** Some numbers in full. */
  lemma KnownNumerals()
    ensures Numeral(0) == "0" && Numeral(7) == "7" && Numeral(65536) == "65536"
    ensures Reading(" \n\t042x", 0) == Found(42, 6)
  {
    var input := " \n\t042x";
    assert Numeral(6) == "6" && Numeral(65) == "65" && Numeral(655) == "655" && Numeral(6553) == "6553";
    BlanksEndUnique(input, 0, 3);
    DigitsEndUnique(input, 3, 6);
    var s := input[3..6];
    assert s[..2] == "04" && s[..2][..1] == "0" && s[..2][..1][..0] == "";
    assert DecVal("0") == 0 && DecVal(s[..2]) == 4 && DecVal(s) == 42;
  }

  lemma NumeralAt(input: string, pos: nat, blanks: string, n: nat, rest: string)
    requires pos <= |input| && input[pos..] == blanks + Numeral(n) + rest
    ensures var start, end := pos + |blanks|, |input| - |rest|;
      && start < end <= |input| && input[start..end] == Numeral(n) && IsDigit(input[start])
      && (forall k :: pos <= k < start ==> input[k] == blanks[k - pos])
      && (rest != "" ==> input[end] == rest[0])
  {
    hide Numeral;
    var start, end := pos + |blanks|, |input| - |rest|;
    forall k | pos <= k < |input|
      ensures input[k] == (blanks + Numeral(n) + rest)[k - pos]
    {
      assert input[k] == input[pos..][k - pos];
    }
  }

  /** The next character if it is a digit, and ten times numRead; otherwise nothing. */
  method GetDigit(input: string, pos: nat, numRead: nat) returns (c: char, next: nat, read: nat)
    requires pos <= |input|
    ensures pos < |input| && IsDigit(input[pos]) ==> c == input[pos] && next == pos + 1 && read == numRead * 10
    ensures pos == |input| || !IsDigit(input[pos]) ==> c == '\0' && next == pos && read == numRead
  {
    if pos < |input| && IsDigit(input[pos]) {
      return input[pos], pos + 1, numRead * 10;
    }
    return '\0', pos, numRead;
  }

  function Merge(num: nat, c: char): nat
    requires c == '\0' || IsDigit(c)
  {
    if c != '\0' then num * 10 + DigitOf(c) else num
  }

  /** The group of digits from start to next has been read; next is where the digits stop or k have been read. */
  ghost predicate GroupRead(input: string, start: nat, next: nat, k: nat, num: int, numRead: nat)
  {
    && start <= next <= |input| && next <= start + k && AllDigits(input[start..next])
    && (next == start + k || next == |input| || !IsDigit(input[next]))
    && num == DecVal(input[start..next]) && numRead == Pow(10, next - start)
  }

  lemma GroupStep(input: string, start: nat, next: nat, k: nat, num: nat, numRead: nat)
    requires GroupRead(input, start, next, k, num, numRead)
    ensures next < |input| && IsDigit(input[next]) ==>
      GroupRead(input, start, next + 1, k + 1, num * 10 + DigitOf(input[next]), numRead * 10)
    ensures next == |input| || !IsDigit(input[next]) ==> GroupRead(input, start, next, k + 1, num, numRead)
  {
    if next < |input| && IsDigit(input[next]) {
      var s := input[start..next + 1];
      assert s[..|s| - 1] == input[start..next];
    }
  }

  /** Up to four digits, their number, and ten to the power of how many there are. */
  method ReadGroup(input: string, start: nat) returns (num: nat, numRead: nat, next: nat)
    requires start <= |input|
    ensures GroupRead(input, start, next, 4, num, numRead) && num < 10000
    ensures numRead == 10000 <==> next == start + 4
    ensures 1 <= numRead <= 10000 && (numRead == 1 ==> next == start && num == 0)
  {
    var a, b, c, d;
    assert input[start..start] == "";
    a, next, numRead := GetDigit(input, start, 1);
    GroupStep(input, start, start, 0, 0, 1);
    hide GroupRead;
    GroupStep(input, start, next, 1, Merge(0, a), numRead);
    b, next, numRead := GetDigit(input, next, numRead);
    GroupStep(input, start, next, 2, Merge(Merge(0, a), b), numRead);
    c, next, numRead := GetDigit(input, next, numRead);
    GroupStep(input, start, next, 3, Merge(Merge(Merge(0, a), b), c), numRead);
    d, next, numRead := GetDigit(input, next, numRead);
    num := 0;
    num := Merge(num, a);
    num := Merge(num, b);
    num := Merge(num, c);
    num := Merge(num, d);
    GroupBounds(input, start, next, num, numRead);
  }

  lemma GroupBounds(input: string, start: nat, next: nat, num: int, numRead: nat)
    requires GroupRead(input, start, next, 4, num, numRead)
    ensures 0 <= num < 10000 && 1 <= numRead <= 10000 && (numRead == 1 ==> next == start && num == 0)
    ensures numRead == 10000 <==> next == start + 4
  {
    if next > start { PowMonotone(10, 1, next - start); }
    FifthPower();
    DecValNonNegative(input[start..next]);
    PowMonotone(10, next - start, 4);
    if next < start + 4 { PowMonotone(10, next - start, 3); }
  }

  /** A group read behind digits already read. */
  lemma GroupBehind(input: string, start: nat, middle: nat, next: nat, num: int, numRead: nat)
    requires start <= middle <= |input| && AllDigits(input[start..middle])
    requires GroupRead(input, middle, next, 4, num, numRead)
    ensures middle <= next <= |input| && next <= middle + 4 && AllDigits(input[start..next])
    ensures DecVal(input[start..next]) == DecVal(input[start..middle]) * numRead + num
    ensures next < middle + 4 ==> DigitsEnd(input, start) == next
  {
    assert input[start..next] == input[start..middle] + input[middle..next];
    DecValAppend(input[start..middle], input[middle..next]);
    if next < middle + 4 { DigitsEndUnique(input, start, next); }
  }

  method SkipBlanks(input: string, pos: nat) returns (start: nat)
    requires pos <= |input|
    ensures start == BlanksEnd(input, pos)
  {
    start := pos;
    while start < |input| && IsBlank(input[start])
      invariant pos <= start <= |input| && BlanksEnd(input, start) == BlanksEnd(input, pos)
    {
      start := start + 1;
    }
  }

  function Appended(value: nat, numRead: nat, num: nat): nat
  {
    value * numRead + num
  }

  /** Shifts a number left by the digits just read and adds them in. */
  method AppendGroup(heap: Heap, temp: Handle, num: nat, numRead: nat)
    requires heap.Valid() && temp in heap.handles && heap.Values()[temp].canonical
    requires 1 <= numRead <= 10000 && num < 10000 && (numRead == 1 ==> num == 0)
    modifies heap, heap.repr
    ensures fresh(heap.repr - old(heap.repr))
    ensures heap.Valid() && heap.Values() == old(heap.Values())[temp := Held(Appended(old(heap.Values()[temp].value), numRead, num), true)]
  {
    hide ValidState, ValuesOf, Formed, StateOf;
    ghost var before := heap.Values();
    if numRead != 1 {
      heap.CompoundShort(temp, Times, numRead);
      heap.CompoundShort(temp, Plus, num);
    }
    assert heap.Values() == before[temp := Held(Appended(before[temp].value, numRead, num), true)];
  }

  /** One round of reading: the digits from start to middle are in temp already. */
  method ReadNext(heap: Heap, temp: Handle, input: string, start: nat, middle: nat,
                  ghost before: map<Handle, Held>, ghost soFar: nat)
    returns (numRead: nat, next: nat, ghost value: nat)
    requires start <= middle <= |input| && AllDigits(input[start..middle]) && soFar == DecVal(input[start..middle])
    requires heap.Valid() && heap.Values() == before[temp := Held(soFar, true)]
    modifies heap, heap.repr
    ensures fresh(heap.repr - old(heap.repr))
    ensures middle <= next <= |input| && AllDigits(input[start..next]) && value == DecVal(input[start..next])
    ensures if numRead == 10000 then next == middle + 4 else numRead < 10000 && next == DigitsEnd(input, start)
    ensures heap.Valid() && heap.Values() == before[temp := Held(value, true)]
  {
    hide ValidState, ValuesOf, Formed, StateOf, DecVal, GroupRead, DigitsEnd;
    var num;
    num, numRead, next := ReadGroup(input, middle);
    GroupBehind(input, start, middle, next, num, numRead);
    AppendGroup(heap, temp, num, numRead);
    value := Appended(soFar, numRead, num);
    assert before[temp := Held(soFar, true)][temp := Held(value, true)] == before[temp := Held(value, true)];
  }

  lemma NoDigits(input: string, start: nat)
    requires start <= |input|
    ensures AllDigits(input[start..start]) && DecVal(input[start..start]) == 0
  {
  }

  /** Reads groups of four digits into a handle that holds zero, until a group comes up short. */
  method ReadGroups(heap: Heap, temp: Handle, input: string, start: nat) returns (next: nat)
    requires heap.Valid() && temp in heap.handles && heap.Values()[temp] == Held(0, true) && start <= |input|
    modifies heap, heap.repr
    ensures fresh(heap.repr - old(heap.repr))
    ensures next == DigitsEnd(input, start) && DecVal(input[start..next]) >= 0
    ensures heap.Valid() && heap.Values() == old(heap.Values())[temp := Held(DecVal(input[start..next]), true)]
  {
    hide *;
    assert DecVal(input[start..start]) == 0 && AllDigits(input[start..start]) by { NoDigits(input, start); }
    ghost var before := heap.Values();
    ghost var value := 0;
    assert before[temp := Held(0, true)] == before;
    var numRead := 10000;
    next := start;
    while numRead == 10000
      invariant start <= next <= |input| && AllDigits(input[start..next]) && value == DecVal(input[start..next])
      invariant numRead != 10000 ==> next == DigitsEnd(input, start)
      invariant heap.Valid() && heap.Values() == before[temp := Held(value, true)] && fresh(heap.repr - old(heap.repr))
      decreases |input| - next, numRead
    {
      numRead, next, value := ReadNext(heap, temp, input, start, next, before, value);
    }
  }

  /** What is done in between with a temporary number leaves no trace. */
  lemma NoTrace(before: map<Handle, Held>, rhs: Handle, temp: Handle, value: Held)
    requires rhs in before && temp !in before
    ensures before[temp := Held(0, true)][temp := value][rhs := value] - {temp} == before[rhs := value]
  {
  }

  /** Reads digits into a temporary number and assigns it. */
  method ReadInto(heap: Heap, rhs: Handle, temp: Handle, input: string, start: nat) returns (next: nat)
    requires heap.Valid() && rhs in heap.handles && temp !in heap.handles && start <= |input|
    modifies heap, heap.repr
    ensures fresh(heap.repr - old(heap.repr))
    ensures next == DigitsEnd(input, start) && DecVal(input[start..next]) >= 0
    ensures heap.Valid() && heap.Values() == old(heap.Values())[rhs := Held(DecVal(input[start..next]), true)]
  {
    hide *;
    ghost var before := heap.Values();
    heap.Create(temp, 0);
    next := ReadGroups(heap, temp, input, start);
    heap.Assign(rhs, temp);
    heap.Destroy(temp);
    NoTrace(before, rhs, temp, Held(DecVal(input[start..next]), true));
  }

  /** The operator >>: rhs changes only if there is a number to read. */
  method Read(heap: Heap, rhs: Handle, temp: Handle, input: string, pos: nat) returns (ok: bool, next: nat)
    requires heap.Valid() && rhs in heap.handles && temp !in heap.handles && pos <= |input|
    modifies heap, heap.repr
    ensures fresh(heap.repr - old(heap.repr))
    ensures heap.Valid() && next == Reading(input, pos).next && ok == Reading(input, pos).Found?
    ensures heap.Values() == if ok then old(heap.Values())[rhs := Held(Reading(input, pos).value, true)] else old(heap.Values())
  {
    hide *;
    next := SkipBlanks(input, pos);
    ReadingIs(input, pos);
    if !(next < |input| && IsDigit(input[next])) {
      return false, next;
    }
    next := ReadInto(heap, rhs, temp, input, next);
    ok := true;
  }

  lemma ReadingIs(input: string, pos: nat)
    requires pos <= |input|
    ensures var start := BlanksEnd(input, pos); var end := DigitsEnd(input, start);
      if start < |input| && IsDigit(input[start])
      then DecVal(input[start..end]) >= 0 && Reading(input, pos) == Found(DecVal(input[start..end]), end)
      else Reading(input, pos) == NoNumber(start)
  {
    var start := BlanksEnd(input, pos);
    DecValNonNegative(input[start..DigitsEnd(input, start)]);
  }

  /** A serialized number is a numeral and a space. */
  method Serialize(data: DataRecord) returns (text: string)
    requires data.Proper()
    ensures text == Numeral(data.Value()) + " "
  {
    var digits := Print(data);
    text := digits + " ";
  }

  /** Where deserializing succeeds: at a number followed by a space. */
  function Deserializing(input: string, pos: nat): (p: Parsed)
    requires pos <= |input|
    ensures p.next <= |input|
  {
    var p := Reading(input, pos);
    if p.Found? && p.next < |input| && input[p.next] == ' ' then Found(p.value, p.next + 1) else NoNumber(p.next)
  }

  /** Deserializing; a failure leaves zero. */
  method Deserialize(heap: Heap, item: Handle, temp: Handle, input: string, pos: nat) returns (ok: bool, next: nat)
    requires heap.Valid() && item in heap.handles && temp !in heap.handles && pos <= |input|
    modifies heap, heap.repr
    ensures fresh(heap.repr - old(heap.repr))
    ensures heap.Valid() && ok == Deserializing(input, pos).Found? && (ok ==> next == Deserializing(input, pos).next)
    ensures heap.Values() == old(heap.Values())[item := Held(if ok then Deserializing(input, pos).value else 0, true)]
    ensures ok <==> Reading(input, pos).Found? && Reading(input, pos).next < |input| && input[Reading(input, pos).next] == ' '
    ensures ok ==> Deserializing(input, pos).value == Reading(input, pos).value && next == Reading(input, pos).next + 1
  {
    hide ValidState, ValuesOf, Formed, StateOf, DecVal;
    ok, next := Read(heap, item, temp, input, pos);
    if !ok || next == |input| || input[next] != ' ' {
      heap.AssignShort(item, 0);
      ok := false;
    } else {
      next := next + 1;
    }
  }

  /** Deserializing undoes serializing and leaves the rest of the stream, whatever follows. */
  lemma DeserializingSerialized(input: string, pos: nat, n: nat, rest: string)
    requires pos <= |input| && input[pos..] == Numeral(n) + " " + rest
    ensures Deserializing(input, pos) == Found(n, |input| - |rest|)
  {
    hide Numeral, Reading;
    assert input[pos..] == "" + Numeral(n) + (" " + rest);
    ReadingNumeral(input, pos, "", n, " " + rest);
    NumeralAt(input, pos, "", n, " " + rest);
  }
}
