/** What an encoding looks like, character by character, and what characters decode to, in plain arithmetic. */
module Base64Format {
  import opened Base64Codec
  import opened Bits
  import opened Digits

  /** The 24 bits of up to three bytes, with zeros for missing bytes. */
  function Bits24(bytes: seq<Byte>): (n: nat)
    requires 1 <= |bytes| <= 3
  {
    var b0: int := bytes[0];
    var b1: int := if |bytes| > 1 then bytes[1] else 0;
    var b2: int := if |bytes| > 2 then bytes[2] else 0;
    65536 * b0 + 256 * b1 + b2
  }

  lemma {:induction false} LetterAt(v: nat)
    requires v < 64
    ensures |ALPHABET| == 64 && ALPHABET[v] as int == Symbol(v)
  {
    AlphabetSymbols();
  }

  /** Four characters for three bytes, six bits each from the top; equals signs in the place of missing bytes. */
  lemma BlockIs(bytes: seq<Byte>, n: nat)
    requires 1 <= |bytes| <= 3 && n == Bits24(bytes)
    ensures |ALPHABET| == 64 && n / 262144 < 64
    ensures Block(bytes)[0] == ALPHABET[n / 262144] as int
    ensures Block(bytes)[1] == ALPHABET[n / 4096 % 64] as int
    ensures Block(bytes)[2] == if |bytes| > 1 then ALPHABET[n / 64 % 64] as int else '=' as int
    ensures Block(bytes)[3] == if |bytes| > 2 then ALPHABET[n % 64] as int else '=' as int
  {
    hide Symbol, Bits24, Block;
    BlockSymbols(bytes);
    LetterAt(n / 262144);
    LetterAt(n / 4096 % 64);
    LetterAt(n / 64 % 64);
    LetterAt(n % 64);
  }

  lemma BlockSymbols(bytes: seq<Byte>)
    requires 1 <= |bytes| <= 3
    ensures var n := Bits24(bytes);
      && 0 <= n / 262144 < 64
      && Block(bytes) == [Symbol(n / 262144), Symbol(n / 4096 % 64),
                          if |bytes| > 1 then Symbol(n / 64 % 64) else PAD,
                          if |bytes| > 2 then Symbol(n % 64) else PAD]
  {
    hide Symbol;
    var b1: Byte := if |bytes| > 1 then bytes[1] else 0;
    var b2: Byte := if |bytes| > 2 then bytes[2] else 0;
    Sextets(bytes[0], b1, b2);
  }

  lemma Sextets(b0: int, b1: int, b2: int)
    requires 0 <= b0 < 256 && 0 <= b1 < 256 && 0 <= b2 < 256
    ensures var n := 65536 * b0 + 256 * b1 + b2;
      && n / 262144 == b0 / 4 && n / 4096 % 64 == b0 % 4 * 16 + b1 / 16
      && n / 64 % 64 == b1 % 16 * 4 + b2 / 64 && n % 64 == b2 % 64
  {
    FourSextets(65536 * b0 + 256 * b1 + b2, b0 / 4, b0 % 4 * 16 + b1 / 16, b1 % 16 * 4 + b2 / 64, b2 % 64);
  }

  lemma FourSextets(n: int, v0: int, v1: int, v2: int, v3: int)
    requires 0 <= v0 < 64 && 0 <= v1 < 64 && 0 <= v2 < 64 && 0 <= v3 < 64
    requires n == 262144 * v0 + 4096 * v1 + 64 * v2 + v3
    ensures n / 262144 == v0 && n / 4096 % 64 == v1 && n / 64 % 64 == v2 && n % 64 == v3
  {
    assert n / 64 == 4096 * v0 + 64 * v1 + v2;
    assert n / 4096 == 64 * v0 + v1;
  }

  /** Full groups at the beginning of a line take four characters each. */
  lemma {:induction false} GroupsBefore(input: seq<Byte>, style: LineEnding, counter: nat, j: nat)
    requires 3 * j <= |input| && j <= counter
    ensures var text := Encoded(input, style, counter);
      4 * j <= |text| && text[4 * j..] == Encoded(input[3 * j..], style, counter - j)
    decreases j
  {
    hide Encoded, Block;
    if j == 0 {
      assert input[0..] == input;
      assert Encoded(input, style, counter)[0..] == Encoded(input, style, counter);
    } else {
      FirstGroup(input, style, counter);
      GroupsBefore(input[3..], style, counter - 1, j - 1);
      assert input[3..][3 * (j - 1)..] == input[3 * j..];
      Dropped(Encoded(input, style, counter), Encoded(input[3..], style, counter - 1), 4, 4 * (j - 1));
    }
  }

  lemma FirstGroup(input: seq<Byte>, style: LineEnding, counter: nat)
    requires |input| >= 3 && counter > 0
    ensures Encoded(input, style, counter) == Block(input[..3]) + Encoded(input[3..], style, counter - 1)
  {
    hide Block;
  }

  lemma Dropped(s: seq<Byte>, t: seq<Byte>, m: nat, n: nat)
    requires m <= |s| && s[m..] == t && n <= |t|
    ensures m + n <= |s| && s[m + n..] == t[n..]
  {
  }

  /** At the end of a line a line break is due before anything else. */
  lemma BreakDue(input: seq<Byte>, style: LineEnding)
    requires |input| > 0
    ensures Encoded(input, style, 0) == Eol(style) + Encoded(input, style, 19)
  {
    hide Block, Eol;
  }

  /** The first 57 bytes make a line of 76 characters, and if there are more the line break follows. */
  lemma FirstLine(input: seq<Byte>, style: LineEnding)
    requires |input| > 57
    ensures var text, w := Encoded(input, style, 19), 76 + |Eol(style)|;
      w <= |text| && text[76..w] == Eol(style) && text[w..] == Encoded(input[57..], style, 19)
  {
    GroupsBefore(input, style, 19, 19);
    BreakDue(input[57..], style);
    hide Encoded, Eol;
    var text, rest := Encoded(input, style, 19), Encoded(input[57..], style, 19);
    assert text[76..] == Eol(style) + rest;
    assert text == text[..76] + Eol(style) + rest;
  }

  /** Line k begins after k lines of 76 characters and as many line breaks. */
  lemma {:induction false} LineAt(input: seq<Byte>, style: LineEnding, k: nat)
    requires 57 * k < |input|
    ensures var text, e := Encoded(input, style, 19), |Eol(style)|; var at := (76 + e) * k;
      && 0 <= at <= |text| && text[at..] == Encoded(input[57 * k..], style, 19)
      && (k > 0 ==> 0 <= at - e && text[at - e..at] == Eol(style))
    decreases k
  {
    hide Encoded, Eol;
    var text, e := Encoded(input, style, 19), |Eol(style)|;
    if k == 0 {
      assert input[0..] == input && text[0..] == text;
    } else {
      FirstLine(input, style);
      LineAt(input[57..], style, k - 1);
      assert input[57..][57 * (k - 1)..] == input[57 * k..];
      var next := Encoded(input[57..], style, 19);
      MulDistributes(76 + e, k - 1, 1);
      LineBehind(text, next, 76 + e, (76 + e) * (k - 1), e, Eol(style), k > 1);
    }
  }

  lemma LineBehind(text: seq<Byte>, next: seq<Byte>, w: nat, at: nat, e: nat, eol: seq<Byte>, more: bool)
    requires |eol| == e <= w <= |text| && text[w..] == next && at <= |next|
    requires if more then e <= at && next[at - e..at] == eol else at == 0 && text[w - e..w] == eol
    ensures w + at <= |text| && text[w + at..] == next[at..] && text[w + at - e..w + at] == eol
  {
    Dropped(text, next, w, at);
    if more { SameSlice(text, next, w, at - e, at); }
  }

  lemma SameSlice(s: seq<Byte>, t: seq<Byte>, m: nat, i: nat, j: nat)
    requires m <= |s| && s[m..] == t && i <= j <= |t|
    ensures m + j <= |s| && s[m + i..m + j] == t[i..j]
  {
    forall q | 0 <= q < j - i
      ensures s[m + i..m + j][q] == t[i..j][q]
    {
      assert s[m + i + q] == s[m..][i + q];
    }
  }

  /** Group j of the first line, and nothing behind it if the input ends there. */
  lemma GroupInLine(input: seq<Byte>, style: LineEnding, j: nat)
    requires j < 19 && 3 * j < |input|
    ensures var text, n := Encoded(input, style, 19), if |input| - 3 * j < 3 then |input| - 3 * j else 3;
      && 4 * j + 4 <= |text| && text[4 * j..4 * j + 4] == Block(input[3 * j..3 * j + n])
      && (3 * j + 3 >= |input| ==> |text| == 4 * j + 4)
  {
    hide Encoded, Block;
    var text, n := Encoded(input, style, 19), if |input| - 3 * j < 3 then |input| - 3 * j else 3;
    GroupsBefore(input, style, 19, j);
    GroupFirst(input[3 * j..], style, 19 - j);
    SameSlice(input, input[3 * j..], 3 * j, 0, n);
    SameSlice(text, text[4 * j..], 4 * j, 0, 4);
  }

  /** Where group j of line k is. */
  lemma GroupAt(input: seq<Byte>, style: LineEnding, k: nat, j: nat, at: nat)
    requires j < 19 && 57 * k + 3 * j < |input| && at == (76 + |Eol(style)|) * k + 4 * j
    ensures var text, p := Encoded(input, style, 19), 57 * k + 3 * j;
      var n := if |input| - p < 3 then |input| - p else 3;
      && at + 4 <= |text| && text[at..at + 4] == Block(input[p..p + n])
      && (p + 3 >= |input| ==> |text| == at + 4)
  {
    hide Encoded, Eol, Block;
    var text, p := Encoded(input, style, 19), 57 * k + 3 * j;
    var rest, n := input[57 * k..], if |input| - p < 3 then |input| - p else 3;
    assert at - 4 * j <= |text| && text[at - 4 * j..] == Encoded(rest, style, 19) by { LineAt(input, style, k); }
    GroupInLine(rest, style, j);
    SameSlice(text, Encoded(rest, style, 19), at - 4 * j, 4 * j, 4 * j + 4);
    SameSlice(input, rest, 57 * k, 3 * j, 3 * j + n);
  }

  lemma GroupFirst(input: seq<Byte>, style: LineEnding, counter: nat)
    requires |input| > 0 && counter > 0
    ensures var text := Encoded(input, style, counter); var n := if |input| < 3 then |input| else 3;
      && |text| >= 4 && text[..4] == Block(input[..n])
      && (|input| <= 3 ==> |text| == 4)
  {
    hide Block;
    if |input| <= 3 { assert Encoded(input[if |input| < 3 then |input| else 3..], style, counter - 1) == []; }
  }

  /**
   The character at every place of an encoding. Line k has the bytes from 57 * k on, at most 57 of them; its group j
   has the 24 bits n of three of them, zeros for those missing, as four letters of six bits from the top,
   and ends in equals signs in the places that missing bytes leave.
   */
  lemma CharactersAre(input: seq<Byte>, style: LineEnding, k: nat, j: nat, p: nat, at: nat, n: nat)
    requires j < 19 && p == 57 * k + 3 * j < |input| && at == (if style == CRLF then 78 else 77) * k + 4 * j
    requires n == 65536 * input[p] as int + 256 * (if p + 1 < |input| then input[p + 1] as int else 0)
                  + if p + 2 < |input| then input[p + 2] as int else 0
    ensures |ALPHABET| == 64 && n / 262144 < 64 && at + 4 <= |Encoded(input, style, 19)|
    ensures Encoded(input, style, 19)[at] == ALPHABET[n / 262144] as int
    ensures Encoded(input, style, 19)[at + 1] == ALPHABET[n / 4096 % 64] as int
    ensures Encoded(input, style, 19)[at + 2] == if p + 1 < |input| then ALPHABET[n / 64 % 64] as int else '=' as int
    ensures Encoded(input, style, 19)[at + 3] == if p + 2 < |input| then ALPHABET[n % 64] as int else '=' as int
  {
    hide Encoded, Block, Bits24;
    var text := Encoded(input, style, 19);
    var bytes := input[p..p + if |input| - p < 3 then |input| - p else 3];
    GroupAt(input, style, k, j, at);
    BitsOf(input, p);
    BlockIs(bytes, n);
    FourOf(text, at, Block(bytes));
  }

  lemma FourOf(text: seq<Byte>, at: nat, block: seq<Byte>)
    requires at + 4 <= |text| && text[at..at + 4] == block
    ensures text[at] == block[0] && text[at + 1] == block[1] && text[at + 2] == block[2] && text[at + 3] == block[3]
  {
  }

  lemma BitsOf(input: seq<Byte>, p: nat)
    requires p < |input|
    ensures Bits24(input[p..p + if |input| - p < 3 then |input| - p else 3])
         == 65536 * input[p] as int + 256 * (if p + 1 < |input| then input[p + 1] as int else 0)
            + if p + 2 < |input| then input[p + 2] as int else 0
  {
  }

  /** An encoding ends with its last group; nothing encodes to nothing. */
  lemma LengthIs(input: seq<Byte>, style: LineEnding, k: nat, j: nat)
    requires j < 19 && 57 * k + 3 * j < |input| <= 57 * k + 3 * j + 3
    ensures |Encoded(input, style, 19)| == (if style == CRLF then 78 else 77) * k + 4 * j + 4
    ensures Encoded([], style, 19) == []
  {
    GroupAt(input, style, k, j, (if style == CRLF then 78 else 77) * k + 4 * j);
  }

  /** In front of every line but the first is the chosen line break, so that every line but the last has 76 characters. */
  lemma BreakBefore(input: seq<Byte>, style: LineEnding, k: nat, at: nat)
    requires k > 0 && 57 * k < |input| && at == (if style == CRLF then 78 else 77) * k
    ensures 2 <= at <= |Encoded(input, style, 19)|
    ensures match style
      case CR => Encoded(input, style, 19)[at - 1] == 13
      case LF => Encoded(input, style, 19)[at - 1] == 10
      case CRLF => Encoded(input, style, 19)[at - 2] == 13 && Encoded(input, style, 19)[at - 1] == 10
  {
    hide Encoded;
    var text, eol := Encoded(input, style, 19), Eol(style);
    LineAt(input, style, k);
    assert forall i :: 0 <= i < |eol| ==> text[at - |eol|..at][i] == eol[i];
  }

  /** Bytes of the 24 bits of four letters. */
  lemma ThreeBytes(b0: int, b1: int, b2: int, v0: int, v1: int, v2: int, v3: int)
    requires 0 <= v0 < 64 && 0 <= v1 < 64 && 0 <= v2 < 64 && 0 <= v3 < 64
    requires b0 == v0 * 4 + v1 / 16 && b1 == v1 % 16 * 16 + v2 / 4 && b2 == v2 % 4 * 64 + v3
    ensures 65536 * b0 + 256 * b1 + b2 == 262144 * v0 + 4096 * v1 + 64 * v2 + v3
  {
  }

  /** The letter of a 6-bit value, and no other character, has that value. */
  lemma ValueIs(c: Byte, v: nat)
    requires v < 64
    ensures |ALPHABET| == 64 && (ValueOf(c) == v <==> c == ALPHABET[v] as int)
    ensures ValueOf('=' as int) == 100 && PAD == '=' as int
  {
    LetterAt(v);
    SymbolsInjective(v);
  }

  lemma OrIs(v0: nat, v1: nat, v2: nat, v3: nat)
    requires v0 < 64 && v1 < 64 && v2 < 64 && v3 < 64
    ensures BitOr(v0 * 4 % 256, v1 / 16) == v0 * 4 + v1 / 16
    ensures BitOr(v1 * 16 % 256, v2 / 4) == v1 % 16 * 16 + v2 / 4
    ensures BitOr(v2 * 64 % 256, v3) == v2 % 4 * 64 + v3
  {
    hide BitOr;
    OrParts(2, v0, v1 / 16);
    OrParts(4, v1 % 16, v2 / 4);
    OrSix(v2 % 4, v3);
    assert v1 * 16 % 256 == v1 % 16 * 16 && v2 * 64 % 256 == v2 % 4 * 64;
  }

  /** Four letters decode to the three bytes that have the same 24 bits. */
  lemma DecodedLetters(block: seq<Byte>, v0: nat, v1: nat, v2: nat, v3: nat)
    requires |ALPHABET| == 64 && |block| == 4 && v0 < 64 && v1 < 64 && v2 < 64 && v3 < 64
    requires block[0] == ALPHABET[v0] as int && block[1] == ALPHABET[v1] as int
    requires block[2] == ALPHABET[v2] as int && block[3] == ALPHABET[v3] as int
    ensures |DecodedBlock(block)| == 3
    ensures var bytes := DecodedBlock(block); var b0: int, b1: int, b2: int := bytes[0], bytes[1], bytes[2];
      65536 * b0 + 256 * b1 + b2 == 262144 * v0 + 4096 * v1 + 64 * v2 + v3
  {
    hide ValueOf, BitOr;
    ValueIs(block[0], v0);
    ValueIs(block[1], v1);
    ValueIs(block[2], v2);
    ValueIs(block[3], v3);
    OrIs(v0, v1, v2, v3);
    var bytes := DecodedBlock(block);
    ThreeBytes(bytes[0], bytes[1], bytes[2], v0, v1, v2, v3);
  }

  /** Equals signs at the end leave out bytes, and nothing else does. */
  lemma DecodedCount(block: seq<Byte>)
    requires |block| == 4
    ensures |DecodedBlock(block)| == if block[3] != '=' as int then 3 else if block[2] != '=' as int then 2 else 1
  {
    hide ValueOf, BitOr;
  }

  /** With one equals sign or two, the bytes are the first 16 or 8 of the bits. */
  lemma DecodedPadded(block: seq<Byte>, v0: nat, v1: nat, v2: nat)
    requires |ALPHABET| == 64 && |block| == 4 && v0 < 64 && v1 < 64 && v2 < 64
    requires block[0] == ALPHABET[v0] as int && block[1] == ALPHABET[v1] as int && block[3] == '=' as int
    ensures block[2] == ALPHABET[v2] as int ==>
      && |DecodedBlock(block)| == 2
      && 256 * DecodedBlock(block)[0] as int + DecodedBlock(block)[1] as int == 1024 * v0 + 16 * v1 + v2 / 4
    ensures block[2] == '=' as int ==> |DecodedBlock(block)| == 1 && DecodedBlock(block)[0] == 4 * v0 + v1 / 16
  {
    hide ValueOf, BitOr;
    ValueIs(block[0], v0);
    ValueIs(block[1], v1);
    ValueIs(block[2], v2);
    OrIs(v0, v1, v2, 0);
    DecodedCount(block);
    LetterIsNoPad(v2);
    if block[2] == ALPHABET[v2] as int { TwoBytes(v0, v1, v2); }
  }

  lemma LetterIsNoPad(v: nat)
    requires v < 64
    ensures |ALPHABET| == 64 && ALPHABET[v] != '='
  {
    LetterAt(v);
  }

  lemma TwoBytes(v0: int, v1: int, v2: int)
    requires 0 <= v0 < 64 && 0 <= v1 < 64 && 0 <= v2 < 64
    ensures 256 * (v0 * 4 + v1 / 16) + (v1 % 16 * 16 + v2 / 4) == 1024 * v0 + 16 * v1 + v2 / 4
  {
  }

  /** The decoder keeps the letters and, but for the very first character, equals signs. */
  lemma LettersAreKept(c: Byte)
    ensures |ALPHABET| == 64
    ensures KeptFrom([c]) == if c == '=' as int || exists v :: 0 <= v < 64 && c == ALPHABET[v] as int then [c] else []
    ensures Kept([c]) == if exists v :: 0 <= v < 64 && c == ALPHABET[v] as int then [c] else []
  {
    hide ValueOf;
    assert KeptFrom([c][1..]) == [];
    ValueIs(c, 0);
    if ValueOf(c) < 64 {
      ValueIs(c, ValueOf(c));
    } else {
      forall v | 0 <= v < 64
        ensures c != ALPHABET[v] as int
      {
        ValueIs(c, v);
      }
    }
  }

  /** The example of every description of base64. */
  lemma Man()
    ensures Encoded(['M' as int, 'a' as int, 'n' as int], LF, 19) == ['T' as int, 'W' as int, 'F' as int, 'u' as int]
    ensures Encoded(['M' as int, 'a' as int], LF, 19) == ['T' as int, 'W' as int, 'E' as int, '=' as int]
    ensures Encoded(['M' as int], LF, 19) == ['T' as int, 'Q' as int, '=' as int, '=' as int]
  {
    EncodedUnfold([77, 97, 110], LF, 19);
    EncodedUnfold([77, 97], LF, 19);
    EncodedUnfold([77], LF, 19);
  }
}
