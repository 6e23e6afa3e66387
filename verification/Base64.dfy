/** Base64 encoding with line breaks, and the decoder that skips everything it does not know. */
module Base64Codec {
  import opened Bits
  import opened Digits

  type Byte = x: int | 0 <= x < 256

  const UPPER: string := "ABCDEFGHIJKLMNOPQRSTUVWXYZ"
  const LOWER: string := "abcdefghijklmnopqrstuvwxyz"
  const OTHERS: string := "0123456789+/"
  const ALPHABET: string := UPPER + LOWER + OTHERS
  const PAD: Byte := 61
  const CARRIAGE_RETURN: Byte := 13
  const LINE_FEED: Byte := 10
  // What the decoding table holds for characters outside the alphabet.
  const BAD_VALUE: Byte := 100
  const GROUPS_PER_LINE: nat := 19

  /** The character of a 6-bit value, as in table 1 of RFC 2045. */
  function Symbol(v: nat): (c: Byte)
    requires v < 64
  {
    if v < 26 then 65 + v
    else if v < 52 then 97 + (v - 26)
    else if v < 62 then 48 + (v - 52)
    else if v == 62 then 43
    else 47
  }

  /** The 6-bit value of a character; BAD_VALUE if it has none. */
  function ValueOf(c: Byte): (v: Byte)
    ensures v < 64 || v == BAD_VALUE
  {
    if 65 <= c <= 90 then c - 65
    else if 97 <= c <= 122 then c - 97 + 26
    else if 48 <= c <= 57 then c - 48 + 52
    else if c == 43 then 62
    else if c == 47 then 63
    else BAD_VALUE
  }

  lemma AlphabetSymbols()
    ensures |ALPHABET| == 64
    ensures forall v :: 0 <= v < 64 ==> ALPHABET[v] as int == Symbol(v)
  {
    assert |UPPER| == |LOWER| == 26 && |OTHERS| == 12;
    assert forall v :: 0 <= v < 26 ==> UPPER[v] as int == 65 + v;
    assert forall v :: 0 <= v < 26 ==> LOWER[v] as int == 97 + v;
    assert forall v :: 0 <= v < 12 ==> OTHERS[v] as int == Symbol(52 + v);
    forall v | 0 <= v < 64
      ensures ALPHABET[v] as int == Symbol(v)
    {
      assert ALPHABET[v] == if v < 26 then UPPER[v] else if v < 52 then LOWER[v - 26] else OTHERS[v - 52];
    }
  }

  datatype LineEnding = CR | LF | CRLF

  function Eol(style: LineEnding): seq<Byte>
  {
    match style
    case CR => [CARRIAGE_RETURN]
    case LF => [LINE_FEED]
    case CRLF => [CARRIAGE_RETURN, LINE_FEED]
  }

  /** The four characters of up to three bytes. */
  function Block(bytes: seq<Byte>): (block: seq<Byte>)
    requires 1 <= |bytes| <= 3
    ensures |block| == 4
  {
    var b0 := bytes[0];
    var b1 := if |bytes| > 1 then bytes[1] else 0;
    var b2 := if |bytes| > 2 then bytes[2] else 0;
    [Symbol(b0 / 4), Symbol(b0 % 4 * 16 + b1 / 16),
     if |bytes| > 1 then Symbol(b1 % 16 * 4 + b2 / 64) else PAD,
     if |bytes| > 2 then Symbol(b2 % 64) else PAD]
  }

  /** The encoding of the rest of the input when so many more groups go on the current line. */
  function Encoded(input: seq<Byte>, style: LineEnding, counter: nat): (output: seq<Byte>)
    decreases |input|
  {
    if |input| == 0 then []
    else
      var n := if |input| < 3 then |input| else 3;
      if counter == 0 then Eol(style) + Block(input[..n]) + Encoded(input[n..], style, GROUPS_PER_LINE - 1)
      else Block(input[..n]) + Encoded(input[n..], style, counter - 1)
  }

  /** What the decoder counts: every character but fillers; a pad counts except as the very first character. */
  predicate IsKept(c: Byte)
  {
    ValueOf(c) != BAD_VALUE || c == PAD
  }

  function KeptFrom(input: seq<Byte>): (kept: seq<Byte>)
    ensures forall i :: 0 <= i < |kept| ==> IsKept(kept[i])
  {
    if |input| == 0 then []
    else (if IsKept(input[0]) then [input[0]] else []) + KeptFrom(input[1..])
  }

  function Kept(input: seq<Byte>): (kept: seq<Byte>)
    ensures forall i :: 0 <= i < |kept| ==> IsKept(kept[i])
  {
    if |input| == 0 then []
    else (if ValueOf(input[0]) != BAD_VALUE then [input[0]] else []) + KeptFrom(input[1..])
  }

  /** The bytes of four characters; pads at the end leave out bytes. */
  function DecodedBlock(block: seq<Byte>): (bytes: seq<Byte>)
    requires |block| == 4
    ensures 1 <= |bytes| <= 3
  {
    var v0, v1, v2, v3 := ValueOf(block[0]), ValueOf(block[1]), ValueOf(block[2]), ValueOf(block[3]);
    var outsize := if block[3] != PAD then 3 else if block[2] != PAD then 2 else 1;
    OrByte(v0 * 4 % 256, v1 / 16);
    OrByte(v1 * 16 % 256, v2 / 4);
    OrByte(v2 * 64 % 256, v3);
    [BitOr(v0 * 4 % 256, v1 / 16), BitOr(v1 * 16 % 256, v2 / 4), BitOr(v2 * 64 % 256, v3)][..outsize]
  }

  lemma {:induction false} OrBelow(k: nat, a: nat, b: nat)
    requires a < Pow(2, k) && b < Pow(2, k)
    ensures BitOr(a, b) < Pow(2, k)
  {
    if k > 0 && (a != 0 || b != 0) { OrBelow(k - 1, a / 2, b / 2); }
  }

  lemma OrByte(a: Byte, b: Byte)
    ensures BitOr(a, b) < 256
  {
    assert Pow(2, 8) == 256 by { assert Pow(2, 4) == 16; PowAdd(2, 4, 4); }
    OrBelow(8, a, b);
  }

  function DecodedGroups(kept: seq<Byte>): (bytes: seq<Byte>)
    decreases |kept|
  {
    if |kept| < 4 then [] else DecodedBlock(kept[..4]) + DecodedGroups(kept[4..])
  }

  lemma OrParts(k: nat, high: nat, low: nat)
    requires k == 2 || k == 4
    requires low < if k == 2 then 4 else 16
    ensures k == 2 ==> BitOr(high * 4, low) == high * 4 + low
    ensures k == 4 ==> BitOr(high * 16, low) == high * 16 + low
  {
    SmallPowers();
    hide BitOr, Pow;
    OrIsSum(k, high, low);
  }

  lemma SmallPowers()
    ensures Pow(2, 2) == 4 && Pow(2, 4) == 16
  {
    PowAdd(2, 2, 2);
  }

  /** A byte with the bits below the given power of two cleared. */
  function Top(b: Byte, power: nat): (t: Byte)
    requires power == 4 || power == 16 || power == 64
    ensures t / power == b / power && t % power == 0
  {
    b - b % power
  }

  /** Low bits of one byte in front of the top bits of the next. */
  function Joined(low: nat, power: nat, top: Byte): (v: nat)
    requires (power == 16 && low < 4) || (power == 4 && low < 16)
    ensures power == 16 ==> v == low * 16 + top / 16
    ensures power == 4 ==> v == low * 4 + top / 64
    ensures v < 64
  {
    OrParts(if power == 4 then 2 else 4, low, if power == 4 then top / 64 else top / 16);
    BitOr(low * power, if power == 4 then top / 64 else top / 16)
  }

  /** Fills the decoding table by going through the encoding table. */
  method FillDecodeTable(encodeTable: array<Byte>, decodeTable: array<Byte>)
    requires encodeTable.Length == 64 && decodeTable.Length == 255 && encodeTable != decodeTable
    requires forall v :: 0 <= v < 64 ==> encodeTable[v] == Symbol(v)
    modifies decodeTable
    ensures forall c :: 0 <= c < 255 ==> decodeTable[c] == ValueOf(c)
  {
    var i := 0;
    while i < 255
      invariant 0 <= i <= 255
      invariant forall c :: 0 <= c < i ==> decodeTable[c] == BAD_VALUE
    {
      decodeTable[i] := BAD_VALUE;
      i := i + 1;
    }
    i := 0;
    while i < 64
      invariant 0 <= i <= 64
      invariant forall c :: 0 <= c < 255 ==> decodeTable[c] == if ValueOf(c) < i then ValueOf(c) else BAD_VALUE
    {
      SymbolsInjective(i);
      hide Symbol, ValueOf;
      decodeTable[encodeTable[i]] := i;
      i := i + 1;
    }
  }

  lemma SymbolsInjective(v: nat)
    requires v < 64
    ensures forall c: Byte :: ValueOf(c) == v <==> c == Symbol(v)
    ensures Symbol(v) < 255
  {
  }

  class Base64 {
    const encodeTable: array<Byte>
    const decodeTable: array<Byte>
    var eolStyle: LineEnding

    ghost predicate Valid()
      reads this, encodeTable, decodeTable
    {
      && encodeTable.Length == 64 && decodeTable.Length == 255
      && (forall v :: 0 <= v < 64 ==> encodeTable[v] == Symbol(v))
      && (forall c :: 0 <= c < 255 ==> decodeTable[c] == ValueOf(c))
    }

    /** Sets up the tables; the decoding table is filled by going through the encoding table. */
    constructor ()
      ensures Valid() && eolStyle == LF
    {
      encodeTable := new Byte[64](i requires 0 <= i < 64 => (AlphabetSymbols(); ALPHABET[i] as int));
      decodeTable := new Byte[255];
      eolStyle := LF;
      new;
      AlphabetSymbols();
      FillDecodeTable(encodeTable, decodeTable);
    }

    method SetLineEnding(style: LineEnding)
      modifies this`eolStyle
      ensures eolStyle == style
    {
      eolStyle := style;
    }

    /** Encodes up to three bytes. */
    method EncodeGroup(inbuf: seq<Byte>) returns (outbuf: seq<Byte>)
      requires Valid() && 1 <= |inbuf| <= 3
      ensures outbuf == Block(inbuf)
    {
      var status := |inbuf|;
      hide BitOr, Symbol, Joined, Top;
      var first := Top(inbuf[0], 4) / 4;
      var second := Joined(inbuf[0] % 4, 16, if status > 1 then Top(inbuf[1], 16) else 0);
      if status == 1 {
        return [encodeTable[first], encodeTable[second], PAD, PAD];
      }
      var third := Joined(inbuf[1] % 16, 4, if status > 2 then Top(inbuf[2], 64) else 0);
      if status == 2 {
        return [encodeTable[first], encodeTable[second], encodeTable[third], PAD];
      }
      return [encodeTable[first], encodeTable[second], encodeTable[third], encodeTable[inbuf[2] % 64]];
    }

    /** Encodes all of the input. */
    method Encode(input: seq<Byte>) returns (output: seq<Byte>)
      requires Valid()
      ensures output == Encoded(input, eolStyle, GROUPS_PER_LINE)
    {
      hide Encoded, Block;
      output := [];
      var pos := 0;
      var counter: nat := GROUPS_PER_LINE;
      var status := if |input| < 3 then |input| else 3;
      EncodingStarts(input, eolStyle);
      while status != 0
        invariant 0 <= pos <= |input| && counter <= GROUPS_PER_LINE
        invariant status == if |input| - pos < 3 then |input| - pos else 3
        invariant Encoding(input, eolStyle, output, pos, counter)
        decreases |input| - pos
      {
        EncodingStep(input, eolStyle, output, pos, counter, status);
        if counter == 0 {
          counter := GROUPS_PER_LINE;
          output := output + Eol(eolStyle);
        }
        counter := counter - 1;
        var outbuf := EncodeGroup(input[pos..pos + status]);
        output := output + outbuf;
        pos := pos + status;
        status := if |input| - pos < 3 then |input| - pos else 3;
      }
      EncodingEnds(input, eolStyle, output, counter);
    }

    /** Decodes four characters. */
    method DecodeGroup(inbuf: seq<Byte>) returns (bytes: seq<Byte>)
      requires Valid() && |inbuf| == 4 && forall i :: 0 <= i < 4 ==> inbuf[i] < 255
      ensures bytes == DecodedBlock(inbuf)
    {
      var outsize := 3;
      if inbuf[3] == PAD {
        if inbuf[2] == PAD {
          outsize := 1;
        } else {
          outsize := 2;
        }
      }
      var v0: int, v1: int := decodeTable[inbuf[0]], decodeTable[inbuf[1]];
      var v2: int, v3: int := decodeTable[inbuf[2]], decodeTable[inbuf[3]];
      var c1, c2, c3 := v0 * 4 % 256, v1 / 16, v1 * 16 % 256;
      var c4, c5, c6 := v2 / 4, v2 * 64 % 256, v3;
      OrByte(c1, c2);
      OrByte(c3, c4);
      OrByte(c5, c6);
      bytes := [BitOr(c1, c2), BitOr(c3, c4), BitOr(c5, c6)][..outsize];
    }

    /** Decodes the input; extra is the number of characters left over, and anything left over is an error. */
    method Decode(input: seq<Byte>) returns (output: seq<Byte>, extra: nat)
      requires Valid() && forall i :: 0 <= i < |input| ==> input[i] < 255
      ensures output == DecodedGroups(Kept(input)) && extra == |Kept(input)| % 4
    {
      hide Kept, KeptFrom, DecodedGroups, DecodedBlock;
      output := [];
      var inbuf: seq<Byte> := [];
      var pos := 0;
      var status := |input| > 0;
      KeptStart(input);
      if status {
        if decodeTable[input[0]] != BAD_VALUE {
          inbuf := [input[0]];
        }
        pos := 1;
      }
      while status
        invariant 0 <= pos <= |input| && |inbuf| <= 4 && (!status ==> pos == |input| && |inbuf| < 4)
        invariant forall i :: 0 <= i < |inbuf| ==> inbuf[i] < 255
        invariant Pending(input, output, inbuf, pos)
        decreases |input| - pos, status
      {
        if |inbuf| == 4 {
          GroupStep(input, output, inbuf, pos);
          var bytes := DecodeGroup(inbuf);
          output := output + bytes;
          inbuf := [];
        }
        status := pos < |input|;
        if status {
          CharacterStep(input, output, inbuf, pos);
          if decodeTable[input[pos]] != BAD_VALUE || input[pos] == PAD {
            inbuf := inbuf + [input[pos]];
          }
          pos := pos + 1;
        }
      }
      AllRead(input, output, inbuf);
      extra := |inbuf|;
    }
  }

  /** What has been written, what waits in the buffer and what is still to be read make up the whole. */
  ghost predicate Pending(input: seq<Byte>, output: seq<Byte>, inbuf: seq<Byte>, pos: nat)
    requires pos <= |input|
  {
    && output + DecodedGroups(inbuf + KeptFrom(input[pos..])) == DecodedGroups(Kept(input))
    && (|inbuf| + |KeptFrom(input[pos..])|) % 4 == |Kept(input)| % 4
  }

  lemma KeptStart(input: seq<Byte>)
    ensures |input| == 0 ==> Pending(input, [], [], 0)
    ensures |input| > 0 ==> Pending(input, [], if ValueOf(input[0]) != BAD_VALUE then [input[0]] else [], 1)
  {
  }

  lemma GroupStep(input: seq<Byte>, output: seq<Byte>, inbuf: seq<Byte>, pos: nat)
    requires |inbuf| == 4 && pos <= |input| && Pending(input, output, inbuf, pos)
    ensures Pending(input, output + DecodedBlock(inbuf), [], pos)
  {
    hide Kept, KeptFrom, DecodedBlock;
    var rest := KeptFrom(input[pos..]);
    FullGroup(inbuf, rest);
    assert [] + rest == rest;
    assert output + (DecodedBlock(inbuf) + DecodedGroups(rest)) == output + DecodedBlock(inbuf) + DecodedGroups(rest);
  }

  lemma CharacterStep(input: seq<Byte>, output: seq<Byte>, inbuf: seq<Byte>, pos: nat)
    requires pos < |input| && Pending(input, output, inbuf, pos)
    ensures Pending(input, output, if IsKept(input[pos]) then inbuf + [input[pos]] else inbuf, pos + 1)
  {
    hide Kept, DecodedGroups;
    KeptStep(inbuf, input, pos);
  }

  lemma AllRead(input: seq<Byte>, output: seq<Byte>, inbuf: seq<Byte>)
    requires |inbuf| < 4 && Pending(input, output, inbuf, |input|)
    ensures output == DecodedGroups(Kept(input)) && |inbuf| == |Kept(input)| % 4
  {
    hide Kept;
    assert inbuf + KeptFrom(input[|input|..]) == inbuf;
  }

  /** What has been written and what is still to be encoded make up the whole. */
  ghost predicate Encoding(input: seq<Byte>, style: LineEnding, output: seq<Byte>, pos: nat, counter: nat)
    requires pos <= |input|
  {
    output + Encoded(input[pos..], style, counter) == Encoded(input, style, GROUPS_PER_LINE)
  }

  lemma EncodingStarts(input: seq<Byte>, style: LineEnding)
    ensures Encoding(input, style, [], 0, GROUPS_PER_LINE)
  {
    assert input[0..] == input;
  }

  lemma EncodingStep(input: seq<Byte>, style: LineEnding, output: seq<Byte>, pos: nat, counter: nat, n: nat)
    requires pos < |input| && n == (if |input| - pos < 3 then |input| - pos else 3)
    requires Encoding(input, style, output, pos, counter)
    ensures Encoding(input, style, (if counter == 0 then output + Eol(style) else output) + Block(input[pos..pos + n]),
                     pos + n, if counter == 0 then GROUPS_PER_LINE - 1 else counter - 1)
  {
    hide Block, Eol;
    assert input[pos..][..n] == input[pos..pos + n] && input[pos..][n..] == input[pos + n..];
  }

  lemma EncodingEnds(input: seq<Byte>, style: LineEnding, output: seq<Byte>, counter: nat)
    requires Encoding(input, style, output, |input|, counter)
    ensures output == Encoded(input, style, GROUPS_PER_LINE)
  {
  }

  lemma FullGroup(block: seq<Byte>, rest: seq<Byte>)
    requires |block| == 4
    ensures DecodedGroups(block + rest) == DecodedBlock(block) + DecodedGroups(rest)
  {
    assert (block + rest)[..4] == block && (block + rest)[4..] == rest;
  }

  lemma KeptStep(inbuf: seq<Byte>, input: seq<Byte>, pos: nat)
    requires pos < |input|
    ensures inbuf + KeptFrom(input[pos..])
         == (if IsKept(input[pos]) then inbuf + [input[pos]] else inbuf) + KeptFrom(input[pos + 1..])
  {
    assert input[pos..][1..] == input[pos + 1..];
  }

  lemma {:induction false} KeptAppend(a: seq<Byte>, b: seq<Byte>)
    ensures KeptFrom(a + b) == KeptFrom(a) + KeptFrom(b)
  {
    if |a| == 0 {
      assert a + b == b;
    } else {
      assert (a + b)[1..] == a[1..] + b;
      KeptAppend(a[1..], b);
    }
  }

  lemma {:induction false} KeptAll(s: seq<Byte>)
    requires forall i :: 0 <= i < |s| ==> IsKept(s[i])
    ensures KeptFrom(s) == s
  {
    if |s| > 0 { KeptAll(s[1..]); }
  }

  lemma {:induction false} KeptNone(s: seq<Byte>)
    requires forall i :: 0 <= i < |s| ==> !IsKept(s[i])
    ensures KeptFrom(s) == []
  {
    if |s| > 0 { KeptNone(s[1..]); }
  }

  lemma SymbolValue(v: nat)
    requires v < 64
    ensures ValueOf(Symbol(v)) == v && Symbol(v) != PAD
  {
  }

  /** A block is made of characters the decoder keeps, and decodes to its bytes. */
  lemma BlockRoundTrip(bytes: seq<Byte>)
    requires 1 <= |bytes| <= 3
    ensures ValueOf(Block(bytes)[0]) != BAD_VALUE && forall i :: 0 <= i < 4 ==> IsKept(Block(bytes)[i])
    ensures DecodedBlock(Block(bytes)) == bytes
  {
    var b0, b1, b2 := bytes[0], if |bytes| > 1 then bytes[1] else 0, if |bytes| > 2 then bytes[2] else 0;
    SymbolValue(b0 / 4);
    SymbolValue(b0 % 4 * 16 + b1 / 16);
    SymbolValue(b1 % 16 * 4 + b2 / 64);
    SymbolValue(b2 % 64);
    hide Symbol, ValueOf, BitOr;
    FirstByte(b0, b1);
    SecondByte(b1, b2);
    ThirdByte(b2);
    var block := Block(bytes);
    assert block[3] == PAD <==> |bytes| < 3;
    assert block[2] == PAD <==> |bytes| < 2;
  }

  lemma FirstByte(b0: Byte, b1: Byte)
    ensures BitOr(b0 / 4 * 4 % 256, (b0 % 4 * 16 + b1 / 16) / 16) == b0
  {
    hide BitOr;
    OrParts(2, b0 / 4, b0 % 4);
    assert b0 / 4 * 4 % 256 == b0 / 4 * 4;
    assert (b0 % 4 * 16 + b1 / 16) / 16 == b0 % 4;
  }

  lemma SecondByte(b1: Byte, b2: Byte)
    ensures forall b0: Byte :: BitOr((b0 % 4 * 16 + b1 / 16) * 16 % 256, (b1 % 16 * 4 + b2 / 64) / 4) == b1
  {
    hide BitOr;
    forall b0: Byte
      ensures BitOr((b0 % 4 * 16 + b1 / 16) * 16 % 256, (b1 % 16 * 4 + b2 / 64) / 4) == b1
    {
      OrParts(4, b1 / 16, b1 % 16);
      assert (b0 % 4 * 16 + b1 / 16) * 16 % 256 == b1 / 16 * 16;
      assert (b1 % 16 * 4 + b2 / 64) / 4 == b1 % 16;
    }
  }

  lemma OrSix(high: nat, low: nat)
    requires low < 64
    ensures BitOr(high * 64, low) == high * 64 + low
  {
    hide BitOr;
    assert Pow(2, 3) == 8;
    PowAdd(2, 3, 3);
    OrIsSum(6, high, low);
  }

  lemma ThirdByte(b2: Byte)
    ensures forall b1: Byte :: BitOr((b1 % 16 * 4 + b2 / 64) * 64 % 256, b2 % 64) == b2
  {
    hide BitOr;
    forall b1: Byte
      ensures BitOr((b1 % 16 * 4 + b2 / 64) * 64 % 256, b2 % 64) == b2
    {
      OrSix(b2 / 64, b2 % 64);
      assert (b1 % 16 * 4 + b2 / 64) * 64 % 256 == b2 / 64 * 64;
    }
  }

  /** The blocks of an encoding without its line breaks. */
  function Blocks(input: seq<Byte>): (blocks: seq<Byte>)
    decreases |input|
  {
    if |input| == 0 then []
    else
      var n := if |input| < 3 then |input| else 3;
      Block(input[..n]) + Blocks(input[n..])
  }

  lemma NoEolKept(style: LineEnding)
    ensures forall i :: 0 <= i < |Eol(style)| ==> !IsKept(Eol(style)[i])
  {
  }

  lemma KeptPiece(eol: seq<Byte>, block: seq<Byte>, rest: seq<Byte>)
    requires forall i :: 0 <= i < |eol| ==> !IsKept(eol[i])
    requires forall i :: 0 <= i < |block| ==> IsKept(block[i])
    ensures KeptFrom(eol + block + rest) == block + KeptFrom(rest)
  {
    hide KeptFrom, IsKept;
    KeptNone(eol);
    KeptAll(block);
    KeptAppend(eol, block);
    KeptAppend(eol + block, rest);
  }

  function GroupSize(n: nat): (k: nat)
    ensures n > 0 ==> 1 <= k <= 3 && k <= n
  {
    if n < 3 then n else 3
  }

  lemma EncodedUnfold(input: seq<Byte>, style: LineEnding, counter: nat)
    requires |input| > 0
    ensures var n := GroupSize(|input|);
      Encoded(input, style, counter)
      == (if counter == 0 then Eol(style) else []) + Block(input[..n])
         + Encoded(input[n..], style, if counter == 0 then GROUPS_PER_LINE - 1 else counter - 1)
  {
    hide Eol, Block;
    if counter != 0 { assert [] + Block(input[..GroupSize(|input|)]) == Block(input[..GroupSize(|input|)]); }
  }

  lemma BlocksUnfold(input: seq<Byte>)
    requires |input| > 0
    ensures var n := GroupSize(|input|); Blocks(input) == Block(input[..n]) + Blocks(input[n..])
  {
    hide Block;
  }

  /** The decoder drops the line breaks and nothing else. */
  lemma {:induction false} KeptEncoded(input: seq<Byte>, style: LineEnding, counter: nat)
    ensures KeptFrom(Encoded(input, style, counter)) == Blocks(input)
    decreases |input|
  {
    if |input| > 0 {
      EncodedUnfold(input, style, counter);
      BlocksUnfold(input);
      hide *;
      var n := GroupSize(|input|);
      var next := if counter == 0 then GROUPS_PER_LINE - 1 else counter - 1;
      BlockRoundTrip(input[..n]);
      KeptEncoded(input[n..], style, next);
      NoEolKept(style);
      KeptPiece(if counter == 0 then Eol(style) else [], Block(input[..n]), Encoded(input[n..], style, next));
    }
  }

  lemma FourMore(m: nat, n: nat)
    requires m == 4 + n && n % 4 == 0
    ensures m % 4 == 0
  {
  }

  lemma {:induction false} BlocksRoundTrip(input: seq<Byte>)
    ensures DecodedGroups(Blocks(input)) == input && |Blocks(input)| % 4 == 0
    decreases |input|
  {
    if |input| > 0 {
      BlocksUnfold(input);
      hide *;
      var n := GroupSize(|input|);
      BlockRoundTrip(input[..n]);
      BlocksRoundTrip(input[n..]);
      FullGroup(Block(input[..n]), Blocks(input[n..]));
      FourMore(|Blocks(input)|, |Blocks(input[n..])|);
      assert input == input[..n] + input[n..];
    }
  }

  /** Decoding undoes encoding, for every input and every line ending. */
  lemma RoundTrip(input: seq<Byte>, style: LineEnding)
    ensures var text := Encoded(input, style, GROUPS_PER_LINE);
      DecodedGroups(Kept(text)) == input && |Kept(text)| % 4 == 0
  {
    var text := Encoded(input, style, GROUPS_PER_LINE);
    KeptEncoded(input, style, GROUPS_PER_LINE);
    BlocksRoundTrip(input);
    if |input| > 0 {
      BlockRoundTrip(input[..if |input| < 3 then |input| else 3]);
      assert Kept(text) == KeptFrom(text);
    }
  }

  predicate IsEol(c: Byte)
  {
    c == CARRIAGE_RETURN || c == LINE_FEED
  }

  /** No line is longer than limit, and the first one is not longer than room. */
  predicate LinesFit(text: seq<Byte>, room: nat, limit: nat)
  {
    if |text| == 0 then true
    else if IsEol(text[0]) then LinesFit(text[1..], limit, limit)
    else room > 0 && LinesFit(text[1..], room - 1, limit)
  }

  /** Any stretch of more than limit characters contains a line break. */
  lemma {:induction false} LongStretchBreaks(text: seq<Byte>, room: nat, limit: nat, i: nat)
    requires LinesFit(text, room, limit) && room <= limit && i + limit < |text|
    ensures exists j :: i <= j <= i + limit && IsEol(text[j])
    decreases |text|
  {
    if i > 0 {
      LongStretchBreaks(text[1..], if IsEol(text[0]) then limit else room - 1, limit, i - 1);
      var j :| i - 1 <= j <= i - 1 + limit && IsEol(text[1..][j]);
      assert IsEol(text[j + 1]);
    } else if room < |text| {
      FirstLineBreaks(text, room, limit);
    }
  }

  lemma {:induction false} FirstLineBreaks(text: seq<Byte>, room: nat, limit: nat)
    requires LinesFit(text, room, limit) && room < |text|
    ensures exists j :: 0 <= j <= room && IsEol(text[j])
    decreases room
  {
    if !IsEol(text[0]) {
      FirstLineBreaks(text[1..], room - 1, limit);
      var j :| 0 <= j <= room - 1 && IsEol(text[1..][j]);
      assert IsEol(text[j + 1]);
    }
  }

  lemma {:induction false} LinesFitPrefix(block: seq<Byte>, rest: seq<Byte>, room: nat, limit: nat)
    requires forall i :: 0 <= i < |block| ==> !IsEol(block[i])
    requires LinesFit(rest, room, limit)
    ensures LinesFit(block + rest, room + |block|, limit)
  {
    if |block| == 0 {
      assert block + rest == rest;
    } else {
      assert (block + rest)[1..] == block[1..] + rest;
      LinesFitPrefix(block[1..], rest, room, limit);
    }
  }

  lemma NoBreakInBlock(bytes: seq<Byte>)
    requires 1 <= |bytes| <= 3
    ensures forall i :: 0 <= i < 4 ==> !IsEol(Block(bytes)[i])
  {
    BlockRoundTrip(bytes);
    assert forall c: Byte :: IsKept(c) ==> !IsEol(c);
  }

  lemma BreakFits(style: LineEnding, rest: seq<Byte>, limit: nat)
    requires LinesFit(rest, limit, limit)
    ensures LinesFit(Eol(style) + rest, 0, limit)
  {
    var eol := Eol(style);
    assert (eol + rest)[1..] == eol[1..] + rest;
    if style == CRLF {
      assert (eol[1..] + rest)[1..] == rest;
    } else {
      assert eol[1..] + rest == rest;
    }
  }

  /** Every line of an encoding has at most 76 characters. */
  lemma {:induction false} EncodedLinesFit(input: seq<Byte>, style: LineEnding, counter: nat)
    requires counter <= GROUPS_PER_LINE
    ensures LinesFit(Encoded(input, style, counter), 4 * counter, 4 * GROUPS_PER_LINE)
    decreases |input|
  {
    if |input| > 0 {
      EncodedUnfold(input, style, counter);
      var n := GroupSize(|input|);
      var next := if counter == 0 then GROUPS_PER_LINE - 1 else counter - 1;
      var block, rest := Block(input[..n]), Encoded(input[n..], style, next);
      hide Encoded, Block, LinesFit, Eol;
      EncodedLinesFit(input[n..], style, next);
      NoBreakInBlock(input[..n]);
      LinesFitPrefix(block, rest, 4 * next, 4 * GROUPS_PER_LINE);
      if counter == 0 {
        BreakFits(style, block + rest, 4 * GROUPS_PER_LINE);
        assert Eol(style) + block + rest == Eol(style) + (block + rest);
      } else {
        assert [] + block + rest == block + rest;
      }
    }
  }

  /** In an encoding any 77 characters in a row contain a line break, as section 6.8 of RFC 2045 requires. */
  lemma LinesAtMost76(input: seq<Byte>, style: LineEnding, i: nat)
    requires i + 76 < |Encoded(input, style, GROUPS_PER_LINE)|
    ensures exists j :: i <= j <= i + 76 && IsEol(Encoded(input, style, GROUPS_PER_LINE)[j])
  {
    EncodedLinesFit(input, style, GROUPS_PER_LINE);
    LongStretchBreaks(Encoded(input, style, GROUPS_PER_LINE), 76, 76, i);
  }

  lemma {:induction false} EncodedBytes(input: seq<Byte>, style: LineEnding, counter: nat)
    ensures forall i :: 0 <= i < |Encoded(input, style, counter)| ==> Encoded(input, style, counter)[i] < 255
    decreases |input|
  {
    if |input| > 0 {
      EncodedUnfold(input, style, counter);
      var n := GroupSize(|input|);
      BlockRoundTrip(input[..n]);
      assert forall c: Byte :: IsKept(c) ==> c < 255;
      hide Encoded, Block;
      EncodedBytes(input[n..], style, if counter == 0 then GROUPS_PER_LINE - 1 else counter - 1);
    }
  }

  /** The decoder drops fillers only, except that it also drops a pad that is the very first character. */
  lemma LeadingPad(input: seq<Byte>)
    ensures Kept(input) == KeptFrom(input) <==> |input| == 0 || input[0] != PAD
  {
    if |input| > 0 && input[0] == PAD { assert |KeptFrom(input)| == |Kept(input)| + 1; }
  }

  /** Encoding and decoding with one codec gives back the input. */
  method EncodeThenDecode(codec: Base64, input: seq<Byte>) returns (output: seq<Byte>)
    requires codec.Valid()
    ensures output == input
  {
    var text := codec.Encode(input);
    EncodedBytes(input, codec.eolStyle, GROUPS_PER_LINE);
    var extra;
    output, extra := codec.Decode(text);
    RoundTrip(input, codec.eolStyle);
    assert extra == 0;
  }
}
