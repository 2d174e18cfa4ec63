/** Number parsing of the C library routines the property parser uses. */
module Strtoul {
  import opened Machine

  predicate IsXDigit(c: char) {
    '0' <= c <= '9' || 'a' <= c <= 'f' || 'A' <= c <= 'F'
  }

  function DigitValue(c: char): nat
    requires IsXDigit(c)
  {
    if c <= '9' then c as int - '0' as int
    else if 'a' <= c then c as int - 'a' as int + 10
    else c as int - 'A' as int + 10
  }

  /** The character a C string pointer shows: NUL at the end. */
  function At(s: string, i: nat): char {
    if i < |s| then s[i] else '\0'
  }

  predicate HexPrefix(s: string) {
    At(s, 0) == '0' && (At(s, 1) == 'x' || At(s, 1) == 'X')
  }

  /** _parse_integer_fixup_radix: the base to use and where the digits start. */
  function FixupRadix(s: string, base: nat): (nat, string) {
    var b := if base != 0 then base
             else if At(s, 0) == '0' then (if HexPrefix(s) && IsXDigit(At(s, 2)) then 16 else 8)
             else 10;
    (b, if b == 16 && HexPrefix(s) then s[2..] else s)
  }

  function Store(x: nat): ulong {
    if x < WORD then x else x % WORD
  }

  function Digits(s: string, base: nat, acc: ulong): (ulong, string) {
    if s == "" || !IsXDigit(s[0]) || DigitValue(s[0]) >= base then (acc, s)
    else Digits(s[1..], base, Store(acc * base + DigitValue(s[0])))
  }

  /** simple_strtoul: the value, and what is left of the string. */
  function SimpleStrtoul(s: string, base: nat): (ulong, string) {
    var (b, digits) := FixupRadix(s, base);
    Digits(digits, b, 0)
  }

  lemma {:induction false} DigitsShorten(s: string, base: nat, acc: ulong)
    ensures |Digits(s, base, acc).1| <= |s|
    ensures s != "" && IsXDigit(s[0]) && DigitValue(s[0]) < base ==> |Digits(s, base, acc).1| < |s|
  {
    if s != "" && IsXDigit(s[0]) && DigitValue(s[0]) < base {
      DigitsShorten(s[1..], base, Store(acc * base + DigitValue(s[0])));
    }
  }

  lemma StrtoulShortens(s: string, base: nat)
    ensures |SimpleStrtoul(s, base).1| <= |s|
    ensures s != "" && IsXDigit(s[0]) && base == 16 ==> |SimpleStrtoul(s, base).1| < |s|
  {
    var (b, digits) := FixupRadix(s, base);
    DigitsShorten(digits, b, 0);
  }

  // ---------------------------------------------------------------- printing numbers

  function HexDigit(d: nat): (c: char)
    requires d < 16
    ensures IsXDigit(c) && DigitValue(c) == d && (c <= '9' || 'a' <= c <= 'f')
  {
    if d < 10 then ('0' as int + d) as char else ('a' as int + (d - 10)) as char
  }

  /** "%02x" of a byte. */
  function HexByte(b: nat): (s: string)
    requires b < 256
    ensures |s| == 2 && IsXDigit(s[0]) && IsXDigit(s[1])
  {
    [HexDigit(b / 16), HexDigit(b % 16)]
  }

  /** A number with one more byte at its low end. */
  function Shift8(acc: nat, b: nat): nat {
    acc * 256 + b
  }

  /** Reading a printed byte appends its eight bits to the number. */
  lemma DigitsOfByte(b: nat, t: string, acc: nat)
    requires b < 256 && Shift8(acc, b) < WORD
    ensures Digits(HexByte(b) + t, 16, acc) == Digits(t, 16, Shift8(acc, b))
  {
    assert HexByte(b) + t == [HexDigit(b / 16)] + ([HexDigit(b % 16)] + t);
    DigitsOfOne(b / 16, [HexDigit(b % 16)] + t, acc);
    DigitsOfOne(b % 16, t, acc * 16 + b / 16);
  }

  lemma DigitsOfOne(d: nat, t: string, acc: nat)
    requires d < 16 && acc * 16 + d < WORD
    ensures Digits([HexDigit(d)] + t, 16, acc) == Digits(t, 16, acc * 16 + d)
  {
    assert ([HexDigit(d)] + t)[1..] == t;
  }

  lemma DigitsStop(t: string, acc: ulong)
    requires !IsXDigit(At(t, 0))
    ensures Digits(t, 16, acc) == (acc, t)
  {
  }
}

/** Device-tree property text: the parser of "fdt set" and the printer of "fdt print". */
module FdtProp {
  import opened Machine
  import opened Strtoul
  import opened FdtTree

  const CMD_FDT_MAX_DUMP: nat := 64

  /** The outcome of fdt_parse_prop: the bytes with *len, a return of 1, or a parse that runs
      past the last word, where argv holds no string. */
  datatype Parsed = Ok(data: seq<Byte>) | Bad | OutOfWords

  // ---------------------------------------------------------------- the parser

  /** cpu_to_fdt32 of the low 32 bits. */
  function Cell(v: nat): (b: seq<Byte>)
    ensures |b| == 4
  {
    [v / 256 / 256 / 256 % 256, v / 256 / 256 % 256, v / 256 % 256, v % 256]
  }

  /** What the data area held before at an offset; a '?' keeps it. */
  function Prior(prior: seq<Byte>, at: nat): (b: seq<Byte>)
    ensures |b| == 4
  {
    if at + 4 <= |prior| then prior[at..at + 4] else [0, 0, 0, 0]
  }

  function SkipSpaces(s: string): (t: string)
    ensures |t| <= |s|
  {
    if s != "" && s[0] == ' ' then SkipSpaces(s[1..]) else s
  }

  /** The loop for '<': newp is the rest of the current word, rest the words after it. */
  function ParseCells(newp: string, rest: seq<string>, data: seq<Byte>, prior: seq<Byte>): Parsed
    decreases |rest|, |newp|
  {
    if newp == "" then (if rest == [] then OutOfWords else ParseCells(rest[0], rest[1..], data, prior))
    else if newp[0] == '>' then Ok(data)
    else
      StrtoulShortens(newp, 0);
      var (tmp, after) := SimpleStrtoul(newp, 0);
      var next := if newp[0] == '?' then after[if |after| > 0 then 1 else 0..] else after;
      var cell := if newp[0] == '?' then Prior(prior, |data|) else Cell(tmp);
      if |next| >= |newp| then Bad else ParseCells(SkipSpaces(next), rest, data + cell, prior)
  }

  /** The loop for '['. */
  function ParseBytes(newp: string, rest: seq<string>, data: seq<Byte>): Parsed
    decreases |rest|, |newp|
  {
    var s := SkipSpaces(newp);
    if s == "" then (if rest == [] then OutOfWords else ParseBytes(rest[0], rest[1..], data))
    else if s[0] == ']' then Ok(data)
    else if !IsXDigit(s[0]) then Bad
    else
      StrtoulShortens(s, 16);
      var (tmp, after) := SimpleStrtoul(s, 16);
      ParseBytes(after, rest, data + [tmp % 256])
  }

  /** The loop for strings: every word with its terminating NUL. */
  function ParseStrings(words: seq<string>): seq<Byte> {
    if words == [] then [] else Bytes(words[0]) + [0] + ParseStrings(words[1..])
  }

  function Bytes(s: string): (b: seq<Byte>)
    ensures |b| == |s| && forall i :: 0 <= i < |s| ==> b[i] == s[i] as int % 256
  {
    seq(|s|, i requires 0 <= i < |s| => s[i] as int % 256)
  }

  function ParseProp(newval: seq<string>, prior: seq<Byte>): Parsed
    requires newval != []
  {
    var first := newval[0];
    if At(first, 0) == '<' then ParseCells(first[1..], newval[1..], [], prior)
    else if At(first, 0) == '[' then ParseBytes(first[1..], newval[1..], [])
    else Ok(ParseStrings(newval))
  }

  method ParseCellWords(newval: seq<string>, prior: seq<Byte>) returns (r: Parsed)
    requires newval != [] && newval[0] != ""
    ensures r == ParseCells(newval[0][1..], newval[1..], [], prior)
  {
    var data: seq<Byte> := [];
    var stridx := 0;
    var newp := newval[0][1..];
    while At(newp, 0) != '>'
      invariant stridx < |newval|
      invariant ParseCells(newval[0][1..], newval[1..], [], prior)
             == ParseCells(newp, newval[stridx + 1..], data, prior)
      decreases |newval| - stridx, |newp|
    {
      if newp == "" {
        stridx := stridx + 1;
        if stridx == |newval| {
          return OutOfWords;
        }
        newp := newval[stridx];
        continue;
      }
      var cp := newp;
      StrtoulShortens(cp, 0);
      var converted := SimpleStrtoul(cp, 0);
      newp := converted.1;
      if cp[0] != '?' {
        data := data + Cell(converted.0);
      } else {
        data := data + Prior(prior, |data|);
        newp := newp[if |newp| > 0 then 1 else 0..];
      }
      if |newp| >= |cp| {
        return Bad;
      }
      newp := SkipSpaces(newp);
    }
    return Ok(data);
  }

  method ParseByteWords(newval: seq<string>) returns (r: Parsed)
    requires newval != [] && newval[0] != ""
    ensures r == ParseBytes(newval[0][1..], newval[1..], [])
  {
    var data: seq<Byte> := [];
    var stridx := 0;
    var newp := newval[0][1..];
    while At(newp, 0) != ']'
      invariant stridx < |newval|
      invariant ParseBytes(newval[0][1..], newval[1..], []) == ParseBytes(newp, newval[stridx + 1..], data)
      decreases |newval| - stridx, |newp|
    {
      newp := SkipSpaces(newp);
      if newp == "" {
        stridx := stridx + 1;
        if stridx == |newval| {
          return OutOfWords;
        }
        newp := newval[stridx];
        continue;
      }
      if !IsXDigit(newp[0]) {
        break;
      }
      StrtoulShortens(newp, 16);
      var converted := SimpleStrtoul(newp, 16);
      newp := converted.1;
      data := data + [converted.0 % 256];
    }
    return if At(newp, 0) == ']' then Ok(data) else Bad;
  }

  lemma NextString(words: seq<string>, i: nat, data: seq<Byte>)
    requires i < |words|
    ensures data + ParseStrings(words[i..]) == data + Bytes(words[i]) + [0] + ParseStrings(words[i + 1..])
  {
    assert words[i..][1..] == words[i + 1..];
  }

  method ParseStringWords(newval: seq<string>) returns (data: seq<Byte>)
    ensures data == ParseStrings(newval)
  {
    data := [];
    var stridx := 0;
    while stridx < |newval|
      invariant 0 <= stridx <= |newval|
      invariant ParseStrings(newval) == data + ParseStrings(newval[stridx..])
    {
      NextString(newval, stridx, data);
      data := data + Bytes(newval[stridx]) + [0];
      stridx := stridx + 1;
    }
  }

  /** fdt_parse_prop */
  method FdtParseProp(newval: seq<string>, prior: seq<Byte>) returns (r: Parsed)
    requires newval != []
    ensures r == ParseProp(newval, prior)
  {
    if At(newval[0], 0) == '<' {
      r := ParseCellWords(newval, prior);
    } else if At(newval[0], 0) == '[' {
      r := ParseByteWords(newval);
    } else {
      var data := ParseStringWords(newval);
      r := Ok(data);
    }
  }

  // ---------------------------------------------------------------- the printer

  /** "0x%08x" of the big-endian word in four bytes. */
  function CellText(b: seq<Byte>): string
    requires |b| == 4
  {
    "0x" + HexByte(b[0]) + HexByte(b[1]) + HexByte(b[2]) + HexByte(b[3])
  }

  /** The numbers printed for `<...>`, one per cell. */
  function CellTokens(data: seq<Byte>): (t: seq<string>)
    requires |data| % 4 == 0
    ensures |t| == |data| / 4
  {
    if data == [] then [] else [CellText(data[..4])] + CellTokens(data[4..])
  }

  /** The numbers printed for `[...]`, one per byte. */
  function ByteTokens(data: seq<Byte>): (t: seq<string>)
    ensures |t| == |data|
  {
    if data == [] then [] else [HexByte(data[0])] + ByteTokens(data[1..])
  }

  /** Tokens with one space between neighbours, and a closing bracket. */
  function Spaced(tokens: seq<string>, close: char): string {
    if tokens == [] then [close]
    else if |tokens| == 1 then tokens[0] + [close]
    else tokens[0] + " " + Spaced(tokens[1..], close)
  }

  /** print_data for data that is not text and short enough to be shown. */
  function PrintNumbers(data: seq<Byte>): string {
    if |data| % 4 == 0 then "<" + Spaced(CellTokens(data), '>') else "[" + Spaced(ByteTokens(data), ']')
  }

  // ---------------------------------------------------------------- the round trip of numbers

  /** The same text cut into words at some of its spaces: cuts[i] says whether the space after
      token i becomes a word boundary. The words are the current one and those after it. */
  function CutWords(tokens: seq<string>, cuts: seq<bool>, close: char): (w: (string, seq<string>))
    requires |tokens| > 0 && |cuts| + 1 == |tokens|
    decreases |tokens|
  {
    if |tokens| == 1 then (tokens[0] + [close], [])
    else
      var (first, rest) := CutWords(tokens[1..], cuts[1..], close);
      if cuts[0] then (tokens[0], [first] + rest) else (tokens[0] + " " + first, rest)
  }

  /** Cut nowhere, the text is one word. */
  lemma {:induction false} UncutIsSpaced(tokens: seq<string>, cuts: seq<bool>, close: char)
    requires |tokens| > 0 && |cuts| + 1 == |tokens| && forall i :: 0 <= i < |cuts| ==> !cuts[i]
    ensures CutWords(tokens, cuts, close) == (Spaced(tokens, close), [])
    decreases |tokens|
  {
    if |tokens| > 1 {
      UncutIsSpaced(tokens[1..], cuts[1..], close);
    }
  }

  /** The big-endian number in four bytes. */
  function WordOf(b: seq<Byte>): nat
    requires |b| == 4
  {
    Shift8(Shift8(Shift8(b[0], b[1]), b[2]), b[3])
  }

  lemma CellOfWord(b: seq<Byte>)
    requires |b| == 4
    ensures WordOf(b) < 0x1_0000_0000 && Cell(WordOf(b)) == b
  {
    var v1 := Shift8(b[0], b[1]);
    var v2 := Shift8(v1, b[2]);
    ShiftDown(v2, b[3]);
    ShiftDown(v1, b[2]);
    ShiftDown(b[0], b[1]);
  }

  lemma ShiftDown(acc: nat, b: nat)
    requires b < 256
    ensures Shift8(acc, b) / 256 == acc && Shift8(acc, b) % 256 == b
  {
  }

  lemma DigitsOfCell(b: seq<Byte>, t: string)
    requires |b| == 4 && !IsXDigit(At(t, 0))
    ensures Digits(HexByte(b[0]) + (HexByte(b[1]) + (HexByte(b[2]) + (HexByte(b[3]) + t))), 16, 0) == (WordOf(b), t)
  {
    CellOfWord(b);
    var v1 := Shift8(b[0], b[1]);
    var v2 := Shift8(v1, b[2]);
    DigitsOfByte(b[0], HexByte(b[1]) + (HexByte(b[2]) + (HexByte(b[3]) + t)), 0);
    DigitsOfByte(b[1], HexByte(b[2]) + (HexByte(b[3]) + t), b[0]);
    DigitsOfByte(b[2], HexByte(b[3]) + t, v1);
    DigitsOfByte(b[3], t, v2);
    DigitsStop(t, WordOf(b));
  }

  /** A printed cell is read back, up to whatever follows it that is not a digit. */
  lemma CellTextParses(b: seq<Byte>, t: string)
    requires |b| == 4 && !IsXDigit(At(t, 0))
    ensures SimpleStrtoul(CellText(b) + t, 0) == (WordOf(b), t)
  {
    var s := CellText(b) + t;
    var digits := HexByte(b[0]) + (HexByte(b[1]) + (HexByte(b[2]) + (HexByte(b[3]) + t)));
    assert s == "0x" + digits;
    assert s[0] == '0' && s[1] == 'x' && s[2] == digits[0] && s[2..] == digits;
    DigitsOfCell(b, t);
  }

  /** A printed byte likewise, in base 16. */
  lemma HexByteParses(b: Byte, t: string)
    requires !IsXDigit(At(t, 0))
    ensures SimpleStrtoul(HexByte(b) + t, 16) == (b, t)
  {
    var s := HexByte(b) + t;
    assert FixupRadix(s, 16) == (16, s);
    DigitsOfByte(b, t, 0);
    DigitsStop(t, b);
  }
}
