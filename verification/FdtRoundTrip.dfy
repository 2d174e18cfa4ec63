/** Property values as numbers: what "fdt print" prints, "fdt set" reads back. */
module FdtRoundTrip {
  import opened Machine
  import opened Strtoul
  import opened FdtTree
  import opened FdtProp

  /** One cell at the parser: it is stored, and the parser is behind it and its space. */
  lemma ParseOneCell(b: seq<Byte>, t: string, rest: seq<string>, data: seq<Byte>, prior: seq<Byte>)
    requires |b| == 4 && !IsXDigit(At(t, 0))
    ensures ParseCells(CellText(b) + t, rest, data, prior) == ParseCells(SkipSpaces(t), rest, data + b, prior)
  {
    CellTextParses(b, t);
    CellOfWord(b);
    assert (CellText(b) + t)[0] == '0';
  }

  lemma ParseCellAtWordEnd(b: seq<Byte>, first: string, rest: seq<string>, data: seq<Byte>, prior: seq<Byte>)
    requires |b| == 4
    ensures ParseCells(CellText(b), [first] + rest, data, prior) == ParseCells(first, rest, data + b, prior)
  {
    ParseOneCell(b, "", [first] + rest, data, prior);
    assert CellText(b) + "" == CellText(b);
    assert ([first] + rest)[1..] == rest;
  }

  lemma SkipOneSpace(first: string)
    requires first != "" && first[0] != ' '
    ensures SkipSpaces(" " + first) == first
  {
    assert (" " + first)[1..] == first;
  }

  lemma ParseCellAndSpace(b: seq<Byte>, first: string, rest: seq<string>, data: seq<Byte>, prior: seq<Byte>)
    requires |b| == 4 && first != "" && first[0] != ' '
    ensures ParseCells(CellText(b) + " " + first, rest, data, prior) == ParseCells(first, rest, data + b, prior)
  {
    ParseOneCell(b, " " + first, rest, data, prior);
    SkipOneSpace(first);
    assert CellText(b) + (" " + first) == CellText(b) + " " + first;
  }

  lemma CellTokensOfCons(b: seq<Byte>, later: seq<Byte>)
    requires |b| == 4 && |later| % 4 == 0
    ensures |b + later| % 4 == 0 && CellTokens(b + later) == [CellText(b)] + CellTokens(later)
  {
    assert (b + later)[..4] == b && (b + later)[4..] == later;
  }

  /** A whole cell text in front of one that parses. */
  lemma CellsParseStep(b: seq<Byte>, later: seq<Byte>, cuts: seq<bool>, done: seq<Byte>, prior: seq<Byte>)
    requires |b| == 4 && |later| % 4 == 0 && |later| > 0 && |cuts| == |later| / 4
    requires var (newp, rest) := CutWords(CellTokens(later), cuts[1..], '>');
             ParseCells(newp, rest, done + b, prior) == Ok(done + b + later)
    ensures var (newp, rest) := CutWords([CellText(b)] + CellTokens(later), cuts, '>');
            ParseCells(newp, rest, done, prior) == Ok(done + b + later)
  {
    var (first, rest) := CutWords(CellTokens(later), cuts[1..], '>');
    CutOfCons(CellText(b), CellTokens(later), cuts, '>');
    CutStartsWith(CellTokens(later), cuts[1..], '>');
    if cuts[0] {
      ParseCellAtWordEnd(b, first, rest, done, prior);
    } else {
      ParseCellAndSpace(b, first, rest, done, prior);
    }
  }

  lemma {:induction false} CellsParse(data: seq<Byte>, cuts: seq<bool>, done: seq<Byte>, prior: seq<Byte>)
    requires |data| % 4 == 0 && |data| > 0 && |cuts| + 1 == |data| / 4
    ensures var (newp, rest) := CutWords(CellTokens(data), cuts, '>');
            ParseCells(newp, rest, done, prior) == Ok(done + data)
    decreases |data|
  {
    var b, later := data[..4], data[4..];
    assert data == b + later && done + b + later == done + data;
    CellTokensOfCons(b, later);
    if later == [] {
      ParseOneCell(b, ">", [], done, prior);
    } else {
      CellsParse(later, cuts[1..], done + b, prior);
      CellsParseStep(b, later, cuts, done, prior);
    }
  }

  lemma CutOfCons(token: string, tokens: seq<string>, cuts: seq<bool>, close: char)
    requires |tokens| > 0 && |cuts| == |tokens|
    ensures var (first, rest) := CutWords(tokens, cuts[1..], close);
            CutWords([token] + tokens, cuts, close) == if cuts[0] then (token, [first] + rest)
                else (token + " " + first, rest)
  {
    assert ([token] + tokens)[1..] == tokens;
  }

  /** The current word begins with the first token. */
  lemma CutStartsWith(tokens: seq<string>, cuts: seq<bool>, close: char)
    requires |tokens| > 0 && |cuts| + 1 == |tokens| && tokens[0] != ""
    ensures var w := CutWords(tokens, cuts, close); w.0 != "" && w.0[0] == tokens[0][0]
  {
  }

  lemma ParseOneByte(b: Byte, t: string, rest: seq<string>, data: seq<Byte>)
    requires !IsXDigit(At(t, 0))
    ensures ParseBytes(HexByte(b) + t, rest, data) == ParseBytes(t, rest, data + [b])
  {
    HexByteParses(b, t);
    var s := HexByte(b) + t;
    assert IsXDigit(s[0]) && SkipSpaces(s) == s;
  }

  lemma ParseByteAtWordEnd(b: Byte, first: string, rest: seq<string>, data: seq<Byte>)
    ensures ParseBytes(HexByte(b), [first] + rest, data) == ParseBytes(first, rest, data + [b])
  {
    ParseOneByte(b, "", [first] + rest, data);
    assert HexByte(b) + "" == HexByte(b);
    assert ([first] + rest)[1..] == rest;
  }

  lemma ParseByteAndSpace(b: Byte, first: string, rest: seq<string>, data: seq<Byte>)
    requires first != "" && first[0] != ' '
    ensures ParseBytes(HexByte(b) + " " + first, rest, data) == ParseBytes(first, rest, data + [b])
  {
    ParseOneByte(b, " " + first, rest, data);
    assert HexByte(b) + (" " + first) == HexByte(b) + " " + first;
    assert (" " + first)[1..] == first;
  }

  lemma ByteTokensOfCons(b: Byte, later: seq<Byte>)
    ensures ByteTokens([b] + later) == [HexByte(b)] + ByteTokens(later)
  {
    assert ([b] + later)[1..] == later;
  }

  /** A byte text in front of one that parses. */
  lemma BytesParseStep(b: Byte, later: seq<Byte>, cuts: seq<bool>, done: seq<Byte>)
    requires |later| > 0 && |cuts| == |later|
    requires var (newp, rest) := CutWords(ByteTokens(later), cuts[1..], ']');
             ParseBytes(newp, rest, done + [b]) == Ok(done + [b] + later)
    ensures var (newp, rest) := CutWords([HexByte(b)] + ByteTokens(later), cuts, ']');
            ParseBytes(newp, rest, done) == Ok(done + [b] + later)
  {
    var (first, rest) := CutWords(ByteTokens(later), cuts[1..], ']');
    CutOfCons(HexByte(b), ByteTokens(later), cuts, ']');
    CutStartsWith(ByteTokens(later), cuts[1..], ']');
    if cuts[0] {
      ParseByteAtWordEnd(b, first, rest, done);
    } else {
      ParseByteAndSpace(b, first, rest, done);
    }
  }

  lemma {:induction false} BytesParse(data: seq<Byte>, cuts: seq<bool>, done: seq<Byte>)
    requires |data| > 0 && |cuts| + 1 == |data|
    ensures var (newp, rest) := CutWords(ByteTokens(data), cuts, ']');
            ParseBytes(newp, rest, done) == Ok(done + data)
    decreases |data|
  {
    var b, later := data[0], data[1..];
    assert data == [b] + later && done + [b] + later == done + data;
    ByteTokensOfCons(b, later);
    if later == [] {
      ParseOneByte(b, "]", [], done);
    } else {
      BytesParse(later, cuts[1..], done + [b]);
      BytesParseStep(b, later, cuts, done);
    }
  }

  /** The words of an argument list: the printed text with its opening bracket, cut at spaces. */
  function NumberWords(data: seq<Byte>, cuts: seq<bool>): seq<string>
    requires |data| > 0 && |cuts| + 1 == (if |data| % 4 == 0 then |data| / 4 else |data|)
  {
    if |data| % 4 == 0 then
      var (first, rest) := CutWords(CellTokens(data), cuts, '>'); ["<" + first] + rest
    else
      var (first, rest) := CutWords(ByteTokens(data), cuts, ']'); ["[" + first] + rest
  }

  /** MAIN RESULT: what print_data prints for numbers, cut into argv words at any of its spaces,
      is parsed back to the same bytes, whatever the data area held before. */
  lemma NumbersRoundTrip(data: seq<Byte>, cuts: seq<bool>, prior: seq<Byte>)
    requires |data| > 0 && |cuts| + 1 == (if |data| % 4 == 0 then |data| / 4 else |data|)
    ensures ParseProp(NumberWords(data, cuts), prior) == Ok(data)
  {
    assert [] + data == data;
    if |data| % 4 == 0 {
      var (first, rest) := CutWords(CellTokens(data), cuts, '>');
      CellsParse(data, cuts, [], prior);
      Unbracket('<', first, rest);
    } else {
      var (first, rest) := CutWords(ByteTokens(data), cuts, ']');
      BytesParse(data, cuts, []);
      Unbracket('[', first, rest);
    }
  }

  lemma Unbracket(open: char, first: string, rest: seq<string>)
    ensures ([open] + first)[1..] == first && ([[open] + first] + rest)[1..] == rest && At([open] + first, 0) == open
  {
  }

  /** In particular as one quoted word. */
  lemma PrintedNumbersParse(data: seq<Byte>, prior: seq<Byte>)
    requires |data| > 0
    ensures ParseProp([PrintNumbers(data)], prior) == Ok(data)
  {
    var n := if |data| % 4 == 0 then |data| / 4 else |data|;
    var cuts := seq(n - 1, i => false);
    NumbersRoundTrip(data, cuts, prior);
    if |data| % 4 == 0 {
      UncutIsSpaced(CellTokens(data), cuts, '>');
    } else {
      UncutIsSpaced(ByteTokens(data), cuts, ']');
    }
    assert NumberWords(data, cuts) == [PrintNumbers(data)];
  }

  /** How a cell and a byte are printed, for instance. */
  lemma PrintedDigits()
    ensures CellText([0, 17, 171, 255]) == "0x0011abff" && HexByte(7) == "07"
  {
  }

  /** How two cells are printed. */
  lemma PrintedCells(a: seq<Byte>, b: seq<Byte>)
    requires |a| == |b| == 4
    ensures PrintNumbers(a + b) == "<" + CellText(a) + " " + CellText(b) + ">"
  {
    CellTokensOfCons(b, []);
    CellTokensOfCons(a, b);
    assert b + [] == b;
    assert CellTokens(a + b) == [CellText(a), CellText(b)];
    TwoTokens(CellText(a), CellText(b), '<', '>');
  }

  /** And three bytes. */
  lemma PrintedBytes(a: Byte, b: Byte, c: Byte)
    ensures PrintNumbers([a, b, c]) == "[" + HexByte(a) + " " + HexByte(b) + " " + HexByte(c) + "]"
  {
    ByteTokensOfCons(c, []);
    ByteTokensOfCons(b, [c]);
    ByteTokensOfCons(a, [b, c]);
    TwoTokens(HexByte(b), HexByte(c), ' ', ']');
    assert ByteTokens([a, b, c])[1..] == [HexByte(b), HexByte(c)];
  }

  lemma TwoTokens(s: string, t: string, open: char, close: char)
    ensures [open] + Spaced([s, t], close) == [open] + s + " " + t + [close]
  {
    assert [s, t][1..] == [t];
  }
}
