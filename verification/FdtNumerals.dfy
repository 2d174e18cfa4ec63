/** Numbers as C writes them, and what "fdt set" makes of a list of them: decimal, octal with a leading 0,
    hexadecimal with a leading 0x, and "?" for a cell to be left alone. */
module FdtNumerals {
  import opened Machine
  import opened Strtoul
  import opened FdtTree
  import opened FdtProp
  import opened FdtRoundTrip

  const LOWER := "0123456789abcdef"
  const UPPER := "0123456789ABCDEF"

  /** The bases of C. */
  predicate CBase(base: nat) {
    base == 8 || base == 10 || base == 16
  }

  /** The number without its last digit, and that digit. */
  function Higher(n: nat, base: nat): nat {
    if base == 8 then n / 8 else if base == 10 then n / 10 else n / 16
  }

  function Lowest(n: nat, base: nat): nat {
    if base == 8 then n % 8 else if base == 10 then n % 10 else n % 16
  }

  /** The numeral of n in a base, most significant digit first and without leading zeros. */
  function Numeral(n: nat, base: nat, glyphs: string): (s: string)
    requires CBase(base) && |glyphs| == 16
    ensures s != ""
  {
    if n < base then [glyphs[n]] else Numeral(Higher(n, base), base, glyphs) + [glyphs[Lowest(n, base)]]
  }

  datatype Notation = Decimal | Octal | Hex | UpperHex

  /** An entry of `<...>`. */
  datatype Item = Number(n: nat, notation: Notation) | Keep

  function NumberText(n: nat, notation: Notation): (s: string)
    ensures s != ""
  {
    match notation
    case Decimal => Numeral(n, 10, LOWER)
    case Octal => "0" + Numeral(n, 8, LOWER)
    case Hex => "0x" + Numeral(n, 16, LOWER)
    case UpperHex => "0X" + Numeral(n, 16, UPPER)
  }

  function ItemText(i: Item): (s: string)
    ensures s != ""
  {
    if i.Keep? then "?" else NumberText(i.n, i.notation)
  }

  // ---------------------------------------------------------------- one numeral

  ghost predicate GlyphSet(glyphs: string) {
    |glyphs| == 16 && forall d :: 0 <= d < 16 ==> IsXDigit(glyphs[d]) && DigitValue(glyphs[d]) == d
  }

  lemma LowerGlyphs()
    ensures GlyphSet(LOWER)
  {
  }

  lemma UpperGlyphs()
    ensures GlyphSet(UPPER)
  {
  }

  lemma DigitStep(d: nat, base: nat, glyphs: string, t: string, acc: ulong)
    requires GlyphSet(glyphs) && d < base <= 16
    ensures acc * base >= 0 && Digits([glyphs[d]] + t, base, acc) == Digits(t, base, Store(acc * base + d))
  {
    assert ([glyphs[d]] + t)[1..] == t;
  }

  lemma LastDigit(n: nat, base: nat)
    requires CBase(base)
    ensures Higher(n, base) * base + Lowest(n, base) == n && Lowest(n, base) < base
  {
  }

  lemma SameRemainder(x: nat, k: nat)
    ensures (x + k * WORD) % WORD == x % WORD
  {
  }

  /** One more digit, in 64 bits. */
  lemma StoreStep(q: nat, base: nat, d: nat)
    requires CBase(base)
    ensures Store(q % WORD * base + d) == (q * base + d) % WORD
  {
    var k, r := q / WORD, q % WORD;
    assert q == k * WORD + r;
    if base == 8 {
      SameRemainder(r * 8 + d, k * 8);
    } else if base == 10 {
      SameRemainder(r * 10 + d, k * 10);
    } else {
      SameRemainder(r * 16 + d, k * 16);
    }
  }

  lemma LastGlyph(n: nat, base: nat, glyphs: string, t: string)
    requires |glyphs| == 16 && CBase(base) && n >= base
    ensures Numeral(n, base, glyphs) + t == Numeral(Higher(n, base), base, glyphs) + ([glyphs[Lowest(n, base)]] + t)
  {
  }

  lemma DigitAppended(q: nat, d: nat, base: nat, glyphs: string, t: string)
    requires GlyphSet(glyphs) && CBase(base) && d < base
    ensures q * base >= 0 && Digits([glyphs[d]] + t, base, q % WORD) == Digits(t, base, (q * base + d) % WORD)
  {
    DigitStep(d, base, glyphs, t, q % WORD);
    StoreStep(q, base, d);
  }

  /** Reading a numeral in its base gives the number, modulo 2^64. */
  lemma {:induction false} NumeralRead(n: nat, base: nat, glyphs: string, t: string)
    requires GlyphSet(glyphs) && CBase(base)
    ensures Digits(Numeral(n, base, glyphs) + t, base, 0) == Digits(t, base, n % WORD)
    decreases n
  {
    if n < base {
      DigitAppended(0, n, base, glyphs, t);
    } else {
      LastDigit(n, base);
      NumeralRead(Higher(n, base), base, glyphs, [glyphs[Lowest(n, base)]] + t);
      LastGlyph(n, base, glyphs, t);
      DigitAppended(Higher(n, base), Lowest(n, base), base, glyphs, t);
    }
  }

  /** A numeral begins with a digit, which is not zero unless the number is. */
  lemma {:induction false} NumeralStarts(n: nat, base: nat, glyphs: string) returns (d: nat)
    requires GlyphSet(glyphs) && CBase(base)
    ensures d < base && Numeral(n, base, glyphs)[0] == glyphs[d] && (n > 0 ==> d > 0)
    decreases n
  {
    d := n;
    if n >= base {
      LastDigit(n, base);
      d := NumeralStarts(Higher(n, base), base, glyphs);
    }
  }

  /** What may follow a number: nothing that could be part of one. */
  predicate Ends(t: string) {
    !IsXDigit(At(t, 0)) && At(t, 0) != 'x' && At(t, 0) != 'X'
  }

  lemma DigitsEnd(t: string, base: nat, n: ulong)
    requires Ends(t)
    ensures Digits(t, base, n) == (n, t)
  {
  }

  lemma DecimalParses(n: nat, t: string)
    requires Ends(t)
    ensures SimpleStrtoul(Numeral(n, 10, LOWER) + t, 0) == (n % WORD, t)
  {
    LowerGlyphs();
    var d := NumeralStarts(n, 10, LOWER);
    NumeralRead(n, if n > 0 then 10 else 8, LOWER, t);
    DigitsEnd(t, if n > 0 then 10 else 8, n % WORD);
  }

  lemma OctalRadix(digits: string)
    requires digits != "" && IsXDigit(digits[0])
    ensures FixupRadix("0" + digits, 0) == (8, "0" + digits)
  {
    assert ("0" + digits)[0] == '0' && ("0" + digits)[1] == digits[0];
  }

  lemma ZeroDigit(digits: string)
    ensures Digits("0" + digits, 8, 0) == Digits(digits, 8, 0)
  {
    assert ("0" + digits)[0] == '0' && ("0" + digits)[1..] == digits;
  }

  /** A leading zero in front of a digit means base 8, and adds nothing. */
  lemma LeadingZero(digits: string)
    requires digits != "" && IsXDigit(digits[0])
    ensures SimpleStrtoul("0" + digits, 0) == Digits(digits, 8, 0)
  {
    OctalRadix(digits);
    ZeroDigit(digits);
  }

  lemma OctalParses(n: nat, t: string)
    requires Ends(t)
    ensures SimpleStrtoul("0" + Numeral(n, 8, LOWER) + t, 0) == (n % WORD, t)
  {
    LowerGlyphs();
    var digits := Numeral(n, 8, LOWER) + t;
    var d := NumeralStarts(n, 8, LOWER);
    assert "0" + Numeral(n, 8, LOWER) + t == "0" + digits;
    LeadingZero(digits);
    NumeralRead(n, 8, LOWER, t);
    DigitsEnd(t, 8, n % WORD);
  }

  lemma HexParses(n: nat, x: char, glyphs: string, base: nat, t: string)
    requires Ends(t) && GlyphSet(glyphs) && (x == 'x' || x == 'X') && (base == 0 || base == 16)
    ensures SimpleStrtoul(['0', x] + Numeral(n, 16, glyphs) + t, base) == (n % WORD, t)
  {
    var s, digits := ['0', x] + Numeral(n, 16, glyphs) + t, Numeral(n, 16, glyphs) + t;
    var d := NumeralStarts(n, 16, glyphs);
    assert s[2] == digits[0] == glyphs[d] && s[2..] == digits;
    NumeralRead(n, 16, glyphs, t);
    DigitsEnd(t, 16, n % WORD);
  }

  /** MAIN RESULT on numbers: in each notation of C, simple_strtoul with base 0 reads every number modulo 2^64. */
  lemma NumberParses(n: nat, notation: Notation, t: string)
    requires Ends(t)
    ensures SimpleStrtoul(NumberText(n, notation) + t, 0) == (n % WORD, t)
  {
    LowerGlyphs();
    UpperGlyphs();
    match notation
    case Decimal => DecimalParses(n, t);
    case Octal => OctalParses(n, t);
    case Hex => HexParses(n, 'x', LOWER, 0, t);
    case UpperHex => HexParses(n, 'X', UPPER, 0, t);
  }

  // ---------------------------------------------------------------- a list of cells

  /** The big-endian number in the four bytes at an offset. */
  function BigEndian(data: seq<Byte>, at: nat): int
    requires at + 4 <= |data|
  {
    var b3, b2, b1, b0: int := data[at], data[at + 1], data[at + 2], data[at + 3];
    b3 * 0x100_0000 + b2 * 0x1_0000 + b1 * 0x100 + b0
  }

  /** Cell k of the data is the low 32 bits of the number, or what the data area held there before. */
  ghost predicate HoldsItem(data: seq<Byte>, item: Item, prior: seq<Byte>, k: nat) {
    && 4 * k + 4 <= |data|
    && match item
       case Number(n, _) => BigEndian(data, 4 * k) == n % 0x1_0000_0000
       case Keep => 4 * k + 4 <= |prior| ==> data[4 * k..4 * k + 4] == prior[4 * k..4 * k + 4]
  }

  ghost predicate HoldsItems(data: seq<Byte>, items: seq<Item>, prior: seq<Byte>) {
    |data| == 4 * |items| && forall k: nat :: k < |items| ==> HoldsItem(data, items[k], prior, k)
  }

  function CellOf(item: Item, prior: seq<Byte>, at: nat): (b: seq<Byte>)
    ensures |b| == 4
  {
    if item.Keep? then Prior(prior, at) else Cell(item.n % WORD)
  }

  lemma LowPart(v: nat, q: nat, r: nat)
    requires v == q * 0x1_0000_0000 + r && r < 0x1_0000_0000
    ensures v % 0x1_0000_0000 == r
  {
  }

  lemma LowByteOff(v: nat)
    ensures v == v / 256 * 256 + v % 256
  {
  }

  lemma CellIsLow32(v: nat)
    ensures BigEndian(Cell(v), 0) == v % 0x1_0000_0000
  {
    LowByteOff(v);
    LowByteOff(v / 256);
    LowByteOff(v / 256 / 256);
    LowByteOff(v / 256 / 256 / 256);
    LowPart(v, v / 256 / 256 / 256 / 256, BigEndian(Cell(v), 0));
  }

  lemma Low32OfWord(n: nat)
    ensures n % WORD % 0x1_0000_0000 == n % 0x1_0000_0000
  {
    LowPart(n, n / WORD * 0x1_0000_0000 + n % WORD / 0x1_0000_0000, n % WORD % 0x1_0000_0000);
  }

  lemma LowByteOfWord(n: nat)
    ensures n % WORD % 256 == n % 256
  {
    var q, r := n / WORD * 0x100_0000_0000_0000 + n % WORD / 256, n % WORD % 256;
    assert n == q * 256 + r;
  }

  lemma CellHolds(done: seq<Byte>, item: Item, prior: seq<Byte>, k: nat)
    requires |done| == 4 * k
    ensures HoldsItem(done + CellOf(item, prior, 4 * k), item, prior, k)
  {
    var cell := CellOf(item, prior, 4 * k);
    if item.Number? {
      CellIsLow32(item.n % WORD);
      Low32OfWord(item.n);
    }
    assert (done + cell)[4 * k..4 * k + 4] == cell;
  }

  function CellsOf(items: seq<Item>, prior: seq<Byte>): (data: seq<Byte>)
    ensures |data| == 4 * |items|
  {
    if items == [] then []
    else CellsOf(items[..|items| - 1], prior) + CellOf(items[|items| - 1], prior, 4 * (|items| - 1))
  }

  lemma HoldsMore(data: seq<Byte>, more: seq<Byte>, item: Item, prior: seq<Byte>, k: nat)
    requires HoldsItem(data, item, prior, k)
    ensures HoldsItem(data + more, item, prior, k)
  {
    assert (data + more)[4 * k..4 * k + 4] == data[4 * k..4 * k + 4];
  }

  lemma {:induction false} CellsHold(items: seq<Item>, prior: seq<Byte>)
    ensures HoldsItems(CellsOf(items, prior), items, prior)
  {
    if items != [] {
      var front, last := items[..|items| - 1], items[|items| - 1];
      CellsHold(front, prior);
      CellHolds(CellsOf(front, prior), last, prior, |front|);
      var data := CellsOf(items, prior);
      forall k: nat | k < |front| ensures HoldsItem(data, items[k], prior, k) {
        HoldsMore(CellsOf(front, prior), CellOf(last, prior, 4 * |front|), front[k], prior, k);
      }
    }
  }

  function ItemTexts(items: seq<Item>): (t: seq<string>)
    ensures |t| == |items|
    ensures forall i :: 0 <= i < |t| ==> t[i] != "" && t[i] == ItemText(items[i])
  {
    if items == [] then [] else [ItemText(items[0])] + ItemTexts(items[1..])
  }

  /** A text does not begin with a space or a bracket. */
  lemma ItemStarts(item: Item)
    ensures ItemText(item)[0] != ' ' && ItemText(item)[0] != '>'
    ensures ItemText(item)[0] == '?' <==> item.Keep?
  {
    LowerGlyphs();
    if item.Number? && item.notation == Decimal {
      var d := NumeralStarts(item.n, 10, LOWER);
    }
  }

  /** One entry at the parser. */
  lemma ParseItem(item: Item, t: string, rest: seq<string>, data: seq<Byte>, prior: seq<Byte>)
    requires Ends(t)
    ensures ParseCells(ItemText(item) + t, rest, data, prior)
         == ParseCells(SkipSpaces(t), rest, data + CellOf(item, prior, |data|), prior)
  {
    ItemStarts(item);
    var newp := ItemText(item) + t;
    assert newp[0] == ItemText(item)[0];
    if item.Keep? {
      assert newp[1..] == t && SimpleStrtoul(newp, 0) == (0, newp);
    } else {
      NumberParses(item.n, item.notation, t);
    }
  }

  lemma ParseItemAtWordEnd(item: Item, first: string, rest: seq<string>, data: seq<Byte>, prior: seq<Byte>)
    ensures ParseCells(ItemText(item), [first] + rest, data, prior)
         == ParseCells(first, rest, data + CellOf(item, prior, |data|), prior)
  {
    ParseItem(item, "", [first] + rest, data, prior);
    assert ItemText(item) + "" == ItemText(item);
    assert ([first] + rest)[1..] == rest;
  }

  lemma ParseItemAndSpace(item: Item, first: string, rest: seq<string>, data: seq<Byte>, prior: seq<Byte>)
    requires first != "" && first[0] != ' '
    ensures ParseCells(ItemText(item) + " " + first, rest, data, prior)
         == ParseCells(first, rest, data + CellOf(item, prior, |data|), prior)
  {
    ParseItem(item, " " + first, rest, data, prior);
    SkipOneSpace(first);
    assert ItemText(item) + (" " + first) == ItemText(item) + " " + first;
  }

  /** A character no number contains and that does not end the list. */
  predicate Unexpected(c: char) {
    !IsXDigit(c) && c !in ['x', 'X', ' ', '?', '>', ']', '\0']
  }

  /** How the loop ends at the character behind the last number. */
  function EndOfCells(close: char, data: seq<Byte>): Parsed {
    if close == '>' then Ok(data) else Bad
  }

  lemma ParseLastItem(item: Item, close: char, data: seq<Byte>, prior: seq<Byte>)
    requires close == '>' || Unexpected(close)
    ensures ParseCells(ItemText(item) + [close], [], data, prior)
         == EndOfCells(close, data + CellOf(item, prior, |data|))
  {
    ParseItem(item, [close], [], data, prior);
    if close != '>' {
      assert SimpleStrtoul([close], 0) == (0, [close]);
    }
  }

  lemma CellsOfSnoc(done: seq<Item>, item: Item, prior: seq<Byte>)
    ensures CellsOf(done + [item], prior) == CellsOf(done, prior) + CellOf(item, prior, 4 * |done|)
  {
    assert (done + [item])[..|done|] == done;
  }

  /** The loop over the entries that are left, with the cells of those done in the data area. */
  lemma {:induction false} ItemsParse(done: seq<Item>, items: seq<Item>, cuts: seq<bool>, close: char, prior: seq<Byte>)
    requires |items| > 0 && |cuts| + 1 == |items| && (close == '>' || Unexpected(close))
    ensures var (newp, rest) := CutWords(ItemTexts(items), cuts, close);
            ParseCells(newp, rest, CellsOf(done, prior), prior) == EndOfCells(close, CellsOf(done + items, prior))
    decreases |items|
  {
    var item, later := items[0], items[1..];
    CellsOfSnoc(done, item, prior);
    assert done + [item] + later == done + items;
    if later == [] {
      ParseLastItem(item, close, CellsOf(done, prior), prior);
    } else {
      ItemsParse(done + [item], later, cuts[1..], close, prior);
      var (first, rest) := CutWords(ItemTexts(later), cuts[1..], close);
      CutOfCons(ItemText(item), ItemTexts(later), cuts, close);
      CutStartsWith(ItemTexts(later), cuts[1..], close);
      ItemStarts(later[0]);
      if cuts[0] {
        ParseItemAtWordEnd(item, first, rest, CellsOf(done, prior), prior);
      } else {
        ParseItemAndSpace(item, first, rest, CellsOf(done, prior), prior);
      }
    }
  }

  /** The words of a list of cells: the opening bracket, the entries with spaces between them cut into words
      at any of the spaces, and the closing character. */
  function CellWords(items: seq<Item>, cuts: seq<bool>, close: char): (w: seq<string>)
    requires |items| > 0 && |cuts| + 1 == |items|
    ensures w != []
  {
    var (first, rest) := CutWords(ItemTexts(items), cuts, close);
    ["<" + first] + rest
  }

  /** MAIN RESULT: a list of numbers in any of the notations is stored as their big-endian cells, "?" leaving a
      cell as it was; with an unexpected character instead of the closing bracket it is refused. */
  lemma NumeralsParse(items: seq<Item>, cuts: seq<bool>, close: char, prior: seq<Byte>) returns (data: seq<Byte>)
    requires |items| > 0 && |cuts| + 1 == |items| && (close == '>' || Unexpected(close))
    ensures ParseProp(CellWords(items, cuts, close), prior) == (if close == '>' then Ok(data) else Bad)
    ensures HoldsItems(data, items, prior)
  {
    data := CellsOf(items, prior);
    CellsHold(items, prior);
    var (first, rest) := CutWords(ItemTexts(items), cuts, close);
    ItemsParse([], items, cuts, close, prior);
    assert [] + items == items;
    Unbracket('<', first, rest);
  }

  lemma OneCellWord(item: Item)
    ensures CellWords([item], [], '>') == ["<" + ItemText(item) + ">"]
  {
    assert ItemTexts([item]) == [ItemText(item)];
    assert "<" + (ItemText(item) + ['>']) == "<" + ItemText(item) + ">";
  }

  lemma OneCellHeld(data: seq<Byte>, item: Item, prior: seq<Byte>)
    requires HoldsItems(data, [item], prior) && item.Number? && item.n < 0x1_0000_0000
    ensures |data| == 4 && BigEndian(data, 0) == item.n
  {
    assert HoldsItem(data, [item][0], prior, 0);
  }

  /** One number in one word. */
  lemma OneNumberParses(n: nat, notation: Notation, prior: seq<Byte>) returns (data: seq<Byte>)
    requires n < 0x1_0000_0000
    ensures ParseProp(["<" + NumberText(n, notation) + ">"], prior) == Ok(data)
    ensures |data| == 4 && BigEndian(data, 0) == n
  {
    var item := Number(n, notation);
    data := NumeralsParse([item], [], '>', prior);
    OneCellWord(item);
    OneCellHeld(data, item, prior);
  }
}
