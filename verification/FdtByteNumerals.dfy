/** What "fdt set" makes of a byte stream: hexadecimal numbers of any length, of which the low byte counts. */
module FdtByteNumerals {
  import opened Machine
  import opened Strtoul
  import opened FdtTree
  import opened FdtProp
  import opened FdtRoundTrip
  import opened FdtNumerals

  /** An entry of `[...]`: a hexadecimal numeral of any length, with or without its prefix. */
  datatype ByteItem = ByteItem(n: nat, prefixed: bool, upper: bool)

  function ByteText(i: ByteItem): (s: string)
    ensures s != ""
  {
    var numeral := Numeral(i.n, 16, if i.upper then UPPER else LOWER);
    if !i.prefixed then numeral else if i.upper then "0X" + numeral else "0x" + numeral
  }

  /** Only the low eight bits of each number are stored. */
  function LowBytes(items: seq<ByteItem>): (data: seq<Byte>)
    ensures |data| == |items| && forall i :: 0 <= i < |items| ==> data[i] == items[i].n % 256
  {
    seq(|items|, i requires 0 <= i < |items| => items[i].n % 256)
  }

  lemma BareHexParses(n: nat, glyphs: string, t: string)
    requires Ends(t) && GlyphSet(glyphs)
    ensures SimpleStrtoul(Numeral(n, 16, glyphs) + t, 16) == (n % WORD, t)
  {
    var s := Numeral(n, 16, glyphs) + t;
    BareHexHasNoPrefix(n, glyphs, t);
    assert FixupRadix(s, 16) == (16, s);
    NumeralRead(n, 16, glyphs, t);
    DigitsEnd(t, 16, n % WORD);
  }

  /** A numeral is not taken for a prefix. */
  lemma BareHexHasNoPrefix(n: nat, glyphs: string, t: string)
    requires Ends(t) && GlyphSet(glyphs)
    ensures !HexPrefix(Numeral(n, 16, glyphs) + t)
  {
    var d := NumeralStarts(n, 16, glyphs);
    if n < 16 {
      assert At(Numeral(n, 16, glyphs) + t, 1) == At(t, 0);
    }
  }

  lemma ByteTextParses(i: ByteItem, t: string)
    requires Ends(t)
    ensures SimpleStrtoul(ByteText(i) + t, 16) == (i.n % WORD, t)
  {
    LowerGlyphs();
    UpperGlyphs();
    var glyphs := if i.upper then UPPER else LOWER;
    if i.prefixed {
      HexParses(i.n, if i.upper then 'X' else 'x', glyphs, 16, t);
    } else {
      BareHexParses(i.n, glyphs, t);
    }
  }

  lemma ByteStarts(i: ByteItem)
    ensures IsXDigit(ByteText(i)[0])
  {
    LowerGlyphs();
    UpperGlyphs();
    var d := NumeralStarts(i.n, 16, if i.upper then UPPER else LOWER);
  }

  lemma ParseByteItem(i: ByteItem, t: string, rest: seq<string>, data: seq<Byte>)
    requires Ends(t)
    ensures ParseBytes(ByteText(i) + t, rest, data) == ParseBytes(t, rest, data + [i.n % 256])
  {
    ByteStarts(i);
    ByteTextParses(i, t);
    LowByteOfWord(i.n);
    assert (ByteText(i) + t)[0] == ByteText(i)[0];
  }

  function ByteTexts(items: seq<ByteItem>): (t: seq<string>)
    ensures |t| == |items|
    ensures forall i :: 0 <= i < |t| ==> t[i] != "" && t[i] == ByteText(items[i])
  {
    if items == [] then [] else [ByteText(items[0])] + ByteTexts(items[1..])
  }

  lemma ByteItemAtWordEnd(i: ByteItem, first: string, rest: seq<string>, data: seq<Byte>)
    ensures ParseBytes(ByteText(i), [first] + rest, data) == ParseBytes(first, rest, data + [i.n % 256])
  {
    ParseByteItem(i, "", [first] + rest, data);
    assert ByteText(i) + "" == ByteText(i);
    assert ([first] + rest)[1..] == rest;
  }

  lemma ByteItemAndSpace(i: ByteItem, first: string, rest: seq<string>, data: seq<Byte>)
    requires first != "" && first[0] != ' '
    ensures ParseBytes(ByteText(i) + " " + first, rest, data) == ParseBytes(first, rest, data + [i.n % 256])
  {
    ParseByteItem(i, " " + first, rest, data);
    SkipOneSpace(first);
    assert ByteText(i) + (" " + first) == ByteText(i) + " " + first;
  }

  lemma {:induction false} BytesParseAll(done: seq<Byte>, items: seq<ByteItem>, cuts: seq<bool>, close: char)
    requires |items| > 0 && |cuts| + 1 == |items| && (close == ']' || Unexpected(close))
    ensures var (newp, rest) := CutWords(ByteTexts(items), cuts, close);
            ParseBytes(newp, rest, done) == if close == ']' then Ok(done + LowBytes(items)) else Bad
    decreases |items|
  {
    var item, later := items[0], items[1..];
    assert done + [item.n % 256] + LowBytes(later) == done + LowBytes(items);
    if later == [] {
      ParseByteItem(item, [close], [], done);
    } else {
      BytesParseAll(done + [item.n % 256], later, cuts[1..], close);
      var (first, rest) := CutWords(ByteTexts(later), cuts[1..], close);
      CutOfCons(ByteText(item), ByteTexts(later), cuts, close);
      CutStartsWith(ByteTexts(later), cuts[1..], close);
      ByteStarts(later[0]);
      if cuts[0] {
        ByteItemAtWordEnd(item, first, rest, done);
      } else {
        ByteItemAndSpace(item, first, rest, done);
      }
    }
  }

  /** MAIN RESULT for `[...]`: of each hexadecimal number the low byte is stored; with an unexpected character
      instead of the closing bracket the list is refused. */
  lemma ByteNumeralsParse(items: seq<ByteItem>, cuts: seq<bool>, close: char, prior: seq<Byte>)
    requires |items| > 0 && |cuts| + 1 == |items| && (close == ']' || Unexpected(close))
    ensures var (first, rest) := CutWords(ByteTexts(items), cuts, close);
            ParseProp(["[" + first] + rest, prior) == if close == ']' then Ok(LowBytes(items)) else Bad
  {
    var (first, rest) := CutWords(ByteTexts(items), cuts, close);
    BytesParseAll([], items, cuts, close);
    assert [] + LowBytes(items) == LowBytes(items);
    Unbracket('[', first, rest);
  }
}
