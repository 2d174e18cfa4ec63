/** Which texts "fdt set" refuses. */
module FdtRefusals {
  import opened Machine
  import opened Strtoul
  import opened FdtTree
  import opened FdtProp

  /** Where a number is expected, anything but a digit, "?" or ">" is refused; also a space. */
  lemma CellsNeedDigits(newp: string, rest: seq<string>, data: seq<Byte>, prior: seq<Byte>)
    requires newp != "" && !('0' <= newp[0] <= '9') && newp[0] != '?' && newp[0] != '>'
    ensures ParseCells(newp, rest, data, prior) == Bad
  {
    assert FixupRadix(newp, 0) == (10, newp);
    assert Digits(newp, 10, 0) == (0, newp);
  }

  // ---------------------------------------------------------------- lists without an end

  predicate Without(words: seq<string>, c: char) {
    forall i :: 0 <= i < |words| ==> c !in words[i]
  }

  lemma {:induction false} DigitsWithout(s: string, base: nat, acc: ulong, c: char)
    requires c !in s
    ensures c !in Digits(s, base, acc).1
  {
    if s != "" && IsXDigit(s[0]) && DigitValue(s[0]) < base {
      DigitsWithout(s[1..], base, Store(acc * base + DigitValue(s[0])), c);
    }
  }

  lemma StrtoulWithout(s: string, base: nat, c: char)
    requires c !in s
    ensures c !in SimpleStrtoul(s, base).1
  {
    var (b, digits) := FixupRadix(s, base);
    DigitsWithout(digits, b, 0, c);
  }

  lemma {:induction false} SpacesWithout(s: string, c: char)
    requires c !in s
    ensures c !in SkipSpaces(s)
  {
    if s != "" && s[0] == ' ' {
      SpacesWithout(s[1..], c);
    }
  }

  /** Without its closing bracket no list of cells is accepted, whatever else is in it. */
  lemma {:induction false} CellsNeedEnd(newp: string, rest: seq<string>, data: seq<Byte>, prior: seq<Byte>)
    requires '>' !in newp && Without(rest, '>')
    ensures !ParseCells(newp, rest, data, prior).Ok?
    decreases |rest|, |newp|
  {
    if newp == "" {
      if rest != [] {
        CellsNeedEnd(rest[0], rest[1..], data, prior);
      }
    } else {
      StrtoulShortens(newp, 0);
      StrtoulWithout(newp, 0, '>');
      var (tmp, after) := SimpleStrtoul(newp, 0);
      var next := if newp[0] == '?' then after[if |after| > 0 then 1 else 0..] else after;
      var cell := if newp[0] == '?' then Prior(prior, |data|) else Cell(tmp);
      if |next| < |newp| {
        SpacesWithout(next, '>');
        CellsNeedEnd(SkipSpaces(next), rest, data + cell, prior);
      }
    }
  }

  /** Nor a byte stream. */
  lemma {:induction false} BytesNeedEnd(newp: string, rest: seq<string>, data: seq<Byte>)
    requires ']' !in newp && Without(rest, ']')
    ensures !ParseBytes(newp, rest, data).Ok?
    decreases |rest|, |newp|
  {
    var s := SkipSpaces(newp);
    SpacesWithout(newp, ']');
    if s == "" {
      if rest != [] {
        BytesNeedEnd(rest[0], rest[1..], data);
      }
    } else if IsXDigit(s[0]) {
      StrtoulShortens(s, 16);
      StrtoulWithout(s, 16, ']');
      var (tmp, after) := SimpleStrtoul(s, 16);
      BytesNeedEnd(after, rest, data + [tmp % 256]);
    }
  }

  /** MAIN RESULT on refusals: an accepted value that starts with "<" has a ">" somewhere, one that starts with
      "[" a "]". */
  lemma AcceptedHasEnd(newval: seq<string>, prior: seq<Byte>)
    requires newval != [] && newval[0] != "" && ParseProp(newval, prior).Ok?
    ensures newval[0][0] == '<' ==> !Without(newval, '>')
    ensures newval[0][0] == '[' ==> !Without(newval, ']')
  {
    var first, rest := newval[0][1..], newval[1..];
    if newval[0][0] == '<' && Without(newval, '>') {
      CellsNeedEnd(first, rest, [], prior);
      assert false;
    }
    if newval[0][0] == '[' && Without(newval, ']') {
      BytesNeedEnd(first, rest, []);
      assert false;
    }
  }
}
