/** Text-valued device-tree properties: the heuristic that recognises them, and lists of strings. */
module FdtText {
  import opened FdtTree
  import opened FdtProp
  import opened FdtRoundTrip

  const NEWLINE: Byte := 10

  /** isprint and isspace of the character table: Latin-1, codes 128 to 159 in no class. */
  predicate IsPrint(b: Byte) {
    32 <= b <= 126 || 160 <= b
  }

  predicate IsSpace(b: Byte) {
    9 <= b <= 13 || b == 32 || b == 160
  }

  predicate Acceptable(b: Byte) {
    b == 0 || IsPrint(b) || IsSpace(b)
  }

  /** The loop of is_printable_string on what is left of the data; `after` is the byte that
      happens to lie behind the data in memory. */
  function PrintableFrom(s: seq<Byte>, after: Byte): bool {
    if s == [] then after == 0
    else if !Acceptable(s[0]) then false
    else if s[0] == 0 && |s| == 1 then true
    else if s[0] == 0 && s[1] == 0 then false
    else PrintableFrom(s[1..], after)
  }

  function IsPrintableString(data: seq<Byte>, after: Byte): bool {
    && data != []
    && (data[|data| - 1] == 0 || data[|data| - 1] == NEWLINE)
    && PrintableFrom(data, after)
  }

  method CheckPrintable(data: seq<Byte>, after: Byte) returns (r: bool)
    ensures r == IsPrintableString(data, after)
  {
    var len := |data|;
    if len == 0 {
      return false;
    }
    if data[len - 1] != 0 && data[len - 1] != NEWLINE {
      return false;
    }
    var s := 0;
    while len > 0 && Acceptable(data[s])
      invariant 0 <= s <= |data| && len == |data| - s
      invariant PrintableFrom(data, after) == PrintableFrom(data[s..], after)
    {
      if data[s] == 0 {
        if len == 1 {
          return true;
        }
        if data[s + 1] == 0 {
          return false;
        }
      }
      assert data[s..][1..] == data[s + 1..];
      s := s + 1;
      len := len - 1;
    }
    return len == 0 && after == 0;
  }

  /** All bytes are NUL, white space or printable, and no two NULs stand in a row. */
  ghost predicate IsText(s: seq<Byte>) {
    && (forall i :: 0 <= i < |s| ==> s[i] == 0 || 9 <= s[i] <= 13 || 32 <= s[i] <= 126 || 160 <= s[i])
    && (forall i :: 0 < i < |s| ==> !(s[i - 1] == 0 && s[i] == 0))
  }

  lemma {:induction false} PrintableFromIff(s: seq<Byte>, after: Byte)
    ensures PrintableFrom(s, after) <==> IsText(s) && ((s != [] && s[|s| - 1] == 0) || after == 0)
  {
    if s != [] && Acceptable(s[0]) && |s| > 1 && !(s[0] == 0 && s[1] == 0) {
      var t := s[1..];
      PrintableFromIff(t, after);
      assert forall i :: 0 < i < |s| ==> s[i] == t[i - 1];
      assert IsText(s) ==> IsText(t);
      if IsText(t) {
        forall i | 0 < i < |s| ensures !(s[i - 1] == 0 && s[i] == 0) {
          assert i > 1 ==> s[i - 1] == t[i - 2] && s[i] == t[i - 1];
        }
      }
    }
  }

  /** MAIN RESULT: which data the heuristic takes for text. For data that ends in NUL nothing
      behind it matters; for data that ends in a newline the next byte in memory decides. */
  lemma PrintableIff(data: seq<Byte>, after: Byte)
    ensures IsPrintableString(data, after) <==>
              data != [] && IsText(data) && (data[|data| - 1] == 0 || (data[|data| - 1] == 10 && after == 0))
  {
    PrintableFromIff(data, after);
  }

  // ---------------------------------------------------------------- lists of strings

  predicate Terminated(s: seq<Byte>) {
    s == [] || s[|s| - 1] == 0
  }

  /** Where the string that starts at j ends: its strlen is the distance. */
  function NulAt(mem: seq<Byte>, j: nat): (e: nat)
    requires Terminated(mem) && j < |mem|
    ensures j <= e < |mem| && mem[e] == 0
    decreases |mem| - j
  {
    if mem[j] == 0 then j else NulAt(mem, j + 1)
  }

  /** The strings one after another in terminated data, from position j on. */
  function StringsFrom(mem: seq<Byte>, j: nat): seq<seq<Byte>>
    requires Terminated(mem) && j <= |mem|
    decreases |mem| - j
  {
    if j == |mem| then [] else [mem[j..NulAt(mem, j)]] + StringsFrom(mem, NulAt(mem, j) + 1)
  }

  function Strings(mem: seq<Byte>): seq<seq<Byte>>
    requires Terminated(mem)
  {
    StringsFrom(mem, 0)
  }

  /** The text loop of print_data, over len bytes of memory that is terminated at or right behind
      their end: it emits every string once and j ends exactly behind the last terminator. */
  method PutStrings(mem: seq<Byte>, len: nat) returns (strings: seq<seq<Byte>>, j: nat)
    requires Terminated(mem)
    requires len == |mem| || (len + 1 == |mem| && len > 0 && mem[len - 1] != 0)
    ensures strings == Strings(mem) && j == |mem|
  {
    strings, j := [], 0;
    while j < len
      invariant j <= |mem| && (j > 0 ==> mem[j - 1] == 0)
      invariant Strings(mem) == strings + StringsFrom(mem, j)
    {
      var end := NulAt(mem, j);
      AppendAssociates(strings, [mem[j..end]], StringsFrom(mem, end + 1));
      strings := strings + [mem[j..end]];
      j := end + 1;
    }
  }

  lemma AppendAssociates<T>(a: seq<T>, b: seq<T>, c: seq<T>)
    ensures a + (b + c) == (a + b) + c
  {
  }

  /** A C string as a word: no NUL in it, and bytes for characters. */
  predicate IsWord(w: string) {
    forall i :: 0 <= i < |w| ==> 0 < w[i] as int < 256
  }

  function AllBytes(words: seq<string>): (r: seq<seq<Byte>>)
    ensures |r| == |words| && forall i :: 0 <= i < |words| ==> r[i] == Bytes(words[i])
  {
    seq(|words|, i requires 0 <= i < |words| => Bytes(words[i]))
  }

  lemma AllBytesOfCons(words: seq<string>)
    requires words != []
    ensures AllBytes(words) == [Bytes(words[0])] + AllBytes(words[1..])
  {
  }

  /** The bytes of m from an offset on are b. */
  ghost predicate EndsIn(m: seq<Byte>, offset: nat, b: seq<Byte>) {
    |m| == offset + |b| && forall i: nat :: i < |b| ==> m[offset + i] == b[i]
  }

  /** Positions behind a prefix see only what comes after it. */
  lemma {:induction false} NulBehind(m: seq<Byte>, offset: nat, b: seq<Byte>, j: nat)
    requires EndsIn(m, offset, b) && Terminated(b) && Terminated(m) && j < |b|
    ensures NulAt(m, offset + j) == offset + NulAt(b, j)
    decreases |b| - j
  {
    assert m[offset + j] == b[j];
    if b[j] != 0 {
      NulBehind(m, offset, b, j + 1);
    }
  }

  lemma SliceBehind(m: seq<Byte>, offset: nat, b: seq<Byte>, i: nat, j: nat)
    requires EndsIn(m, offset, b) && i <= j <= |b|
    ensures m[offset + i..offset + j] == b[i..j]
  {
    forall k | 0 <= k < j - i ensures m[offset + i..offset + j][k] == b[i..j][k] {
      assert m[offset + (i + k)] == b[i + k];
    }
  }

  /** Equal first strings and equal rests. */
  lemma SameStrings(m: seq<Byte>, i: nat, b: seq<Byte>, j: nat)
    requires Terminated(m) && Terminated(b) && i < |m| && j < |b|
    requires m[i..NulAt(m, i)] == b[j..NulAt(b, j)]
    requires StringsFrom(m, NulAt(m, i) + 1) == StringsFrom(b, NulAt(b, j) + 1)
    ensures StringsFrom(m, i) == StringsFrom(b, j)
  {
  }

  lemma FirstBehind(m: seq<Byte>, offset: nat, b: seq<Byte>, j: nat)
    requires EndsIn(m, offset, b) && Terminated(b) && Terminated(m) && j < |b|
    ensures NulAt(m, offset + j) == offset + NulAt(b, j)
    ensures m[offset + j..NulAt(m, offset + j)] == b[j..NulAt(b, j)]
  {
    NulBehind(m, offset, b, j);
    SliceBehind(m, offset, b, j, NulAt(b, j));
  }

  lemma {:induction false} StringsBehind(m: seq<Byte>, offset: nat, b: seq<Byte>, j: nat)
    requires EndsIn(m, offset, b) && Terminated(b) && Terminated(m) && j <= |b|
    ensures StringsFrom(m, offset + j) == StringsFrom(b, j)
    decreases |b| - j
  {
    if j < |b| {
      FirstBehind(m, offset, b, j);
      StringsBehind(m, offset, b, NulAt(b, j) + 1);
      SameStrings(m, offset + j, b, j);
    }
  }

  lemma {:induction false} NulOfWord(w: seq<Byte>, rest: seq<Byte>, j: nat)
    requires j <= |w| && (forall i :: 0 <= i < |w| ==> w[i] != 0) && Terminated(rest)
    ensures Terminated(w + [0] + rest) && NulAt(w + [0] + rest, j) == |w|
    decreases |w| - j
  {
    if j < |w| {
      NulOfWord(w, rest, j + 1);
    }
  }

  lemma ParsedFirst(w: seq<Byte>, rest: seq<Byte>)
    requires (forall i :: 0 <= i < |w| ==> w[i] != 0) && Terminated(rest)
    ensures Terminated(w + [0] + rest) && Strings(w + [0] + rest) == [w] + Strings(rest)
  {
    NulOfWord(w, rest, 0);
    StringsBehind(w + [0] + rest, |w| + 1, rest, 0);
    assert (w + [0] + rest)[0..|w|] == w;
  }

  /** MAIN RESULT: splitting what fdt_parse_prop built from a list of words gives the list back. */
  lemma {:induction false} StringListRoundTrip(words: seq<string>)
    requires forall i :: 0 <= i < |words| ==> IsWord(words[i])
    ensures Terminated(ParseStrings(words)) && Strings(ParseStrings(words)) == AllBytes(words)
  {
    if words != [] {
      StringListRoundTrip(words[1..]);
      ParsedFirst(Bytes(words[0]), ParseStrings(words[1..]));
      AllBytesOfCons(words);
    }
  }

  // ---------------------------------------------------------------- print_data as a whole

  /** What print_data shows: nothing, a list of strings, numbers, or only address and length. */
  datatype Shown = Nothing | Text(strings: seq<seq<Byte>>) | Numbers(text: string) | Summary(len: nat)

  /** Text behind whose last newline the terminator already belongs to what follows. */
  function TextMemory(data: seq<Byte>): (mem: seq<Byte>)
    ensures Terminated(mem)
  {
    if Terminated(data) then data else data + [0]
  }

  function PrintData(data: seq<Byte>, after: Byte): Shown {
    if data == [] then Nothing
    else if IsPrintableString(data, after) then Text(Strings(TextMemory(data)))
    else if |data| > CMD_FDT_MAX_DUMP then Summary(|data|)
    else Numbers(PrintNumbers(data))
  }

  /** MAIN RESULT: data of 1 to 64 bytes that is not text is shown as numbers that "fdt set" reads
      back to the same bytes. */
  lemma ShownNumbersRoundTrip(data: seq<Byte>, after: Byte, prior: seq<Byte>)
    requires 1 <= |data| <= 64 && !IsPrintableString(data, after)
    ensures PrintData(data, after).Numbers? && ParseProp([PrintData(data, after).text], prior) == Ok(data)
  {
    PrintedNumbersParse(data, prior);
  }

  /** And a list of words that does not look like numbers, once set, is shown as those strings
      whenever it is shown as text. */
  lemma ShownStringsRoundTrip(words: seq<string>, after: Byte, prior: seq<Byte>)
    requires words != [] && forall i :: 0 <= i < |words| ==> IsWord(words[i])
    requires words[0] == "" || (words[0][0] != '<' && words[0][0] != '[')
    ensures ParseProp(words, prior).Ok?
    ensures var data := ParseProp(words, prior).data;
            data != [] && PrintData(data, after) ==
              if IsText(data) then Text(AllBytes(words))
              else if |data| > 64 then Summary(|data|)
              else Numbers(PrintNumbers(data))
  {
    StringListRoundTrip(words);
    PrintableIff(ParseStrings(words), after);
  }
}
