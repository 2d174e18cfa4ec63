/** Listing the EFI memory table: one line per row, a gap line wherever a row does not start where
    the one before it ended, and the attribute values seen. */
module EfiPrint {
  import opened Machine
  import opened EfiMemTable
  import opened EfiBuild

  const ATTR_SEEN_MAX: nat := 30

  datatype Line = Gap(start: ulong, size: ulong) | Shown(upto: nat, row: MemDesc)

  predicate Skipped(d: MemDesc, skipBs: bool) {
    skipBs && IsBootServices(d.typ)
  }

  /** The lines for the table from row k on, when the last line ended at addr. */
  function LinesFrom(table: seq<MemDesc>, k: nat, addr: ulong, skipBs: bool): seq<Line>
    requires k <= |table|
    decreases |table| - k
  {
    if k == |table| || table[k].typ == EFI_TABLE_END then []
    else if Skipped(table[k], skipBs) then LinesFrom(table, k + 1, addr, skipBs)
    else LinesOf(table[k], k, addr) + LinesFrom(table, k + 1, End(table[k]), skipBs)
  }

  /** The line of one row, after a gap line if there is a gap. */
  function LinesOf(d: MemDesc, k: nat, addr: ulong): seq<Line> {
    if d.phys != addr then [Gap(addr, Wrap(d.phys as int - addr)), Shown(k, d)] else [Shown(k, d)]
  }

  // ---------------------------------------------------------------- lines follow one another

  function Start(l: Line): ulong {
    if l.Gap? then l.start else l.row.phys
  }

  function Next(l: Line): ulong {
    if l.Gap? then Wrap(l.start as int + l.size) else End(l.row)
  }

  ghost predicate Contiguous(lines: seq<Line>, addr: ulong) {
    && (lines != [] ==> Start(lines[0]) == addr)
    && forall i, j :: 0 <= i < |lines| && j == i + 1 && j < |lines| ==> Start(lines[j]) == Next(lines[i])
  }

  /** Whatever the table, every line starts where the one before ended, the first at address 0. */
  lemma {:induction false} LinesAreContiguous(table: seq<MemDesc>, k: nat, addr: ulong, skipBs: bool)
    requires k <= |table|
    ensures Contiguous(LinesFrom(table, k, addr, skipBs), addr)
    decreases |table| - k
  {
    if k < |table| && table[k].typ != EFI_TABLE_END {
      if Skipped(table[k], skipBs) {
        LinesAreContiguous(table, k + 1, addr, skipBs);
      } else {
        LinesAreContiguous(table, k + 1, End(table[k]), skipBs);
        ContiguousJoin(LinesOf(table[k], k, addr), LinesFrom(table, k + 1, End(table[k]), skipBs), addr);
      }
    }
  }

  lemma ContiguousJoin(a: seq<Line>, b: seq<Line>, addr: ulong)
    requires a != [] && Contiguous(a, addr) && Contiguous(b, Next(a[|a| - 1]))
    ensures Contiguous(a + b, addr)
  {
  }

  // ---------------------------------------------------------------- gaps are what no row covers

  /** Rows in address order that do not overlap and end within the address space. */
  ghost predicate Separate(table: seq<MemDesc>) {
    && (forall k :: 0 <= k < |table| ==> table[k].typ != EFI_TABLE_END && LastByte(table[k]) < WORD)
    && (forall j, k :: 0 <= j < k < |table| ==> LastByte(table[j]) < table[k].phys)
  }

  /** The address of the last byte; one less than the start for an empty row. */
  function LastByte(d: MemDesc): int {
    d.phys + d.pages * EFI_PAGE_SIZE - 1
  }

  predicate Holds(d: MemDesc, x: int) {
    d.phys <= x <= LastByte(d)
  }

  ghost predicate Covers(table: seq<MemDesc>, k: nat, x: int) {
    exists j :: k <= j < |table| && Holds(table[j], x)
  }

  ghost predicate InGap(lines: seq<Line>, x: int) {
    exists i :: 0 <= i < |lines| && lines[i].Gap? && lines[i].start <= x < lines[i].start + lines[i].size
  }

  lemma InGapJoin(a: seq<Line>, b: seq<Line>, x: int)
    ensures InGap(a + b, x) <==> InGap(a, x) || InGap(b, x)
  {
    if InGap(a, x) {
      var i :| 0 <= i < |a| && a[i].Gap? && a[i].start <= x < a[i].start + a[i].size;
      assert (a + b)[i] == a[i];
    }
    if InGap(b, x) {
      var i :| 0 <= i < |b| && b[i].Gap? && b[i].start <= x < b[i].start + b[i].size;
      assert (a + b)[|a| + i] == b[i];
    }
  }

  lemma GapOfRow(d: MemDesc, k: nat, addr: ulong, x: int)
    requires addr <= d.phys
    ensures InGap(LinesOf(d, k, addr), x) <==> addr <= x < d.phys
  {
    if addr <= x < d.phys {
      var l := LinesOf(d, k, addr)[0];
      assert l.Gap? && l.start <= x < l.start + l.size;
    }
  }

  /** The address after a row that does not reach the top. */
  lemma EndInRange(d: MemDesc)
    requires LastByte(d) < WORD - 1
    ensures End(d) == LastByte(d) + 1
  {
    EndIsPageAt(d.phys, d.pages);
  }

  lemma CoversFrom(table: seq<MemDesc>, k: nat, x: int)
    requires k < |table|
    ensures Covers(table, k, x) <==> Holds(table[k], x) || Covers(table, k + 1, x)
  {
  }

  /** In a table of separate rows the gap lines cover exactly the addresses below the last row that
      belong to no row. */
  lemma {:induction false} GapsAreUncovered(table: seq<MemDesc>, k: nat, addr: ulong, x: int)
    requires Separate(table) && k <= |table| && (k < |table| ==> addr <= table[k].phys)
    ensures InGap(LinesFrom(table, k, addr, false), x)
            <==> k < |table| && addr <= x < table[|table| - 1].phys && !Covers(table, k, x)
    decreases |table| - k
  {
    if k < |table| {
      var d, rest := table[k], LinesFrom(table, k + 1, End(table[k]), false);
      InGapJoin(LinesOf(d, k, addr), rest, x);
      GapOfRow(d, k, addr, x);
      CoversFrom(table, k, x);
      if k + 1 < |table| {
        EndInRange(d);
        GapsAreUncovered(table, k + 1, End(d), x);
        NoneBelow(table, k + 1, x);
      } else {
        assert rest == [];
      }
    }
  }

  lemma NoneBelow(table: seq<MemDesc>, k: nat, x: int)
    requires Separate(table) && k < |table|
    ensures x < table[k].phys ==> !Covers(table, k, x)
  {
    if x < table[k].phys {
      forall j | k <= j < |table| ensures x < table[j].phys {
        assert j > k ==> LastByte(table[k]) < table[j].phys;
      }
    }
  }

  /** What lies behind the end mark is not looked at. */
  lemma {:induction false} EndMarkEnds(base: seq<MemDesc>, rows: nat, k: nat, addr: ulong, skipBs: bool)
    requires k <= rows < |base| && base[rows].typ == EFI_TABLE_END
    ensures LinesFrom(base, k, addr, skipBs) == LinesFrom(base[..rows], k, addr, skipBs)
    decreases rows - k
  {
    if k < rows {
      EndMarkEnds(base, rows, k + 1, addr, skipBs);
      EndMarkEnds(base, rows, k + 1, End(base[k]), skipBs);
    }
  }

  /** A table built with skip_bs loses no line to the boot-services test. */
  lemma {:induction false} NothingSkipped(table: seq<MemDesc>, k: nat, addr: ulong)
    requires k <= |table| && forall j :: 0 <= j < |table| ==> !IsBootServices(table[j].typ)
    ensures LinesFrom(table, k, addr, true) == LinesFrom(table, k, addr, false)
    decreases |table| - k
  {
    if k < |table| && table[k].typ != EFI_TABLE_END {
      NothingSkipped(table, k + 1, End(table[k]));
    }
  }

  // ---------------------------------------------------------------- which rows are shown

  /** Row i stands before the end mark and is not left out: under skip_bs the types 1 to 4 are. */
  ghost predicate IsShown(table: seq<MemDesc>, k: nat, i: int, skipBs: bool) {
    && k <= i < |table|
    && (forall j :: k <= j <= i ==> table[j].typ != 15)
    && !(skipBs && 1 <= table[i].typ <= 4)
  }

  /** Each of those rows is shown with its own number, and nothing else is. */
  lemma {:induction false} ShownIff(table: seq<MemDesc>, k: nat, addr: ulong, skipBs: bool, i: nat, d: MemDesc)
    requires k <= |table|
    ensures Shown(i, d) in LinesFrom(table, k, addr, skipBs) <==> IsShown(table, k, i, skipBs) && d == table[i]
    decreases |table| - k
  {
    if k < |table| && table[k].typ != EFI_TABLE_END {
      var skipped := Skipped(table[k], skipBs);
      ShownIff(table, k + 1, if skipped then addr else End(table[k]), skipBs, i, d);
    }
  }

  /** Row numbers increase from line to line. */
  ghost predicate InRowOrder(lines: seq<Line>, from: int) {
    && (forall a :: 0 <= a < |lines| && lines[a].Shown? ==> from <= lines[a].upto)
    && forall a, b :: 0 <= a < b < |lines| && lines[a].Shown? && lines[b].Shown? ==> lines[a].upto < lines[b].upto
  }

  lemma {:induction false} RowsInOrder(table: seq<MemDesc>, k: nat, addr: ulong, skipBs: bool)
    requires k <= |table|
    ensures InRowOrder(LinesFrom(table, k, addr, skipBs), k)
    decreases |table| - k
  {
    if k < |table| && table[k].typ != EFI_TABLE_END {
      var skipped := Skipped(table[k], skipBs);
      RowsInOrder(table, k + 1, if skipped then addr else End(table[k]), skipBs);
    }
  }

  // ---------------------------------------------------------------- the loop

  ghost predicate ShowsAttr(lines: seq<Line>, a: ulong) {
    exists i :: 0 <= i < |lines| && lines[i].Shown? && lines[i].row.attr == a
  }

  /** The attribute values seen: each once, all from shown rows, and every value unless there is
      no more room. */
  ghost predicate Seen(attrs: seq<ulong>, lines: seq<Line>) {
    && |attrs| <= 30
    && (forall i, j :: 0 <= i < j < |attrs| ==> attrs[i] != attrs[j])
    && (forall a :: a in attrs ==> ShowsAttr(lines, a))
    && (|attrs| < 30 ==> forall i :: 0 <= i < |lines| && lines[i].Shown? ==> lines[i].row.attr in attrs)
  }

  method RecordAttr(attrs: seq<ulong>, a: ulong) returns (r: seq<ulong>)
    requires |attrs| <= ATTR_SEEN_MAX
    ensures r == if a in attrs || |attrs| == ATTR_SEEN_MAX then attrs else attrs + [a]
  {
    var i := 0;
    while i < |attrs|
      invariant i <= |attrs| && a !in attrs[..i]
    {
      if attrs[i] == a {
        break;
      }
      i := i + 1;
    }
    r := attrs;
    if i == |attrs| && i < ATTR_SEEN_MAX {
      r := attrs + [a];
    }
  }

  lemma SeenMore(attrs: seq<ulong>, lines: seq<Line>, d: MemDesc, k: nat, addr: ulong)
    requires Seen(attrs, lines)
    ensures Seen(if d.attr in attrs || |attrs| == ATTR_SEEN_MAX then attrs else attrs + [d.attr],
                 lines + LinesOf(d, k, addr))
  {
    var more := lines + LinesOf(d, k, addr);
    assert more[|more| - 1] == Shown(k, d);
    forall a | ShowsAttr(lines, a) ensures ShowsAttr(more, a) {
      var i :| 0 <= i < |lines| && lines[i].Shown? && lines[i].row.attr == a;
      assert more[i] == lines[i];
    }
    forall i | 0 <= i < |more| && more[i].Shown?
      ensures more[i].row.attr == d.attr || (i < |lines| && more[i] == lines[i])
    {
    }
  }

  /** What has been printed, with what the rest of the table adds, is the whole listing. */
  ghost predicate Printing(table: seq<MemDesc>, all: seq<Line>, lines: seq<Line>, upto: nat, addr: ulong,
                           skipBs: bool) {
    && (exists k :: upto <= k < |table| && table[k].typ == EFI_TABLE_END)
    && lines + LinesFrom(table, upto, addr, skipBs) == all
  }

  lemma PrintStarts(table: seq<MemDesc>, skipBs: bool)
    requires exists k :: 0 <= k < |table| && table[k].typ == EFI_TABLE_END
    ensures Printing(table, LinesFrom(table, 0, 0, skipBs), [], 0, 0, skipBs)
  {
  }

  lemma PrintRow(table: seq<MemDesc>, all: seq<Line>, lines: seq<Line>, upto: nat, addr: ulong, skipBs: bool)
    requires Printing(table, all, lines, upto, addr, skipBs) && table[upto].typ != EFI_TABLE_END
    ensures var d := table[upto];
            if Skipped(d, skipBs) then Printing(table, all, lines, upto + 1, addr, skipBs)
            else Printing(table, all, lines + LinesOf(d, upto, addr), upto + 1, End(d), skipBs)
  {
    var d := table[upto];
    var k :| upto <= k < |table| && table[k].typ == EFI_TABLE_END;
    assert upto + 1 <= k;
    var rest := LinesFrom(table, upto + 1, End(d), skipBs);
    assert lines + (LinesOf(d, upto, addr) + rest) == (lines + LinesOf(d, upto, addr)) + rest;
  }

  lemma PrintEnds(table: seq<MemDesc>, all: seq<Line>, lines: seq<Line>, upto: nat, addr: ulong, skipBs: bool)
    requires Printing(table, all, lines, upto, addr, skipBs) && table[upto].typ == EFI_TABLE_END
    ensures lines == all
  {
    assert lines + [] == lines;
  }

  method PrintRowLines(d: MemDesc, upto: nat, addr: ulong, before: seq<Line>) returns (lines: seq<Line>)
    ensures lines == before + LinesOf(d, upto, addr)
  {
    lines := before;
    if d.phys != addr {
      lines := lines + [Gap(addr, Wrap(d.phys as int - addr))];
    }
    lines := lines + [Shown(upto, d)];
  }

  method PrintMemTable(base: array<MemDesc>, skipBs: bool) returns (lines: seq<Line>, attrs: seq<ulong>)
    requires exists k :: 0 <= k < base.Length && base[..][k].typ == EFI_TABLE_END
    ensures lines == LinesFrom(base[..], 0, 0, skipBs)
    ensures Seen(attrs, lines)
  {
    ghost var table := base[..];
    ghost var all := LinesFrom(table, 0, 0, skipBs);
    PrintStarts(table, skipBs);
    lines, attrs := [], [];
    var addr: ulong, upto: nat := 0, 0;
    while base[upto].typ != EFI_TABLE_END
      invariant Printing(table, all, lines, upto, addr, skipBs)
      invariant Seen(attrs, lines)
      decreases base.Length - upto
    {
      var d := base[upto];
      PrintRow(table, all, lines, upto, addr, skipBs);
      if !(skipBs && IsBootServices(d.typ)) {
        SeenMore(attrs, lines, d, upto, addr);
        lines := PrintRowLines(d, upto, addr, lines);
        attrs := RecordAttr(attrs, d.attr);
        EndInWordsIsEnd(d);
        addr := EndInWords(d);
      }
      upto := upto + 1;
    }
    PrintEnds(table, all, lines, upto, addr, skipBs);
  }
}
