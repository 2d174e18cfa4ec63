/** NOR-flash range resolution: a byte range becomes one interval of sectors per bank. */
module FlashRanges {
  import opened Machine

  const FLASH_UNKNOWN: ulong := 0xFFFF

  /** The geometry fields of one `flash_info_t`; `start` has the capacity of the C array. */
  datatype Geometry = Geometry(flashId: ulong, sectorCount: nat, start: seq<ulong>, size: ulong)

  /** Every flash_info_t has room for its sectors, and a sector index fits a `short`. */
  type Bank = g: Geometry | g.sectorCount <= |g.start| <= 0x8000 && |g.start| > 0
    witness Geometry(FLASH_UNKNOWN, 0, [0], 0)

  /** The interval of sectors chosen in one bank; (-1, -1) means none. */
  datatype Selection = Selection(first: int, last: int)

  const NONE := Selection(-1, -1)

  // ---------------------------------------------------------------- what the code computes

  function BankEnd(g: Bank): ulong {
    Wrap(g.start[0] as int + g.size - 1)
  }

  function SectorEnd(g: Bank, i: nat): ulong
    requires i < g.sectorCount
  {
    if i == g.sectorCount - 1 then BankEnd(g) else Wrap(g.start[i + 1] as int - 1)
  }

  predicate Touches(g: Bank, i: nat, first: ulong, last: ulong)
    requires i < g.sectorCount
  {
    first <= SectorEnd(g, i) && g.start[i] <= last
  }

  /** s_first after the sector loop has looked at the first n sectors. */
  function ScanFirst(g: Bank, first: ulong, last: ulong, n: nat): int
    requires n <= g.sectorCount
  {
    if n == 0 then -1
    else if Touches(g, n - 1, first, last) && first == g.start[n - 1] then n - 1
    else ScanFirst(g, first, last, n - 1)
  }

  /** s_last after the sector loop has looked at the first n sectors. */
  function ScanLast(g: Bank, first: ulong, last: ulong, n: nat): int
    requires n <= g.sectorCount
  {
    if n == 0 then -1
    else if Touches(g, n - 1, first, last) && last == SectorEnd(g, n - 1) then n - 1
    else ScanLast(g, first, last, n - 1)
  }

  /** What one bank does to the scan: nothing, an error, or a selection and a new addr_first. */
  datatype Step = Skip | Fail(sel: Selection) | Take(sel: Selection, next: ulong)

  function ScanBank(g: Bank, first: ulong, last: ulong): Step {
    if g.flashId == FLASH_UNKNOWN then Skip
    else
      var f := ScanFirst(g, first, last, g.sectorCount);
      var l := ScanLast(g, first, last, g.sectorCount);
      if f >= 0 then
        if l < 0 && last <= BankEnd(g) then Fail(Selection(f, l))
        else
          var l' := if l < 0 then g.sectorCount - 1 else l;
          if l' < f then Fail(Selection(f, l'))
          else Take(Selection(f, l'), if l' == g.sectorCount - 1 then Wrap(BankEnd(g) as int + 1) else NextStart(g, l'))
      else if g.start[0] <= first < BankEnd(g) then Fail(Selection(f, l))
      else if l >= 0 then Fail(Selection(f, l))
      else Skip
  }

  function NextStart(g: Bank, i: int): ulong {
    if 0 <= i + 1 < |g.start| then g.start[i + 1] else 0
  }

  /** rc, s_first/s_last of the remaining banks, s_count, and the address the scan got to. */
  datatype Ranges = Ranges(rc: int, sel: seq<Selection>, count: int, next: ulong)

  function Unselected(n: nat): (s: seq<Selection>)
    ensures |s| == n
    ensures forall i :: 0 <= i < n ==> s[i] == NONE
  {
    seq(n, i => NONE)
  }

  /** The bank loop of flash_fill_sect_ranges from bank k on. */
  function Fill(banks: seq<Bank>, k: nat, first: ulong, last: ulong): (r: Ranges)
    requires k <= |banks|
    ensures |r.sel| == |banks| - k && (r.rc == 0 || r.rc == 1)
    decreases |banks| - k
  {
    if k == |banks| || first > last then Ranges(0, Unselected(|banks| - k), 0, first)
    else
      match ScanBank(banks[k], first, last)
      case Skip => var r := Fill(banks, k + 1, first, last); r.(sel := [NONE] + r.sel)
      case Fail(s) => Ranges(1, [s] + Unselected(|banks| - k - 1), 0, first)
      case Take(s, next) =>
        var r := Fill(banks, k + 1, next, last);
        r.(sel := [s] + r.sel, count := s.last - s.first + 1 + r.count)
  }

  // ---------------------------------------------------------------- what it means

  ghost predicate InSector(g: Bank, i: int, x: int) {
    0 <= i < g.sectorCount && g.start[i] <= x <= SectorEnd(g, i)
  }

  predicate InBank(g: Bank, x: int) {
    g.flashId != 0xFFFF && g.start[0] <= x <= BankEnd(g)
  }

  /** Sector starts increase, the size reaches past the last start, the bank ends below the top
      of the address space; an unknown bank has no sectors. */
  ghost predicate WellFormedBank(g: Bank) {
    if g.flashId == FLASH_UNKNOWN then g.sectorCount == 0
    else
      && g.sectorCount > 0
      && (forall i, j :: 0 <= i < j < g.sectorCount ==> g.start[i] < g.start[j])
      && g.start[g.sectorCount - 1] < g.start[0] + g.size < WORD
  }

  ghost predicate WellFormed(banks: seq<Bank>) {
    && (forall b :: 0 <= b < |banks| ==> WellFormedBank(banks[b]))
    && (forall b, c, x :: 0 <= b < c < |banks| && InBank(banks[b], x) ==> !InBank(banks[c], x))
  }

  /** Byte x lies in a sector of the selection. */
  ghost predicate ByteSelected(g: Bank, s: Selection, x: int) {
    s.first >= 0 && exists i :: s.first <= i <= s.last && InSector(g, i, x)
  }

  ghost predicate Covered(banks: seq<Bank>, k: nat, sel: seq<Selection>, x: int)
    requires k + |sel| == |banks|
  {
    exists b :: k <= b < |banks| && ByteSelected(banks[b], sel[b - k], x)
  }

  ghost predicate IsSectorStart(banks: seq<Bank>, x: int) {
    exists b, i :: 0 <= b < |banks| && 0 <= i < banks[b].sectorCount && banks[b].start[i] == x
  }

  ghost predicate IsSectorEnd(banks: seq<Bank>, x: int) {
    exists b, i :: 0 <= b < |banks| && 0 <= i < banks[b].sectorCount && SectorEnd(banks[b], i) == x
  }

  ghost predicate IsFlash(banks: seq<Bank>, k: nat, x: int) {
    exists b :: k <= b < |banks| && InBank(banks[b], x)
  }

  /** Every byte of the range is in some known bank. */
  ghost predicate AllFlash(banks: seq<Bank>, k: nat, first: int, last: int) {
    forall x :: first <= x <= last ==> IsFlash(banks, k, x)
  }

  predicate Meets(g: Bank, first: int, last: int) {
    g.flashId != FLASH_UNKNOWN && g.start[0] <= last && first <= BankEnd(g)
  }

  /** The banks that meet the range are numbered in ascending address order. */
  ghost predicate Ascending(banks: seq<Bank>, k: nat, first: int, last: int) {
    forall b, c :: k <= b < c < |banks| && Meets(banks[b], first, last) && Meets(banks[c], first, last)
                   ==> BankEnd(banks[b]) < banks[c].start[0]
  }

  // ---------------------------------------------------------------- one bank

  /** In a well-formed bank the sector ends are plain numbers and lie between the starts. */
  lemma SectorBounds(g: Bank, i: int)
    requires WellFormedBank(g) && 0 <= i < g.sectorCount
    ensures BankEnd(g) == g.start[0] + g.size - 1
    ensures g.start[0] <= g.start[i] <= SectorEnd(g, i) <= BankEnd(g)
    ensures i < g.sectorCount - 1 ==> SectorEnd(g, i) == g.start[i + 1] - 1
  {
  }

  lemma SectorsOrdered(g: Bank, i: int, j: int)
    requires WellFormedBank(g) && 0 <= i < j < g.sectorCount
    ensures SectorEnd(g, i) < g.start[j] <= SectorEnd(g, j)
  {
    SectorBounds(g, i);
    SectorBounds(g, j);
  }

  /** Sectors f..l of a bank hold exactly the bytes from the start of f to the end of l. */
  lemma {:induction false} SpanOfSectors(g: Bank, f: int, l: int, x: int)
    requires WellFormedBank(g) && 0 <= f <= l < g.sectorCount
    ensures ByteSelected(g, Selection(f, l), x) <==> g.start[f] <= x <= SectorEnd(g, l)
    decreases l
  {
    SectorBounds(g, l);
    if f == l {
      if InSector(g, l, x) {
        assert ByteSelected(g, Selection(f, l), x);
      }
    } else {
      SpanOfSectors(g, f, l - 1, x);
      SectorBounds(g, l - 1);
      if ByteSelected(g, Selection(f, l), x) {
        var i :| f <= i <= l && InSector(g, i, x);
        if i == l {
          assert g.start[f] < g.start[l];
        } else {
          assert ByteSelected(g, Selection(f, l - 1), x);
        }
      }
      if g.start[f] <= x <= SectorEnd(g, l) {
        if x <= SectorEnd(g, l - 1) {
          var i :| f <= i <= l - 1 && InSector(g, i, x);
          assert f <= i <= l && InSector(g, i, x);
        } else {
          assert InSector(g, l, x);
        }
      }
    }
  }

  lemma {:induction false} ScanFirstFinds(g: Bank, first: ulong, last: ulong, n: nat)
    requires n <= g.sectorCount
    ensures var f := ScanFirst(g, first, last, n);
            -1 <= f < n && (f >= 0 ==> g.start[f] == first && Touches(g, f, first, last))
    ensures ScanFirst(g, first, last, n) < 0 ==>
              forall i :: 0 <= i < n && Touches(g, i, first, last) ==> g.start[i] != first
  {
    if n > 0 {
      ScanFirstFinds(g, first, last, n - 1);
    }
  }

  lemma {:induction false} ScanLastFinds(g: Bank, first: ulong, last: ulong, n: nat)
    requires n <= g.sectorCount
    ensures var l := ScanLast(g, first, last, n);
            -1 <= l < n && (l >= 0 ==> SectorEnd(g, l) == last && Touches(g, l, first, last))
    ensures ScanLast(g, first, last, n) < 0 ==>
              forall i :: 0 <= i < n && Touches(g, i, first, last) ==> SectorEnd(g, i) != last
  {
    if n > 0 {
      ScanLastFinds(g, first, last, n - 1);
    }
  }

  /** A bank that is taken starts its selection at addr_first, ends it just before the new
      addr_first, and stops short of addr_last only at the end of the bank. */
  lemma TakeSpan(g: Bank, first: ulong, last: ulong)
    requires WellFormedBank(g) && first <= last && ScanBank(g, first, last).Take?
    ensures var t := ScanBank(g, first, last);
            && g.flashId != FLASH_UNKNOWN
            && 0 <= t.sel.first <= t.sel.last < g.sectorCount
            && g.start[t.sel.first] == first
            && t.next == SectorEnd(g, t.sel.last) + 1
            && first < t.next <= last + 1
            && (t.next <= last ==> t.next == BankEnd(g) + 1)
  {
    ScanFirstFinds(g, first, last, g.sectorCount);
    ScanLastFinds(g, first, last, g.sectorCount);
    var t := ScanBank(g, first, last);
    SectorBounds(g, t.sel.first);
    SectorBounds(g, t.sel.last);
    if t.sel.first < t.sel.last {
      SectorsOrdered(g, t.sel.first, t.sel.last);
    }
  }

  /** A bank holding addr_first at a sector start is taken, unless addr_last ends inside it
      other than at a sector end. */
  lemma StartIsTaken(g: Bank, first: ulong, last: ulong, i: int)
    requires WellFormedBank(g) && g.flashId != FLASH_UNKNOWN && first <= last
    requires 0 <= i < g.sectorCount && g.start[i] == first
    requires last <= BankEnd(g) ==> exists j :: 0 <= j < g.sectorCount && SectorEnd(g, j) == last
    ensures ScanBank(g, first, last).Take?
    ensures ScanBank(g, first, last).next == if last <= BankEnd(g) then last + 1 else BankEnd(g) + 1
  {
    ScanFirstFinds(g, first, last, g.sectorCount);
    ScanLastFinds(g, first, last, g.sectorCount);
    SectorBounds(g, i);
    assert Touches(g, i, first, last);
    var f := ScanFirst(g, first, last, g.sectorCount);
    var l := ScanLast(g, first, last, g.sectorCount);
    if last <= BankEnd(g) {
      var j :| 0 <= j < g.sectorCount && SectorEnd(g, j) == last;
      SectorBounds(g, j);
      assert Touches(g, j, first, last);
      assert l >= 0;
      if l < f {
        SectorsOrdered(g, l, f);
      }
    } else if l >= 0 {
      SectorBounds(g, l);
    }
    TakeSpan(g, first, last);
    SectorBounds(g, ScanBank(g, first, last).sel.last);
  }

  // ---------------------------------------------------------------- the whole scan

  /** What is selected is always exactly a prefix [addr_first, next) of the request. */
  lemma {:induction false} SelectionIsPrefix(banks: seq<Bank>, k: nat, first: ulong, last: ulong, x: int)
    requires WellFormed(banks) && k <= |banks|
    requires Fill(banks, k, first, last).rc == 0
    ensures var r := Fill(banks, k, first, last);
            && first <= r.next
            && (first <= last ==> r.next <= last + 1)
            && (Covered(banks, k, r.sel, x) <==> first <= x < r.next)
    decreases |banks| - k
  {
    var r := Fill(banks, k, first, last);
    if k < |banks| && first <= last {
      match ScanBank(banks[k], first, last)
      case Skip =>
        SelectionIsPrefix(banks, k + 1, first, last, x);
        CoveredTail(banks, k, r.sel, x);
      case Take(s, next) =>
        TakeSpan(banks[k], first, last);
        SpanOfSectors(banks[k], s.first, s.last, x);
        SelectionIsPrefix(banks, k + 1, next, last, x);
        CoveredTail(banks, k, r.sel, x);
    }
  }

  lemma CoveredTail(banks: seq<Bank>, k: nat, sel: seq<Selection>, x: int)
    requires k + |sel| == |banks| && k < |banks|
    ensures Covered(banks, k, sel, x) <==> ByteSelected(banks[k], sel[0], x) || Covered(banks, k + 1, sel[1..], x)
  {
    if Covered(banks, k, sel, x) {
      var b :| k <= b < |banks| && ByteSelected(banks[b], sel[b - k], x);
      assert b > k ==> sel[b - k] == sel[1..][b - (k + 1)];
    }
    if Covered(banks, k + 1, sel[1..], x) {
      var b :| k + 1 <= b < |banks| && ByteSelected(banks[b], sel[1..][b - (k + 1)], x);
      assert sel[b - k] == sel[1..][b - (k + 1)];
    }
  }

  lemma SkippedHasNoEnd(g: Bank, first: ulong, last: ulong)
    requires WellFormedBank(g) && first <= last && ScanBank(g, first, last) == Skip
    ensures forall i :: 0 <= i < g.sectorCount ==> SectorEnd(g, i) != last
  {
    if g.flashId != FLASH_UNKNOWN {
      ScanLastFinds(g, first, last, g.sectorCount);
      forall i | 0 <= i < g.sectorCount ensures SectorEnd(g, i) != last {
        SectorBounds(g, i);
      }
    }
  }

  /** The scan got past addr_last exactly when addr_last is the last byte of a sector. */
  lemma {:induction false} CompleteIffSectorEnd(banks: seq<Bank>, k: nat, first: ulong, last: ulong)
    requires WellFormed(banks) && k <= |banks| && first <= last
    requires Fill(banks, k, first, last).rc == 0
    requires forall b, i :: 0 <= b < k && 0 <= i < banks[b].sectorCount ==> SectorEnd(banks[b], i) != last
    ensures Fill(banks, k, first, last).next == last + 1 <==> IsSectorEnd(banks, last)
    decreases |banks| - k
  {
    if k < |banks| {
      var g := banks[k];
      match ScanBank(g, first, last)
      case Skip =>
        SkippedHasNoEnd(g, first, last);
        CompleteIffSectorEnd(banks, k + 1, first, last);
      case Take(s, next) =>
        TakeSpan(g, first, last);
        if next <= last {
          forall i | 0 <= i < g.sectorCount ensures SectorEnd(g, i) != last {
            SectorBounds(g, i);
          }
          CompleteIffSectorEnd(banks, k + 1, next, last);
        } else {
          assert SectorEnd(banks[k], s.last) == last;
        }
    }
  }

  /** A scan that selects anything started at a sector start. */
  lemma {:induction false} ProgressStartsAtSector(banks: seq<Bank>, k: nat, first: ulong, last: ulong)
    requires WellFormed(banks) && k <= |banks|
    requires Fill(banks, k, first, last).rc == 0 && Fill(banks, k, first, last).next > first
    ensures IsSectorStart(banks, first)
    decreases |banks| - k
  {
    match ScanBank(banks[k], first, last)
    case Skip => ProgressStartsAtSector(banks, k + 1, first, last);
    case Take(s, next) =>
      TakeSpan(banks[k], first, last);
      assert banks[k].start[s.first] == first;
  }

  lemma ByteInBank(g: Bank, s: Selection, x: int)
    requires WellFormedBank(g) && ByteSelected(g, s, x)
    ensures InBank(g, x)
  {
    var i :| s.first <= i <= s.last && InSector(g, i, x);
    SectorBounds(g, i);
  }

  /** Banks of disjoint address ranges are ordered as any one byte of each is. */
  lemma BanksOrdered(banks: seq<Bank>, b: int, c: int, x: int)
    requires WellFormed(banks) && 0 <= b < |banks| && 0 <= c < |banks| && b != c
    requires banks[b].flashId != FLASH_UNKNOWN && InBank(banks[c], x) && x > BankEnd(banks[b])
    ensures BankEnd(banks[b]) < banks[c].start[0]
  {
    SectorBounds(banks[b], 0);
    SectorBounds(banks[c], 0);
    if banks[c].start[0] <= BankEnd(banks[b]) {
      assert InBank(banks[c], BankEnd(banks[b])) && InBank(banks[b], BankEnd(banks[b]));
    }
  }

  lemma MeetingByte(g: Bank, first: ulong, last: ulong) returns (x: int)
    requires WellFormedBank(g) && Meets(g, first, last) && first <= last
    ensures InBank(g, x) && first <= x <= last
  {
    SectorBounds(g, 0);
    x := if g.start[0] >= first then g.start[0] else first as int;
  }

  lemma NotInTwoBanks(banks: seq<Bank>, k: nat, x: int)
    requires WellFormed(banks) && k < |banks| && InBank(banks[k], x)
    ensures !IsFlash(banks, k + 1, x)
  {
    forall b | k + 1 <= b < |banks| ensures !InBank(banks[b], x) {
    }
  }

  /** Success on a range ending at a sector end: every bank that meets the range lies above
      the addresses selected before it. */
  lemma {:induction false} SuccessIsAscending(banks: seq<Bank>, k: nat, first: ulong, last: ulong)
    requires WellFormed(banks) && k <= |banks| && first <= last
    requires Fill(banks, k, first, last).rc == 0 && Fill(banks, k, first, last).next == last + 1
    ensures Ascending(banks, k, first, last)
    ensures AllFlash(banks, k, first, last)
    decreases |banks| - k
  {
    var r := Fill(banks, k, first, last);
    var g := banks[k];
    forall x | first <= x <= last ensures IsFlash(banks, k, x) {
      SelectionIsPrefix(banks, k, first, last, x);
      var b :| k <= b < |banks| && ByteSelected(banks[b], r.sel[b - k], x);
      ByteInBank(banks[b], r.sel[b - k], x);
    }
    match ScanBank(g, first, last)
    case Skip =>
      SuccessIsAscending(banks, k + 1, first, last);
      if Meets(g, first, last) {
        var x := MeetingByte(g, first, last);
        NotInTwoBanks(banks, k, x);
        assert false;
      }
    case Take(s, next) =>
      TakeSpan(g, first, last);
      SectorBounds(g, 0);
      if next <= last {
        SuccessIsAscending(banks, k + 1, next, last);
      }
      forall b, c | k <= b < c < |banks| && Meets(banks[b], first, last) && Meets(banks[c], first, last)
        ensures BankEnd(banks[b]) < banks[c].start[0]
      {
        LaterBankIsAbove(banks, k, c, first, last);
        if b > k {
          LaterBankIsAbove(banks, k, b, first, last);
        }
      }
  }

  /** After bank k is taken, a later bank meeting the range starts above the whole of bank k. */
  lemma LaterBankIsAbove(banks: seq<Bank>, k: nat, c: int, first: ulong, last: ulong)
    requires WellFormed(banks) && 0 <= k < c < |banks| && first <= last
    requires Fill(banks, k, first, last).rc == 0 && Fill(banks, k, first, last).next == last + 1
    requires ScanBank(banks[k], first, last).Take? && Meets(banks[c], first, last)
    ensures BankEnd(banks[k]) < banks[c].start[0]
    ensures ScanBank(banks[k], first, last).next <= last
    ensures Meets(banks[c], ScanBank(banks[k], first, last).next, last)
  {
    var t := ScanBank(banks[k], first, last);
    TakeSpan(banks[k], first, last);
    SectorBounds(banks[k], t.sel.last);
    SectorBounds(banks[k], t.sel.first);
    var x := MeetingByte(banks[c], first, last);
    assert !InBank(banks[k], x);
    BanksOrdered(banks, k, c, x);
  }

  /** Flash outside bank k is flash of the later banks. */
  lemma FlashOfLaterBanks(banks: seq<Bank>, k: nat, first: int, from: int, last: int)
    requires k < |banks| && first <= from && AllFlash(banks, k, first, last)
    requires forall x :: from <= x <= last ==> !InBank(banks[k], x)
    ensures AllFlash(banks, k + 1, from, last)
  {
    forall x: int {:trigger IsFlash(banks, k + 1, x)} | from <= x <= last ensures IsFlash(banks, k + 1, x) {
      assert IsFlash(banks, k, x);
      var b :| k <= b < |banks| && InBank(banks[b], x);
      assert b != k;
    }
  }

  /** The bank that holds addr_first is taken; what follows it starts another bank. */
  lemma HomeIsTaken(banks: seq<Bank>, k: nat, first: ulong, last: ulong)
    requires WellFormed(banks) && k < |banks| && first <= last && InBank(banks[k], first)
    requires IsSectorStart(banks, first) && IsSectorEnd(banks, last) && AllFlash(banks, k, first, last)
    ensures var t := ScanBank(banks[k], first, last);
            && t.Take?
            && t.next == (if last <= BankEnd(banks[k]) then last else BankEnd(banks[k])) + 1
            && (t.next <= last ==> IsSectorStart(banks, t.next))
  {
    var g := banks[k];
    var i := StartsIn(banks, k, first);
    if last <= BankEnd(g) {
      var j := EndsIn(banks, k, last);
    }
    StartIsTaken(g, first, last, i);
    if BankEnd(g) < last {
      var next := BankEnd(g) + 1;
      assert IsFlash(banks, k, next);
      var home :| k <= home < |banks| && InBank(banks[home], next);
      BanksOrdered(banks, k, home, next);
      assert banks[home].start[0] == next;
    }
  }

  /** The conditions of acceptance for the banks from k on. */
  ghost predicate Ready(banks: seq<Bank>, k: nat, first: int, last: int) {
    && IsSectorStart(banks, first)
    && IsSectorEnd(banks, last)
    && AllFlash(banks, k, first, last)
    && Ascending(banks, k, first, last)
  }

  /** One bank of a ready scan is skipped or taken, and leaves the rest ready. */
  lemma ReadyStep(banks: seq<Bank>, k: nat, first: ulong, last: ulong)
    requires WellFormed(banks) && k <= |banks| && first <= last && Ready(banks, k, first, last)
    ensures k < |banks|
    ensures match ScanBank(banks[k], first, last)
            case Skip => Ready(banks, k + 1, first, last)
            case Fail(_) => false
            case Take(_, next) => next <= last ==> Ready(banks, k + 1, next, last)
  {
    assert IsFlash(banks, k, first);
    var home :| k <= home < |banks| && InBank(banks[home], first);
    if home == k {
      HomeIsTaken(banks, k, first, last);
      var next := ScanBank(banks[k], first, last).next;
      if next <= last {
        FlashOfLaterBanks(banks, k, first, next, last);
      }
    } else {
      SkipsForeignBank(banks, k, home, first, last);
      FlashOfLaterBanks(banks, k, first, first, last);
    }
  }

  /** The converse: such a range is accepted. */
  lemma {:induction false} ReadySucceeds(banks: seq<Bank>, k: nat, first: ulong, last: ulong)
    requires WellFormed(banks) && k <= |banks| && first <= last && Ready(banks, k, first, last)
    ensures Fill(banks, k, first, last).rc == 0
    decreases |banks| - k
  {
    ReadyStep(banks, k, first, last);
    match ScanBank(banks[k], first, last)
    case Skip => ReadySucceeds(banks, k + 1, first, last);
    case Take(_, next) =>
      if next <= last {
        ReadySucceeds(banks, k + 1, next, last);
      }
  }

  lemma StartsIn(banks: seq<Bank>, k: int, x: int) returns (i: int)
    requires WellFormed(banks) && 0 <= k < |banks| && InBank(banks[k], x) && IsSectorStart(banks, x)
    ensures 0 <= i < banks[k].sectorCount && banks[k].start[i] == x
  {
    var b, j :| 0 <= b < |banks| && 0 <= j < banks[b].sectorCount && banks[b].start[j] == x;
    SectorBounds(banks[b], j);
    assert InBank(banks[b], x);
    i := j;
  }

  lemma EndsIn(banks: seq<Bank>, k: int, x: int) returns (i: int)
    requires WellFormed(banks) && 0 <= k < |banks| && InBank(banks[k], x) && IsSectorEnd(banks, x)
    ensures 0 <= i < banks[k].sectorCount && SectorEnd(banks[k], i) == x
  {
    var b, j :| 0 <= b < |banks| && 0 <= j < banks[b].sectorCount && SectorEnd(banks[b], j) == x;
    SectorBounds(banks[b], j);
    assert InBank(banks[b], x);
    i := j;
  }

  /** A bank that does not hold addr_first is skipped when the met banks ascend. */
  lemma SkipsForeignBank(banks: seq<Bank>, k: nat, home: int, first: ulong, last: ulong)
    requires WellFormed(banks) && k < home < |banks| && first <= last
    requires InBank(banks[home], first) && IsSectorEnd(banks, last) && Ascending(banks, k, first, last)
    ensures ScanBank(banks[k], first, last) == Skip
    ensures forall x :: first <= x <= last ==> !InBank(banks[k], x)
  {
    var g := banks[k];
    if g.flashId != FLASH_UNKNOWN {
      ScanFirstFinds(g, first, last, g.sectorCount);
      ScanLastFinds(g, first, last, g.sectorCount);
      var f := ScanFirst(g, first, last, g.sectorCount);
      var l := ScanLast(g, first, last, g.sectorCount);
      SectorBounds(g, 0);
      SectorBounds(banks[home], 0);
      assert !InBank(g, first) && !Meets(g, first, last);
      if f >= 0 {
        SectorBounds(g, f);
      }
      if l >= 0 {
        SectorBounds(g, l);
      }
    }
  }

  /** MAIN RESULT, success: exact cover. */
  lemma ExactCover(banks: seq<Bank>, first: ulong, last: ulong, x: int)
    requires WellFormed(banks) && first <= last
    requires Fill(banks, 0, first, last).rc == 0 && IsSectorEnd(banks, last)
    ensures Covered(banks, 0, Fill(banks, 0, first, last).sel, x) <==> first <= x <= last
  {
    CompleteIffSectorEnd(banks, 0, first, last);
    SelectionIsPrefix(banks, 0, first, last, x);
  }

  /** MAIN RESULT, acceptance: when the range ends at a sector end, the scan succeeds exactly
      for ranges of flash that start at a sector start and whose banks ascend. */
  lemma AcceptedIff(banks: seq<Bank>, first: ulong, last: ulong)
    requires WellFormed(banks) && first <= last && IsSectorEnd(banks, last)
    ensures Fill(banks, 0, first, last).rc == 0 <==>
              IsSectorStart(banks, first) && AllFlash(banks, 0, first, last) && Ascending(banks, 0, first, last)
  {
    if Fill(banks, 0, first, last).rc == 0 {
      CompleteIffSectorEnd(banks, 0, first, last);
      ProgressStartsAtSector(banks, 0, first, last);
      SuccessIsAscending(banks, 0, first, last);
    }
    if Ready(banks, 0, first, last) {
      ReadySucceeds(banks, 0, first, last);
    }
  }

  /** When addr_last is not a sector end a 0 return selects only a proper prefix: exactness of
      the cover is equivalent to addr_last being a sector end. */
  lemma ExactIffSectorEnd(banks: seq<Bank>, first: ulong, last: ulong)
    requires WellFormed(banks) && first <= last && Fill(banks, 0, first, last).rc == 0
    ensures (forall x :: Covered(banks, 0, Fill(banks, 0, first, last).sel, x) <==> first <= x <= last)
            <==> IsSectorEnd(banks, last)
  {
    var r := Fill(banks, 0, first, last);
    CompleteIffSectorEnd(banks, 0, first, last);
    SelectionIsPrefix(banks, 0, first, last, last);
    forall x ensures Covered(banks, 0, r.sel, x) <==> first <= x < r.next {
      SelectionIsPrefix(banks, 0, first, last, x);
    }
  }

  // ---------------------------------------------------------------- sectors counted once

  predicate Chosen(s: Selection, i: int) {
    0 <= s.first <= i <= s.last
  }

  ghost function Interval(k: int, s: Selection): set<(int, int)> {
    set i | s.first <= i <= s.last && Chosen(s, i) :: (k, i)
  }

  /** The (bank, sector) pairs selected in banks k, k + 1, ... */
  ghost function SectorsOf(k: int, sel: seq<Selection>): (r: set<(int, int)>)
    ensures forall p :: p in r <==> k <= p.0 < k + |sel| && Chosen(sel[p.0 - k], p.1)
    decreases |sel|
  {
    if sel == [] then {} else Interval(k, sel[0]) + SectorsOf(k + 1, sel[1..])
  }

  /** s_count is the number of distinct (bank, sector) pairs selected. */
  lemma {:induction false} CountIsSectors(banks: seq<Bank>, k: nat, first: ulong, last: ulong)
    requires WellFormed(banks) && k <= |banks| && Fill(banks, k, first, last).rc == 0
    ensures Fill(banks, k, first, last).count == |SectorsOf(k, Fill(banks, k, first, last).sel)|
    decreases |banks| - k
  {
    var r := Fill(banks, k, first, last);
    if k < |banks| && first <= last {
      var from, size := CountStep(banks, k, first, last);
      CountIsSectors(banks, k + 1, from, last);
      IntervalSize(k, r.sel[0]);
      DisjointParts(k, r.sel);
    } else {
      NothingSelected(k, r.sel);
    }
  }

  /** What one bank adds to the count. */
  lemma CountStep(banks: seq<Bank>, k: nat, first: ulong, last: ulong) returns (from: ulong, size: int)
    requires WellFormed(banks) && k < |banks| && first <= last && Fill(banks, k, first, last).rc == 0
    ensures var r, rest := Fill(banks, k, first, last), Fill(banks, k + 1, from, last);
            && rest.rc == 0 && r.sel[1..] == rest.sel && r.count == size + rest.count
            && size == if 0 <= r.sel[0].first <= r.sel[0].last then r.sel[0].last - r.sel[0].first + 1 else 0
  {
    from, size := first, 0;
    var t := ScanBank(banks[k], first, last);
    if t.Take? {
      TakeSpan(banks[k], first, last);
      from, size := t.next, t.sel.last - t.sel.first + 1;
    }
    assert Fill(banks, k, first, last).sel[1..] == Fill(banks, k + 1, from, last).sel;
  }

  lemma DisjointParts(k: int, sel: seq<Selection>)
    requires |sel| > 0
    ensures |SectorsOf(k, sel)| == |Interval(k, sel[0])| + |SectorsOf(k + 1, sel[1..])|
  {
    assert Interval(k, sel[0]) !! SectorsOf(k + 1, sel[1..]);
  }

  lemma NothingSelected(k: int, sel: seq<Selection>)
    requires forall i :: 0 <= i < |sel| ==> sel[i] == NONE
    ensures SectorsOf(k, sel) == {}
  {
    forall p ensures p !in SectorsOf(k, sel) {
    }
  }

  lemma {:induction false} IntervalSize(k: int, s: Selection)
    ensures |Interval(k, s)| == if 0 <= s.first <= s.last then s.last - s.first + 1 else 0
    decreases s.last - s.first
  {
    if 0 <= s.first <= s.last {
      var s' := s.(last := s.last - 1);
      IntervalSize(k, s');
      forall p | p in Interval(k, s) ensures p in Interval(k, s') + {(k, s.last)} {
        assert Chosen(s, p.1);
        assert p.1 < s.last ==> Chosen(s', p.1);
      }
      forall p | p in Interval(k, s') ensures p in Interval(k, s) {
        assert Chosen(s', p.1) && Chosen(s, p.1);
      }
      assert Chosen(s, s.last);
      assert Interval(k, s) == Interval(k, s') + {(k, s.last)};
    } else {
      assert Interval(k, s) == {};
    }
  }
}
