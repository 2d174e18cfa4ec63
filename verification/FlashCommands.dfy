/** The flash commands built on range resolution: "start +len", protect and erase. */
module FlashCommands {
  import opened Machine
  import opened FlashOutcome
  import opened FlashRanges
  import opened Wrappers

  // ---------------------------------------------------------------- flash_sect_roundb

  function RoundInBank(g: Bank, i: nat, addr: ulong): Option<ulong>
    decreases g.sectorCount - i
  {
    if i >= g.sectorCount then None
    else if g.start[i] <= addr <= SectorEnd(g, i) then Some(SectorEnd(g, i))
    else RoundInBank(g, i + 1, addr)
  }

  /** The end of the first sector, in bank and sector order, that holds addr. */
  function RoundFrom(banks: seq<Bank>, k: nat, addr: ulong): Option<ulong>
    decreases |banks| - k
  {
    if k >= |banks| then None
    else
      var r := RoundInBank(banks[k], 0, addr);
      if r.Some? then r else RoundFrom(banks, k + 1, addr)
  }

  method RoundToSectorEnd(banks: seq<Bank>, addr: ulong) returns (rc: int, rounded: ulong)
    ensures match RoundFrom(banks, 0, addr)
            case None => rc == 1 && rounded == addr
            case Some(end) => rc == 0 && rounded == end
  {
    rounded := addr;
    var found := false;
    var bank := 0;
    while bank < |banks| && !found
      invariant 0 <= bank <= |banks|
      invariant !found ==> rounded == addr && RoundFrom(banks, 0, addr) == RoundFrom(banks, bank, addr)
      invariant found ==> RoundFrom(banks, 0, addr) == Some(rounded)
    {
      var i := 0;
      var info := banks[bank];
      while i < info.sectorCount && !found
        invariant 0 <= i <= info.sectorCount
        invariant !found ==> rounded == addr && RoundInBank(info, 0, addr) == RoundInBank(info, i, addr)
        invariant found ==> RoundInBank(info, 0, addr) == Some(rounded)
      {
        var sectorEnd: ulong;
        if i == info.sectorCount - 1 {
          sectorEnd := Wrap(info.start[0] as int + info.size - 1);
        } else {
          sectorEnd := Wrap(info.start[i + 1] as int - 1);
        }
        if addr <= sectorEnd && addr >= info.start[i] {
          found := true;
          if addr < sectorEnd {
            rounded := sectorEnd;
          }
        }
        i := i + 1;
      }
      bank := bank + 1;
    }
    rc := if found then 0 else 1;
  }

  ghost predicate HoldsIn(banks: seq<Bank>, b: int, i: int, x: int) {
    0 <= b < |banks| && InSector(banks[b], i, x)
  }

  lemma {:induction false} RoundInBankMeans(g: Bank, i: nat, addr: ulong)
    ensures RoundInBank(g, i, addr).None? <==> forall j :: i <= j < g.sectorCount ==> !InSector(g, j, addr)
    ensures RoundInBank(g, i, addr).Some? ==>
              exists j :: i <= j && InSector(g, j, addr) && RoundInBank(g, i, addr).value == SectorEnd(g, j)
    decreases g.sectorCount - i
  {
    if i < g.sectorCount {
      if g.start[i] <= addr <= SectorEnd(g, i) {
        assert InSector(g, i, addr);
      } else {
        RoundInBankMeans(g, i + 1, addr);
      }
    }
  }

  lemma {:induction false} RoundFromMeans(banks: seq<Bank>, k: nat, addr: ulong)
    requires k <= |banks|
    ensures RoundFrom(banks, k, addr).None? <==> forall b, j :: k <= b ==> !HoldsIn(banks, b, j, addr)
    ensures RoundFrom(banks, k, addr).Some? ==>
              exists b, j :: HoldsIn(banks, b, j, addr) && RoundFrom(banks, k, addr).value == SectorEnd(banks[b], j)
    decreases |banks| - k
  {
    if k < |banks| {
      RoundInBankMeans(banks[k], 0, addr);
      if RoundInBank(banks[k], 0, addr).Some? {
        var j :| 0 <= j && InSector(banks[k], j, addr)
            && RoundInBank(banks[k], 0, addr).value == SectorEnd(banks[k], j);
        assert HoldsIn(banks, k, j, addr);
      } else {
        RoundFromMeans(banks, k + 1, addr);
      }
    }
  }

  // ---------------------------------------------------------------- "start +len", end to end

  /** The numeric part of addr_spec for the form "start +len". */
  method AddrSpecLength(banks: seq<Bank>, first: ulong, len: ulong) returns (rc: int, last: ulong)
    ensures rc == 1 <==> RoundFrom(banks, 0, Wrap(first as int + len - 1)).Some?
    ensures rc == 1 || rc == -1
    ensures rc == 1 ==> last == RoundFrom(banks, 0, Wrap(first as int + len - 1)).value
  {
    last := Wrap(first as int + len - 1);
    var r;
    r, last := RoundToSectorEnd(banks, last);
    rc := if r > 0 then -1 else 1;
  }

  /** addr_spec, the caller's addr_first >= addr_last check, and range filling in sequence:
      the selections erase or protect works on, or None for any of the refusals. */
  function ResolveLength(banks: seq<Bank>, first: ulong, len: ulong): Option<Ranges> {
    match RoundFrom(banks, 0, Wrap(first as int + len - 1))
    case None => None
    case Some(last) =>
      if first >= last then None
      else
        var r := Fill(banks, 0, first, last);
        if r.rc == 0 && r.count != 0 then Some(r) else None
  }

  /** A sector holding a byte is unique. */
  lemma SectorUnique(banks: seq<Bank>, b: int, i: int, c: int, j: int, x: int)
    requires WellFormed(banks) && HoldsIn(banks, b, i, x) && HoldsIn(banks, c, j, x)
    ensures b == c && i == j
  {
    SectorBounds(banks[b], i);
    SectorBounds(banks[c], j);
    assert InBank(banks[b], x) && InBank(banks[c], x);
    if i < j {
      SectorsOrdered(banks[b], i, j);
    } else if j < i {
      SectorsOrdered(banks[b], j, i);
    }
  }

  /** Two bytes of one sector: the later one is not a sector start. */
  lemma InsideIsNotStart(banks: seq<Bank>, b: int, i: int, x: int, y: int)
    requires WellFormed(banks) && HoldsIn(banks, b, i, x) && x < y <= SectorEnd(banks[b], i)
    ensures !IsSectorStart(banks, y)
  {
    if IsSectorStart(banks, y) {
      var c, j :| 0 <= c < |banks| && 0 <= j < banks[c].sectorCount && banks[c].start[j] == y;
      SectorBounds(banks[c], j);
      SectorUnique(banks, b, i, c, j, y);
      assert false;
    }
  }

  /** An ascending run of flash that begins at a sector start and has more than one byte. */
  ghost predicate GoodRange(banks: seq<Bank>, first: int, last: int) {
    && first < last
    && IsSectorStart(banks, first)
    && AllFlash(banks, 0, first, last)
    && Ascending(banks, 0, first, last)
  }

  /** When a request is to be accepted: it has a length, does not pass the top of the address
      space, its last byte lies in a sector, and up to the end of that sector all is good. */
  ghost predicate Acceptable(banks: seq<Bank>, first: int, len: int) {
    && len >= 1
    && first + len - 1 < WORD
    && exists b, i :: HoldsIn(banks, b, i, first + len - 1) && GoodRange(banks, first, SectorEnd(banks[b], i))
  }

  /** A nonempty prefix means at least one sector was counted. */
  lemma {:induction false} ProgressCounts(banks: seq<Bank>, k: nat, first: ulong, last: ulong)
    requires WellFormed(banks) && k <= |banks| && Fill(banks, k, first, last).rc == 0
    ensures Fill(banks, k, first, last).count >= 0
    ensures Fill(banks, k, first, last).next > first ==> Fill(banks, k, first, last).count > 0
    decreases |banks| - k
  {
    if k < |banks| && first <= last {
      match ScanBank(banks[k], first, last)
      case Skip => ProgressCounts(banks, k + 1, first, last);
      case Take(s, next) =>
        TakeSpan(banks[k], first, last);
        ProgressCounts(banks, k + 1, next, last);
    }
  }

  lemma RangeAcceptedIff(banks: seq<Bank>, first: ulong, last: ulong)
    requires WellFormed(banks) && first < last && IsSectorEnd(banks, last)
    ensures var r := Fill(banks, 0, first, last);
            r.rc == 0 && r.count != 0 <==> GoodRange(banks, first, last)
  {
    AcceptedIff(banks, first, last);
    if Fill(banks, 0, first, last).rc == 0 {
      CompleteIffSectorEnd(banks, 0, first, last);
      ProgressCounts(banks, 0, first, last);
    }
  }

  /** Rounding succeeds with the end of the one sector that holds the address. */
  lemma RoundedSector(banks: seq<Bank>, addr: ulong) returns (b: int, i: int)
    requires WellFormed(banks) && RoundFrom(banks, 0, addr).Some?
    ensures HoldsIn(banks, b, i, addr) && RoundFrom(banks, 0, addr).value == SectorEnd(banks[b], i)
    ensures IsSectorEnd(banks, RoundFrom(banks, 0, addr).value)
    ensures forall c, j :: HoldsIn(banks, c, j, addr) ==> c == b && j == i
  {
    RoundFromMeans(banks, 0, addr);
    b, i :| HoldsIn(banks, b, i, addr) && RoundFrom(banks, 0, addr).value == SectorEnd(banks[b], i);
    forall c, j | HoldsIn(banks, c, j, addr) ensures c == b && j == i {
      SectorUnique(banks, b, i, c, j, addr);
    }
  }

  /** What acceptance says about the rounded address, before wrapping is considered. */
  lemma AcceptedIsGood(banks: seq<Bank>, first: ulong, len: ulong) returns (b: int, i: int)
    requires WellFormed(banks) && ResolveLength(banks, first, len).Some?
    ensures HoldsIn(banks, b, i, Wrap(first as int + len - 1)) && GoodRange(banks, first, SectorEnd(banks[b], i))
  {
    b, i := RoundedSector(banks, Wrap(first as int + len - 1));
    RangeAcceptedIff(banks, first, SectorEnd(banks[b], i));
  }

  /** Accepted requests did not wrap around. */
  lemma AcceptedDidNotWrap(banks: seq<Bank>, first: ulong, len: ulong)
    requires WellFormed(banks) && ResolveLength(banks, first, len).Some?
    ensures len >= 1 && first + len - 1 < WORD && Wrap(first as int + len - 1) == first + len - 1
  {
    var stop := Wrap(first as int + len - 1);
    var b, i := AcceptedIsGood(banks, first, len);
    if stop < first {
      InsideIsNotStart(banks, b, i, stop, first);
    }
  }

  /** MAIN RESULT: "start +len" under machine wraparound, acceptance. */
  lemma LengthFormAcceptedIff(banks: seq<Bank>, first: ulong, len: ulong)
    requires WellFormed(banks)
    ensures ResolveLength(banks, first, len).Some? <==> Acceptable(banks, first, len)
  {
    var stop := Wrap(first as int + len - 1);
    RoundFromMeans(banks, 0, stop);
    if ResolveLength(banks, first, len).Some? {
      AcceptedDidNotWrap(banks, first, len);
      var b, i := AcceptedIsGood(banks, first, len);
    }
    if Acceptable(banks, first, len) {
      var b, i := RoundedSector(banks, stop);
      RangeAcceptedIff(banks, first, SectorEnd(banks[b], i));
    }
  }

  /** MAIN RESULT: "start +len" under machine wraparound, effect: the chosen sectors hold exactly
      the bytes from start to the end of the sector of start+len-1. */
  lemma LengthFormIsExact(banks: seq<Bank>, first: ulong, len: ulong, b: int, i: int, x: int)
    requires WellFormed(banks) && ResolveLength(banks, first, len).Some?
    requires HoldsIn(banks, b, i, first + len - 1)
    ensures Covered(banks, 0, ResolveLength(banks, first, len).value.sel, x) <==> first <= x <= SectorEnd(banks[b], i)
  {
    AcceptedDidNotWrap(banks, first, len);
    var c, j := RoundedSector(banks, first + len - 1);
    ExactCover(banks, first, SectorEnd(banks[b], i), x);
  }

  /** What a 0 return means for the commands that work on the selections: a sector is chosen exactly
      when it lies within the prefix [addr_first, next). */
  lemma ChosenIff(banks: seq<Bank>, first: ulong, last: ulong, b: nat, i: nat)
    requires WellFormed(banks) && Fill(banks, 0, first, last).rc == 0
    requires b < |banks| && i < banks[b].sectorCount
    ensures var r := Fill(banks, 0, first, last);
            Chosen(r.sel[b], i) <==> first <= banks[b].start[i] && SectorEnd(banks[b], i) < r.next
  {
    var r := Fill(banks, 0, first, last);
    SectorBounds(banks[b], i);
    ChosenByByte(banks, r.sel, b, i, banks[b].start[i]);
    ChosenByByte(banks, r.sel, b, i, SectorEnd(banks[b], i));
    SelectionIsPrefix(banks, 0, first, last, banks[b].start[i]);
    SelectionIsPrefix(banks, 0, first, last, SectorEnd(banks[b], i));
  }

  /** A byte of a sector is covered exactly when that sector is chosen. */
  lemma ChosenByByte(banks: seq<Bank>, sel: seq<Selection>, b: nat, i: nat, x: int)
    requires WellFormed(banks) && |sel| == |banks| && HoldsIn(banks, b, i, x)
    ensures Chosen(sel[b], i) <==> Covered(banks, 0, sel, x)
  {
    if Chosen(sel[b], i) {
      assert ByteSelected(banks[b], sel[b - 0], x);
    } else if Covered(banks, 0, sel, x) {
      var c :| 0 <= c < |banks| && ByteSelected(banks[c], sel[c - 0], x);
      var j :| sel[c].first <= j <= sel[c].last && InSector(banks[c], j, x);
      SectorUnique(banks, b, i, c, j, x);
      assert false;
    }
  }

  /** The form "start end" has no such protection: with an end beyond the flash, a 0 return
      selects the flash part only. */
  lemma PrefixOnlyExample()
    ensures var banks: seq<Bank> := [Geometry(1, 1, [0x1000], 0x1000)];
            var r := Fill(banks, 0, 0x1000, 0x2FFF);
            && WellFormed(banks) && r.rc == 0 && r.count == 1
            && !Covered(banks, 0, r.sel, 0x2000)
  {
    var g: Bank := Geometry(1, 1, [0x1000], 0x1000);
    assert ScanFirst(g, 0x1000, 0x2FFF, 0) == -1 && ScanLast(g, 0x1000, 0x2FFF, 0) == -1;
    assert ScanFirst(g, 0x1000, 0x2FFF, 1) == 0 && ScanLast(g, 0x1000, 0x2FFF, 1) == -1;
    assert ScanBank(g, 0x1000, 0x2FFF) == Take(Selection(0, 0), 0x2000);
    assert Fill([g], 1, 0x2000, 0x2FFF) == Ranges(0, [], 0, 0x2000);
    SelectionIsPrefix([g], 0, 0x1000, 0x2FFF, 0x2000);
  }

  // ---------------------------------------------------------------- flash_fill_sect_ranges

  lemma TakenShape(g: Bank, first: ulong, last: ulong)
    requires ScanBank(g, first, last).Take?
    ensures var s := ScanBank(g, first, last).sel;
            g.flashId != FLASH_UNKNOWN && 0 <= s.first <= s.last < g.sectorCount
  {
    ScanFirstFinds(g, first, last, g.sectorCount);
    ScanLastFinds(g, first, last, g.sectorCount);
  }

  /** No sectors, or sectors of a known bank. */
  predicate Usable(g: Bank, s: Selection) {
    s == NONE || (g.flashId != FLASH_UNKNOWN && 0 <= s.first <= s.last < g.sectorCount)
  }

  /** What a 0 return leaves in s_first/s_last: no sectors, or sectors of a known bank. */
  lemma {:induction false} SelectionShape(banks: seq<Bank>, k: nat, first: ulong, last: ulong, b: nat)
    requires k <= b < |banks| && Fill(banks, k, first, last).rc == 0
    ensures Usable(banks[b], Fill(banks, k, first, last).sel[b - k])
    decreases |banks| - k
  {
    if first <= last {
      FillUnfolds(banks, k, first, last);
      match ScanBank(banks[k], first, last)
      case Skip =>
        if b > k {
          SelectionShape(banks, k + 1, first, last, b);
        }
      case Take(s, next) =>
        TakenShape(banks[k], first, last);
        if b > k {
          SelectionShape(banks, k + 1, next, last, b);
        }
    }
  }

  /** The sector loop for one bank: it writes the entries of that bank only. */
  method ScanSectors(info: Bank, first: ulong, last: ulong, bEnd: ulong, bank: nat, sFirst: array<int>,
                     sLast: array<int>)
    requires sFirst != sLast && bank < sFirst.Length == sLast.Length
    requires sFirst[bank] == sLast[bank] == -1 && bEnd == BankEnd(info)
    modifies sFirst, sLast
    ensures sFirst[bank] == ScanFirst(info, first, last, info.sectorCount)
    ensures sLast[bank] == ScanLast(info, first, last, info.sectorCount)
    ensures forall b :: 0 <= b < sFirst.Length && b != bank ==> sFirst[b] == old(sFirst[b]) && sLast[b] == old(sLast[b])
  {
    var sEnd := info.sectorCount - 1;
    var sect := 0;
    while sect < info.sectorCount
      invariant 0 <= sect <= info.sectorCount
      invariant sFirst[bank] == ScanFirst(info, first, last, sect)
      invariant sLast[bank] == ScanLast(info, first, last, sect)
      invariant forall b :: 0 <= b < sFirst.Length && b != bank
                            ==> sFirst[b] == old(sFirst[b]) && sLast[b] == old(sLast[b])
    {
      var end := if sect == sEnd then bEnd else Wrap(info.start[sect + 1] as int - 1);
      if first <= end && last >= info.start[sect] {
        if first == info.start[sect] {
          sFirst[bank] := sect;
        }
        if last == end {
          sLast[bank] := sect;
        }
      }
      sect := sect + 1;
    }
  }

  /** The effect of one bank on rcode, addr_first, s_count and the bank's entries. */
  ghost predicate StepGives(t: Step, first: ulong, rcode: int, next: ulong, added: int, sel: Selection) {
    match t
    case Skip => rcode == 0 && next == first && added == 0 && sel == NONE
    case Fail(s) => rcode == 1 && added == 0 && sel == s
    case Take(s, n) => rcode == 0 && next == n && added == s.last - s.first + 1 && sel == s
  }

  /** The body of the bank loop for one known or unknown bank. */
  method FillBank(info: Bank, first: ulong, last: ulong, bank: nat, sFirst: array<int>, sLast: array<int>)
    returns (rcode: int, next: ulong, added: int)
    requires sFirst != sLast && bank < sFirst.Length == sLast.Length
    requires sFirst[bank] == sLast[bank] == -1
    modifies sFirst, sLast
    ensures Entries(sFirst, sLast) == old(Entries(sFirst, sLast))[bank := Entries(sFirst, sLast)[bank]]
    ensures StepGives(ScanBank(info, first, last), first, rcode, next, added, Entries(sFirst, sLast)[bank])
  {
    rcode, next, added := 0, first, 0;
    if info.flashId == FLASH_UNKNOWN {
      return;
    }
    var bEnd := Wrap(info.start[0] as int + info.size - 1);
    var sEnd := info.sectorCount - 1;
    ScanSectors(info, first, last, bEnd, bank, sFirst, sLast);
    ScanFirstFinds(info, first, last, info.sectorCount);
    ScanLastFinds(info, first, last, info.sectorCount);
    if sFirst[bank] >= 0 {
      if sLast[bank] < 0 {
        if last > bEnd {
          sLast[bank] := sEnd;
        } else {
          return 1, first, 0;
        }
      }
      if sLast[bank] < sFirst[bank] {
        return 1, first, 0;
      }
      var sect := sLast[bank];
      next := if sect == sEnd then Wrap(bEnd as int + 1) else info.start[sect + 1];
      added := sLast[bank] - sFirst[bank] + 1;
    } else if first >= info.start[0] && first < bEnd {
      rcode := 1;
    } else if sLast[bank] >= 0 {
      rcode := 1;
    }
  }

  /** One unfolding of the specification of the bank loop. */
  lemma FillUnfolds(banks: seq<Bank>, k: nat, first: ulong, last: ulong)
    requires k < |banks| && first <= last
    ensures var t, r := ScanBank(banks[k], first, last), Fill(banks, k, first, last);
            match t
            case Skip =>
              var q := Fill(banks, k + 1, first, last);
              r.rc == q.rc && r.count == q.count && r.sel == [NONE] + q.sel
            case Fail(s) => r.rc == 1 && r.count == 0 && r.sel == [s] + Unselected(|banks| - k - 1)
            case Take(s, n) => var q := Fill(banks, k + 1, n, last);
              r.rc == q.rc && r.count == s.last - s.first + 1 + q.count && r.sel == [s] + q.sel
  {
  }

  /** The bank loop of flash_fill_sect_ranges: what it has computed so far and what remains
      (specified by Fill) make up the answer for the whole request. */
  ghost predicate FillInvariant(banks: seq<Bank>, all: Ranges, last: ulong,
                                bank: nat, first: ulong, rcode: int, count: int, sel: seq<Selection>)
  {
    && bank <= |banks| == |sel| == |all.sel|
    && sel[bank..] == Unselected(|banks| - bank)
    && sel[..bank] == all.sel[..bank]
    && if rcode != 0 then rcode == all.rc && count == all.count && sel == all.sel
       else
         var rest := Fill(banks, bank, first, last);
         all.rc == rest.rc && all.count == count + rest.count && all.sel[bank..] == rest.sel
  }

  lemma FillInvariantStep(banks: seq<Bank>, all: Ranges, last: ulong, bank: nat, first: ulong, count: int,
                          sel: seq<Selection>, rcode: int, next: ulong, added: int, s: Selection)
    requires FillInvariant(banks, all, last, bank, first, 0, count, sel)
    requires bank < |banks| && first <= last
    requires StepGives(ScanBank(banks[bank], first, last), first, rcode, next, added, s)
    ensures FillInvariant(banks, all, last, bank + 1, next, rcode, count + added, sel[bank := s])
  {
    FillUnfolds(banks, bank, first, last);
    var tail := all.sel[bank..];
    assert all.sel[bank] == tail[0] && all.sel[bank + 1..] == tail[1..];
    assert sel[bank := s][..bank + 1] == sel[..bank] + [s] == all.sel[..bank + 1];
    assert sel[bank := s][bank + 1..] == sel[bank..][1..] == Unselected(|banks| - bank - 1);
    if rcode != 0 {
      var sel' := sel[bank := s];
      assert sel' == sel'[..bank + 1] + sel'[bank + 1..];
      assert all.sel == all.sel[..bank + 1] + all.sel[bank + 1..];
    }
  }

  lemma FillInvariantDone(banks: seq<Bank>, all: Ranges, last: ulong, bank: nat, first: ulong, rcode: int, count: int,
                          sel: seq<Selection>)
    requires FillInvariant(banks, all, last, bank, first, rcode, count, sel)
    requires rcode != 0 || bank == |banks| || first > last
    ensures rcode == all.rc && count == all.count && sel == all.sel
  {
    assert sel == sel[..bank] + sel[bank..];
    assert all.sel == all.sel[..bank] + all.sel[bank..];
  }

  /** The contents of s_first[] and s_last[] together. */
  ghost function Entries(sFirst: array<int>, sLast: array<int>): (s: seq<Selection>)
    requires sFirst.Length == sLast.Length
    reads sFirst, sLast
    ensures |s| == sFirst.Length && forall b :: 0 <= b < |s| ==> s[b] == Selection(sFirst[b], sLast[b])
  {
    seq(sFirst.Length, b requires 0 <= b < sFirst.Length reads sFirst, sLast => Selection(sFirst[b], sLast[b]))
  }

  method ClearSelections(sFirst: array<int>, sLast: array<int>)
    requires sFirst != sLast && sFirst.Length == sLast.Length
    modifies sFirst, sLast
    ensures Entries(sFirst, sLast) == Unselected(sFirst.Length)
  {
    var bank := 0;
    while bank < sFirst.Length
      invariant 0 <= bank <= sFirst.Length
      invariant forall b :: 0 <= b < bank ==> sFirst[b] == -1 && sLast[b] == -1
    {
      sFirst[bank], sLast[bank] := -1, -1;
      bank := bank + 1;
    }
  }

  /** The whole of flash_fill_sect_ranges: the answers of the specification, and of well-formed banks the return
      code for every range. */
  method FillSectRanges(banks: seq<Bank>, addrFirst: ulong, addrLast: ulong, sFirst: array<int>, sLast: array<int>)
    returns (rcode: int, sCount: int)
    requires sFirst != sLast && sFirst.Length == sLast.Length == |banks|
    modifies sFirst, sLast
    ensures var r := Fill(banks, 0, addrFirst, addrLast);
            rcode == r.rc && sCount == r.count && Entries(sFirst, sLast) == r.sel
    ensures WellFormed(banks) ==> (rcode == 0 <==> addrFirst > addrLast || Resolves(banks, addrFirst, addrLast))
    ensures WellFormed(banks) && IsSectorStart(banks, addrFirst) && AllFlash(banks, 0, addrFirst, addrLast)
            && Ascending(banks, 0, addrFirst, addrLast) && addrFirst <= addrLast ==>
              (rcode == 0 <==> IsSectorEnd(banks, addrLast))
  {
    if WellFormed(banks) {
      ReturnsZeroIff(banks, addrFirst, addrLast);
    }
    rcode, sCount := 0, 0;
    ClearSelections(sFirst, sLast);
    ghost var all := Fill(banks, 0, addrFirst, addrLast);
    var first: ulong := addrFirst;
    var bank := 0;
    while bank < |banks| && first <= addrLast && rcode == 0
      invariant FillInvariant(banks, all, addrLast, bank, first, rcode, sCount, Entries(sFirst, sLast))
    {
      ghost var first0, sel := first, Entries(sFirst, sLast);
      assert sel[bank] == sel[bank..][0];
      var added;
      rcode, first, added := FillBank(banks[bank], first, addrLast, bank, sFirst, sLast);
      FillInvariantStep(banks, all, addrLast, bank, first0, sCount, sel, rcode, first, added,
                        Entries(sFirst, sLast)[bank]);
      sCount := sCount + added;
      bank := bank + 1;
    }
    FillInvariantDone(banks, all, addrLast, bank, first, rcode, sCount, Entries(sFirst, sLast));
  }

  // ---------------------------------------------------------------- protect and erase

  /** One bank of flash_info[]: fixed geometry and its sector protection bytes. */
  class FlashBank {
    const info: Bank
    const protect: array<int>

    constructor (info: Bank)
      ensures this.info == info && this.protect.Length == |info.start| && fresh(this.protect)
    {
      this.info := info;
      this.protect := new int[|info.start|];
    }
  }

  ghost predicate ValidTable(table: seq<FlashBank>) {
    && (forall b :: 0 <= b < |table| ==> table[b].protect.Length == |table[b].info.start|)
    && (forall b, c :: 0 <= b < c < |table| ==> table[b].protect != table[c].protect)
  }

  function Geometries(table: seq<FlashBank>): (banks: seq<Bank>)
    ensures |banks| == |table| && forall b :: 0 <= b < |table| ==> banks[b] == table[b].info
  {
    seq(|table|, b requires 0 <= b < |table| => table[b].info)
  }

  function Protections(table: seq<FlashBank>): set<array<int>> {
    set b | b in table :: b.protect
  }

  /** The sector loop of flash_sect_protect for one bank. */
  method ProtectSectors(bank: FlashBank, first: int, last: int, p: int)
    requires 0 <= first <= last < bank.protect.Length
    modifies bank.protect
    ensures forall i :: 0 <= i < bank.protect.Length ==>
              bank.protect[i] == if first <= i <= last then p % 256 else old(bank.protect[i])
  {
    var i := first;
    while i <= last
      invariant first <= i <= last + 1
      invariant forall j :: 0 <= j < bank.protect.Length ==>
        bank.protect[j] == if first <= j < i then p % 256 else old(bank.protect[j])
    {
      bank.protect[i] := p % 256;
      i := i + 1;
    }
  }

  /** The protection of all sectors of the table. */
  ghost function Bits(table: seq<FlashBank>): (r: seq<seq<int>>)
    reads Protections(table)
    ensures |r| == |table| && forall b :: 0 <= b < |table| ==> r[b] == table[b].protect[..]
  {
    seq(|table|, b requires 0 <= b < |table| reads Protections(table) => table[b].protect[..])
  }

  /** The bits of one bank after its selected sectors are set. */
  function SetBits(bits: seq<int>, s: Selection, p: int): (r: seq<int>)
    ensures |r| == |bits| && forall i :: 0 <= i < |r| ==> r[i] == if Chosen(s, i) then p % 256 else bits[i]
  {
    seq(|bits|, i requires 0 <= i < |bits| => if Chosen(s, i) then p % 256 else bits[i])
  }

  /** One bank of flash_sect_protect. */
  method ProtectBank(table: seq<FlashBank>, bank: nat, s: Selection, p: int)
    requires ValidTable(table) && bank < |table|
    requires Usable(table[bank].info, s)
    modifies Protections(table)
    ensures Bits(table) == old(Bits(table))[bank := SetBits(old(Bits(table))[bank], s, p)]
  {
    ghost var before := Bits(table);
    var info := table[bank];
    if info.info.flashId != FLASH_UNKNOWN && s.first >= 0 && s.first <= s.last {
      ProtectSectors(info, s.first, s.last, p);
    }
    assert Bits(table)[bank] == SetBits(before[bank], s, p);
    assert forall b :: 0 <= b < |table| && b != bank ==> Bits(table)[b] == before[b];
  }

  /** The banks below n have been done. */
  ghost predicate ProtectedBelow(before: seq<seq<int>>, after: seq<seq<int>>, sel: seq<Selection>, p: int, n: nat) {
    && |before| == |after| == |sel| && n <= |before|
    && forall b :: 0 <= b < |before| ==> after[b] == if b < n then SetBits(before[b], sel[b], p) else before[b]
  }

  /** The bank loop of flash_sect_protect. */
  method ProtectBanks(table: seq<FlashBank>, sFirst: array<int>, sLast: array<int>, p: int, ghost sel: seq<Selection>)
    requires ValidTable(table) && sFirst.Length == sLast.Length == |table| && Entries(sFirst, sLast) == sel
    requires sFirst !in Protections(table) && sLast !in Protections(table)
    requires forall b :: 0 <= b < |table| ==> Usable(table[b].info, sel[b])
    modifies Protections(table)
    ensures ProtectedBelow(old(Bits(table)), Bits(table), sel, p, |table|)
  {
    ghost var before, now := Bits(table), Bits(table);
    var bank := 0;
    while bank < |table|
      invariant 0 <= bank <= |table|
      invariant Entries(sFirst, sLast) == sel
      invariant now == Bits(table) && ProtectedBelow(before, now, sel, p, bank)
    {
      ProtectStep(before, now, sel, p, bank);
      ProtectBank(table, bank, Selection(sFirst[bank], sLast[bank]), p);
      now := now[bank := SetBits(now[bank], sel[bank], p)];
      bank := bank + 1;
    }
  }

  lemma ProtectStep(before: seq<seq<int>>, now: seq<seq<int>>, sel: seq<Selection>, p: int, bank: nat)
    requires ProtectedBelow(before, now, sel, p, bank) && bank < |before|
    ensures ProtectedBelow(before, now[bank := SetBits(now[bank], sel[bank], p)], sel, p, bank + 1)
  {
  }

  /** flash_sect_protect without hardware protection. */
  method SectProtect(table: seq<FlashBank>, p: int, first: ulong, last: ulong) returns (rcode: int)
    requires ValidTable(table)
    modifies Protections(table)
    ensures var r := Fill(Geometries(table), 0, first, last);
            && rcode == (if r.rc == 0 && r.count != 0 then 0 else 1)
            && (rcode != 0 ==> Bits(table) == old(Bits(table)))
            && (rcode == 0 ==> ProtectedBelow(old(Bits(table)), Bits(table), r.sel, p, |table|))
  {
    var banks := Geometries(table);
    ghost var r, before := Fill(banks, 0, first, last), Bits(table);
    var sFirst, sLast := new int[|table|], new int[|table|];
    var planned;
    rcode, planned := FillSectRanges(banks, first, last, sFirst, sLast);
    assert Bits(table) == before;
    if planned != 0 && rcode == 0 {
      forall b: nat | b < |table| ensures Usable(banks[b], r.sel[b]) {
        SelectionShape(banks, 0, first, last, b);
      }
      ProtectBanks(table, sFirst, sLast, p, r.sel);
    } else if rcode == 0 {
      rcode := 1;
    }
  }

  /** One call of flash_erase(info, s_first, s_last). */
  datatype EraseCall = EraseCall(bank: nat, first: int, last: int)

  /** The calls that erase a selection, in bank order. */
  function CallsFor(sel: seq<Selection>, n: nat): seq<EraseCall>
    requires n <= |sel|
  {
    if n == 0 then []
    else
      var s := sel[n - 1];
      CallsFor(sel, n - 1) + if s.first >= 0 then [EraseCall(n - 1, s.first, s.last)] else []
  }

  /** How a run of flash_erase calls over the selected banks ends: flash_erase answers
      results[bank]; all selected banks are erased, or the first failing one is the last call. */
  ghost predicate ErasesInOrder(sel: seq<Selection>, results: seq<int>, rcode: int, calls: seq<EraseCall>)
    requires |results| == |sel|
  {
    if rcode == 0 then
      && calls == CallsFor(sel, |sel|)
      && forall b :: 0 <= b < |sel| && sel[b].first >= 0 ==> results[b] == 0
    else
      exists n :: 0 < n <= |sel| && sel[n - 1].first >= 0 && calls == CallsFor(sel, n) && results[n - 1] == rcode
        && forall b :: 0 <= b < n - 1 && sel[b].first >= 0 ==> results[b] == 0
  }

  /** The bank loop of flash_sect_erase. */
  method EraseBanks(ghost sel: seq<Selection>, sFirst: array<int>, sLast: array<int>, results: seq<int>)
    returns (rcode: int, erased: int, calls: seq<EraseCall>)
    requires |results| == |sel| == sFirst.Length == sLast.Length && Entries(sFirst, sLast) == sel
    ensures ErasesInOrder(sel, results, rcode, calls)
    ensures rcode == 0 ==> erased == SumSizes(sel, |sel|)
  {
    rcode, erased, calls := 0, 0, [];
    var bank := 0;
    while bank < |results| && rcode == 0
      invariant 0 <= bank <= |sel|
      invariant calls == CallsFor(sel, bank) && erased == SumSizes(sel, bank)
      invariant forall b :: 0 <= b < (if rcode == 0 then bank else bank - 1) && sel[b].first >= 0 ==> results[b] == 0
      invariant rcode != 0 ==> bank > 0 && sel[bank - 1].first >= 0 && results[bank - 1] == rcode
    {
      assert sel[bank] == Selection(sFirst[bank], sLast[bank]);
      if sFirst[bank] >= 0 {
        erased := erased + (sLast[bank] - sFirst[bank] + 1);
        calls := calls + [EraseCall(bank, sFirst[bank], sLast[bank])];
        rcode := results[bank];
      }
      bank := bank + 1;
    }
  }

  /** flash_sect_erase. A 0 return means every planned sector went to flash_erase and was
      counted; when resolution fails or selects nothing no bank is touched. */
  method SectErase(banks: seq<Bank>, first: ulong, last: ulong, results: seq<int>)
    returns (rcode: int, erased: int, calls: seq<EraseCall>)
    requires |results| == |banks|
    ensures var r := Fill(banks, 0, first, last);
            if r.rc != 0 || r.count == 0 then rcode == 1 && calls == [] && erased == 0
            else ErasesInOrder(r.sel, results, rcode, calls) && (rcode == 0 ==> erased == r.count)
  {
    var sFirst, sLast := new int[|banks|], new int[|banks|];
    var planned;
    erased, calls := 0, [];
    rcode, planned := FillSectRanges(banks, first, last, sFirst, sLast);
    if planned != 0 && rcode == 0 {
      CountIsSum(banks, 0, first, last);
      rcode, erased, calls := EraseBanks(Fill(banks, 0, first, last).sel, sFirst, sLast, results);
    } else if rcode == 0 {
      rcode := 1;
    }
  }

  function Size(s: Selection): int {
    if s.first >= 0 then s.last - s.first + 1 else 0
  }

  function SumSizes(sel: seq<Selection>, n: nat): int
    requires n <= |sel|
  {
    if n == 0 then 0 else SumSizes(sel, n - 1) + Size(sel[n - 1])
  }

  lemma {:induction false} SumFromFront(sel: seq<Selection>, n: nat)
    requires 0 <= n <= |sel|
    ensures n > 0 ==> SumSizes(sel, n) == Size(sel[0]) + SumSizes(sel[1..], n - 1)
  {
    if n > 1 {
      SumFromFront(sel, n - 1);
    }
  }

  lemma SumOfCons(s: Selection, rest: seq<Selection>)
    ensures SumSizes([s] + rest, |rest| + 1) == Size(s) + SumSizes(rest, |rest|)
  {
    SumFromFront([s] + rest, |rest| + 1);
    assert ([s] + rest)[1..] == rest;
  }

  lemma {:induction false} CountIsSum(banks: seq<Bank>, k: nat, first: ulong, last: ulong)
    requires k <= |banks| && Fill(banks, k, first, last).rc == 0
    ensures Fill(banks, k, first, last).count == SumSizes(Fill(banks, k, first, last).sel, |banks| - k)
    decreases |banks| - k
  {
    var r := Fill(banks, k, first, last);
    if k < |banks| && first <= last {
      FillUnfolds(banks, k, first, last);
      var t := ScanBank(banks[k], first, last);
      var from := if t.Take? then t.next else first;
      CountIsSum(banks, k + 1, from, last);
      SumOfCons(r.sel[0], Fill(banks, k + 1, from, last).sel);
    } else {
      ZeroSum(r.sel, |r.sel|);
    }
  }

  lemma {:induction false} ZeroSum(sel: seq<Selection>, n: nat)
    requires n <= |sel| && forall i :: 0 <= i < |sel| ==> sel[i] == NONE
    ensures SumSizes(sel, n) == 0
  {
    if n > 0 {
      ZeroSum(sel, n - 1);
    }
  }
}
