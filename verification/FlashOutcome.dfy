/** Which byte ranges the range resolution refuses, for every range: also for one that ends inside a
    sector or outside the flash. */
module FlashOutcome {
  import opened Machine
  import opened FlashRanges

  /** The byte lies in a known bank, but is not the bank's last. */
  ghost predicate InsideBank(banks: seq<Bank>, x: int) {
    exists b :: 0 <= b < |banks| && InBank(banks[b], x) && x < BankEnd(banks[b])
  }

  /** The scan passes over a bank in which no sector starts at addr_first. */
  ghost predicate PassedOver(g: Bank, first: int, last: int) {
    && !(InBank(g, first) && first < BankEnd(g))
    && forall i :: 0 <= i < g.sectorCount ==> SectorEnd(g, i) != last
  }

  lemma BankWithoutStart(g: Bank, first: ulong, last: ulong)
    requires WellFormedBank(g) && first <= last
    requires forall i :: 0 <= i < g.sectorCount ==> g.start[i] != first
    ensures if PassedOver(g, first, last) then ScanBank(g, first, last) == Skip else ScanBank(g, first, last).Fail?
  {
    if g.flashId != FLASH_UNKNOWN {
      ScanFirstFinds(g, first, last, g.sectorCount);
      ScanLastFinds(g, first, last, g.sectorCount);
      forall i | 0 <= i < g.sectorCount && SectorEnd(g, i) == last && first <= last ensures Touches(g, i, first, last) {
        SectorBounds(g, i);
      }
    }
  }

  lemma {:induction false} WithoutStart(banks: seq<Bank>, k: nat, first: ulong, last: ulong)
    requires WellFormed(banks) && k <= |banks| && first <= last && !IsSectorStart(banks, first)
    ensures var r := Fill(banks, k, first, last);
            && (r.rc == 0 <==> forall b :: k <= b < |banks| ==> PassedOver(banks[b], first, last))
            && r.count == 0 && r.next == first
    decreases |banks| - k
  {
    if k < |banks| {
      BankWithoutStart(banks[k], first, last);
      WithoutStart(banks, k + 1, first, last);
    }
  }

  /** A range that starts nowhere at a sector start selects nothing, and is refused when it starts inside a
      bank or ends at a sector end. */
  lemma OffStartIff(banks: seq<Bank>, first: ulong, last: ulong)
    requires WellFormed(banks) && first <= last && !IsSectorStart(banks, first)
    ensures Fill(banks, 0, first, last).rc == 0 <==> !IsSectorEnd(banks, last) && !InsideBank(banks, first)
    ensures Fill(banks, 0, first, last).count == 0
  {
    WithoutStart(banks, 0, first, last);
    if Fill(banks, 0, first, last).rc == 0 {
      forall b | 0 <= b < |banks| ensures PassedOver(banks[b], first, last) {
      }
    }
  }

  /** The bytes of the range from bank k on are flash of banks met in ascending order. */
  ghost predicate Run(banks: seq<Bank>, k: nat, first: int, last: int) {
    AllFlash(banks, k, first, last) && Ascending(banks, k, first, last)
  }

  /** A bank that does not hold addr_first neither ends nor begins a run. */
  lemma ForeignBank(banks: seq<Bank>, k: nat, first: ulong, last: ulong)
    requires WellFormed(banks) && k < |banks| && first <= last && !InBank(banks[k], first)
    ensures Run(banks, k, first, last) <==> Run(banks, k + 1, first, last)
  {
    var g := banks[k];
    if Run(banks, k, first, last) {
      assert IsFlash(banks, k, first);
      var home :| k <= home < |banks| && InBank(banks[home], first);
      SectorBounds(banks[home], 0);
      assert Meets(banks[home], first, last);
      assert !Meets(g, first, last);
      FlashOfLaterBanks(banks, k, first, first, last);
    }
    if Run(banks, k + 1, first, last) {
      FlashOfAllBanks(banks, k, first, last);
      if Meets(g, first, last) {
        var x := MeetingByte(g, first, last);
        NotInTwoBanks(banks, k, x);
        assert false;
      }
    }
  }

  lemma FlashOfAllBanks(banks: seq<Bank>, k: nat, first: int, last: int)
    requires k < |banks| && AllFlash(banks, k + 1, first, last)
    ensures AllFlash(banks, k, first, last)
  {
    forall x | first <= x <= last ensures IsFlash(banks, k, x) {
      assert IsFlash(banks, k + 1, x);
    }
  }

  /** A range within one bank is a run. */
  lemma RunInBank(banks: seq<Bank>, k: nat, first: ulong, last: ulong)
    requires WellFormed(banks) && k < |banks| && first <= last && InBank(banks[k], first) && last <= BankEnd(banks[k])
    ensures Run(banks, k, first, last)
  {
    forall x | first <= x <= last ensures IsFlash(banks, k, x) {
      assert InBank(banks[k], x);
    }
    forall c | k < c < |banks| ensures !Meets(banks[c], first, last) {
      if Meets(banks[c], first, last) {
        var x := MeetingByte(banks[c], first, last);
        NotInTwoBanks(banks, k, x);
        assert false;
      }
    }
  }

  /** A range that goes beyond its first bank is a run exactly when the rest of it is. */
  lemma RunBeyondBank(banks: seq<Bank>, k: nat, first: ulong, last: ulong)
    requires WellFormed(banks) && k < |banks| && InBank(banks[k], first) && BankEnd(banks[k]) < last
    ensures Run(banks, k, first, last) <==> Run(banks, k + 1, BankEnd(banks[k]) + 1, last)
  {
    var g, next := banks[k], BankEnd(banks[k]) + 1;
    if Run(banks, k, first, last) {
      FlashOfLaterBanks(banks, k, first, next, last);
    }
    if Run(banks, k + 1, next, last) {
      forall x | first <= x <= last ensures IsFlash(banks, k, x) {
        assert if x < next then InBank(g, x) else IsFlash(banks, k + 1, x);
      }
      forall c | k < c < |banks| && Meets(banks[c], first, last)
        ensures BankEnd(g) < banks[c].start[0] && Meets(banks[c], next, last)
      {
        var x := MeetingByte(banks[c], first, last);
        assert !InBank(g, x);
        BanksOrdered(banks, k, c, x);
        SectorBounds(banks[c], 0);
      }
    }
  }

  /** The bank that holds addr_first, of a range that does not end at a sector end. */
  lemma HomeWithoutEnd(banks: seq<Bank>, k: nat, first: ulong, last: ulong)
    requires WellFormed(banks) && k < |banks| && first <= last && InBank(banks[k], first)
    requires IsSectorStart(banks, first) && !IsSectorEnd(banks, last)
    ensures var t := ScanBank(banks[k], first, last);
            if last <= BankEnd(banks[k]) then t.Fail? else t.Take? && t.next == BankEnd(banks[k]) + 1
  {
    var g := banks[k];
    var i := StartsIn(banks, k, first);
    if last <= BankEnd(g) {
      SectorBounds(g, i);
      assert Touches(g, i, first, last);
      ScanFirstFinds(g, first, last, g.sectorCount);
      ScanLastFinds(g, first, last, g.sectorCount);
    } else {
      StartIsTaken(g, first, last, i);
    }
  }

  /** Of the remaining range, whatever it starts with: flash that starts at no sector start is inside a bank. */
  lemma AfterBank(banks: seq<Bank>, k: nat, last: ulong)
    requires WellFormed(banks) && k < |banks| && banks[k].flashId != FLASH_UNKNOWN && BankEnd(banks[k]) < last
    requires !IsSectorStart(banks, BankEnd(banks[k]) + 1)
    ensures forall b :: 0 <= b < |banks| ==> !InBank(banks[b], BankEnd(banks[k]) + 1)
    ensures !AllFlash(banks, k + 1, BankEnd(banks[k]) + 1, last)
  {
    var next := BankEnd(banks[k]) + 1;
    forall b | 0 <= b < |banks| ensures !InBank(banks[b], next) {
      if b != k && InBank(banks[b], next) {
        BanksOrdered(banks, k, b, next);
        SectorBounds(banks[b], 0);
        assert false;
      }
    }
    assert !IsFlash(banks, k + 1, next);
  }

  /** The scan from bank k on refuses exactly the runs. */
  ghost predicate RefusesRuns(banks: seq<Bank>, k: nat, first: ulong, last: ulong)
    requires k <= |banks|
  {
    Fill(banks, k, first, last).rc == 0 <==> !Run(banks, k, first, last)
  }

  /** A bank that does not hold addr_first, with the banks behind it. */
  lemma ForeignStep(banks: seq<Bank>, k: nat, first: ulong, last: ulong)
    requires WellFormed(banks) && k < |banks| && first <= last && !InBank(banks[k], first)
    requires !IsSectorEnd(banks, last) && RefusesRuns(banks, k + 1, first, last)
    ensures RefusesRuns(banks, k, first, last)
  {
    NoStartOutside(banks[k], first);
    BankWithoutStart(banks[k], first, last);
    ForeignBank(banks, k, first, last);
  }

  /** The bank that holds addr_first, with the banks behind it. */
  lemma HomeStep(banks: seq<Bank>, k: nat, first: ulong, last: ulong)
    requires WellFormed(banks) && k < |banks| && first <= last && InBank(banks[k], first)
    requires IsSectorStart(banks, first) && !IsSectorEnd(banks, last)
    requires BankEnd(banks[k]) < last ==> RefusesRuns(banks, k + 1, BankEnd(banks[k]) + 1, last)
    ensures RefusesRuns(banks, k, first, last)
  {
    HomeWithoutEnd(banks, k, first, last);
    if BankEnd(banks[k]) < last {
      RunBeyondBank(banks, k, first, last);
    } else {
      RunInBank(banks, k, first, last);
    }
  }

  /** What follows a bank does not start anywhere. */
  lemma GapStep(banks: seq<Bank>, k: nat, last: ulong)
    requires WellFormed(banks) && k < |banks| && banks[k].flashId != FLASH_UNKNOWN && BankEnd(banks[k]) < last
    requires !IsSectorStart(banks, BankEnd(banks[k]) + 1) && !IsSectorEnd(banks, last)
    ensures RefusesRuns(banks, k + 1, BankEnd(banks[k]) + 1, last)
  {
    AfterBank(banks, k, last);
    WithoutStart(banks, k + 1, BankEnd(banks[k]) + 1, last);
  }

  /** A range that starts at a sector start and does not end at a sector end is refused exactly when the scan
      gets to the bank in which it ends. */
  lemma {:induction false} WithoutEnd(banks: seq<Bank>, k: nat, first: ulong, last: ulong)
    requires WellFormed(banks) && k <= |banks| && first <= last
    requires IsSectorStart(banks, first) && !IsSectorEnd(banks, last)
    ensures RefusesRuns(banks, k, first, last)
    decreases |banks| - k, 1
  {
    if k == |banks| {
      NothingLeft(banks, first, last);
    } else if InBank(banks[k], first) {
      if BankEnd(banks[k]) < last {
        BehindHome(banks, k, last);
      }
      HomeStep(banks, k, first, last);
    } else {
      WithoutEnd(banks, k + 1, first, last);
      ForeignStep(banks, k, first, last);
    }
  }

  /** What is left behind the bank of addr_first. */
  lemma {:induction false} BehindHome(banks: seq<Bank>, k: nat, last: ulong)
    requires WellFormed(banks) && k < |banks| && banks[k].flashId != FLASH_UNKNOWN && BankEnd(banks[k]) < last
    requires !IsSectorEnd(banks, last)
    ensures RefusesRuns(banks, k + 1, BankEnd(banks[k]) + 1, last)
    decreases |banks| - k, 0
  {
    if IsSectorStart(banks, BankEnd(banks[k]) + 1) {
      WithoutEnd(banks, k + 1, BankEnd(banks[k]) + 1, last);
    } else {
      GapStep(banks, k, last);
    }
  }

  lemma NothingLeft(banks: seq<Bank>, first: ulong, last: ulong)
    requires first <= last
    ensures RefusesRuns(banks, |banks|, first, last)
  {
    assert !IsFlash(banks, |banks|, first);
  }

  lemma NoStartOutside(g: Bank, first: ulong)
    requires WellFormedBank(g) && !InBank(g, first)
    ensures forall i :: 0 <= i < g.sectorCount ==> g.start[i] != first
  {
    forall i | 0 <= i < g.sectorCount ensures g.start[i] != first {
      SectorBounds(g, i);
    }
  }

  /** When a range is accepted: one that starts at a sector start exactly when ending at a sector end and being
      an ascending run of flash go together; any other exactly when it neither ends at a sector end nor starts
      inside a bank. */
  ghost predicate Resolves(banks: seq<Bank>, first: int, last: int) {
    if IsSectorStart(banks, first)
    then IsSectorEnd(banks, last) <==> AllFlash(banks, 0, first, last) && Ascending(banks, 0, first, last)
    else !IsSectorEnd(banks, last) && !InsideBank(banks, first)
  }

  /** MAIN RESULT, the return code for every range; what is accepted without a sector start selects nothing. */
  lemma ReturnsZeroIff(banks: seq<Bank>, first: ulong, last: ulong)
    requires WellFormed(banks)
    ensures Fill(banks, 0, first, last).rc == 0 <==> first > last || Resolves(banks, first, last)
    ensures first > last || !IsSectorStart(banks, first) ==> Fill(banks, 0, first, last).count == 0
  {
    if first > last {
    } else if !IsSectorStart(banks, first) {
      OffStartIff(banks, first, last);
    } else if IsSectorEnd(banks, last) {
      AcceptedIff(banks, first, last);
    } else {
      WithoutEnd(banks, 0, first, last);
    }
  }

  /** A range of flash that ends inside a sector is refused: "end address not on sector boundary". */
  lemma EndsInsideIsRefused(banks: seq<Bank>, first: ulong, last: ulong)
    requires WellFormed(banks) && first <= last && IsSectorStart(banks, first)
    requires AllFlash(banks, 0, first, last) && Ascending(banks, 0, first, last)
    ensures Fill(banks, 0, first, last).rc == 0 <==> IsSectorEnd(banks, last)
  {
    ReturnsZeroIff(banks, first, last);
  }
}
