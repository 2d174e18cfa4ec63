/** The commands "erase start +len" and "protect on/off start +len", from the two numbers to the sectors. */
module FlashLength {
  import opened Machine
  import opened FlashRanges
  import opened FlashCommands

  const CMD_RET_USAGE := -1

  /** The sector has a byte in lo..hi. */
  predicate HasByteIn(g: Bank, i: nat, lo: int, hi: int)
    requires i < g.sectorCount
  {
    g.start[i] <= hi && lo <= SectorEnd(g, i)
  }

  /** The bytes an accepted request covers: up to the end of the sector of its last byte. */
  lemma CoveredUpTo(banks: seq<Bank>, first: ulong, len: ulong) returns (c: int, j: int)
    requires WellFormed(banks) && ResolveLength(banks, first, len).Some?
    ensures HoldsIn(banks, c, j, first + len - 1) && len >= 1
    ensures forall x ::
              Covered(banks, 0, ResolveLength(banks, first, len).value.sel, x) <==> first <= x <= SectorEnd(banks[c], j)
  {
    AcceptedDidNotWrap(banks, first, len);
    c, j := RoundedSector(banks, first + len - 1);
    forall x
      ensures Covered(banks, 0, ResolveLength(banks, first, len).value.sel, x) <==> first <= x <= SectorEnd(banks[c], j)
    {
      LengthFormIsExact(banks, first, len, c, j, x);
    }
  }

  /** MAIN RESULT in bytes: of an accepted "start +len" a sector is chosen exactly when it has a byte in
      start..start+len-1. */
  lemma ChosenIffHasByte(banks: seq<Bank>, first: ulong, len: ulong, b: nat, i: nat)
    requires WellFormed(banks) && ResolveLength(banks, first, len).Some? && b < |banks| && i < banks[b].sectorCount
    ensures Chosen(ResolveLength(banks, first, len).value.sel[b], i) <==> HasByteIn(banks[b], i, first, first + len - 1)
  {
    var sel, g := ResolveLength(banks, first, len).value.sel, banks[b];
    var c, j := CoveredUpTo(banks, first, len);
    SectorBounds(g, i);
    ChosenByByte(banks, sel, b, i, g.start[i]);
    if HasByteIn(g, i, first, first + len - 1) {
      ChosenByByte(banks, sel, b, i, if g.start[i] < first then first else g.start[i]);
    } else if Chosen(sel[b], i) {
      SectorUnique(banks, b, i, c, j, g.start[i]);
      assert false;
    }
  }

  /** How a request that is not acceptable is answered: -1, a usage error, when the sector that start+len-1
      lies in ends at or before start, and 1 otherwise. */
  function Refusal(banks: seq<Bank>, first: ulong, len: ulong): (rc: int)
    ensures rc != 0
  {
    match RoundFrom(banks, 0, Wrap(first as int + len - 1))
    case None => 1
    case Some(end) => if end <= first then -1 else 1
  }

  /** do_protect for "start +len": a sector's protection is set exactly when the request is accepted and the
      sector has a byte in start..start+len-1. */
  method DoProtect(table: seq<FlashBank>, p: int, first: ulong, len: ulong) returns (rcode: int)
    requires ValidTable(table)
    modifies Protections(table)
    ensures WellFormed(Geometries(table)) ==>
              && (rcode == 0 <==> Acceptable(Geometries(table), first, len))
              && (rcode != 0 ==> rcode == Refusal(Geometries(table), first, len))
              && forall b: nat, i: nat :: b < |table| && i < table[b].info.sectorCount ==>
                   Bits(table)[b][i]
                   == if rcode == 0 && HasByteIn(table[b].info, i, first, first + len - 1) then p % 256
                      else old(Bits(table))[b][i]
  {
    ghost var banks, before := Geometries(table), Bits(table);
    if WellFormed(banks) {
      LengthFormAcceptedIff(banks, first, len);
    }
    var rc, last := AddrSpecLength(Geometries(table), first, len);
    if rc < 0 {
      return 1;
    }
    if first >= last {
      return CMD_RET_USAGE;
    }
    rcode := SectProtect(table, p, first, last);
    if rcode == 0 && WellFormed(banks) {
      forall b: nat, i: nat | b < |table| && i < table[b].info.sectorCount
        ensures Bits(table)[b][i]
             == if HasByteIn(table[b].info, i, first, first + len - 1) then p % 256 else before[b][i]
      {
        ChosenIffHasByte(banks, first, len, b, i);
      }
    }
  }

  /** Which sectors a list of erase calls reaches. */
  ghost predicate Erased(calls: seq<EraseCall>, b: nat, i: int) {
    exists c :: c in calls && c.bank == b && c.first <= i <= c.last
  }

  lemma {:induction false} CallsReach(sel: seq<Selection>, n: nat, b: nat, i: nat)
    requires n <= |sel|
    ensures Erased(CallsFor(sel, n), b, i) <==> b < n && Chosen(sel[b], i)
  {
    if n > 0 {
      CallsReach(sel, n - 1, b, i);
      var s, calls := sel[n - 1], CallsFor(sel, n);
      if s.first >= 0 && b == n - 1 && Chosen(s, i) {
        assert EraseCall(n - 1, s.first, s.last) in calls;
      }
      if Erased(CallsFor(sel, n - 1), b, i) {
        var c :| c in CallsFor(sel, n - 1) && c.bank == b && c.first <= i <= c.last;
        assert c in calls;
      }
    }
  }

  /** Each call goes to a higher bank than the ones before it. */
  ghost predicate InBankOrder(calls: seq<EraseCall>) {
    forall j, k :: 0 <= j < k < |calls| ==> calls[j].bank < calls[k].bank
  }

  lemma {:induction false} CallsInBankOrder(sel: seq<Selection>, n: nat)
    requires n <= |sel|
    ensures InBankOrder(CallsFor(sel, n)) && forall c :: c in CallsFor(sel, n) ==> c.bank < n
  {
    if n > 0 {
      CallsInBankOrder(sel, n - 1);
    }
  }

  /** The bank has a sector with a byte in lo..hi. */
  ghost predicate Involved(g: Bank, lo: int, hi: int) {
    exists i :: 0 <= i < g.sectorCount && HasByteIn(g, i, lo, hi)
  }

  lemma SelectedIffInvolved(banks: seq<Bank>, first: ulong, len: ulong, b: nat)
    requires WellFormed(banks) && ResolveLength(banks, first, len).Some? && b < |banks|
    ensures ResolveLength(banks, first, len).value.sel[b].first >= 0 <==> Involved(banks[b], first, first + len - 1)
  {
    var s := ResolveLength(banks, first, len).value.sel[b];
    SelectionShape(banks, 0, first, RoundFrom(banks, 0, Wrap(first as int + len - 1)).value, b);
    if s.first >= 0 {
      ChosenIffHasByte(banks, first, len, b, s.first);
    } else if Involved(banks[b], first, first + len - 1) {
      var i :| 0 <= i < banks[b].sectorCount && HasByteIn(banks[b], i, first, first + len - 1);
      ChosenIffHasByte(banks, first, len, b, i);
      assert false;
    }
  }

  /** Of the banks below n, those with a byte in lo..hi answer 0. */
  ghost predicate AllAnswerZero(banks: seq<Bank>, results: seq<int>, n: nat, lo: int, hi: int)
    requires n <= |results| == |banks|
  {
    forall b :: 0 <= b < n && Involved(banks[b], lo, hi) ==> results[b] == 0
  }

  /** Exactly the sectors below bank n with a byte in lo..hi went to flash_erase. */
  ghost predicate ErasedBelow(banks: seq<Bank>, calls: seq<EraseCall>, n: nat, lo: int, hi: int) {
    forall b: nat, i: nat :: b < |banks| && i < banks[b].sectorCount ==>
      (Erased(calls, b, i) <==> b < n && HasByteIn(banks[b], i, lo, hi))
  }

  lemma CallsEraseBelow(banks: seq<Bank>, first: ulong, len: ulong, n: nat)
    requires WellFormed(banks) && ResolveLength(banks, first, len).Some? && n <= |banks|
    ensures ErasedBelow(banks, CallsFor(ResolveLength(banks, first, len).value.sel, n), n, first, first + len - 1)
  {
    var sel := ResolveLength(banks, first, len).value.sel;
    forall b: nat, i: nat | b < |banks| && i < banks[b].sectorCount
      ensures Erased(CallsFor(sel, n), b, i) <==> b < n && HasByteIn(banks[b], i, first, first + len - 1)
    {
      CallsReach(sel, n, b, i);
      ChosenIffHasByte(banks, first, len, b, i);
    }
  }

  /** How do_flerase ends for an acceptable request: banks below n were erased, and n is the end or follows
      the first bank that did not answer 0. */
  ghost predicate ErasedUpTo(banks: seq<Bank>, results: seq<int>, n: nat, rcode: int, calls: seq<EraseCall>,
                             first: int, len: int)
    requires |results| == |banks|
  {
    var lo, hi := first, first + len - 1;
    && n <= |banks| && ErasedBelow(banks, calls, n, lo, hi)
    && if rcode == 0 then n == |banks| && AllAnswerZero(banks, results, n, lo, hi)
       else n > 0 && AllAnswerZero(banks, results, n - 1, lo, hi)
            && Involved(banks[n - 1], lo, hi) && results[n - 1] == rcode
  }

  lemma ErasesInOrderMeans(banks: seq<Bank>, first: ulong, len: ulong, results: seq<int>, rcode: int,
                           calls: seq<EraseCall>)
    returns (n: nat)
    requires WellFormed(banks) && ResolveLength(banks, first, len).Some? && |results| == |banks|
    requires ErasesInOrder(ResolveLength(banks, first, len).value.sel, results, rcode, calls)
    ensures ErasedUpTo(banks, results, n, rcode, calls, first, len) && InBankOrder(calls)
  {
    var sel := ResolveLength(banks, first, len).value.sel;
    n := |banks|;
    if rcode != 0 {
      n :| 0 < n <= |sel| && sel[n - 1].first >= 0 && calls == CallsFor(sel, n) && results[n - 1] == rcode
        && forall b :: 0 <= b < n - 1 && sel[b].first >= 0 ==> results[b] == 0;
    }
    CallsInBankOrder(sel, n);
    CallsEraseBelow(banks, first, len, n);
    forall b | 0 <= b < n ensures sel[b].first >= 0 <==> Involved(banks[b], first, first + len - 1) {
      SelectedIffInvolved(banks, first, len, b);
    }
  }

  /** do_flerase for "start +len": nothing is erased unless the request is acceptable. Of an acceptable one the
      sectors with a byte in start..start+len-1 are erased bank by bank, up to the first bank that does not
      answer 0, whose answer is returned; 0 is returned exactly when there is no such bank. */
  method DoErase(banks: seq<Bank>, first: ulong, len: ulong, results: seq<int>)
    returns (rcode: int, erased: int, calls: seq<EraseCall>)
    requires |results| == |banks|
    ensures WellFormed(banks) && !Acceptable(banks, first, len) ==> rcode == Refusal(banks, first, len) && calls == []
    ensures WellFormed(banks) && Acceptable(banks, first, len) ==>
              InBankOrder(calls) && exists n :: ErasedUpTo(banks, results, n, rcode, calls, first, len)
    ensures WellFormed(banks) ==>
              (rcode == 0 <==> && Acceptable(banks, first, len)
                               && AllAnswerZero(banks, results, |banks|, first, first + len - 1))
    ensures WellFormed(banks) && rcode == 0 ==>
              && Acceptable(banks, first, len)
              && forall b: nat, i: nat :: b < |banks| && i < banks[b].sectorCount ==>
                   (Erased(calls, b, i) <==> HasByteIn(banks[b], i, first, first + len - 1))
  {
    if WellFormed(banks) {
      LengthFormAcceptedIff(banks, first, len);
    }
    erased, calls := 0, [];
    var rc, last := AddrSpecLength(banks, first, len);
    if rc < 0 {
      rcode := 1;
      return;
    }
    if first >= last {
      rcode := CMD_RET_USAGE;
      return;
    }
    rcode, erased, calls := SectErase(banks, first, last, results);
    if WellFormed(banks) && Acceptable(banks, first, len) {
      var n := ErasesInOrderMeans(banks, first, len, results, rcode, calls);
    }
  }
}
