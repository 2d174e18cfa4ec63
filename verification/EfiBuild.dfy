/** efi_build_mem_table on its array: the library's shell sort, then the two-cursor merge loop
    that reads and writes the same buffer. */
module EfiBuild {
  import opened Machine
  import opened EfiMemTable
  import opened EfiTypes

  // ---------------------------------------------------------------- lib/qsort.c

  /** What one gap pass has achieved below index i. */
  ghost predicate GapSorted(s: seq<Desc>, gap: nat, i: nat) {
    forall k :: gap <= k < i && k < |s| ==> Compare(s[k - gap], s[k]) <= 0
  }

  /** While the element at j is being moved down: only the pair ending at j is undecided, and
      the elements on both sides of j are in order. */
  ghost predicate Inserting(s: seq<Desc>, gap: nat, i: nat, j: nat) {
    && 0 < gap && j <= i < |s|
    && (forall k :: gap <= k <= i && k != j ==> Compare(s[k - gap], s[k]) <= 0)
    && (j >= gap && j + gap <= i ==> Compare(s[j - gap], s[j + gap]) <= 0)
  }

  lemma CompareFlips(a: Desc, b: Desc)
    requires Compare(a, b) > 0
    ensures Compare(b, a) <= 0
  {
  }

  /** What sorting may do to the array: permute it, and only below nel. */
  ghost predicate PermutedBelow(s: seq<Desc>, t: seq<Desc>, nel: nat) {
    |s| == |t| && multiset(s) == multiset(t) && forall k :: nel <= k < |s| ==> s[k] == t[k]
  }

  function Swapped(s: seq<MemDesc>, a: nat, b: nat): (t: seq<MemDesc>)
    requires a < b < |s|
  {
    s[b := s[a]][a := s[b]]
  }

  lemma SwapKeepsInserting(s: seq<MemDesc>, gap: nat, i: nat, j: nat)
    requires Inserting(s, gap, i, j) && j >= gap && Compare(s[j - gap], s[j]) > 0
    ensures Inserting(Swapped(s, j - gap, j), gap, i, j - gap)
  {
    CompareFlips(s[j - gap], s[j]);
    var t := Swapped(s, j - gap, j);
    forall k | gap <= k <= i && k != j - gap ensures Compare(t[k - gap], t[k]) <= 0 {
    }
  }

  lemma SwapPermutes(s0: seq<MemDesc>, s: seq<MemDesc>, a: nat, b: nat, nel: nat)
    requires a < b < |s| && b < nel && PermutedBelow(s0, s, nel)
    ensures PermutedBelow(s0, Swapped(s, a, b), nel)
  {
  }

  /** The byte-wise exchange of two elements. */
  method Swap(base: array<MemDesc>, a: nat, b: nat)
    requires a < b < base.Length
    modifies base
    ensures base[..] == Swapped(old(base[..]), a, b)
  {
    base[a], base[b] := base[b], base[a];
  }

  /** The array s while the element that was at i is moved down, s0 being the array before. */
  ghost predicate Moving(s0: seq<Desc>, s: seq<Desc>, nel: nat, gap: nat, i: nat, j: nat) {
    i < nel && Inserting(s, gap, i, j) && PermutedBelow(s0, s, nel)
  }

  lemma StartMoving(s: seq<Desc>, nel: nat, gap: nat, i: nat)
    requires 0 < gap <= i < |s| && i < nel && GapSorted(s, gap, i)
    ensures Moving(s, s, nel, gap, i, i)
  {
  }

  lemma MoveDown(s0: seq<MemDesc>, s: seq<MemDesc>, nel: nat, gap: nat, i: nat, j: nat)
    requires Moving(s0, s, nel, gap, i, j) && j >= gap && Compare(s[j - gap], s[j]) > 0
    ensures Moving(s0, Swapped(s, j - gap, j), nel, gap, i, j - gap)
  {
    SwapKeepsInserting(s, gap, i, j);
    SwapPermutes(s0, s, j - gap, j, nel);
  }

  lemma DoneMoving(s0: seq<Desc>, s: seq<Desc>, nel: nat, gap: nat, i: nat, j: nat)
    requires Moving(s0, s, nel, gap, i, j) && (j < gap || Compare(s[j - gap], s[j]) <= 0)
    ensures GapSorted(s, gap, i + 1) && PermutedBelow(s0, s, nel)
  {
  }

  /** One value of i in the pass: the element at i is moved down by steps of gap. */
  method InsertAt(base: array<MemDesc>, nel: nat, gap: nat, i: nat)
    requires 0 < gap <= i < nel <= base.Length && GapSorted(base[..], gap, i)
    modifies base
    ensures GapSorted(base[..], gap, i + 1) && PermutedBelow(old(base[..]), base[..], nel)
  {
    ghost var s0 := base[..];
    StartMoving(s0, nel, gap, i);
    var j: nat := i;
    while j >= gap && Compare(base[j - gap], base[j]) > 0
      invariant j <= i && Moving(s0, base[..], nel, gap, i, j)
    {
      MoveDown(s0, base[..], nel, gap, i, j);
      Swap(base, j - gap, j);
      j := j - gap;
    }
    DoneMoving(s0, base[..], nel, gap, i, j);
  }

  method GapPass(base: array<MemDesc>, nel: nat, gap: nat)
    requires 0 < gap < nel <= base.Length
    modifies base
    ensures GapSorted(base[..], gap, nel) && PermutedBelow(old(base[..]), base[..], nel)
  {
    var i := gap;
    while i < nel
      invariant gap <= i <= nel
      invariant GapSorted(base[..], gap, i) && PermutedBelow(old(base[..]), base[..], nel)
    {
      InsertAt(base, nel, gap, i);
      i := i + 1;
    }
  }

  /** The gaps 1, 4, 13, 40, ...: each is three times the one before, plus one. */
  predicate ShellGap(gap: nat) {
    gap == 1 || (gap > 1 && gap % 3 == 1 && ShellGap(gap / 3))
  }

  lemma NextGap(gap: nat, nel: nat)
    requires ShellGap(gap) && gap < (nel - 1) / 3
    ensures ShellGap(3 * gap + 1) && 3 * gap + 1 < nel
  {
    assert (3 * gap + 1) % 3 == 1 && (3 * gap + 1) / 3 == gap;
  }

  lemma PreviousGap(gap: nat)
    requires ShellGap(gap)
    ensures 0 <= (gap - 1) / 3 < gap
    ensures if gap == 1 then (gap - 1) / 3 == 0 else (gap - 1) / 3 > 0 && ShellGap((gap - 1) / 3)
  {
    if gap > 1 {
      assert (gap - 1) / 3 == gap / 3;
    }
  }

  /** The first gap. */
  method LargestGap(nel: nat) returns (gap: nat)
    requires nel > 1
    ensures 0 < gap < nel && ShellGap(gap)
  {
    gap := 1;
    while gap < (nel - 1) / 3
      invariant 0 < gap < nel && ShellGap(gap)
      decreases nel - gap
    {
      NextGap(gap, nel);
      gap := 3 * gap + 1;
    }
  }

  /** What the gap passes keep. */
  ghost predicate Sorting(s0: seq<Desc>, s: seq<Desc>, nel: nat, gap: nat) {
    && gap < nel && (gap == 0 || ShellGap(gap))
    && (gap == 0 ==> GapSorted(s, 1, nel))
    && PermutedBelow(s0, s, nel)
  }

  lemma PassDone(s0: seq<Desc>, before: seq<Desc>, after: seq<Desc>, nel: nat, gap: nat)
    requires Sorting(s0, before, nel, gap) && gap > 0
    requires GapSorted(after, gap, nel) && PermutedBelow(before, after, nel)
    ensures 0 <= (gap - 1) / 3 < gap && Sorting(s0, after, nel, (gap - 1) / 3)
  {
    PreviousGap(gap);
  }

  /** qsort with h_cmp_entry: a permutation whose neighbours are never out of order. */
  method Qsort(base: array<MemDesc>, nel: nat)
    requires nel <= base.Length
    modifies base
    ensures multiset(base[..nel]) == multiset(old(base[..nel]))
    ensures forall k :: 0 < k < nel ==> Compare(base[k - 1], base[k]) <= 0
  {
    if nel <= 1 {
      return;
    }
    ghost var s0 := base[..];
    var gap := LargestGap(nel);
    while gap != 0
      invariant Sorting(s0, base[..], nel, gap)
      decreases gap
    {
      ghost var before := base[..];
      GapPass(base, nel, gap);
      PassDone(s0, before, base[..], nel, gap);
      gap := (gap - 1) / 3;
    }
    SortedFront(s0, base[..], nel);
    assert base[..nel] == base[..][..nel] && s0[..nel] == old(base[..nel]);
    forall k | 0 < k < nel ensures Compare(base[k - 1], base[k]) <= 0 {
      assert base[k - 1] == base[..][k - 1] && base[k] == base[..][k];
    }
  }

  lemma SortedFront(s: seq<Desc>, t: seq<Desc>, nel: nat)
    requires nel <= |s| && Sorting(s, t, nel, 0)
    ensures multiset(s[..nel]) == multiset(t[..nel])
    ensures forall k :: 0 < k < nel ==> Compare(t[k - 1], t[k]) <= 0
  {
    PermutedFront(s, t, nel);
  }

  lemma PermutedFront(s: seq<Desc>, t: seq<Desc>, nel: nat)
    requires nel <= |s| && PermutedBelow(s, t, nel)
    ensures multiset(s[..nel]) == multiset(t[..nel])
  {
    assert s == s[..nel] + s[nel..] && t == t[..nel] + t[nel..];
    assert s[nel..] == t[nel..];
    assert multiset(s[..nel]) == multiset(s) - multiset(s[nel..]);
    assert multiset(t[..nel]) == multiset(t) - multiset(t[nel..]);
  }

  // ---------------------------------------------------------------- efi_build_mem_table

  /** prev->num_pages += desc->num_pages, and addr, in u64 arithmetic. */
  function AddPages(a: nat, b: nat): nat
    requires a < WORD && b < WORD
  {
    Wrap(a + b)
  }

  function EndInWords(d: MemDesc): ulong {
    Wrap(d.phys as int + (d.pages * EFI_PAGE_SIZE) % WORD)
  }

  lemma EndInWordsIsEnd(d: MemDesc)
    ensures EndInWords(d) == End(d)
  {
    WrapModulo(d.pages * EFI_PAGE_SIZE, d.phys);
    EndIsPageAt(d.phys, d.pages);
  }

  /** The table for a memory map: `rows` entries, then the end mark. */
  method BuildMemTable(input: seq<MemDesc>, skipBs: bool) returns (base: array<MemDesc>, rows: nat)
    ensures rows <= |input| < base.Length && base[rows].typ == 15
    ensures TotalPages(input) < WORD ==> forall a, typ :: SaysOfPage(base[..rows], input, skipBs, a, typ)
    ensures RowsFrom(base[..rows], input, skipBs)
    ensures TotalPages(input) < WORD ==> SameMeaning(base[..rows], Retyped(input, skipBs))
    ensures ComparableRange(input) ==> Sorted(base[..rows])
    ensures skipBs ==> Maximal(base[..rows])
    ensures !skipBs ==> multiset(base[..rows]) == multiset(input)
  {
    var count := |input|;
    base := new MemDesc[count + 1](i => Desc(0, 0, 0, 0, 0));
    var i := 0;
    while i < count
      invariant 0 <= i <= count
      invariant base[..i] == input[..i]
    {
      base[i] := input[i];
      i := i + 1;
    }
    assert base[..count] == input;
    Qsort(base, count);
    ghost var sorted := base[..count];
    rows := MergeInPlace(base, count, skipBs);
    TableRowsFrom(input, sorted, skipBs);
    if TotalPages(input) < WORD {
      TableKeepsMeaning(input, sorted, skipBs);
      forall a, typ ensures SaysOfPage(base[..rows], input, skipBs, a, typ) {
        TableSays(input, sorted, skipBs, a, typ);
      }
    }
    if ComparableRange(input) {
      TableIsSorted(input, sorted, skipBs);
    }
    if skipBs {
      TableIsMaximal(sorted);
    } else {
      AllRowsKept(sorted, |sorted|);
      StoredAgain(sorted);
    }
  }

  /** The finished rows at the front of the buffer. */
  ghost predicate Holds(buf: seq<MemDesc>, out: seq<Desc>) {
    |out| <= |buf| && forall k :: 0 <= k < |out| ==> buf[k] == Store(out[k])
  }

  /** The descriptors still to be read. */
  ghost predicate Unread(buf: seq<MemDesc>, s: seq<MemDesc>, desc: nat) {
    |s| < |buf| && forall k :: desc <= k < |s| ==> buf[k] == s[k]
  }

  /** The buffer during the merge: finished rows below dest, unread descriptors from desc on. */
  ghost predicate Merging(buf: seq<MemDesc>, s: seq<MemDesc>, skipBs: bool, dest: nat, desc: nat) {
    && dest <= desc <= |s|
    && dest == |Coalesce(s, skipBs, desc)|
    && Holds(buf, Coalesce(s, skipBs, desc))
    && Unread(buf, s, desc)
  }

  lemma HoldsOneMore(buf: seq<MemDesc>, out: seq<Desc>, d: MemDesc)
    requires Holds(buf, out) && |out| < |buf|
    ensures Holds(buf[|out| := d], Append(out, false, d))
  {
  }

  lemma HoldsLonger(buf: seq<MemDesc>, out: seq<Desc>, d: MemDesc)
    requires out != [] && Holds(buf, out) && |out| < |buf|
    ensures var last := |out| - 1;
            Holds(buf[|out| := d][last := buf[last].(pages := AddPages(buf[last].pages, d.pages))],
                  Append(out, true, d))
  {
    var p := out[|out| - 1].pages;
    WrapIsModulo(p % WORD + d.pages);
    WrapModulo(p, d.pages);
  }

  /** A descriptor that starts a row of its own. */
  lemma MergingKeeps(buf: seq<MemDesc>, s: seq<MemDesc>, skipBs: bool, dest: nat, desc: nat)
    requires Merging(buf, s, skipBs, dest, desc) && desc < |s|
    requires desc > 0 ==> !Merges(skipBs, Coalesce(s, skipBs, desc), End(s[desc - 1]), Retype(s[desc], skipBs))
    ensures Merging(buf[dest := Retype(s[desc], skipBs)], s, skipBs, dest + 1, desc + 1)
  {
    HoldsOneMore(buf, Coalesce(s, skipBs, desc), Retype(s[desc], skipBs));
  }

  /** A descriptor that extends the last row; its retyped copy is left behind at dest. */
  lemma MergingExtends(buf: seq<MemDesc>, s: seq<MemDesc>, skipBs: bool, dest: nat, desc: nat)
    requires Merging(buf, s, skipBs, dest, desc) && 0 < desc < |s|
    requires Merges(skipBs, Coalesce(s, skipBs, desc), End(s[desc - 1]), Retype(s[desc], skipBs))
    ensures var d := Retype(s[desc], skipBs);
            Merging(buf[dest := d][dest - 1 := buf[dest - 1].(pages := AddPages(buf[dest - 1].pages, d.pages))],
                    s, skipBs, dest, desc + 1)
  {
    HoldsLonger(buf, Coalesce(s, skipBs, desc), Retype(s[desc], skipBs));
  }

  /** The tests that decide merge, as the loop makes them on its own variables. */
  predicate LoopMerges(buf: seq<MemDesc>, skipBs: bool, dest: nat, addr: ulong, d: MemDesc)
    requires dest <= |buf|
  {
    && skipBs
    && dest > 0
    && d.phys == addr
    && d.typ == EFI_CONVENTIONAL_MEMORY
    && buf[dest - 1].typ == EFI_CONVENTIONAL_MEMORY
  }

  /** One iteration of the merge loop. */
  lemma MergeStep(buf: seq<MemDesc>, s: seq<MemDesc>, skipBs: bool, dest: nat, desc: nat, addr: ulong)
    requires Merging(buf, s, skipBs, dest, desc) && desc < |s| && (desc > 0 ==> addr == End(s[desc - 1]))
    ensures var d := Retype(s[desc], skipBs);
            if LoopMerges(buf, skipBs, dest, addr, d) then
              Merging(buf[dest := d][dest - 1 := buf[dest - 1].(pages := AddPages(buf[dest - 1].pages, d.pages))],
                      s, skipBs, dest, desc + 1)
            else Merging(buf[dest := d], s, skipBs, dest + 1, desc + 1)
  {
    if LoopMerges(buf, skipBs, dest, addr, Retype(s[desc], skipBs)) {
      MergingExtends(buf, s, skipBs, dest, desc);
    } else {
      MergingKeeps(buf, s, skipBs, dest, desc);
    }
  }

  lemma MergingDone(buf: seq<MemDesc>, s: seq<MemDesc>, skipBs: bool, dest: nat)
    requires Merging(buf, s, skipBs, dest, |s|)
    ensures dest <= |s| && buf[..dest] == Stored(Coalesce(s, skipBs, |s|))
  {
  }

  /** One descriptor: copied to dest with its type, then kept as a row or added to prev. */
  method MergeOne(base: array<MemDesc>, ghost s: seq<MemDesc>, skipBs: bool, dest: nat, desc: nat, addr: ulong)
    returns (dest': nat, addr': ulong)
    requires Merging(base[..], s, skipBs, dest, desc) && desc < |s| && (desc > 0 ==> addr == End(s[desc - 1]))
    modifies base
    ensures Merging(base[..], s, skipBs, dest', desc + 1) && addr' == End(s[desc])
  {
    ghost var buf := base[..];
    MergeStep(buf, s, skipBs, dest, desc, addr);
    var d := base[desc];
    assert d == buf[desc] == s[desc];
    EndInWordsIsEnd(d);
    addr' := EndInWords(d);
    var typ := if skipBs && IsBootServices(d.typ) then EFI_CONVENTIONAL_MEMORY else d.typ;
    base[dest] := d.(typ := typ);
    var merge := skipBs && dest > 0 && d.phys == addr && typ == EFI_CONVENTIONAL_MEMORY
                 && base[dest - 1].typ == EFI_CONVENTIONAL_MEMORY;
    if merge {
      base[dest - 1] := base[dest - 1].(pages := AddPages(base[dest - 1].pages, d.pages));
      dest' := dest;
    } else {
      dest' := dest + 1;
    }
  }

  /** The merge loop: desc reads ahead of dest, prev is the last finished row. */
  method MergeInPlace(base: array<MemDesc>, count: nat, skipBs: bool) returns (dest: nat)
    requires count < base.Length
    modifies base
    ensures dest <= count
    ensures base[..dest] == Stored(Coalesce(old(base[..count]), skipBs, count))
    ensures base[dest].typ == EFI_TABLE_END
  {
    ghost var s := base[..count];
    var addr: ulong := 0;
    var desc := 0;
    dest := 0;
    while desc < count
      invariant desc <= count && Merging(base[..], s, skipBs, dest, desc)
      invariant desc > 0 ==> addr == End(s[desc - 1])
    {
      dest, addr := MergeOne(base, s, skipBs, dest, desc, addr);
      desc := desc + 1;
    }
    MergingDone(base[..], s, skipBs, dest);
    base[dest] := base[dest].(typ := EFI_TABLE_END);
  }
}
