/** The EFI memory table: what sorting, retyping and coalescing mean for the pages described. */
module EfiMemTable {
  import opened Machine

  const EFI_LOADER_CODE: nat := 1
  const EFI_LOADER_DATA: nat := 2
  const EFI_BOOT_SERVICES_CODE: nat := 3
  const EFI_BOOT_SERVICES_DATA: nat := 4
  const EFI_CONVENTIONAL_MEMORY: nat := 7
  const EFI_TABLE_END: nat := 15
  const EFI_PAGE_SIZE: nat := 4096

  /** A memory descriptor; `Desc` allows any page count, `MemDesc` has the u64 field. */
  datatype Desc = Desc(typ: nat, phys: ulong, virt: ulong, pages: nat, attr: ulong)

  type MemDesc = d: Desc | d.pages < WORD witness Desc(0, 0, 0, 0, 0)

  predicate IsBootServices(typ: nat) {
    typ == EFI_LOADER_CODE || typ == EFI_LOADER_DATA || typ == EFI_BOOT_SERVICES_CODE || typ == EFI_BOOT_SERVICES_DATA
  }

  function Retype(d: MemDesc, skipBs: bool): MemDesc {
    if skipBs && IsBootServices(d.typ) then d.(typ := EFI_CONVENTIONAL_MEMORY) else d
  }

  /** The address of the k-th page from an address on; it wraps like the hardware's. */
  function PageAt(phys: ulong, k: nat): ulong {
    if k == 0 then phys else Wrap(PageAt(phys, k - 1) as int + EFI_PAGE_SIZE)
  }

  /** The address after the last page. */
  function End(d: Desc): ulong {
    PageAt(d.phys, d.pages)
  }

  // ---------------------------------------------------------------- what the merge loop computes

  predicate Merges(skipBs: bool, out: seq<Desc>, addr: ulong, d: Desc) {
    && skipBs
    && out != []
    && d.phys == addr
    && d.typ == EFI_CONVENTIONAL_MEMORY
    && out[|out| - 1].typ == EFI_CONVENTIONAL_MEMORY
  }

  function Extend(d: Desc, pages: nat): Desc {
    d.(pages := d.pages + pages)
  }

  /** The table after one more descriptor: prev is extended, or a row is added. */
  function Append(out: seq<Desc>, merge: bool, d: Desc): (r: seq<Desc>)
    requires merge ==> out != []
    ensures |r| == if merge then |out| else |out| + 1
  {
    if merge then out[..|out| - 1] + [Extend(out[|out| - 1], d.pages)] else out + [d]
  }

  /** Whether the n-th descriptor is merged into the row before it. */
  predicate MergesAt(s: seq<MemDesc>, skipBs: bool, n: nat, out: seq<Desc>)
    requires 0 < n <= |s|
  {
    n > 1 && Merges(skipBs, out, End(s[n - 2]), Retype(s[n - 1], skipBs))
  }

  /** The rows after the first n descriptors, with page counts that do not overflow. */
  function Coalesce(s: seq<MemDesc>, skipBs: bool, n: nat): (r: seq<Desc>)
    requires n <= |s|
    ensures |r| <= n && (n > 0 ==> r != [])
  {
    if n == 0 then []
    else
      var out := Coalesce(s, skipBs, n - 1);
      Append(out, MergesAt(s, skipBs, n, out), Retype(s[n - 1], skipBs))
  }

  /** A row as the u64 num_pages field keeps it. */
  function Store(d: Desc): MemDesc {
    d.(pages := d.pages % WORD)
  }

  function Stored(rows: seq<Desc>): (r: seq<MemDesc>)
    ensures |r| == |rows| && forall i :: 0 <= i < |r| ==> r[i] == Store(rows[i])
  {
    seq(|rows|, i requires 0 <= i < |rows| => Store(rows[i]))
  }

  // ---------------------------------------------------------------- what a table means

  /** How many of the n pages from an address on are the page at address a. */
  function CountFrom(phys: ulong, n: nat, a: int): nat {
    if n == 0 then 0 else CountFrom(phys, n - 1, a) + if PageAt(phys, n - 1) == a then 1 else 0
  }

  function CountIn(d: Desc, a: int, typ: nat): nat {
    if d.typ == typ then CountFrom(d.phys, d.pages, a) else 0
  }

  /** The multiplicity of the pair (page a, type) in what a table describes. */
  function Count(rows: seq<Desc>, a: int, typ: nat): nat {
    if rows == [] then 0 else Count(rows[..|rows| - 1], a, typ) + CountIn(rows[|rows| - 1], a, typ)
  }

  function TotalPages(rows: seq<Desc>): nat {
    if rows == [] then 0 else TotalPages(rows[..|rows| - 1]) + rows[|rows| - 1].pages
  }

  /** Two tables describe the same multiset of (page, type) pairs. */
  ghost predicate SameMeaning(x: seq<Desc>, y: seq<Desc>) {
    && TotalPages(x) == TotalPages(y)
    && forall a, typ :: Count(x, a, typ) == Count(y, a, typ)
  }

  function Retyped(s: seq<MemDesc>, skipBs: bool): (r: seq<Desc>)
    ensures |r| == |s| && forall i :: 0 <= i < |r| ==> r[i] == Retype(s[i], skipBs)
  {
    seq(|s|, i requires 0 <= i < |s| => Retype(s[i], skipBs))
  }

  // ---------------------------------------------------------------- page arithmetic

  lemma WrapModulo(x: int, y: int)
    requires 0 <= y < WORD
    ensures Wrap(x % WORD + y) == (x + y) % WORD
  {
    WrapIsModulo(x % WORD + y);
    assert x + y == x / WORD * WORD + (x % WORD + y);
    MultipleAway(x % WORD + y, x / WORD);
  }

  lemma MultipleAway(a: int, k: int)
    ensures (a + k * WORD) % WORD == a % WORD
  {
    assert a + k * WORD == (a / WORD + k) * WORD + a % WORD;
  }

  /** The shifted sum of the code is the address after the last page. */
  lemma {:induction false} EndIsPageAt(phys: ulong, n: nat)
    ensures (phys + n * EFI_PAGE_SIZE) % WORD == PageAt(phys, n)
  {
    if n > 0 {
      EndIsPageAt(phys, n - 1);
      WrapModulo(phys + (n - 1) * EFI_PAGE_SIZE, EFI_PAGE_SIZE);
    }
  }

  lemma {:induction false} PageAtSum(p: ulong, n: nat, k: nat)
    ensures PageAt(p, n + k) == PageAt(PageAt(p, n), k)
  {
    if k > 0 {
      PageAtSum(p, n, k - 1);
    }
  }

  /** Pages that continue where others stop are one longer run of pages. */
  lemma {:induction false} CountAppend(p: ulong, n: nat, m: nat, a: int)
    ensures CountFrom(p, n + m, a) == CountFrom(p, n, a) + CountFrom(PageAt(p, n), m, a)
  {
    if m > 0 {
      CountAppend(p, n, m - 1, a);
      PageAtSum(p, n, m - 1);
    }
  }

  lemma CountSnoc(rows: seq<Desc>, d: Desc, a: int, typ: nat)
    ensures Count(rows + [d], a, typ) == Count(rows, a, typ) + CountIn(d, a, typ)
  {
    assert (rows + [d])[..|rows|] == rows;
  }

  lemma TotalSnoc(rows: seq<Desc>, d: Desc)
    ensures TotalPages(rows + [d]) == TotalPages(rows) + d.pages
  {
    assert (rows + [d])[..|rows|] == rows;
  }

  /** Extending a row by the pages that follow its end. */
  lemma ExtendedRow(d: Desc, next: Desc, a: int, typ: nat)
    requires next.phys == End(d) && next.typ == d.typ
    ensures CountIn(Extend(d, next.pages), a, typ) == CountIn(d, a, typ) + CountIn(next, a, typ)
    ensures End(Extend(d, next.pages)) == End(next)
  {
    CountAppend(d.phys, d.pages, next.pages, a);
    PageAtSum(d.phys, d.pages, next.pages);
  }

  // ---------------------------------------------------------------- coalescing keeps the meaning

  lemma RetypeKeepsEnd(d: MemDesc, skipBs: bool)
    ensures End(Retype(d, skipBs)) == End(d)
  {
  }

  /** The loop's addr is always the end of the row prev points to: merged or not. */
  lemma {:induction false} AddrIsEndOfPrev(s: seq<MemDesc>, skipBs: bool, n: nat)
    requires 0 < n <= |s|
    ensures var out := Coalesce(s, skipBs, n); End(out[|out| - 1]) == End(s[n - 1])
  {
    RetypeKeepsEnd(s[n - 1], skipBs);
    if n > 1 {
      AddrIsEndOfPrev(s, skipBs, n - 1);
      var out, d := Coalesce(s, skipBs, n - 1), Retype(s[n - 1], skipBs);
      if Merges(skipBs, out, End(s[n - 2]), d) {
        ExtendedRow(out[|out| - 1], d, 0, 0);
      }
    }
  }

  lemma RetypedSnoc(front: seq<MemDesc>, last: MemDesc, skipBs: bool)
    ensures Retyped(front + [last], skipBs) == Retyped(front, skipBs) + [Retype(last, skipBs)]
  {
  }

  lemma RetypedStep(s: seq<MemDesc>, skipBs: bool, n: nat)
    requires 0 < n <= |s|
    ensures Retyped(s[..n], skipBs) == Retyped(s[..n - 1], skipBs) + [Retype(s[n - 1], skipBs)]
  {
    assert s[..n] == s[..n - 1] + [s[n - 1]];
    RetypedSnoc(s[..n - 1], s[n - 1], skipBs);
  }

  lemma AppendCount(out: seq<Desc>, merge: bool, d: Desc, a: int, typ: nat)
    requires merge ==> out != [] && d.phys == End(out[|out| - 1]) && d.typ == out[|out| - 1].typ
    ensures Count(Append(out, merge, d), a, typ) == Count(out, a, typ) + CountIn(d, a, typ)
    ensures TotalPages(Append(out, merge, d)) == TotalPages(out) + d.pages
  {
    if merge {
      var front, prev := out[..|out| - 1], out[|out| - 1];
      ExtendedRow(prev, d, a, typ);
      CountSnoc(front, Extend(prev, d.pages), a, typ);
      TotalSnoc(front, Extend(prev, d.pages));
    } else {
      CountSnoc(out, d, a, typ);
      TotalSnoc(out, d);
    }
  }

  /** A merged descriptor continues the row it is merged into. */
  lemma MergedTouches(s: seq<MemDesc>, skipBs: bool, n: nat)
    requires 0 < n <= |s|
    ensures var out, d := Coalesce(s, skipBs, n - 1), Retype(s[n - 1], skipBs);
            MergesAt(s, skipBs, n, out) ==> out != [] && d.phys == End(out[|out| - 1]) && d.typ == out[|out| - 1].typ
  {
    if n > 1 {
      AddrIsEndOfPrev(s, skipBs, n - 1);
    }
  }

  predicate Alike(x: seq<Desc>, y: seq<Desc>, a: int, typ: nat) {
    Count(x, a, typ) == Count(y, a, typ) && TotalPages(x) == TotalPages(y)
  }

  lemma AppendAlike(out: seq<Desc>, list: seq<Desc>, merge: bool, d: Desc, a: int, typ: nat)
    requires merge ==> out != [] && d.phys == End(out[|out| - 1]) && d.typ == out[|out| - 1].typ
    requires Alike(out, list, a, typ)
    ensures Alike(Append(out, merge, d), list + [d], a, typ)
  {
    AppendCount(out, merge, d, a, typ);
    CountSnoc(list, d, a, typ);
    TotalSnoc(list, d);
  }

  /** With page counts that do not overflow, coalescing any list, sorted or not, overlapping or
      not, describes the same pages as the list itself. */
  lemma {:induction false} CoalesceKeepsCount(s: seq<MemDesc>, skipBs: bool, n: nat, a: int, typ: nat)
    requires n <= |s|
    ensures Alike(Coalesce(s, skipBs, n), Retyped(s[..n], skipBs), a, typ)
  {
    if n > 0 {
      CoalesceKeepsCount(s, skipBs, n - 1, a, typ);
      var out := Coalesce(s, skipBs, n - 1);
      RetypedStep(s, skipBs, n);
      MergedTouches(s, skipBs, n);
      AppendAlike(out, Retyped(s[..n - 1], skipBs), MergesAt(s, skipBs, n, out), Retype(s[n - 1], skipBs), a, typ);
    }
  }

  lemma CoalesceKeepsMeaning(s: seq<MemDesc>, skipBs: bool)
    ensures SameMeaning(Coalesce(s, skipBs, |s|), Retyped(s, skipBs))
  {
    assert s[..|s|] == s;
    forall a, typ ensures Count(Coalesce(s, skipBs, |s|), a, typ) == Count(Retyped(s, skipBs), a, typ) {
      CoalesceKeepsCount(s, skipBs, |s|, a, typ);
    }
    CoalesceKeepsCount(s, skipBs, |s|, 0, 0);
  }

  ghost predicate NoOverflow(rows: seq<Desc>) {
    forall i :: 0 <= i < |rows| ==> rows[i].pages < WORD
  }

  lemma {:induction false} StoredPages(rows: seq<Desc>)
    ensures TotalPages(Stored(rows)) <= TotalPages(rows)
    ensures TotalPages(Stored(rows)) == TotalPages(rows) <==> NoOverflow(rows)
  {
    if rows != [] {
      var front := rows[..|rows| - 1];
      StoredPages(front);
      assert Stored(rows)[..|rows| - 1] == Stored(front);
      assert forall i :: 0 <= i < |front| ==> front[i] == rows[i];
    }
  }

  lemma StoredIfNoOverflow(rows: seq<Desc>)
    requires NoOverflow(rows)
    ensures Stored(rows) == rows
  {
  }

  /** MAIN RESULT: the stored table has the meaning of the retyped list exactly when no merged
      row has 2^64 pages or more; otherwise the u64 addition loses pages. */
  lemma StoredMeaningIff(s: seq<MemDesc>, skipBs: bool)
    ensures var rows := Coalesce(s, skipBs, |s|);
            SameMeaning(Stored(rows), Retyped(s, skipBs)) <==> NoOverflow(rows)
  {
    var rows := Coalesce(s, skipBs, |s|);
    CoalesceKeepsMeaning(s, skipBs);
    StoredPages(rows);
    if NoOverflow(rows) {
      StoredIfNoOverflow(rows);
    }
  }

  lemma {:induction false} RowWithinTotal(rows: seq<Desc>, i: nat)
    requires i < |rows|
    ensures rows[i].pages <= TotalPages(rows)
  {
    if i < |rows| - 1 {
      RowWithinTotal(rows[..|rows| - 1], i);
    }
  }

  lemma {:induction false} RetypedTotal(s: seq<MemDesc>, skipBs: bool, n: nat)
    requires n <= |s|
    ensures TotalPages(Retyped(s[..n], skipBs)) == TotalPages(s[..n])
  {
    if n > 0 {
      RetypedTotal(s, skipBs, n - 1);
      assert s[..n] == s[..n - 1] + [s[n - 1]];
      RetypedSnoc(s[..n - 1], s[n - 1], skipBs);
      TotalSnoc(Retyped(s[..n - 1], skipBs), Retype(s[n - 1], skipBs));
      TotalSnoc(s[..n - 1], s[n - 1]);
    }
  }

  /** In particular it has that meaning, and conserves the total, for every list of fewer than
      2^64 pages. */
  lemma PagesConserved(s: seq<MemDesc>, skipBs: bool)
    requires TotalPages(s) < WORD
    ensures var rows := Stored(Coalesce(s, skipBs, |s|));
            SameMeaning(rows, Retyped(s, skipBs)) && TotalPages(rows) == TotalPages(s)
  {
    var rows := Coalesce(s, skipBs, |s|);
    CoalesceKeepsMeaning(s, skipBs);
    RetypedTotal(s, skipBs, |s|);
    assert s[..|s|] == s;
    forall i | 0 <= i < |rows| ensures rows[i].pages < WORD {
      RowWithinTotal(rows, i);
    }
    StoredMeaningIff(s, skipBs);
  }

  // ---------------------------------------------------------------- maximal and idempotent

  /** Two rows the merge loop would have merged. */
  predicate Mergeable(a: Desc, b: Desc) {
    a.typ == EFI_CONVENTIONAL_MEMORY && b.typ == EFI_CONVENTIONAL_MEMORY && b.phys == End(a)
  }

  ghost predicate Maximal(rows: seq<Desc>) {
    forall i :: 0 < i < |rows| ==> !Mergeable(rows[i - 1], rows[i])
  }

  lemma AppendMaximal(out: seq<Desc>, merge: bool, d: Desc)
    requires Maximal(out) && (merge <==> out != [] && Mergeable(out[|out| - 1], d))
    ensures Maximal(Append(out, merge, d))
  {
  }

  lemma MergesIffMergeable(s: seq<MemDesc>, n: nat)
    requires 1 < n <= |s|
    ensures var out, d := Coalesce(s, true, n - 1), Retype(s[n - 1], true);
            Merges(true, out, End(s[n - 2]), d) <==> Mergeable(out[|out| - 1], d)
  {
    AddrIsEndOfPrev(s, true, n - 1);
  }

  lemma {:induction false} CoalesceIsMaximal(s: seq<MemDesc>, n: nat)
    requires n <= |s|
    ensures Maximal(Coalesce(s, true, n))
  {
    if n > 0 {
      CoalesceIsMaximal(s, n - 1);
      var out, d := Coalesce(s, true, n - 1), Retype(s[n - 1], true);
      if n > 1 {
        MergesIffMergeable(s, n);
      }
      AppendMaximal(out, MergesAt(s, true, n, out), d);
    }
  }

  /** 2^64 pages further on is the same address. */
  lemma PagesModulo(phys: ulong, n: nat)
    ensures PageAt(phys, n % WORD) == PageAt(phys, n)
  {
    var q, r := n / WORD, n % WORD;
    EndIsPageAt(phys, n);
    EndIsPageAt(phys, r);
    assert n * EFI_PAGE_SIZE == (q * EFI_PAGE_SIZE) * WORD + r * EFI_PAGE_SIZE;
    MultipleAway(phys + r * EFI_PAGE_SIZE, q * EFI_PAGE_SIZE);
  }

  lemma StoreKeepsEnd(d: Desc)
    ensures End(Store(d)) == End(d)
  {
    PagesModulo(d.phys, d.pages);
  }

  /** No two neighbouring rows of the finished table are both conventional and touching. */
  lemma TableIsMaximal(s: seq<MemDesc>)
    ensures Maximal(Stored(Coalesce(s, true, |s|)))
  {
    var rows := Coalesce(s, true, |s|);
    CoalesceIsMaximal(s, |s|);
    forall i | 0 < i < |rows| ensures !Mergeable(Stored(rows)[i - 1], Stored(rows)[i]) {
      StoreKeepsEnd(rows[i - 1]);
    }
  }

  ghost predicate NoBootServices(rows: seq<Desc>) {
    forall i :: 0 <= i < |rows| ==> !IsBootServices(rows[i].typ)
  }

  lemma AppendNoBootServices(out: seq<Desc>, merge: bool, d: Desc)
    requires merge ==> out != []
    requires NoBootServices(out) && !IsBootServices(d.typ)
    ensures NoBootServices(Append(out, merge, d))
  {
  }

  /** No row is left with a boot-services type. */
  lemma {:induction false} NoBootServicesLeft(s: seq<MemDesc>, n: nat)
    requires n <= |s|
    ensures NoBootServices(Coalesce(s, true, n))
  {
    if n > 0 {
      NoBootServicesLeft(s, n - 1);
      var out, d := Coalesce(s, true, n - 1), Retype(s[n - 1], true);
      AppendNoBootServices(out, MergesAt(s, true, n, out), d);
    }
  }

  lemma {:induction false} NothingToMerge(rows: seq<MemDesc>, n: nat)
    requires n <= |rows|
    requires Maximal(rows) && NoBootServices(rows)
    ensures Coalesce(rows, true, n) == rows[..n]
  {
    if n > 0 {
      NothingToMerge(rows, n - 1);
      assert rows[..n] == rows[..n - 1] + [rows[n - 1]];
    }
  }

  /** Running the merge pass on its own output changes nothing. */
  lemma CoalesceIsIdempotent(s: seq<MemDesc>)
    ensures var rows := Stored(Coalesce(s, true, |s|)); Stored(Coalesce(rows, true, |rows|)) == rows
  {
    var rows := Stored(Coalesce(s, true, |s|));
    TableIsMaximal(s);
    NoBootServicesLeft(s, |s|);
    NothingToMerge(rows, |rows|);
    StoredAgain(rows);
  }

  lemma StoredAgain(rows: seq<MemDesc>)
    ensures Stored(rows[..|rows|]) == rows
  {
  }

  /** Without skip_bs nothing is merged or retyped. */
  lemma {:induction false} AllRowsKept(s: seq<MemDesc>, n: nat)
    requires n <= |s|
    ensures Coalesce(s, false, n) == s[..n]
  {
    if n > 0 {
      AllRowsKept(s, n - 1);
      assert s[..n] == s[..n - 1] + [s[n - 1]];
    }
  }

  // ---------------------------------------------------------------- order

  /** h_cmp_entry: the sign of the u64 difference read as a signed 64-bit number. */
  function Compare(a: Desc, b: Desc): int {
    var diff := Wrap(a.phys as int - b.phys as int);
    if diff >= WORD / 2 then -1 else if diff > 0 then 1 else 0
  }

  /** The comparison agrees with the order of addresses exactly when they are less than 2^63
      apart. */
  lemma CompareIsOrderIff(a: Desc, b: Desc)
    ensures Compare(a, b) == 0 <==> a.phys == b.phys
    ensures (Compare(a, b) < 0 <==> a.phys < b.phys) && (Compare(b, a) < 0 <==> b.phys < a.phys)
            <==> -(WORD / 2) < a.phys as int - b.phys as int < WORD / 2
  {
  }

  /** It is not transitive on the whole address space. */
  lemma CompareIsCyclic()
    ensures exists a: Desc, b: Desc, c: Desc :: Compare(a, b) < 0 && Compare(b, c) < 0 && Compare(c, a) < 0
  {
    var a := Desc(0, 0, 0, 1, 0);
    var b := Desc(0, 0x6000_0000_0000_0000, 0, 1, 0);
    var c := Desc(0, 0xC000_0000_0000_0000, 0, 1, 0);
    assert Compare(a, b) < 0 && Compare(b, c) < 0 && Compare(c, a) < 0;
  }

  ghost predicate Sorted(rows: seq<Desc>) {
    forall i, j :: 0 <= i < j < |rows| ==> rows[i].phys <= rows[j].phys
  }

  ghost predicate ComparableRange(rows: seq<Desc>) {
    forall i, j :: 0 <= i < |rows| && 0 <= j < |rows| ==> rows[i].phys as int - rows[j].phys as int < WORD / 2
  }

  /** Neighbours in comparison order are sorted by address when addresses are comparable. */
  lemma {:induction false} NeighboursSorted(rows: seq<Desc>, i: nat, j: nat)
    requires ComparableRange(rows) && i <= j < |rows|
    requires forall k :: 0 < k < |rows| ==> Compare(rows[k - 1], rows[k]) <= 0
    ensures rows[i].phys <= rows[j].phys
    decreases j
  {
    if i < j {
      NeighboursSorted(rows, i, j - 1);
      if rows[j - 1].phys != rows[j].phys {
        CompareIsOrderIff(rows[j - 1], rows[j]);
      }
    }
  }

  ghost predicate SortedUpTo(rows: seq<Desc>, addr: int) {
    Sorted(rows) && forall i :: 0 <= i < |rows| ==> rows[i].phys <= addr
  }

  lemma AppendSorted(out: seq<Desc>, merge: bool, d: Desc)
    requires merge ==> out != []
    requires SortedUpTo(out, d.phys)
    ensures SortedUpTo(Append(out, merge, d), d.phys)
  {
  }

  /** Coalescing keeps a sorted list sorted: a row has the address of its first descriptor. */
  lemma {:induction false} CoalesceKeepsOrder(s: seq<MemDesc>, skipBs: bool, n: nat)
    requires 0 < n <= |s| && Sorted(s)
    ensures SortedUpTo(Coalesce(s, skipBs, n), s[n - 1].phys)
  {
    if n > 1 {
      CoalesceKeepsOrder(s, skipBs, n - 1);
    }
    var out, d := Coalesce(s, skipBs, n - 1), Retype(s[n - 1], skipBs);
    AppendSorted(out, MergesAt(s, skipBs, n, out), d);
  }

  // ---------------------------------------------------------------- permutations

  lemma {:induction false} CountConcat(x: seq<Desc>, y: seq<Desc>, a: int, typ: nat)
    ensures Count(x + y, a, typ) == Count(x, a, typ) + Count(y, a, typ)
    ensures TotalPages(x + y) == TotalPages(x) + TotalPages(y)
    decreases |y|
  {
    if y == [] {
      assert x + y == x;
    } else {
      var front, last := y[..|y| - 1], y[|y| - 1];
      CountConcat(x, front, a, typ);
      assert x + y == (x + front) + [last];
      CountSnoc(x + front, last, a, typ);
      TotalSnoc(x + front, last);
    }
  }

  lemma CountRemove(s: seq<Desc>, i: nat, a: int, typ: nat)
    requires i < |s|
    ensures Count(s, a, typ) == Count(s[..i] + s[i + 1..], a, typ) + CountIn(s[i], a, typ)
    ensures TotalPages(s) == TotalPages(s[..i] + s[i + 1..]) + s[i].pages
  {
    assert s == (s[..i] + [s[i]]) + s[i + 1..];
    CountConcat(s[..i] + [s[i]], s[i + 1..], a, typ);
    CountSnoc(s[..i], s[i], a, typ);
    TotalSnoc(s[..i], s[i]);
    CountConcat(s[..i], s[i + 1..], a, typ);
  }

  /** The last descriptor of one ordering has a place in the other. */
  lemma FindLast(x: seq<Desc>, y: seq<Desc>) returns (i: int)
    requires x != [] && multiset(x) == multiset(y)
    ensures 0 <= i < |y| && y[i] == x[|x| - 1]
    ensures multiset(x[..|x| - 1]) == multiset(y[..i] + y[i + 1..])
  {
    assert x == x[..|x| - 1] + [x[|x| - 1]];
    assert x[|x| - 1] in multiset(y);
    i :| 0 <= i < |y| && y[i] == x[|x| - 1];
    RemoveFromMultiset(y, i);
  }

  /** The meaning does not depend on the order of the descriptors. */
  lemma {:induction false} CountOfPermutation(x: seq<Desc>, y: seq<Desc>, a: int, typ: nat)
    requires multiset(x) == multiset(y)
    ensures Count(x, a, typ) == Count(y, a, typ) && TotalPages(x) == TotalPages(y)
    decreases |x|
  {
    if x == [] {
      assert |multiset(y)| == 0;
    } else {
      var front, last := x[..|x| - 1], x[|x| - 1];
      var i := FindLast(x, y);
      CountOfPermutation(front, y[..i] + y[i + 1..], a, typ);
      CountRemove(y, i, a, typ);
    }
  }

  lemma RemoveFromMultiset(y: seq<Desc>, i: nat)
    requires i < |y|
    ensures multiset(y[..i] + y[i + 1..]) == multiset(y) - multiset{y[i]}
  {
    assert y == y[..i] + [y[i]] + y[i + 1..];
  }

  lemma RetypedWithout(y: seq<MemDesc>, i: nat, skipBs: bool)
    requires i < |y|
    ensures Retyped(y[..i] + y[i + 1..], skipBs) == Retyped(y, skipBs)[..i] + Retyped(y, skipBs)[i + 1..]
  {
  }

  /** Nor does the meaning of the retyped list. */
  lemma {:induction false} RetypedCountOfPermutation(x: seq<MemDesc>, y: seq<MemDesc>, skipBs: bool, a: int, typ: nat)
    requires multiset(x) == multiset(y)
    ensures Count(Retyped(x, skipBs), a, typ) == Count(Retyped(y, skipBs), a, typ)
    ensures TotalPages(Retyped(x, skipBs)) == TotalPages(Retyped(y, skipBs))
    decreases |x|
  {
    if x == [] {
      assert |multiset(y)| == 0;
    } else {
      var front, last := x[..|x| - 1], x[|x| - 1];
      var i := FindLast(x, y);
      RetypedCountOfPermutation(front, y[..i] + y[i + 1..], skipBs, a, typ);
      assert x == front + [last];
      RetypedSnoc(front, last, skipBs);
      CountSnoc(Retyped(front, skipBs), Retype(last, skipBs), a, typ);
      TotalSnoc(Retyped(front, skipBs), Retype(last, skipBs));
      RetypedWithout(y, i, skipBs);
      CountRemove(Retyped(y, skipBs), i, a, typ);
    }
  }

  /** MAIN RESULT: the table built from any reordering of a memory map of fewer than 2^64 pages
      describes the pages of the map, boot services read as conventional under skip_bs. */
  lemma TableKeepsMeaning(input: seq<MemDesc>, s: seq<MemDesc>, skipBs: bool)
    requires multiset(s) == multiset(input) && TotalPages(input) < WORD
    ensures SameMeaning(Stored(Coalesce(s, skipBs, |s|)), Retyped(input, skipBs))
    ensures TotalPages(Stored(Coalesce(s, skipBs, |s|))) == TotalPages(input)
  {
    CountOfPermutation(s, input, 0, 0);
    PagesConserved(s, skipBs);
    RetypedCountOfPermutation(s, input, skipBs, 0, 0);
    forall a, typ ensures Count(Retyped(s, skipBs), a, typ) == Count(Retyped(input, skipBs), a, typ) {
      RetypedCountOfPermutation(s, input, skipBs, a, typ);
    }
  }

  lemma ComparablePermutation(x: seq<MemDesc>, y: seq<MemDesc>)
    requires multiset(x) == multiset(y) && ComparableRange(x)
    ensures ComparableRange(y)
  {
    forall i, j | 0 <= i < |y| && 0 <= j < |y| ensures y[i].phys as int - y[j].phys as int < WORD / 2 {
      assert y[i] in multiset(y) && y[j] in multiset(y);
      assert y[i] in x && y[j] in x;
    }
  }

  /** The finished table is in address order whenever the addresses of the map are comparable;
      without skip_bs it is then the map itself, sorted. */
  lemma TableIsSorted(input: seq<MemDesc>, s: seq<MemDesc>, skipBs: bool)
    requires multiset(s) == multiset(input) && ComparableRange(input)
    requires forall k :: 0 < k < |s| ==> Compare(s[k - 1], s[k]) <= 0
    ensures Sorted(Stored(Coalesce(s, skipBs, |s|)))
    ensures !skipBs ==> Stored(Coalesce(s, skipBs, |s|)) == s
  {
    ComparablePermutation(input, s);
    forall i, j | 0 <= i < j < |s| ensures s[i].phys <= s[j].phys {
      NeighboursSorted(s, i, j);
    }
    if s != [] {
      CoalesceKeepsOrder(s, skipBs, |s|);
    }
    AllRowsKept(s, |s|);
    StoredAgain(s);
  }
}
