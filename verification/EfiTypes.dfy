/** What the finished EFI memory table says about every page, in the type numbers of the specification: 1 to 4
    are the loader and boot services, 7 is conventional memory. */
module EfiTypes {
  import opened Machine
  import opened EfiMemTable

  /** How often page a stands in a map as loader, boot-services or conventional memory. */
  function Free(rows: seq<Desc>, a: int): nat {
    Count(rows, a, 1) + Count(rows, a, 2) + Count(rows, a, 3) + Count(rows, a, 4) + Count(rows, a, 7)
  }

  /** The table says of page a what the map says, with the types 1 to 4 read as 7 under skip_bs. */
  ghost predicate SaysOfPage(rows: seq<Desc>, input: seq<Desc>, skipBs: bool, a: int, typ: nat) {
    Count(rows, a, typ) == if !skipBs then Count(input, a, typ)
                           else if typ == 7 then Free(input, a)
                           else if 1 <= typ <= 4 then 0
                           else Count(input, a, typ)
  }

  lemma RetypedOne(d: MemDesc, skipBs: bool, a: int, typ: nat)
    ensures CountIn(Retype(d, skipBs), a, typ)
         == if !skipBs then CountIn(d, a, typ)
            else if typ == 7 then
              CountIn(d, a, 1) + CountIn(d, a, 2) + CountIn(d, a, 3) + CountIn(d, a, 4) + CountIn(d, a, 7)
            else if 1 <= typ <= 4 then 0
            else CountIn(d, a, typ)
  {
  }

  lemma FreeSnoc(rows: seq<Desc>, d: Desc, a: int)
    ensures Free(rows + [d], a)
         == Free(rows, a) + CountIn(d, a, 1) + CountIn(d, a, 2) + CountIn(d, a, 3) + CountIn(d, a, 4) + CountIn(d, a, 7)
  {
    CountSnoc(rows, d, a, 1);
    CountSnoc(rows, d, a, 2);
    CountSnoc(rows, d, a, 3);
    CountSnoc(rows, d, a, 4);
    CountSnoc(rows, d, a, 7);
  }

  lemma {:induction false} RetypedSays(s: seq<MemDesc>, skipBs: bool, n: nat, a: int, typ: nat)
    requires n <= |s|
    ensures SaysOfPage(Retyped(s[..n], skipBs), s[..n], skipBs, a, typ)
  {
    if n > 0 {
      var front, d := s[..n - 1], s[n - 1];
      RetypedSays(s, skipBs, n - 1, a, typ);
      RetypedOne(d, skipBs, a, typ);
      assert s[..n] == front + [d];
      RetypedSnoc(front, d, skipBs);
      CountSnoc(Retyped(front, skipBs), Retype(d, skipBs), a, typ);
      CountSnoc(front, d, a, typ);
      FreeSnoc(front, d, a);
    }
  }

  /** MAIN RESULT by page and type: of a map of fewer than 2^64 pages, loader and boot-services pages become
      conventional under skip_bs, and every other page keeps its type. */
  lemma TableSays(input: seq<MemDesc>, s: seq<MemDesc>, skipBs: bool, a: int, typ: nat)
    requires multiset(s) == multiset(input) && TotalPages(input) < WORD
    ensures SaysOfPage(Stored(Coalesce(s, skipBs, |s|)), input, skipBs, a, typ)
  {
    TableKeepsMeaning(input, s, skipBs);
    RetypedSays(input, skipBs, |input|, a, typ);
    assert input[..|input|] == input;
  }

  /** A row and a descriptor of the map agree but for the page count, and for the types 1 to 4 read as 7. */
  predicate RowOf(row: Desc, d: Desc, skipBs: bool) {
    && row.phys == d.phys && row.virt == d.virt && row.attr == d.attr
    && row.typ == if skipBs && 1 <= d.typ <= 4 then 7 else d.typ
  }

  ghost predicate FromMap(row: Desc, input: seq<Desc>, skipBs: bool) {
    exists d :: d in input && RowOf(row, d, skipBs)
  }

  /** Every row has the addresses, the attributes and the type of a descriptor of the map. */
  ghost predicate RowsFrom(rows: seq<Desc>, input: seq<Desc>, skipBs: bool) {
    forall i :: 0 <= i < |rows| ==> FromMap(rows[i], input, skipBs)
  }

  lemma AppendFrom(out: seq<Desc>, merge: bool, d: MemDesc, input: seq<MemDesc>, skipBs: bool)
    requires merge ==> out != []
    requires RowsFrom(out, input, skipBs) && d in input
    ensures RowsFrom(Append(out, merge, Retype(d, skipBs)), input, skipBs)
  {
    if merge {
      assert FromMap(out[|out| - 1], input, skipBs);
    } else {
      assert RowOf(Retype(d, skipBs), d, skipBs);
    }
  }

  lemma {:induction false} CoalesceFrom(s: seq<MemDesc>, skipBs: bool, n: nat)
    requires n <= |s|
    ensures RowsFrom(Coalesce(s, skipBs, n), s, skipBs)
  {
    if n > 0 {
      CoalesceFrom(s, skipBs, n - 1);
      var out := Coalesce(s, skipBs, n - 1);
      AppendFrom(out, MergesAt(s, skipBs, n, out), s[n - 1], s, skipBs);
    }
  }

  lemma StoredFrom(row: Desc, s: seq<Desc>, input: seq<Desc>, skipBs: bool)
    requires FromMap(row, s, skipBs) && multiset(s) == multiset(input)
    ensures FromMap(Store(row), input, skipBs)
  {
    var d :| d in s && RowOf(row, d, skipBs);
    assert d in multiset(s) && d in input && RowOf(Store(row), d, skipBs);
  }

  /** Merging changes page counts only: a row is otherwise a descriptor of the map. */
  lemma TableRowsFrom(input: seq<MemDesc>, s: seq<MemDesc>, skipBs: bool)
    requires multiset(s) == multiset(input)
    ensures RowsFrom(Stored(Coalesce(s, skipBs, |s|)), input, skipBs)
  {
    var rows := Coalesce(s, skipBs, |s|);
    CoalesceFrom(s, skipBs, |s|);
    forall i | 0 <= i < |rows| ensures FromMap(Stored(rows)[i], input, skipBs) {
      StoredFrom(rows[i], s, input, skipBs);
    }
  }

  /** A page has 4096 bytes: where a row ends, in the u64 arithmetic of the code. */
  lemma EndAddress(d: Desc)
    ensures End(d) == (d.phys + d.pages * 4096) % 0x1_0000_0000_0000_0000
  {
    EndIsPageAt(d.phys, d.pages);
  }
}
