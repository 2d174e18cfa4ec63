/** When sorting with h_cmp_entry sorts by address: exactly when all addresses of the map are comparable. */
module EfiOrder {
  import opened Machine
  import opened EfiMemTable

  /** What a sort that relies on h_cmp_entry guarantees: no neighbours out of order. */
  ghost predicate InOrder(s: seq<Desc>) {
    forall k :: 0 < k < |s| ==> Compare(s[k - 1], s[k]) <= 0
  }

  // ---------------------------------------------------------------- a list sorted by address

  /** Where a descriptor belongs in a sorted list. */
  lemma {:induction false} Position(t: seq<MemDesc>, d: MemDesc, n: nat) returns (p: nat)
    requires Sorted(t) && n <= |t| && forall i :: n <= i < |t| ==> d.phys <= t[i].phys
    ensures p <= n && (forall i :: 0 <= i < p ==> t[i].phys <= d.phys)
    ensures forall i :: p <= i < |t| ==> d.phys <= t[i].phys
  {
    p := n;
    if n > 0 && d.phys < t[n - 1].phys {
      p := Position(t, d, n - 1);
    }
  }

  lemma InsertKeeps(t: seq<MemDesc>, d: MemDesc, p: nat)
    requires Sorted(t) && p <= |t|
    requires (forall i :: 0 <= i < p ==> t[i].phys <= d.phys) && forall i :: p <= i < |t| ==> d.phys <= t[i].phys
    ensures Sorted(t[..p] + [d] + t[p..]) && multiset(t[..p] + [d] + t[p..]) == multiset(t) + multiset{d}
  {
    assert t == t[..p] + t[p..];
  }

  /** Every map has an ordering by address. */
  lemma {:induction false} SortedPermutation(s: seq<MemDesc>) returns (t: seq<MemDesc>)
    ensures multiset(t) == multiset(s) && Sorted(t)
  {
    t := [];
    if s != [] {
      var d := s[|s| - 1];
      t := SortedPermutation(s[..|s| - 1]);
      var p := Position(t, d, |t|);
      InsertKeeps(t, d, p);
      t := t[..p] + [d] + t[p..];
      assert s == s[..|s| - 1] + [d];
    }
  }

  // ---------------------------------------------------------------- rotating it

  lemma CompareUpTo(a: Desc, b: Desc)
    requires a.phys <= b.phys && b.phys as int - a.phys <= WORD / 2
    ensures Compare(a, b) <= 0
  {
  }

  lemma CompareDownFrom(a: Desc, b: Desc)
    requires a.phys as int - b.phys >= WORD / 2
    ensures Compare(a, b) <= 0
  {
  }

  /** Where to cut: at a gap of half the address space or more, or anywhere if there is none. */
  lemma {:induction false} Cut(t: seq<MemDesc>, n: nat) returns (r: nat)
    requires Sorted(t) && 2 <= n <= |t|
    requires forall k :: n <= k < |t| ==> t[k].phys as int - t[k - 1].phys < WORD / 2
    ensures 0 < r < |t|
    ensures forall k :: 0 < k < |t| && k != r ==> t[k].phys as int - t[k - 1].phys < WORD / 2
  {
    r := n - 1;
    if t[r].phys as int - t[r - 1].phys >= WORD / 2 {
      forall k | 0 < k < |t| && k != r ensures t[k].phys as int - t[k - 1].phys < WORD / 2 {
        if k < r {
          assert t[k].phys <= t[r - 1].phys;
        }
      }
    } else if n > 2 {
      r := Cut(t, n - 1);
    }
  }

  /** Cut there and with its halves exchanged, a list with addresses half the address space apart has no
      neighbours out of order, yet is not sorted. */
  lemma RotatedIsInOrder(t: seq<MemDesc>, r: nat)
    requires Sorted(t) && 0 < r < |t| && t[|t| - 1].phys as int - t[0].phys >= WORD / 2
    requires forall k :: 0 < k < |t| && k != r ==> t[k].phys as int - t[k - 1].phys < WORD / 2
    ensures multiset(t[r..] + t[..r]) == multiset(t)
    ensures InOrder(t[r..] + t[..r]) && !Sorted(t[r..] + t[..r])
  {
    var s, m := t[r..] + t[..r], |t| - r;
    assert t == t[..r] + t[r..];
    forall k | 0 < k < |s| ensures Compare(s[k - 1], s[k]) <= 0 {
      if k < m {
        CompareUpTo(t[r + k - 1], t[r + k]);
      } else if k == m {
        CompareDownFrom(t[|t| - 1], t[0]);
      } else {
        CompareUpTo(t[k - m - 1], t[k - m]);
      }
    }
    assert s[m - 1] == t[|t| - 1] && s[m] == t[0];
  }

  /** A map with incomparable addresses can be left unsorted by a sort that finds nothing out of order. */
  lemma UnsortedOrdering(input: seq<MemDesc>) returns (s: seq<MemDesc>)
    requires !ComparableRange(input)
    ensures multiset(s) == multiset(input) && InOrder(s) && !Sorted(s)
  {
    var t := SortedPermutation(input);
    var i, j :| 0 <= i < |input| && 0 <= j < |input| && input[i].phys as int - input[j].phys >= WORD / 2;
    assert input[i] in multiset(t) && input[j] in multiset(t);
    var k, l :| 0 <= k < |t| && 0 <= l < |t| && t[k] == input[i] && t[l] == input[j];
    assert t[0].phys <= t[l].phys && t[k].phys <= t[|t| - 1].phys;
    var r := Cut(t, |t|);
    RotatedIsInOrder(t, r);
    s := t[r..] + t[..r];
  }

  /** MAIN RESULT on the order: without skip_bs, the table is in address order however the map is left in
      order by h_cmp_entry, if and only if all its addresses are less than 2^63 apart. */
  lemma TableIsSortedIff(input: seq<MemDesc>)
    ensures (forall s: seq<MemDesc> ::
               multiset(s) == multiset(input) && InOrder(s) ==> Sorted(Stored(Coalesce(s, false, |s|))))
            <==> ComparableRange(input)
  {
    if ComparableRange(input) {
      forall s: seq<MemDesc> | multiset(s) == multiset(input) && InOrder(s)
        ensures Sorted(Stored(Coalesce(s, false, |s|)))
      {
        TableIsSorted(input, s, false);
      }
    } else {
      var s := UnsortedOrdering(input);
      AllRowsKept(s, |s|);
      StoredAgain(s);
    }
  }
}
