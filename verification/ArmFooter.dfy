/** The checksum over an ARM flash image footer: a 32-bit sum with end-around carry. */
module ArmFooter {
  const WORD32: int := 0x1_0000_0000
  const ONES: int := 0xFFFF_FFFF

  type u32 = x: int | 0 <= x < WORD32

  /** C's ~x on an u32. */
  function Not(x: u32): u32 {
    ONES - x
  }

  function Wrap32(x: int): u32
    requires 0 <= x < 2 * WORD32
  {
    if x < WORD32 then x else x - WORD32
  }

  /** One step of the loop: the carry out of the top bit is added at the bottom. */
  function AddCarry(sum: u32, val: u32): u32 {
    var carried := if val > Not(sum) then Wrap32(sum + 1) else sum;
    Wrap32(carried + val)
  }

  function SumOf(words: seq<u32>): u32 {
    if words == [] then 0 else AddCarry(SumOf(words[..|words| - 1]), words[|words| - 1])
  }

  function Crc(words: seq<u32>): u32 {
    Not(SumOf(words))
  }

  /** compute_crc on the words that readl answers from the start address on. */
  method ComputeCrc(words: seq<u32>, len: nat) returns (crc: u32)
    requires len / 4 <= |words|
    ensures crc == if len % 4 == 0 then Crc(words[..len / 4]) else 0
  {
    var sum: u32 := 0;
    if len % 4 != 0 {
      return 0;
    }
    var i := 0;
    while i < len
      invariant 0 <= i <= len && i % 4 == 0
      invariant sum == SumOf(words[..i / 4])
    {
      var val := words[i / 4];
      if val > Not(sum) {
        sum := Wrap32(sum + 1);
      }
      assert words[..i / 4 + 1][..i / 4] == words[..i / 4];
      sum := Wrap32(sum + val);
      i := i + 4;
    }
    return Not(sum);
  }

  // ---------------------------------------------------------------- the sum in plain arithmetic

  function Total(words: seq<u32>): nat {
    if words == [] then 0 else Total(words[..|words| - 1]) + words[|words| - 1]
  }

  /** The representative of a total modulo 2^32 - 1 that is 0 only for 0 itself. */
  function Canonical(total: nat): u32 {
    if total == 0 then 0 else (total - 1) % ONES + 1
  }

  lemma CanonicalStep(total: nat, val: u32)
    ensures AddCarry(Canonical(total), val) == Canonical(total + val)
  {
    if total > 0 {
      var q, r := (total - 1) / ONES, (total - 1) % ONES;
      if r + val < ONES {
        Residue(total + val - 1, q, r + val);
      } else {
        Residue(total + val - 1, q + 1, r + val - ONES);
      }
    }
  }

  lemma Residue(x: int, q: int, r: int)
    requires x == q * ONES + r && 0 <= r < ONES
    ensures x % ONES == r
  {
  }

  /** MAIN RESULT: the loop computes the word sum modulo 2^32 - 1, with 0 only for all zeros. */
  lemma {:induction false} SumIsCanonical(words: seq<u32>)
    ensures SumOf(words) == Canonical(Total(words))
  {
    if words != [] {
      SumIsCanonical(words[..|words| - 1]);
      CanonicalStep(Total(words[..|words| - 1]), words[|words| - 1]);
    }
  }

  lemma {:induction false} TotalConcat(a: seq<u32>, b: seq<u32>)
    ensures Total(a + b) == Total(a) + Total(b)
    decreases |b|
  {
    if b == [] {
      assert a + b == a;
    } else {
      TotalConcat(a, b[..|b| - 1]);
      assert (a + b)[..|a + b| - 1] == a + b[..|b| - 1];
    }
  }

  lemma TotalInsert(a: seq<u32>, w: u32, b: seq<u32>)
    ensures Total(a + [w] + b) == Total(a + b) + w
  {
    TotalConcat(a + [w], b);
    TotalConcat(a, b);
    assert (a + [w])[..|a|] == a;
  }

  lemma Around(words: seq<u32>, i: nat)
    requires i < |words|
    ensures words == words[..i] + [words[i]] + words[i + 1..]
  {
  }

  // ---------------------------------------------------------------- what the checksum promises

  lemma {:induction false} TotalOfPermutation(a: seq<u32>, b: seq<u32>)
    requires multiset(a) == multiset(b)
    ensures Total(a) == Total(b)
    decreases |a|
  {
    if a == [] {
      assert |multiset(b)| == 0;
    } else {
      var last := a[|a| - 1];
      assert a == a[..|a| - 1] + [last];
      assert last in multiset(b);
      var i :| 0 <= i < |b| && b[i] == last;
      Around(b, i);
      assert multiset(b[..i] + b[i + 1..]) == multiset(b) - multiset{last};
      TotalOfPermutation(a[..|a| - 1], b[..i] + b[i + 1..]);
      TotalInsert(b[..i], last, b[i + 1..]);
    }
  }

  /** The order of the words does not matter. */
  lemma CrcOfPermutation(a: seq<u32>, b: seq<u32>)
    requires multiset(a) == multiset(b)
    ensures Crc(a) == Crc(b)
  {
    TotalOfPermutation(a, b);
    SumIsCanonical(a);
    SumIsCanonical(b);
  }

  lemma CanonicalCancels(total: nat)
    ensures Canonical(total + Not(Canonical(total))) == ONES
  {
    if total > 0 {
      Residue(total + Not(Canonical(total)) - 1, (total - 1) / ONES, ONES - 1);
    }
  }

  /** The footer check: words that include their own checksum, wherever it stands among them,
      have checksum zero. */
  lemma ChecksumCancels(words: seq<u32>, i: nat)
    requires i <= |words|
    ensures Crc(words[..i] + [Crc(words)] + words[i..]) == 0
  {
    var crc, total := Crc(words), Total(words);
    var footer: seq<u32> := words[..i] + [crc] + words[i..];
    assert words[..i] + words[i..] == words;
    TotalInsert(words[..i], crc, words[i..]);
    SumIsCanonical(words);
    SumIsCanonical(footer);
    CanonicalCancels(total);
  }

  /** Which words pass the check: a nonzero total that is a multiple of 2^32 - 1. */
  lemma PassesIff(words: seq<u32>)
    ensures Crc(words) == 0 <==> Total(words) > 0 && Total(words) % 0xFFFF_FFFF == 0
  {
    SumIsCanonical(words);
    var total := Total(words);
    if total > 0 {
      var q, r := (total - 1) / ONES, (total - 1) % ONES;
      if r == ONES - 1 {
        Residue(total, q + 1, 0);
      } else {
        Residue(total, q, r + 1);
      }
    }
  }

  lemma SameCanonicalIff(t: nat, v: u32, w: u32)
    requires v < w
    ensures Canonical(t + v) == Canonical(t + w) <==> v == 0 && w == ONES && t > 0
  {
    if t + v > 0 {
      var q, r := (t + v - 1) / ONES, (t + v - 1) % ONES;
      if r + (w - v) < ONES {
        Residue(t + w - 1, q, r + (w - v));
      } else if r + (w - v) < 2 * ONES {
        Residue(t + w - 1, q + 1, r + (w - v) - ONES);
      }
    }
  }

  lemma SameCanonicalEitherWay(t: nat, v: u32, w: u32)
    requires v != w
    ensures Canonical(t + v) == Canonical(t + w) <==> ((v == 0 && w == ONES) || (v == ONES && w == 0)) && t > 0
  {
    if v < w {
      SameCanonicalIff(t, v, w);
    } else {
      SameCanonicalIff(t, w, v);
    }
  }

  lemma {:induction false} TotalZeroIff(words: seq<u32>)
    ensures Total(words) == 0 <==> forall i :: 0 <= i < |words| ==> words[i] == 0
  {
    if words != [] {
      TotalZeroIff(words[..|words| - 1]);
    }
  }

  lemma OthersZeroIff(words: seq<u32>, i: nat)
    requires i < |words|
    ensures Total(words[..i] + words[i + 1..]) > 0 <==> exists k :: 0 <= k < |words| && k != i && words[k] != 0
  {
    var rest := words[..i] + words[i + 1..];
    TotalZeroIff(rest);
    if k :| 0 <= k < |words| && k != i && words[k] != 0 {
      assert rest[if k < i then k else k - 1] != 0;
    }
  }

  /** Changing one word always changes the checksum, with one exception: exchanging 0 and
      0xFFFFFFFF when some other word is not zero. */
  lemma OneWordChangeDetected(words: seq<u32>, i: nat, v: u32)
    requires i < |words| && v != words[i]
    ensures Crc(words[i := v]) == Crc(words) <==>
              ((v == 0 && words[i] == ONES) || (v == ONES && words[i] == 0))
              && exists k :: 0 <= k < |words| && k != i && words[k] != 0
  {
    var changed, before, after := words[i := v], words[..i], words[i + 1..];
    var rest := before + after;
    OthersZeroIff(words, i);
    Around(words, i);
    assert changed == before + [v] + after;
    TotalInsert(before, words[i], after);
    TotalInsert(before, v, after);
    SumIsCanonical(words);
    SumIsCanonical(changed);
    SameCanonicalEitherWay(Total(rest), v, words[i]);
  }
}
