/** qsort of libc/stdlib.c: an insertion sort that swaps adjacent records byte by byte, in
    place, through the caller's comparator. */
module Sort {
  import opened Words
  import opened Powers

  type Comparator = (seq<byte>, seq<byte>) -> int

  /** a may stand before b */
  predicate Le(cmp: Comparator, a: seq<byte>, b: seq<byte>) { cmp(a, b) <= 0 }

  /** What the caller's comparator must be on the records that are sorted, and on no others. */
  ghost predicate TotalPreorder(cmp: Comparator, s: seq<seq<byte>>) {
    && (forall a, b :: a in s && b in s ==> Le(cmp, a, b) || Le(cmp, b, a))
    && (forall a, b, c :: a in s && b in s && c in s && Le(cmp, a, b) && Le(cmp, b, c) ==> Le(cmp, a, c))
  }

  // The result, as an arrangement of the original records.

  ghost predicate Permutes(p: seq<nat>, n: nat) {
    && |p| == n && (forall i :: 0 <= i < n ==> p[i] < n)
    && forall i, j :: 0 <= i < j < n ==> p[i] != p[j]
  }

  /** Original record x belongs before original record y: it is smaller, or ties and came first. */
  predicate Ranked(cmp: Comparator, s: seq<seq<byte>>, x: nat, y: nat)
    requires x < |s| && y < |s|
  {
    Le(cmp, s[x], s[y]) && (Le(cmp, s[y], s[x]) ==> x < y)
  }

  /** t is the stable sort of s: position i holds original record p[i]. */
  ghost predicate StableSort(cmp: Comparator, s: seq<seq<byte>>, t: seq<seq<byte>>, p: seq<nat>) {
    && Permutes(p, |s|) && |t| == |s| && (forall i :: 0 <= i < |s| ==> t[i] == s[p[i]])
    && forall i, j :: 0 <= i < j < |s| ==> Ranked(cmp, s, p[i], p[j])
  }

  lemma StableSortIsSorted(cmp: Comparator, s: seq<seq<byte>>, t: seq<seq<byte>>, p: seq<nat>)
    requires StableSort(cmp, s, t, p)
    ensures forall i, j :: 0 <= i < j < |t| ==> cmp(t[i], t[j]) <= 0
    ensures forall i, j :: 0 <= i < j < |t| && cmp(t[j], t[i]) <= 0 ==> p[i] < p[j]
  {
    forall i, j | 0 <= i < j < |t|
      ensures cmp(t[i], t[j]) <= 0 && (cmp(t[j], t[i]) <= 0 ==> p[i] < p[j])
    {
      assert Ranked(cmp, s, p[i], p[j]);
    }
  }

  function Upto(n: nat): (r: set<nat>)
    ensures |r| == n && forall x: nat :: x in r <==> x < n
  {
    if n == 0 then {} else Upto(n - 1) + {n - 1}
  }

  function Elements(p: seq<nat>): set<nat> { set x | x in p }

  lemma {:induction false} DistinctSize(p: seq<nat>)
    requires forall i, j :: 0 <= i < j < |p| ==> p[i] != p[j]
    ensures |Elements(p)| == |p|
  {
    if p != [] {
      DistinctSize(p[1..]);
      assert Elements(p) == Elements(p[1..]) + {p[0]};
      assert p[0] !in p[1..];
    }
  }

  lemma SubsetOfSameSize(a: set<nat>, b: set<nat>)
    requires a <= b && |a| == |b|
    ensures a == b
  {
    assert |b - a| == |b| - |a|;
  }

  /** A permutation reaches every index. */
  lemma Reaches(p: seq<nat>, n: nat, x: nat)
    requires Permutes(p, n) && x < n
    ensures x in p
  {
    DistinctSize(p);
    SubsetOfSameSize(Elements(p), Upto(n));
    assert x in Upto(n);
  }

  /** There is only one stable sort of a sequence of records. */
  lemma {:induction false} StableSortIsUnique(cmp: Comparator, s: seq<seq<byte>>, t: seq<seq<byte>>, p: seq<nat>,
                                              u: seq<seq<byte>>, q: seq<nat>, i: nat)
    requires StableSort(cmp, s, t, p) && StableSort(cmp, s, u, q) && i <= |s|
    ensures p[..i] == q[..i] && t[..i] == u[..i]
  {
    if i > 0 {
      var k := i - 1;
      StableSortIsUnique(cmp, s, t, p, u, q, k);
      if p[k] != q[k] {
        var a := Later(p, q, k);
        var b := Later(q, p, k);
        assert false;
      }
      assert p[..i] == p[..k] + [p[k]] && q[..i] == q[..k] + [q[k]];
      assert t[..i] == t[..k] + [t[k]] && u[..i] == u[..k] + [u[k]];
    }
  }

  /** The element p has at k stands further back in q. */
  lemma Later(p: seq<nat>, q: seq<nat>, k: nat) returns (a: nat)
    requires |p| == |q| && Permutes(p, |p|) && Permutes(q, |q|) && k < |p| && p[..k] == q[..k] && p[k] != q[k]
    ensures k < a < |q| && q[a] == p[k]
  {
    Reaches(q, |q|, p[k]);
    a :| a < |q| && q[a] == p[k];
    forall i | 0 <= i < k
      ensures p[i] == q[i]
    {
      assert p[..k][i] == q[..k][i];
    }
  }

  // Records in memory.

  function At(base: nat, size: nat, i: nat): nat { base + i * size }

  lemma Inside(base: nat, size: nat, i: nat, n: nat)
    requires i < n
    ensures At(base, size, i) + size == At(base, size, i + 1) <= At(base, size, n)
  {
    MulLe(i + 1, n, size);
  }

  function Record(m: seq<byte>, base: nat, size: nat, i: nat): (r: seq<byte>)
    requires At(base, size, i) + size <= |m|
    ensures |r| == size
  {
    m[At(base, size, i)..At(base, size, i) + size]
  }

  function Records(m: seq<byte>, base: nat, size: nat, n: nat): (s: seq<seq<byte>>)
    requires At(base, size, n) <= |m|
    ensures |s| == n
    ensures forall i: nat :: i < n ==> At(base, size, i) + size <= |m| && s[i] == Record(m, base, size, i)
  {
    if n == 0 then []
    else
      Inside(base, size, n - 1, n);
      Records(m, base, size, n - 1) + [Record(m, base, size, n - 1)]
  }

  /** One record after another. */
  function Joined(s: seq<seq<byte>>): seq<byte> {
    if s == [] then [] else Joined(s[..|s| - 1]) + s[|s| - 1]
  }

  /** The records are all the bytes from base on, n times size of them, cut into pieces of size. */
  lemma RecordsTile(m: seq<byte>, base: nat, size: nat, n: nat)
    requires base + n * size <= |m|
    ensures forall i: nat :: i < n ==> |Records(m, base, size, n)[i]| == size
    ensures Joined(Records(m, base, size, n)) == m[base..base + n * size]
  {
    RecordsJoin(m, base, size, n);
    hide Records, Joined;
  }

  lemma {:induction false} RecordsJoin(m: seq<byte>, base: nat, size: nat, n: nat)
    requires At(base, size, n) <= |m|
    ensures base <= At(base, size, n) && Joined(Records(m, base, size, n)) == m[base..At(base, size, n)]
    decreases n
  {
    hide Records, Joined, At, Record;
    if n == 0 {
      NoRecords(m, base, size);
    } else {
      RecordsSnoc(m, base, size, n);
      RecordsJoin(m, base, size, n - 1);
      JoinedSnoc(Records(m, base, size, n - 1), Record(m, base, size, n - 1));
    }
  }

  lemma NoRecords(m: seq<byte>, base: nat, size: nat)
    requires At(base, size, 0) <= |m|
    ensures At(base, size, 0) == base && Joined(Records(m, base, size, 0)) == []
  {
  }

  lemma RecordsSnoc(m: seq<byte>, base: nat, size: nat, n: nat)
    requires n > 0 && At(base, size, n) <= |m|
    ensures At(base, size, n - 1) + size == At(base, size, n)
    ensures Records(m, base, size, n) == Records(m, base, size, n - 1) + [Record(m, base, size, n - 1)]
    ensures base <= At(base, size, n - 1)
    ensures m[base..At(base, size, n)] == m[base..At(base, size, n - 1)] + Record(m, base, size, n - 1)
  {
    Inside(base, size, n - 1, n);
  }

  lemma JoinedSnoc(s: seq<seq<byte>>, r: seq<byte>)
    ensures Joined(s + [r]) == Joined(s) + r
  {
    assert (s + [r])[..|s|] == s;
  }

  /** The bytes at a and b, size of them each, have changed places; nothing else changed. */
  ghost predicate Swapped(m: seq<byte>, n: seq<byte>, a: nat, b: nat, size: nat)
    requires a + size <= b && b + size <= |m|
  {
    && |n| == |m| && n[a..a + size] == m[b..b + size] && n[b..b + size] == m[a..a + size]
    && forall i :: 0 <= i < |m| && !(a <= i < a + size) && !(b <= i < b + size) ==> n[i] == m[i]
  }

  /** The inner byte loop. */
  method SwapRecords(mem: array<byte>, a: nat, b: nat, size: nat)
    requires a + size <= b && b + size <= mem.Length
    modifies mem
    ensures Swapped(old(mem[..]), mem[..], a, b, size)
  {
    for k := 0 to size
      invariant mem[a..a + k] == old(mem[b..b + k]) && mem[b..b + k] == old(mem[a..a + k])
      invariant forall i :: 0 <= i < mem.Length && !(a <= i < a + k) && !(b <= i < b + k) ==> mem[i] == old(mem[i])
    {
      var t := mem[a + k];
      mem[a + k] := mem[b + k];
      mem[b + k] := t;
    }
  }

  /** Swapping neighbours in memory swaps two records and leaves the others. */
  lemma SwapIsSwap(m: seq<byte>, n: seq<byte>, base: nat, size: nat, count: nat, j: nat)
    requires 0 < j < count && At(base, size, count) <= |m| && At(base, size, j - 1) + size == At(base, size, j)
    requires At(base, size, j) + size <= |m| && Swapped(m, n, At(base, size, j - 1), At(base, size, j), size)
    ensures Records(n, base, size, count)
            == Records(m, base, size, count)[j - 1 := Record(m, base, size, j)][j := Record(m, base, size, j - 1)]
  {
    SwapPair(m, n, base, size, j);
    hide At, Record, Swapped, Records;
    var s, t := Records(m, base, size, count), Records(n, base, size, count);
    var u := s[j - 1 := Record(m, base, size, j)][j := Record(m, base, size, j - 1)];
    assert forall i :: 0 <= i < count && i != j - 1 && i != j ==> u[i] == s[i];
    forall i: nat | i < count
      ensures t[i] == u[i]
    {
      if i < j - 1 {
        Inside(base, size, i, j - 1);
        OtherRecord(m, n, base, size, i, j);
      } else if i > j {
        Inside(base, size, j, i);
        OtherRecord(m, n, base, size, i, j);
      }
    }
  }

  lemma SwapPair(m: seq<byte>, n: seq<byte>, base: nat, size: nat, j: nat)
    requires 0 < j && At(base, size, j - 1) + size == At(base, size, j) && At(base, size, j) + size <= |m|
    requires Swapped(m, n, At(base, size, j - 1), At(base, size, j), size)
    ensures |n| == |m| && Record(n, base, size, j) == Record(m, base, size, j - 1)
    ensures Record(n, base, size, j - 1) == Record(m, base, size, j)
  {
    hide At;
  }

  lemma OtherRecord(m: seq<byte>, n: seq<byte>, base: nat, size: nat, i: nat, j: nat)
    requires 0 < j && At(base, size, j - 1) + size == At(base, size, j)
    requires At(base, size, j) + size <= |m| && Swapped(m, n, At(base, size, j - 1), At(base, size, j), size)
    requires At(base, size, i) + size <= |m|
    requires At(base, size, i) + size <= At(base, size, j - 1) || At(base, size, j) + size <= At(base, size, i)
    ensures Record(n, base, size, i) == Record(m, base, size, i)
  {
    hide At;
  }

  // The sort.

  /** Part-way through inserting record i: it is at j, everything it passed is larger, and
      the other records up to i are in order. */
  ghost predicate Inserting(cmp: Comparator, s: seq<seq<byte>>, p: seq<nat>, i: nat, j: nat) {
    && Permutes(p, |s|) && j <= i < |s| && p[j] == i && (forall k :: i < k < |s| ==> p[k] == k)
    && (forall k :: 0 <= k <= i && k != j ==> p[k] < i)
    && (forall k :: j < k <= i ==> !Le(cmp, s[p[k]], s[i]))
    && forall a, b :: 0 <= a < b <= i && a != j && b != j ==> Ranked(cmp, s, p[a], p[b])
  }

  /** The first i records are in order, the rest where they were. */
  ghost predicate Inserted(cmp: Comparator, s: seq<seq<byte>>, p: seq<nat>, i: nat) {
    && Permutes(p, |s|) && i <= |s| && (forall k :: i <= k < |s| ==> p[k] == k) && (forall k :: 0 <= k < i ==> p[k] < i)
    && forall a, b :: 0 <= a < b < i ==> Ranked(cmp, s, p[a], p[b])
  }

  lemma PassOne(cmp: Comparator, s: seq<seq<byte>>, p: seq<nat>, i: nat, j: nat)
    requires Inserting(cmp, s, p, i, j) && j > 0 && !Le(cmp, s[p[j - 1]], s[i])
    ensures Inserting(cmp, s, p[j - 1 := p[j]][j := p[j - 1]], i, j - 1)
  {
  }

  lemma Settle(cmp: Comparator, s: seq<seq<byte>>, p: seq<nat>, i: nat, j: nat)
    requires TotalPreorder(cmp, s) && Inserting(cmp, s, p, i, j) && (j > 0 ==> Le(cmp, s[p[j - 1]], s[i]))
    ensures Inserted(cmp, s, p, i + 1)
  {
  }

  method Qsort(mem: array<byte>, base: nat, nmemb: nat, size: nat, cmp: Comparator) returns (ghost p: seq<nat>)
    requires At(base, size, nmemb) <= mem.Length && TotalPreorder(cmp, Records(mem[..], base, size, nmemb))
    modifies mem
    ensures StableSort(cmp, old(Records(mem[..], base, size, nmemb)), Records(mem[..], base, size, nmemb), p)
    ensures forall i :: 0 <= i < mem.Length && !(base <= i < At(base, size, nmemb)) ==> mem[i] == old(mem[i])
  {
    hide Inserted, Inserting, StableSort, TotalPreorder, At, Records, Arranged;
    ghost var s := Records(mem[..], base, size, nmemb);
    p := seq(nmemb, k => k);
    Arranges(cmp, s, p);
    var i := 1;
    while i < nmemb
      invariant nmemb > 0 ==> i <= nmemb && Inserted(cmp, s, p, i)
      invariant |p| == |s| == nmemb && Arranged(s, Records(mem[..], base, size, nmemb), p)
      invariant forall i :: 0 <= i < mem.Length && !(base <= i < At(base, size, nmemb)) ==> mem[i] == old(mem[i])
    {
      p := Insert(mem, base, nmemb, size, cmp, i, s, p);
      i := i + 1;
    }
    AllInserted(cmp, s, Records(mem[..], base, size, nmemb), p, i);
  }

  /** Position k holds original record p[k]. */
  ghost predicate Arranged(s: seq<seq<byte>>, t: seq<seq<byte>>, p: seq<nat>) {
    |t| == |s| == |p| && forall k :: 0 <= k < |p| ==> p[k] < |s| && t[k] == s[p[k]]
  }

  /** The swap, in terms of records. */
  method SwapNeighbours(mem: array<byte>, base: nat, nmemb: nat, size: nat, j: nat)
    requires 0 < j < nmemb && At(base, size, nmemb) <= mem.Length
    modifies mem
    ensures var s := old(Records(mem[..], base, size, nmemb));
            Records(mem[..], base, size, nmemb) == s[j - 1 := s[j]][j := s[j - 1]]
    ensures forall k :: 0 <= k < mem.Length && !(base <= k < At(base, size, nmemb)) ==> mem[k] == old(mem[k])
  {
    Inside(base, size, j - 1, nmemb);
    Inside(base, size, j, nmemb);
    hide At, Swapped;
    ghost var m := mem[..];
    SwapRecords(mem, At(base, size, j - 1), At(base, size, j), size);
    SwapIsSwap(m, mem[..], base, size, nmemb, j);
    SwapOutside(m, mem[..], base, size, nmemb, j);
  }

  /** cmp(p + (j - 1) * size, p + j * size) > 0 */
  method Compare(mem: array<byte>, base: nat, nmemb: nat, size: nat, cmp: Comparator, j: nat,
                 ghost s: seq<seq<byte>>, ghost p: seq<nat>) returns (larger: bool)
    requires 0 < j < nmemb && At(base, size, nmemb) <= mem.Length
    requires Arranged(s, Records(mem[..], base, size, nmemb), p)
    ensures larger == !Le(cmp, s[p[j - 1]], s[p[j]])
  {
    Inside(base, size, j - 1, nmemb);
    Inside(base, size, j, nmemb);
    hide At;
    var a, b := At(base, size, j - 1), At(base, size, j);
    larger := cmp(mem[a..a + size], mem[b..b + size]) > 0;
    assert mem[a..a + size] == Record(mem[..], base, size, j - 1);
    assert mem[b..b + size] == Record(mem[..], base, size, j);
  }

  lemma ArrangedSwap(s: seq<seq<byte>>, t: seq<seq<byte>>, p: seq<nat>, j: nat)
    requires Arranged(s, t, p) && 0 < j < |p|
    ensures |t| == |p| && Arranged(s, t[j - 1 := t[j]][j := t[j - 1]], p[j - 1 := p[j]][j := p[j - 1]])
  {
  }

  /** The inner while loop. */
  method Insert(mem: array<byte>, base: nat, nmemb: nat, size: nat, cmp: Comparator, i: nat,
                ghost s: seq<seq<byte>>, ghost p0: seq<nat>) returns (ghost p: seq<nat>)
    requires At(base, size, nmemb) <= mem.Length && TotalPreorder(cmp, s) && i < nmemb == |s|
    requires Inserted(cmp, s, p0, i) && Arranged(s, Records(mem[..], base, size, nmemb), p0)
    modifies mem
    ensures Inserted(cmp, s, p, i + 1) && |p| == |s| && Arranged(s, Records(mem[..], base, size, nmemb), p)
    ensures forall k :: 0 <= k < mem.Length && !(base <= k < At(base, size, nmemb)) ==> mem[k] == old(mem[k])
  {
    hide Inserted, Inserting, TotalPreorder, At, Arranged, Records;
    p := p0;
    var j: nat := i;
    Begin(cmp, s, p, i);
    while j > 0
      invariant j <= i && |p| == |s| && Inserting(cmp, s, p, i, j)
      invariant Arranged(s, Records(mem[..], base, size, nmemb), p)
      invariant forall k :: 0 <= k < mem.Length && !(base <= k < At(base, size, nmemb)) ==> mem[k] == old(mem[k])
    {
      InsertingAt(cmp, s, p, i, j);
      var larger := Compare(mem, base, nmemb, size, cmp, j, s, p);
      if !larger {
        break;
      }
      ghost var t := Records(mem[..], base, size, nmemb);
      SwapNeighbours(mem, base, nmemb, size, j);
      PassOne(cmp, s, p, i, j);
      ArrangedSwap(s, t, p, j);
      p := p[j - 1 := p[j]][j := p[j - 1]];
      j := j - 1;
    }
    Settle(cmp, s, p, i, j);
  }

  lemma Begin(cmp: Comparator, s: seq<seq<byte>>, p: seq<nat>, i: nat)
    requires Inserted(cmp, s, p, i) && i < |s|
    ensures |p| == |s| && Inserting(cmp, s, p, i, i)
  {
  }

  lemma InsertingAt(cmp: Comparator, s: seq<seq<byte>>, p: seq<nat>, i: nat, j: nat)
    requires Inserting(cmp, s, p, i, j)
    ensures |p| == |s| && j <= i < |s| && p[j] == i
  {
  }

  lemma Arranges(cmp: Comparator, s: seq<seq<byte>>, p: seq<nat>)
    requires p == seq(|s|, k => k)
    ensures Arranged(s, s, p) && (s != [] ==> Inserted(cmp, s, p, 1))
  {
  }

  lemma AllInserted(cmp: Comparator, s: seq<seq<byte>>, t: seq<seq<byte>>, p: seq<nat>, i: nat)
    requires Arranged(s, t, p) && (s != [] ==> i == |s| && Inserted(cmp, s, p, i))
    ensures StableSort(cmp, s, t, p)
  {
  }

  lemma SwapOutside(m: seq<byte>, n: seq<byte>, base: nat, size: nat, count: nat, j: nat)
    requires 0 < j < count && At(base, size, count) <= |m| && At(base, size, j - 1) + size == At(base, size, j)
    requires At(base, size, j) + size <= At(base, size, count)
    requires Swapped(m, n, At(base, size, j - 1), At(base, size, j), size)
    ensures |n| == |m| && forall k :: 0 <= k < |m| && !(base <= k < At(base, size, count)) ==> n[k] == m[k]
  {
    assert At(base, size, j - 1) >= base;
  }
}
