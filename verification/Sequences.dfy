/**
 Sequences shared by the whole model: bytes, cells, prefix sums, concatenation and
 selection. A dataset column means the concatenation of its files' columns, so the
 index arithmetic of `Flat` is what every decomposition proof rests on.
 */
module Sequences {

  type Byte = b: int | 0 <= b < 256

  /** One element of a column: its bytes, in host order once it has been read. */
  type Cell = seq<Byte>

  /** The address space all file mappings live in. */
  type Memory = int -> Byte

  datatype Option<+T> = None | Some(value: T)

  const INT32_MAX := 0x7FFF_FFFF
  const INT64_MAX := 0x7FFF_FFFF_FFFF_FFFF

  function Min(a: int, b: int): int { if a <= b then a else b }

  function Max(a: int, b: int): int { if a >= b then a else b }

  function Load(mem: Memory, addr: int, count: nat): Cell {
    seq(count, k => mem(addr + k))
  }

  // ---- prefix sums ----

  /** `offsets` is the exclusive prefix sum of `lengths`, total included. */
  predicate PrefixSums(offsets: seq<int>, lengths: seq<nat>) {
    && |offsets| == |lengths| + 1
    && offsets[0] == 0
    && forall k :: 0 <= k < |lengths| ==> offsets[k + 1] == offsets[k] + lengths[k]
  }

  predicate NonDecreasing(s: seq<int>) {
    forall i, j :: 0 <= i <= j < |s| ==> s[i] <= s[j]
  }

  lemma {:induction false} PrefixSumsMonotone(offsets: seq<int>, lengths: seq<nat>, i: nat, j: nat)
    requires PrefixSums(offsets, lengths)
    requires i <= j < |offsets|
    ensures offsets[i] <= offsets[j]
    decreases j
  {
    if i < j {
      PrefixSumsMonotone(offsets, lengths, i, j - 1);
      assert offsets[j - 1 + 1] == offsets[j - 1] + lengths[j - 1];
    }
  }

  lemma PrefixSumsSorted(offsets: seq<int>, lengths: seq<nat>)
    requires PrefixSums(offsets, lengths)
    ensures NonDecreasing(offsets)
    ensures forall k :: 0 <= k < |offsets| ==> 0 <= offsets[k]
  {
    forall i, j | 0 <= i <= j < |offsets| ensures offsets[i] <= offsets[j] {
      PrefixSumsMonotone(offsets, lengths, i, j);
    }
  }

  /** The windows of different parts are apart. */
  lemma SameWindow(offsets: seq<int>, lengths: seq<nat>, f: nat, g: nat, x: int)
    requires PrefixSums(offsets, lengths) && f < |lengths| && g < |lengths|
    requires offsets[f] <= x < offsets[f + 1] && offsets[g] <= x < offsets[g + 1]
    ensures f == g
  {
    if f < g {
      PrefixSumsMonotone(offsets, lengths, f + 1, g);
    } else if g < f {
      PrefixSumsMonotone(offsets, lengths, g + 1, f);
    }
  }

  /** Prefix sums of the same lengths are the same. */
  lemma {:induction false} PrefixSumsUnique(a: seq<int>, b: seq<int>, lengths: seq<nat>, k: nat)
    requires PrefixSums(a, lengths) && PrefixSums(b, lengths)
    requires k <= |lengths|
    ensures a[..k + 1] == b[..k + 1]
  {
    if k > 0 {
      PrefixSumsUnique(a, b, lengths, k - 1);
      assert a[..k][k - 1] == b[..k][k - 1];
      assert a[k - 1 + 1] == a[k - 1] + lengths[k - 1];
      assert b[k - 1 + 1] == b[k - 1] + lengths[k - 1];
      assert a[..k + 1] == a[..k] + [a[k]];
      assert b[..k + 1] == b[..k] + [b[k]];
    }
  }

  // ---- concatenation ----

  function Flat<T>(parts: seq<seq<T>>): seq<T> {
    if parts == [] then [] else Flat(parts[..|parts| - 1]) + parts[|parts| - 1]
  }

  function Lengths<T>(parts: seq<seq<T>>): seq<nat> {
    seq(|parts|, i requires 0 <= i < |parts| => |parts[i]|)
  }

  lemma {:induction false} FlatAppend<T>(parts: seq<seq<T>>, more: seq<seq<T>>)
    ensures Flat(parts + more) == Flat(parts) + Flat(more)
    decreases |more|
  {
    if more == [] {
      assert parts + more == parts;
    } else {
      var init := more[..|more| - 1];
      assert (parts + more)[..|parts + more| - 1] == parts + init;
      FlatAppend(parts, init);
    }
  }

  lemma FlatSingle<T>(part: seq<T>)
    ensures Flat([part]) == part
  {
    assert [part][..0] == [];
    assert Flat([part]) == Flat([part][..0]) + part;
  }

  lemma {:induction false} FlatLength<T>(parts: seq<seq<T>>, offsets: seq<int>)
    requires PrefixSums(offsets, Lengths(parts))
    ensures |Flat(parts)| == offsets[|parts|]
  {
    if parts != [] {
      var n := |parts| - 1;
      assert offsets[n + 1] == offsets[n] + Lengths(parts)[n];
      assert PrefixSums(offsets[..n + 1], Lengths(parts[..n]));
      FlatLength(parts[..n], offsets[..n + 1]);
    }
  }

  /** Element `k` of part `f` sits at `offsets[f] + k` of the concatenation. */
  lemma {:induction false} FlatAt<T>(parts: seq<seq<T>>, offsets: seq<int>, f: nat, k: nat)
    requires PrefixSums(offsets, Lengths(parts))
    requires f < |parts| && k < |parts[f]|
    ensures 0 <= offsets[f] + k < |Flat(parts)|
    ensures Flat(parts)[offsets[f] + k] == parts[f][k]
    decreases |parts|
  {
    var n := |parts| - 1;
    assert PrefixSums(offsets[..n + 1], Lengths(parts[..n]));
    FlatLength(parts[..n], offsets[..n + 1]);
    PrefixSumsSorted(offsets, Lengths(parts));
    if f < n {
      FlatAt(parts[..n], offsets[..n + 1], f, k);
    }
  }

  /** A global position belongs to some part. */
  lemma FlatLocate<T>(parts: seq<seq<T>>, offsets: seq<int>, g: nat) returns (f: nat)
    requires PrefixSums(offsets, Lengths(parts))
    requires g < |Flat(parts)|
    ensures f < |parts| && offsets[f] <= g < offsets[f + 1]
    ensures Flat(parts)[g] == parts[f][g - offsets[f]]
  {
    FlatLength(parts, offsets);
    f := 0;
    while offsets[f + 1] <= g
      invariant f < |parts|
      invariant offsets[f] <= g
      decreases |parts| - f
    {
      f := f + 1;
    }
    assert offsets[f + 1] == offsets[f] + Lengths(parts)[f];
    FlatAt(parts, offsets, f, g - offsets[f]);
  }

  // ---- selection ----

  predicate InRange(rows: seq<int>, n: int) {
    forall k :: 0 <= k < |rows| ==> 0 <= rows[k] < n
  }

  /** Indexing a column by a row list: the meaning of every read. */
  function Pick<T>(column: seq<T>, rows: seq<int>): seq<T>
    requires InRange(rows, |column|)
  {
    seq(|rows|, k requires 0 <= k < |rows| => column[rows[k]])
  }

  function Shift(rows: seq<int>, amount: int): seq<int> {
    seq(|rows|, k requires 0 <= k < |rows| => rows[k] + amount)
  }

  lemma PickAppend<T>(column: seq<T>, a: seq<int>, b: seq<int>)
    requires InRange(a, |column|) && InRange(b, |column|)
    ensures InRange(a + b, |column|)
    ensures Pick(column, a + b) == Pick(column, a) + Pick(column, b)
  {
  }

  /** Some row lies in `[lo, hi)`. */
  predicate Reaches(rows: seq<int>, lo: int, hi: int) {
    exists i :: 0 <= i < |rows| && lo <= rows[i] < hi
  }

  // ---- the first of several ----

  function First<T>(options: seq<Option<T>>): Option<T> {
    if options == [] then None
    else if options[0].Some? then options[0]
    else First(options[1..])
  }

  lemma {:induction false} FirstIs<T>(options: seq<Option<T>>, i: nat)
    requires i < |options| && options[i].Some?
    requires forall j :: 0 <= j < i ==> options[j].None?
    ensures First(options) == options[i]
  {
    if i > 0 {
      FirstIs(options[1..], i - 1);
    }
  }

  lemma {:induction false} FirstNone<T>(options: seq<Option<T>>)
    ensures First(options).None? <==> forall i :: 0 <= i < |options| ==> options[i].None?
  {
    if options != [] {
      FirstNone(options[1..]);
      if First(options).None? {
        forall i | 0 <= i < |options| ensures options[i].None? {
          if i > 0 {
            assert options[1..][i - 1].None?;
          }
        }
      }
    }
  }

  /** The options of the chosen positions only. */
  function Only<T>(options: seq<Option<T>>, chosen: seq<bool>): seq<Option<T>>
    requires |chosen| == |options|
  {
    seq(|options|, k requires 0 <= k < |options| => if chosen[k] then options[k] else None)
  }

  /** Positions listed in ascending order meet the same first option as a scan over all. */
  lemma FirstOfListed<T>(options: seq<Option<T>>, listed: seq<int>, chosen: seq<bool>)
    requires |chosen| == |options| && InRange(listed, |options|)
    requires forall i, j :: 0 <= i < j < |listed| ==> listed[i] < listed[j]
    requires forall k :: 0 <= k < |options| ==> (chosen[k] <==> k in listed)
    ensures First(Pick(options, listed)) == First(Only(options, chosen))
  {
    var short := Pick(options, listed);
    var long := Only(options, chosen);
    FirstNone(short);
    FirstNone(long);
    if First(short).None? {
      forall k | 0 <= k < |options| ensures long[k].None? {
        if chosen[k] {
          var i :| 0 <= i < |listed| && listed[i] == k;
          assert short[i].None?;
        }
      }
    } else {
      var i := FirstPosition(short);
      FirstIs(short, i);
      forall k | 0 <= k < listed[i] ensures long[k].None? {
        if chosen[k] {
          var j :| 0 <= j < |listed| && listed[j] == k;
          assert j < i && short[j].None?;
        }
      }
      assert listed[i] in listed;
      FirstIs(long, listed[i]);
    }
  }

  lemma {:induction false} FirstPosition<T>(options: seq<Option<T>>) returns (i: nat)
    requires First(options).Some?
    ensures i < |options| && options[i].Some?
    ensures forall j :: 0 <= j < i ==> options[j].None?
  {
    if options[0].Some? {
      return 0;
    }
    var rest := FirstPosition(options[1..]);
    i := rest + 1;
    forall j | 0 <= j < i ensures options[j].None? {
      if j > 0 {
        assert options[1..][j - 1].None?;
      }
    }
  }

  predicate IsPermutation(order: seq<int>, n: nat) {
    && |order| == n
    && InRange(order, n)
    && forall i, j :: 0 <= i < j < n ==> order[i] != order[j]
  }

  /** A duplicate-free list of `n` numbers below `n` lists every one of them. */
  lemma PermutationCovers(order: seq<int>, n: nat, x: int) returns (i: int)
    requires IsPermutation(order, n) && 0 <= x < n
    ensures 0 <= i < n && order[i] == x
  {
    if forall i :: 0 <= i < n ==> order[i] != x {
      var image := set i | 0 <= i < n :: order[i];
      ImageSize(order, n);
      assert image <= Below(n) - {x};
      SubsetSize(image, Below(n) - {x});
      assert false;
    }
    i :| 0 <= i < n && order[i] == x;
  }

  lemma {:induction false} ImageSize(order: seq<int>, n: nat)
    requires n <= |order|
    requires forall i, j :: 0 <= i < j < n ==> order[i] != order[j]
    ensures |set i | 0 <= i < n :: order[i]| == n
  {
    var s := set i | 0 <= i < n :: order[i];
    if n == 0 {
      assert s == {};
    } else {
      ImageSize(order, n - 1);
      var rest := set i | 0 <= i < n - 1 :: order[i];
      assert s == rest + {order[n - 1]};
    }
  }

  ghost function Below(n: nat): (below: set<int>)
    ensures |below| == n
    ensures forall x :: x in below <==> 0 <= x < n
  {
    if n == 0 then {} else Below(n - 1) + {n - 1}
  }

  lemma {:induction false} SubsetSize<T>(a: set<T>, b: set<T>)
    requires a <= b
    ensures |a| <= |b|
  {
    if a != {} {
      var x :| x in a;
      SubsetSize(a - {x}, b - {x});
    }
  }
}
