/** The read-only queries over a measurement series: the saturating indexed
    accessors `stopwatch_timer::get_wall<N>` and `duration_timer::get<N>`,
    and `duration_timer::median` and `duration_timer::mean`. A series is the
    vector of `long long` counts a timer has recorded, in snapshot order. */
module Series {
  import opened CppInt

  // ---------------------------------------------------------------------
  // Indexed access with the saturate-at-end rule
  // ---------------------------------------------------------------------

  /** `get<N>()` on a non-empty series: the source compares N, converted
      to `size_t`, with the size and reads element N when it is below, the
      last element otherwise. A vector never holds more than 2^63 - 1
      elements, and for every such size the comparison is the range check
      0 <= N < size (CppInt.IndexConversion). On an empty series the
      source reads `timestamps[size() - 1]`, which is out of range, so
      callers must not ask. */
  function Saturating(s: seq<Int64>, n: int): (r: Int64)
    requires 0 < |s| <= Int64Max
    requires IsInt32(n)
    ensures r in s
    ensures 0 <= n < |s| ==> r == s[n]
    ensures n >= |s| || n < 0 ==> r == s[|s| - 1]
  {
    IndexConversion(n, |s|);
    if ToSizeT(n) < |s| then s[n] else s[|s| - 1]
  }

  /** `get_wall<N>()`: 0 while nothing is recorded, otherwise the same
      `size_t` comparison and read as `get<N>()`. */
  function WallAt(s: seq<Int64>, n: int): (r: Int64)
    requires |s| <= Int64Max
    requires IsInt32(n)
    ensures |s| == 0 ==> r == 0
    ensures |s| > 0 ==> r in s
    ensures 0 <= n < |s| ==> r == s[n]
    ensures |s| > 0 && (n >= |s| || n < 0) ==> r == s[|s| - 1]
  {
    if |s| == 0 then 0 else Saturating(s, n)
  }

  /** Every index at or past the end reads the last element: for a series
      of three, index 5 reads what index 2 reads. A negative template
      argument wraps to a huge `size_t` and reads the last element too. */
  lemma SaturatesAtEnd(s: seq<Int64>, n: int)
    requires |s| > 0 && IsInt32(n) && IsInt32(|s| - 1)
    requires n >= |s| || n < 0
    ensures Saturating(s, n) == Saturating(s, |s| - 1) == s[|s| - 1]
    ensures WallAt(s, n) == WallAt(s, |s| - 1)
  {
  }

  // ---------------------------------------------------------------------
  // Sorting the copy that `median` reads
  // ---------------------------------------------------------------------

  /** Ascending order, one adjacent pair at a time. */
  predicate Sorted(t: seq<int>)
    decreases |t|
  {
    |t| < 2 || (t[0] <= t[1] && Sorted(t[1..]))
  }

  /** In a sorted sequence every element is at most every later one. */
  lemma {:induction false} SortedOrder(t: seq<int>, i: nat, j: nat)
    requires Sorted(t) && i <= j < |t|
    ensures t[i] <= t[j]
  {
    if 0 < i {
      SortedOrder(t[1..], i - 1, j - 1);
    } else if 0 < j {
      SortedOrder(t[1..], 0, j - 1);
    }
  }

  /** Inserts x into a sorted sequence, keeping it sorted. */
  function Insert(x: int, t: seq<int>): (r: seq<int>)
    requires Sorted(t)
    ensures Sorted(r)
    ensures |r| == |t| + 1
    ensures r[0] == if t == [] || x <= t[0] then x else t[0]
  {
    if t == [] || x <= t[0] then
      assert ([x] + t)[1..] == t;
      [x] + t
    else
      var rest := Insert(x, t[1..]);
      assert ([t[0]] + rest)[1..] == rest;
      [t[0]] + rest
  }

  /** Insertion adds x and keeps every other element. */
  lemma {:induction false} InsertPermutes(x: int, t: seq<int>)
    requires Sorted(t)
    ensures multiset(Insert(x, t)) == multiset(t) + multiset{x}
  {
    if t != [] && t[0] < x {
      InsertPermutes(x, t[1..]);
      assert t == [t[0]] + t[1..];
    }
  }

  /** The sorted copy `tmp` of `median`: std::sort yields the ascending
      permutation of its input, which is what insertion sort yields. */
  function Sort(s: seq<int>): (r: seq<int>)
    ensures Sorted(r)
    ensures |r| == |s|
  {
    if s == [] then [] else Insert(s[0], Sort(s[1..]))
  }

  /** Sorting keeps the elements: the sorted copy is a permutation. */
  lemma {:induction false} SortPermutes(s: seq<int>)
    ensures multiset(Sort(s)) == multiset(s)
  {
    if s != [] {
      SortPermutes(s[1..]);
      InsertPermutes(s[0], Sort(s[1..]));
      assert s == [s[0]] + s[1..];
    }
  }

  /** Sorting an already sorted series changes nothing. */
  lemma {:induction false} SortOfSorted(s: seq<int>)
    requires Sorted(s)
    ensures Sort(s) == s
  {
    if s != [] {
      SortOfSorted(s[1..]);
      assert s == [s[0]] + s[1..];
    }
  }

  // ---------------------------------------------------------------------
  // Ranks: how many elements lie below or above a value
  // ---------------------------------------------------------------------

  /** The number of elements of s strictly below m. */
  function Below(s: seq<int>, m: int): (k: nat)
    ensures k <= |s|
  {
    if s == [] then 0 else (if s[0] < m then 1 else 0) + Below(s[1..], m)
  }

  /** The number of elements of s strictly above m. */
  function Above(s: seq<int>, m: int): (k: nat)
    ensures k <= |s|
  {
    if s == [] then 0 else (if s[0] > m then 1 else 0) + Above(s[1..], m)
  }

  lemma {:induction false} RanksOfInsert(x: int, t: seq<int>, m: int)
    requires Sorted(t)
    ensures Below(Insert(x, t), m) == Below(t, m) + (if x < m then 1 else 0)
    ensures Above(Insert(x, t), m) == Above(t, m) + (if x > m then 1 else 0)
  {
    if t == [] || x <= t[0] {
      assert ([x] + t)[1..] == t;
    } else {
      RanksOfInsert(x, t[1..], m);
      assert ([t[0]] + Insert(x, t[1..]))[1..] == Insert(x, t[1..]);
    }
  }

  /** Sorting moves elements but changes no rank. */
  lemma {:induction false} RanksOfSort(s: seq<int>, m: int)
    ensures Below(Sort(s), m) == Below(s, m)
    ensures Above(Sort(s), m) == Above(s, m)
  {
    if s != [] {
      RanksOfSort(s[1..], m);
      RanksOfInsert(s[0], Sort(s[1..]), m);
    }
  }

  /** In a sorted sequence, if m <= t[k], only the k elements before
      position k can be below m. */
  lemma {:induction false} BelowSorted(t: seq<int>, k: nat, m: int)
    requires Sorted(t) && k < |t| && m <= t[k]
    ensures Below(t, m) <= k
  {
    if t[0] < m {
      BelowSorted(t[1..], k - 1, m);
    } else if |t| > 1 {
      BelowSorted(t[1..], if k > 0 then k - 1 else 0, m);
    }
  }

  /** In a sorted sequence, if t[k] <= m, only the elements after
      position k can be above m. */
  lemma {:induction false} AboveSorted(t: seq<int>, k: nat, m: int)
    requires Sorted(t) && k < |t| && t[k] <= m
    ensures Above(t, m) <= |t| - 1 - k
  {
    SortedOrder(t, 0, k);
    if k > 0 {
      AboveSorted(t[1..], k - 1, m);
    }
  }

  // ---------------------------------------------------------------------
  // median()
  // ---------------------------------------------------------------------

  /** What can go wrong in the source beyond a value: reading past the end
      of a vector, and a signed `long long` overflow; both are undefined
      behaviour in C++. */
  datatype Fault = IndexOutOfRange | SignedOverflow

  datatype Result<T> = Ok(value: T) | Err(fault: Fault)

  /** `median()` as written: 0 on an empty series, the sole element of a
      one-element series, otherwise what the source reads from the sorted
      copy `tmp`. */
  function MedianAsWritten(s: seq<Int64>): (r: Result<int>)
  {
    if |s| == 0 then Ok(0)
    else if |s| == 1 then Ok(s[0])
    else MiddleAsWritten(Sort(s))
  }

  /** What `median()` reads from its sorted copy of size at least 2, with
      idx = size/2: element idx for an odd size, the truncated average of
      elements idx and idx + 1 for an even size. The last one reads past
      the end when the size is 2, and the sum can overflow `long long`. */
  function MiddleAsWritten(tmp: seq<int>): (r: Result<int>)
  {
    var idx := |tmp| / 2;
    if |tmp| % 2 == 1 then Ok(tmp[idx])
    else if idx + 1 >= |tmp| then Err(IndexOutOfRange)
    else if !IsInt64(tmp[idx] + tmp[idx + 1]) then Err(SignedOverflow)
    else Ok(TruncDiv(tmp[idx] + tmp[idx + 1], 2))
  }

  /** The middle value of a non-empty sequence taken as sorted: the element
      at position size/2 for an odd size, the truncated average of the
      elements at size/2 - 1 and size/2 for an even size. */
  function Middle(t: seq<int>): (r: int)
    requires |t| > 0
  {
    var k := |t| / 2;
    if |t| % 2 == 1 then t[k] else TruncDiv(t[k - 1] + t[k], 2)
  }

  /** The conventional median: the middle value of the sorted series, 0 for
      an empty series. */
  function Median(s: seq<Int64>): (r: int)
  {
    if |s| == 0 then 0 else Middle(Sort(s))
  }

  /** In a sorted sequence, a value between t[lo] and t[hi] has at most hi
      elements below it and at most |t| - 1 - lo above it. */
  lemma RanksBetween(t: seq<int>, lo: nat, hi: nat, m: int)
    requires Sorted(t) && lo <= hi < |t| && t[lo] <= m <= t[hi]
    ensures Below(t, m) <= hi
    ensures Above(t, m) <= |t| - 1 - lo
  {
    BelowSorted(t, hi, m);
    AboveSorted(t, lo, m);
  }

  /** The middle value of a sorted sequence splits it in halves. */
  lemma MiddleOfSorted(t: seq<int>)
    requires Sorted(t) && |t| > 0
    ensures Below(t, Middle(t)) <= |t| / 2
    ensures Above(t, Middle(t)) <= |t| / 2
    ensures |t| % 2 == 1 ==> Middle(t) in t
  {
    var k, m := |t| / 2, Middle(t);
    if |t| % 2 == 1 {
      RanksBetween(t, k, k, m);
    } else {
      var lo, hi := t[k - 1], t[k];
      SortedOrder(t, k - 1, k);
      TruncDivWithin(lo + hi, 2, lo, hi);
      RanksBetween(t, k - 1, k, m);
    }
  }

  /** The conventional median is a middle value: at most half of the series
      lies strictly below it and at most half strictly above it; for an odd
      size it is an element of the series. */
  lemma MedianIsMiddle(s: seq<Int64>)
    requires |s| > 0
    ensures Below(s, Median(s)) <= |s| / 2
    ensures Above(s, Median(s)) <= |s| / 2
    ensures |s| % 2 == 1 ==> Median(s) in s
  {
    var t := Sort(s);
    MiddleOfSorted(t);
    RanksOfSort(s, Middle(t));
    if |s| % 2 == 1 {
      SortPermutes(s);
      assert Middle(t) in multiset(s) by {
        assert Middle(t) in multiset(t);
      }
    }
  }

  /** How the source's `median()` relates to the conventional median: equal
      for sizes 0, 1 and every odd size; out of range for size 2; and for an
      even size of at least 4 the pair it averages sits one place too far
      right, so any value it returns is at least the conventional median. */
  lemma MedianAsWrittenVersusMedian(s: seq<Int64>)
    ensures |s| % 2 == 1 || |s| == 0 ==> MedianAsWritten(s) == Ok(Median(s))
    ensures |s| == 2 ==> MedianAsWritten(s) == Err(IndexOutOfRange)
    ensures |s| >= 4 && |s| % 2 == 0 && MedianAsWritten(s).Ok? ==>
      MedianAsWritten(s).value >= Median(s)
  {
    if |s| >= 4 && |s| % 2 == 0 && MedianAsWritten(s).Ok? {
      var t, k := Sort(s), |s| / 2;
      SortedOrder(t, k - 1, k + 1);
      TruncDivMonotone(t[k - 1] + t[k], t[k] + t[k + 1], 2);
    }
  }

  /** On a series already sorted, of even size at least 4, both medians
      read their pairs straight from the series. */
  lemma MediansOfSortedEven(t: seq<Int64>)
    requires Sorted(t) && |t| >= 4 && |t| % 2 == 0
    requires IsInt64(t[|t| / 2] as int + t[|t| / 2 + 1])
    ensures MedianAsWritten(t) == Ok(TruncDiv(t[|t| / 2] as int + t[|t| / 2 + 1], 2))
    ensures Median(t) == TruncDiv(t[|t| / 2 - 1] as int + t[|t| / 2], 2)
  {
    SortOfSorted(t);
    assert MedianAsWritten(t) == MiddleAsWritten(t);
    assert Median(t) == Middle(t);
  }

  /** A series whose as-written median is not a median: for [1, 2, 3, 10]
      the source averages 3 and 10 into 6, which has three of the four
      elements below it; the conventional median is 2. */
  lemma MedianAsWrittenCounterexample(s: seq<Int64>)
    requires s == [1, 2, 3, 10]
    ensures MedianAsWritten(s) == Ok(6)
    ensures Median(s) == 2
    ensures Below(s, MedianAsWritten(s).value) == 3 > |s| / 2
  {
    CounterexampleShape(s);
    MediansOfSortedEven(s);
    assert TruncDiv(13, 2) == 6 && TruncDiv(5, 2) == 2;
  }

  /** The series [1, 2, 3, 10] is sorted and has three elements below 6. */
  lemma CounterexampleShape(s: seq<Int64>)
    requires s == [1, 2, 3, 10]
    ensures Sorted(s) && Below(s, 6) == 3
  {
    var a, b, c := s[1..], s[2..], s[3..];
    assert a[1..] == b && b[1..] == c && c[1..] == [];
    assert Sorted(c) && Sorted(b) && Sorted(a);
    assert Below(s, 6) == 1 + Below(a, 6) == 2 + Below(b, 6) == 3 + Below(c, 6) == 3;
  }

  // ---------------------------------------------------------------------
  // mean()
  // ---------------------------------------------------------------------

  /** The exact sum of a series. */
  function Sum(s: seq<int>): (r: int)
  {
    if s == [] then 0 else s[0] + Sum(s[1..])
  }

  /** `std::accumulate(begin, end, 0)`: a left fold whose accumulator has
      the type of the literal 0, `int`, so every partial sum computed in
      `long long` is converted back to `int`. */
  function Accumulate(acc: int, s: seq<Int64>): (r: int)
    requires IsInt32(acc)
    ensures IsInt32(r)
    decreases |s|
  {
    if s == [] then acc else Accumulate(ToInt32(acc + s[0]), s[1..])
  }

  /** `mean()` as written: 0 on an empty series, the sole element of a
      one-element series, otherwise the `int` accumulation divided by
      `size()`; the `int` operand is converted to `size_t` and the division
      is unsigned. */
  function MeanAsWritten(s: seq<Int64>): (r: int)
  {
    if |s| == 0 then 0
    else if |s| == 1 then s[0]
    else ToSizeT(Accumulate(0, s)) / |s|
  }

  /** The arithmetic mean truncated toward zero, as a `long long`
      accumulation would compute it; 0 on an empty series. */
  function Mean(s: seq<Int64>): (r: int)
  {
    if |s| == 0 then 0 else TruncDiv(Sum(s), |s|)
  }

  lemma {:induction false} SumBounds(s: seq<int>, lo: int, hi: int)
    requires forall i :: 0 <= i < |s| ==> lo <= s[i] <= hi
    ensures lo * |s| <= Sum(s) <= hi * |s|
  {
    if s != [] {
      SumBounds(s[1..], lo, hi);
      assert lo * |s| == lo + lo * (|s| - 1);
      assert hi * |s| == hi + hi * (|s| - 1);
    }
  }

  /** The mean lies between any bounds of the series. */
  lemma MeanWithin(s: seq<Int64>, lo: int, hi: int)
    requires |s| > 0
    requires forall i :: 0 <= i < |s| ==> lo <= s[i] <= hi
    ensures lo <= Mean(s) <= hi
  {
    SumBounds(s, lo, hi);
    TruncDivWithin(Sum(s), |s|, lo, hi);
  }

  lemma WrapSum(a: int, b: int)
    requires a % Int32Modulus == 0 && b % Int32Modulus == 0
    ensures (a + b) % Int32Modulus == 0
  {
    assert a == Int32Modulus * (a / Int32Modulus);
    assert b == Int32Modulus * (b / Int32Modulus);
  }

  /** The `int` accumulation is the exact sum, reduced modulo 2^32 into the
      range of `int`. */
  lemma {:induction false} AccumulateIsWrappedSum(acc: int, s: seq<Int64>)
    requires IsInt32(acc)
    ensures (acc + Sum(s) - Accumulate(acc, s)) % Int32Modulus == 0
    decreases |s|
  {
    if s != [] {
      var next := ToInt32(acc + s[0]);
      AccumulateIsWrappedSum(next, s[1..]);
      WrapSum(acc + s[0] - next, next + Sum(s[1..]) - Accumulate(next, s[1..]));
    }
  }

  /** With no negative entry and a sum that fits in `int`, the accumulation
      is the exact sum. */
  lemma {:induction false} AccumulateExact(acc: int, s: seq<Int64>)
    requires 0 <= acc && IsInt32(acc)
    requires forall i :: 0 <= i < |s| ==> 0 <= s[i]
    requires acc + Sum(s) <= Int32Max
    ensures Accumulate(acc, s) == acc + Sum(s)
    decreases |s|
  {
    if s != [] {
      SumBounds(s[1..], 0, Int64Max);
      AccumulateExact(acc + s[0], s[1..]);
    }
  }

  /** On a series of non-negative counts whose sum fits in `int`, the
      source's `mean()` is the truncated arithmetic mean. */
  lemma MeanAsWrittenExact(s: seq<Int64>)
    requires forall i :: 0 <= i < |s| ==> 0 <= s[i]
    requires Sum(s) <= Int32Max
    ensures MeanAsWritten(s) == Mean(s)
  {
    if |s| == 1 {
      assert Sum(s) == s[0] + Sum([]);
    } else if |s| >= 2 {
      AccumulateExact(0, s);
      SumBounds(s, 0, Int64Max);
    }
  }

  /** Three one-second intervals recorded in nanoseconds: the `int`
      accumulator wraps at the third addition, the negative total becomes
      a huge `size_t`, and the source reports a mean of about 6.1e18 where
      the mean is 1e9. */
  lemma MeanAsWrittenCounterexample()
    ensures MeanAsWritten([1_000_000_000, 1_000_000_000, 1_000_000_000]) == 6_148_914_690_804_861_440
    ensures Mean([1_000_000_000, 1_000_000_000, 1_000_000_000]) == 1_000_000_000
  {
    var s: seq<Int64> := [1_000_000_000, 1_000_000_000, 1_000_000_000];
    assert s[1..] == [1_000_000_000, 1_000_000_000] && s[2..] == [1_000_000_000];
    assert Accumulate(0, s) == Accumulate(1_000_000_000, s[1..]);
    assert Accumulate(1_000_000_000, s[1..]) == Accumulate(2_000_000_000, s[2..]);
    assert Accumulate(2_000_000_000, s[2..]) == -1_294_967_296;
    assert Sum(s) == 3_000_000_000;
  }

  /** The median of the series [10, 20, 5] is its middle value 10, for
      the source's `median()` and the conventional one alike; the ranks
      alone pin it down, since 5 has two values above it and 20 two below. */
  lemma ThreeIntervalMedian(s: seq<Int64>)
    requires s == [10, 20, 5]
    ensures Median(s) == 10
    ensures MedianAsWritten(s) == Ok(10)
  {
    var rest, last := s[1..], s[2..];
    assert rest == [20, 5] && last == [5] && rest[1..] == last && last[1..] == [];
    assert Above(s, 5) == 1 + Above(rest, 5) == 2 + Above(last, 5) == 2;
    assert Below(s, 20) == 1 + Below(rest, 20) == 1 + Below(last, 20) == 2;
    MedianIsMiddle(s);
    MedianAsWrittenVersusMedian(s);
  }

  /** The mean of the series [10, 20, 5] is 35 / 3 truncated, for the
      source's `mean()` and the corrected one alike. */
  lemma ThreeIntervalMean(s: seq<Int64>)
    requires s == [10, 20, 5]
    ensures MeanAsWritten(s) == 11
    ensures Mean(s) == 11
  {
    var rest, last := s[1..], s[2..];
    assert rest == [20, 5] && last == [5] && rest[1..] == last && last[1..] == [];
    assert Accumulate(0, s) == Accumulate(10, rest) == Accumulate(30, last) == 35;
    assert Sum(s) == 10 + Sum(rest) == 30 + Sum(last) == 35;
  }
}
