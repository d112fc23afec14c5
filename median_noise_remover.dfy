/** The median filter: every output cell is the middle value of its 3x3
    window once the nine values are sorted. */
module MedianNoiseRemover {
  import opened NoiseRemover

  predicate Sorted(s: seq<int>)
  {
    forall i, j :: 0 <= i < j < |s| ==> s[i] <= s[j]
  }

  /** How many values of s are at most y, and at least y. */
  function CountAtMost(s: seq<int>, y: int): nat
  {
    if s == [] then 0 else (if s[0] <= y then 1 else 0) + CountAtMost(s[1..], y)
  }

  function CountAtLeast(s: seq<int>, y: int): nat
  {
    if s == [] then 0 else (if s[0] >= y then 1 else 0) + CountAtLeast(s[1..], y)
  }

  lemma SortedCons(a: int, t: seq<int>)
    requires Sorted(t) && (t != [] ==> a <= t[0])
    ensures Sorted([a] + t)
  {
    var r := [a] + t;
    forall i, j | 0 <= i < j < |r| ensures r[i] <= r[j] {
      if i > 0 {
        assert r[i] == t[i - 1] && r[j] == t[j - 1];
      } else {
        assert r[j] == t[j - 1];
      }
    }
  }

  /** Puts x into the sorted sequence s at its place. */
  function Insert(x: int, s: seq<int>): (r: seq<int>)
    requires Sorted(s)
    ensures Sorted(r)
    ensures |r| == |s| + 1
    ensures multiset(r) == multiset(s) + multiset{x}
    ensures r[0] == if s == [] || x <= s[0] then x else s[0]
  {
    if s == [] then [x]
    else if x <= s[0] then
      SortedCons(x, s);
      [x] + s
    else
      assert Sorted(s[1..]) by {
        forall i, j | 0 <= i < j < |s| - 1 ensures s[1..][i] <= s[1..][j] {
          assert s[1..][i] == s[i + 1] && s[1..][j] == s[j + 1];
        }
      }
      var t := Insert(x, s[1..]);
      assert s == [s[0]] + s[1..];
      SortedCons(s[0], t);
      [s[0]] + t
  }

  /** Ascending sort (the model's `np.sort`): a sorted permutation. */
  function Sort(s: seq<int>): (r: seq<int>)
    ensures |r| == |s|
    ensures Sorted(r)
    ensures multiset(r) == multiset(s)
  {
    if s == [] then []
    else
      assert s == [s[0]] + s[1..];
      Insert(s[0], Sort(s[1..]))
  }

  /** Two sorted sequences holding the same values are equal: whatever
      sorting routine is used, the sorted window is the same. */
  lemma {:induction false} SortedUnique(s: seq<int>, t: seq<int>)
    requires Sorted(s) && Sorted(t)
    requires multiset(s) == multiset(t)
    ensures s == t
  {
    if s != [] {
      assert |t| == |s| by { assert |multiset(t)| == |multiset(s)|; }
      assert s[0] in multiset(t);
      assert t[0] in multiset(s);
      assert s[0] == t[0];
      assert multiset(s) == multiset{s[0]} + multiset(s[1..]) by { assert s == [s[0]] + s[1..]; }
      assert multiset(t) == multiset{t[0]} + multiset(t[1..]) by { assert t == [t[0]] + t[1..]; }
      assert multiset(s[1..]) == multiset(t[1..]) by {
        assert multiset(s[1..]) == multiset(s) - multiset{s[0]};
        assert multiset(t[1..]) == multiset(t) - multiset{t[0]};
      }
      SortedUnique(s[1..], t[1..]);
    }
  }

  /** `median(sliced)`: sort the nine window values and take the one at
      index 9 / 2 = 4. */
  function Median(sliced: seq<int>): (m: int)
    requires |sliced| == 9
    ensures m in sliced
  {
    var inOrder := Sort(sliced);
    assert inOrder[|inOrder| / 2] in multiset(inOrder);
    inOrder[|inOrder| / 2]
  }

  /** The median is the value at index 4 of any ascending ordering of the
      window. */
  lemma MedianIsMiddleOfSortedOrder(sliced: seq<int>, inOrder: seq<int>)
    requires |sliced| == 9
    requires Sorted(inOrder) && multiset(inOrder) == multiset(sliced)
    ensures |inOrder| == 9
    ensures Median(sliced) == inOrder[4]
  {
    SortedUnique(Sort(sliced), inOrder);
  }

  lemma {:induction false} CountAtMostOfInsert(x: int, s: seq<int>, y: int)
    requires Sorted(s)
    ensures CountAtMost(Insert(x, s), y) == CountAtMost(s, y) + (if x <= y then 1 else 0)
  {
    if s == [] {
      assert Insert(x, s) == [x];
    } else if x <= s[0] {
      assert Insert(x, s) == [x] + s;
      assert ([x] + s)[1..] == s;
    } else {
      var t := Insert(x, s[1..]);
      assert Insert(x, s) == [s[0]] + t;
      assert ([s[0]] + t)[1..] == t;
      CountAtMostOfInsert(x, s[1..], y);
    }
  }

  lemma {:induction false} CountAtLeastOfInsert(x: int, s: seq<int>, y: int)
    requires Sorted(s)
    ensures CountAtLeast(Insert(x, s), y) == CountAtLeast(s, y) + (if x >= y then 1 else 0)
  {
    if s == [] {
      assert Insert(x, s) == [x];
    } else if x <= s[0] {
      assert Insert(x, s) == [x] + s;
      assert ([x] + s)[1..] == s;
    } else {
      var t := Insert(x, s[1..]);
      assert Insert(x, s) == [s[0]] + t;
      assert ([s[0]] + t)[1..] == t;
      CountAtLeastOfInsert(x, s[1..], y);
    }
  }

  /** Sorting changes no count. */
  lemma {:induction false} CountsOfSort(s: seq<int>, y: int)
    ensures CountAtMost(Sort(s), y) == CountAtMost(s, y)
    ensures CountAtLeast(Sort(s), y) == CountAtLeast(s, y)
  {
    if s != [] {
      CountsOfSort(s[1..], y);
      CountAtMostOfInsert(s[0], Sort(s[1..]), y);
      CountAtLeastOfInsert(s[0], Sort(s[1..]), y);
    }
  }

  lemma {:induction false} CountAtMostPrefix(s: seq<int>, y: int, n: nat)
    requires n <= |s|
    requires forall i :: 0 <= i < n ==> s[i] <= y
    ensures CountAtMost(s, y) >= n
  {
    if n > 0 {
      CountAtMostPrefix(s[1..], y, n - 1);
    }
  }

  lemma {:induction false} CountAtLeastSuffix(s: seq<int>, y: int, n: nat)
    requires n <= |s|
    requires forall i :: n <= i < |s| ==> s[i] >= y
    ensures CountAtLeast(s, y) >= |s| - n
  {
    if s != [] {
      CountAtLeastSuffix(s[1..], y, if n == 0 then 0 else n - 1);
    }
  }

  /** Order statistics of the median: at least five of the nine window
      values are at most it, and at least five are at least it. */
  lemma MedianRank(sliced: seq<int>)
    requires |sliced| == 9
    ensures CountAtMost(sliced, Median(sliced)) >= 5
    ensures CountAtLeast(sliced, Median(sliced)) >= 5
  {
    var inOrder := Sort(sliced);
    var m := Median(sliced);
    assert m == inOrder[4];
    CountAtMostPrefix(inOrder, m, 5);
    CountAtLeastSuffix(inOrder, m, 4);
    CountsOfSort(sliced, m);
  }

  lemma {:induction false} CountAtMostSuffixAbove(s: seq<int>, y: int, n: nat)
    requires n <= |s|
    requires forall i :: n <= i < |s| ==> s[i] > y
    ensures CountAtMost(s, y) <= n
  {
    if s != [] {
      CountAtMostSuffixAbove(s[1..], y, if n == 0 then 0 else n - 1);
    }
  }

  lemma {:induction false} CountAtLeastPrefixBelow(s: seq<int>, y: int, n: nat)
    requires n <= |s|
    requires forall i :: 0 <= i < n ==> s[i] < y
    ensures CountAtLeast(s, y) <= |s| - n
  {
    if s != [] {
      CountAtLeastPrefixBelow(s[1..], y, if n == 0 then 0 else n - 1);
    }
  }

  /** A value with at least five of the nine window values at most it and
      at least five at least it is the median. */
  lemma MedianFromCounts(sliced: seq<int>, y: int)
    requires |sliced| == 9
    requires CountAtMost(sliced, y) >= 5 && CountAtLeast(sliced, y) >= 5
    ensures Median(sliced) == y
  {
    var inOrder := Sort(sliced);
    assert Median(sliced) == inOrder[4];
    CountsOfSort(sliced, y);
    if inOrder[4] > y {
      assert forall i :: 4 <= i < 9 ==> inOrder[4] <= inOrder[i];
      CountAtMostSuffixAbove(inOrder, y, 4);
    } else if inOrder[4] < y {
      assert forall i :: 0 <= i < 5 ==> inOrder[i] <= inOrder[4];
      CountAtLeastPrefixBelow(inOrder, y, 5);
    }
  }

  /** Hence the median is exactly the value with at least five window
      values on either side of it. */
  lemma MedianCharacterized(sliced: seq<int>, y: int)
    requires |sliced| == 9
    ensures Median(sliced) == y <==> CountAtMost(sliced, y) >= 5 && CountAtLeast(sliced, y) >= 5
  {
    MedianRank(sliced);
    if CountAtMost(sliced, y) >= 5 && CountAtLeast(sliced, y) >= 5 {
      MedianFromCounts(sliced, y);
    }
  }

  /** A window of one repeated value has that value as its median. */
  lemma MedianOfUniform(sliced: seq<int>, c: int)
    requires |sliced| == 9
    requires forall k :: 0 <= k < 9 ==> sliced[k] == c
    ensures Median(sliced) == c
  {
  }

  /** The worked example: the median of 5, 1, 9, 3, 7, 2, 8, 4, 6 is 5. */
  lemma MedianExample(sliced: seq<int>)
    requires sliced == [5, 1, 9, 3, 7, 2, 8, 4, 6]
    ensures Median(sliced) == 5
  {
    assert CountAtMost([5, 1, 9, 3, 7, 2, 8, 4, 6], 5) == 5;
    assert CountAtLeast([5, 1, 9, 3, 7, 2, 8, 4, 6], 5) == 5;
    MedianFromCounts(sliced, 5);
  }

  /** What the median filter's cell equations imply for the whole output:
      it holds 8-bit samples when the input does, and it is the input itself
      when the input is uniform. */
  lemma MedianFilterKeepsImage(arr: array2<int>, out: array2<int>)
    requires arr.Length0 >= 1 && arr.Length1 >= 1
    requires out.Length0 == arr.Length0 && out.Length1 == arr.Length1
    requires forall i, j :: 0 <= i < out.Length0 && 0 <= j < out.Length1 ==>
               out[i, j] == Median(Neighbourhood(arr, i, j))
    ensures IsImage(arr) ==> IsImage(out)
    ensures IsUniform(arr) ==> forall i, j :: 0 <= i < out.Length0 && 0 <= j < out.Length1 ==>
              out[i, j] == arr[i, j]
  {
    forall i, j | 0 <= i < out.Length0 && 0 <= j < out.Length1
      ensures IsImage(arr) ==> 0 <= out[i, j] <= 255
      ensures IsUniform(arr) ==> out[i, j] == arr[i, j]
    {
      if IsUniform(arr) {
        NeighbourhoodOfUniform(arr, i, j);
        MedianOfUniform(Neighbourhood(arr, i, j), arr[0, 0]);
      }
    }
  }

  /** `MedianNoiseRemover.remove_noise`: pads the grid and writes, for every
      cell, the median of its 3x3 window of the padded grid. */
  method RemoveNoise(arr: array2<int>) returns (out: array2<int>)
    requires arr.Length0 >= 1 && arr.Length1 >= 1
    ensures out.Length0 == arr.Length0 && out.Length1 == arr.Length1
    ensures fresh(out)
    ensures forall i, j :: 0 <= i < out.Length0 && 0 <= j < out.Length1 ==>
              out[i, j] == Median(Neighbourhood(arr, i, j))
    ensures IsImage(arr) ==> IsImage(out)
    ensures IsUniform(arr) ==> forall i, j :: 0 <= i < out.Length0 && 0 <= j < out.Length1 ==>
              out[i, j] == arr[i, j]
  {
    out := SlideWindow(arr, Median);
    MedianFilterKeepsImage(arr, out);
  }
}
