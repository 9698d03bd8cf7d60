/** The two helpers of `modules/functions.py`. */
module Functions {
  import opened Arithmetic

  /** Concatenation of a list of lists, `sum(chunks, [])`. */
  function Flatten<T>(xs: seq<seq<T>>): seq<T>
  {
    if xs == [] then [] else xs[0] + Flatten(xs[1..])
  }

  function Min(a: int, b: int): int
  {
    if a <= b then a else b
  }

  /**
   * `chunks`: consecutive slices of `size` elements starting at every
   * multiple of `size`, the last one possibly shorter. A step of zero makes
   * Python's `range` raise, hence the precondition.
   */
  function Chunks<T>(arr: seq<T>, size: nat): (r: seq<seq<T>>)
    requires size > 0
    ensures forall i :: 0 <= i < |r| ==> 0 < |r[i]| <= size
    decreases |arr|
  {
    if |arr| == 0 then []
    else if |arr| <= size then [arr]
    else [arr[..size]] + Chunks(arr[size..], size)
  }

  /** Every chunk but the last holds `size` elements, the last one between 1 and `size`; only `[]` has no chunks. */
  lemma {:induction false} ChunksShape<T>(arr: seq<T>, size: nat)
    requires size > 0
    ensures var r := Chunks(arr, size);
      && (forall i :: 0 <= i < |r| - 1 ==> |r[i]| == size)
      && (|r| > 0 ==> 0 < |r[|r| - 1]| <= size)
      && (|r| == 0 <==> |arr| == 0)
    decreases |arr|
  {
    var r := Chunks(arr, size);
    if |arr| > size {
      var tail := Chunks(arr[size..], size);
      ChunksShape(arr[size..], size);
      assert r == [arr[..size]] + tail;
      forall i | 0 <= i < |r| - 1 ensures |r[i]| == size {
        if i > 0 {
          assert r[i] == tail[i - 1];
        }
      }
    }
  }

  /** Joining the chunks gives back `arr`: nothing is lost, duplicated or reordered. */
  lemma {:induction false} ChunksFlatten<T>(arr: seq<T>, size: nat)
    requires size > 0
    ensures Flatten(Chunks(arr, size)) == arr
    decreases |arr|
  {
    var r := Chunks(arr, size);
    if |arr| == 0 {
    } else if |arr| <= size {
      assert r == [arr] && r[1..] == [];
    } else {
      var rest := arr[size..];
      ChunksFlatten(rest, size);
      assert r == [arr[..size]] + Chunks(rest, size);
      assert r[0] == arr[..size] && r[1..] == Chunks(rest, size);
      assert arr == arr[..size] + rest;
    }
  }

  /** Chunk `i` is the slice `arr[i*size : (i+1)*size]`, clamped to the end as Python slices are. */
  lemma ChunksAt<T>(arr: seq<T>, size: nat, i: nat)
    requires size > 0 && i < |Chunks(arr, size)|
    ensures i * size < |arr|
    ensures Chunks(arr, size)[i] == arr[i * size .. Min(i * size + size, |arr|)]
  {
    ChunksAtOffset(arr, size, i);
    TimesIsMul(i, size);
  }

  /** `ChunksAt` with the offset written as repeated addition. */
  lemma {:induction false} ChunksAtOffset<T>(arr: seq<T>, size: nat, i: nat)
    requires size > 0 && i < |Chunks(arr, size)|
    ensures Times(i, size) < |arr|
    ensures Chunks(arr, size)[i] == arr[Times(i, size) .. Min(Times(i, size) + size, |arr|)]
    decreases |arr|
  {
    var r := Chunks(arr, size);
    if |arr| <= size {
      assert i == 0 && r[0] == arr;
    } else if i == 0 {
      assert r[0] == arr[..size];
    } else {
      var rest := arr[size..];
      assert r == [arr[..size]] + Chunks(rest, size);
      ChunksAtOffset(rest, size, i - 1);
      ShiftChunk(arr, size, i, r[i]);
    }
  }

  /** Chunk `i - 1` of `arr[size..]`, the slice at `Times(i - 1, size)` there, is the slice at `Times(i, size)` of `arr`. */
  lemma ShiftChunk<T>(arr: seq<T>, size: nat, i: nat, c: seq<T>)
    requires 0 < size < |arr| && i > 0
    requires Times(i - 1, size) < |arr| - size
    requires c == arr[size..][Times(i - 1, size) .. Min(Times(i - 1, size) + size, |arr| - size)]
    ensures Times(i, size) < |arr|
    ensures c == arr[Times(i, size) .. Min(Times(i, size) + size, |arr|)]
  {
    var p := Times(i - 1, size);
    ShiftSlice(arr, size, p, Min(p + size, |arr| - size));
  }

  /** Dropping the first `size` elements shifts every slice by `size`. */
  lemma ShiftSlice<T>(arr: seq<T>, size: nat, p: nat, e: nat)
    requires size <= |arr| && p <= e <= |arr| - size
    ensures arr[size..][p..e] == arr[p + size .. e + size]
  {
  }

  /** The number of chunks is `ceil(len(arr) / size)`, stated without division. */
  lemma {:induction false} ChunksCount<T>(arr: seq<T>, size: nat)
    requires size > 0
    ensures var n := |Chunks(arr, size)|; (n - 1) * size < |arr| <= n * size
  {
    var n := |Chunks(arr, size)|;
    ChunksCountTimes(arr, size);
    if n > 0 {
      TimesIsMul(n - 1, size);
    } else {
      assert |arr| == 0;
    }
    TimesIsMul(n, size);
  }

  /** `ChunksCount` with the products written as repeated addition. */
  lemma {:induction false} ChunksCountTimes<T>(arr: seq<T>, size: nat)
    requires size > 0
    ensures var n := |Chunks(arr, size)|; n > 0 ==> Times(n - 1, size) < |arr| <= Times(n, size)
    decreases |arr|
  {
    var r := Chunks(arr, size);
    if |arr| > size {
      var tail := Chunks(arr[size..], size);
      assert r == [arr[..size]] + tail;
      ChunksCountTimes(arr[size..], size);
      assert |r| == |tail| + 1;
    }
  }

  /** A list of exactly `k` chunks' worth splits into `k` full chunks. */
  lemma {:induction false} ChunksExact<T>(arr: seq<T>, size: nat, k: nat)
    requires size > 0 && |arr| == k * size
    ensures |Chunks(arr, size)| == k
    ensures forall i :: 0 <= i < k ==> |Chunks(arr, size)[i]| == size
    decreases k
  {
    if k > 1 {
      var rest := arr[size..];
      MulPred(k, size);
      MulMonotone(2, k, size);
      assert |rest| == (k - 1) * size;
      ChunksExact(rest, size, k - 1);
      var r, tail := Chunks(arr, size), Chunks(rest, size);
      assert r == [arr[..size]] + tail;
      forall i | 0 <= i < k ensures |r[i]| == size {
        if i > 0 {
          assert r[i] == tail[i - 1];
        }
      }
    } else if k == 1 {
      assert |arr| == size;
    }
  }

  /** `ltr_to_num`: the character code less 96, which is the 1-based alphabet position of a lowercase letter. */
  function LtrToNum(ltr: char): (r: int)
    ensures 'a' <= ltr <= 'z' ==> 1 <= r <= 26
  {
    ltr as int - 96
  }

  /** `a` is 1, `z` is 26, and each following letter adds one. */
  lemma LtrToNumAlphabet()
    ensures LtrToNum('a') == 1 && LtrToNum('z') == 26
    ensures forall c: char :: 'a' <= c < 'z' ==> LtrToNum((c as int + 1) as char) == LtrToNum(c) + 1
  {
  }
}
