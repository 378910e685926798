/**
 * The merge of the per-run difference counts: every `diff_*.json` file holds a dict from
 * a difference category to how often it was seen, and the merged dict adds the counts
 * key by key, a key absent from a file counting as zero.
 */
module MergeOutputs {
  import opened Wrappers
  import opened Dicts

  /** One file's counts, as `json.load` returns them. */
  type Counts = Dict<int>

  /** `all_data[key]` on a `defaultdict(int)`: the count, zero for a key not yet seen. */
  function Count(d: Counts, key: string): int {
    GetOr(d, key, 0)
  }

  /** The count under an item's key once the item is added. */
  function Raised(d: Counts, item: (string, int)): int {
    Count(d, item.0) + item.1
  }

  /** `all_data[key] += value` for one item `(key, value)` of a file. */
  function Bump(d: Counts, item: (string, int)): Counts {
    Assign(d, item.0, Raised(d, item))
  }

  /** Bumping raises the count under the item's key by its value and leaves the others. */
  lemma BumpCount(d: Counts, item: (string, int), k: string)
    ensures Count(Bump(d, item), k) == Count(d, k) + if k == item.0 then item.1 else 0
  {
  }

  /** Bumping adds the item's key. */
  lemma BumpKeys(d: Counts, item: (string, int), k: string)
    ensures k in Keys(Bump(d, item)) <==> k in Keys(d) || k == item.0
  {
    AssignKeys(d, item.0, Raised(d, item));
  }

  /** Bumping keeps keys unique. */
  lemma BumpUnique(d: Counts, item: (string, int))
    requires UniqueKeys(d)
    ensures UniqueKeys(Bump(d, item))
  {
    AssignUnique(d, item.0, Raised(d, item));
  }

  /** Bumping adds the item's value to the total. */
  lemma BumpTotal(d: Counts, item: (string, int))
    ensures Sum(Bump(d, item)) == Sum(d) + item.1
  {
    SumAssign(d, item.0, Raised(d, item));
  }

  /** The inner loop: every item of one file bumped in. */
  function AddFile(d: Counts, data: Counts): Counts {
    if data == [] then d else Bump(AddFile(d, data[..|data| - 1]), data[|data| - 1])
  }

  /** The outer loop: the files added in one after the other to an empty dict. */
  function Merge(files: seq<Counts>): Counts {
    if files == [] then []
    else AddFile(Merge(files[..|files| - 1]), files[|files| - 1])
  }

  /** The two loops of the merge script, over the contents of the files it read. */
  method MergeCounts(files: seq<Counts>) returns (allData: Counts)
    ensures allData == Merge(files)
  {
    allData := [];
    for i := 0 to |files|
      invariant allData == Merge(files[..i])
    {
      var data := files[i];
      var base := allData;
      for j := 0 to |data|
        invariant allData == AddFile(base, data[..j])
      {
        assert data[..j + 1][..j] == data[..j];
        allData := Bump(allData, data[j]);
      }
      assert data[..|data|] == data;
      assert files[..i + 1][..i] == files[..i];
    }
    assert files[..|files|] == files;
  }

  /** The sum of the counts a file gives `k`: the value under `k`, or zero. */
  function ItemSum(data: Counts, k: string): int {
    if data == [] then 0
    else ItemSum(data[..|data| - 1], k) + (if data[|data| - 1].0 == k then data[|data| - 1].1 else 0)
  }

  /** For a dict, the sum under a key is the value there, or zero when it is absent. */
  lemma {:induction false} ItemSumUnique(data: Counts, k: string)
    requires UniqueKeys(data)
    ensures ItemSum(data, k) == Count(data, k)
    decreases |data|
  {
    if data != [] {
      var n := |data| - 1;
      var init := data[..n];
      assert UniqueKeys(init);
      ItemSumUnique(init, k);
      assert data == init + [data[n]];
      if data[n].0 == k {
        assert k !in Keys(init);
        GetUnique(data, n);
      } else {
        GetAppend(init, data[n], k);
      }
    }
  }

  /** Looking up a key other than an appended item's is looking it up before the append. */
  lemma {:induction false} GetAppend(d: Counts, x: (string, int), k: string)
    requires x.0 != k
    ensures Get(d + [x], k) == Get(d, k)
    decreases |d|
  {
    if d != [] {
      assert (d + [x])[1..] == d[1..] + [x];
      GetAppend(d[1..], x, k);
    }
  }

  /** `f` summed over the files. */
  function SumOver(files: seq<Counts>, f: Counts -> int): int {
    if files == [] then 0 else f(files[0]) + SumOver(files[1..], f)
  }

  lemma {:induction false} SumOverAppend(a: seq<Counts>, b: seq<Counts>, f: Counts -> int)
    ensures SumOver(a + b, f) == SumOver(a, f) + SumOver(b, f)
    decreases |a|
  {
    if a == [] {
      assert a + b == b;
    } else {
      assert (a + b)[0] == a[0] && (a + b)[1..] == a[1..] + b;
      SumOverAppend(a[1..], b, f);
    }
  }

  /** Taking one file out of the sum. */
  lemma SumOverRemove(b: seq<Counts>, j: int, f: Counts -> int)
    requires 0 <= j < |b|
    ensures SumOver(b, f) == f(b[j]) + SumOver(b[..j] + b[j + 1..], f)
  {
    assert b == b[..j] + ([b[j]] + b[j + 1..]);
    SumOverAppend(b[..j], [b[j]] + b[j + 1..], f);
    SumOverAppend(b[..j], b[j + 1..], f);
    assert ([b[j]] + b[j + 1..])[1..] == b[j + 1..];
  }

  /** Taking one element out of a multiset of a sequence. */
  lemma MultisetRemove(a: seq<Counts>, b: seq<Counts>, j: int)
    requires a != [] && multiset(a) == multiset(b) && 0 <= j < |b| && b[j] == a[0]
    ensures multiset(a[1..]) == multiset(b[..j] + b[j + 1..])
  {
    var rest := b[..j] + b[j + 1..];
    assert b == b[..j] + [b[j]] + b[j + 1..];
    assert multiset(b) == multiset(rest) + multiset{a[0]};
    assert a == [a[0]] + a[1..];
    assert multiset(a) == multiset(a[1..]) + multiset{a[0]};
    assert multiset(a[1..]) == multiset(a) - multiset{a[0]};
    assert multiset(rest) == multiset(b) - multiset{a[0]};
  }

  /** A sum over the files does not depend on their order. */
  lemma {:induction false} SumOverPermutation(a: seq<Counts>, b: seq<Counts>, f: Counts -> int)
    requires multiset(a) == multiset(b)
    ensures SumOver(a, f) == SumOver(b, f)
    decreases |a|
  {
    if a == [] {
      assert |b| == |multiset(b)| == 0;
    } else {
      assert a[0] in multiset(b);
      var j :| 0 <= j < |b| && b[j] == a[0];
      MultisetRemove(a, b, j);
      SumOverPermutation(a[1..], b[..j] + b[j + 1..], f);
      SumOverRemove(b, j, f);
    }
  }

  /** The counts one file gives `k`, summed over the files. */
  function KeySum(files: seq<Counts>, k: string): int {
    SumOver(files, (data: Counts) => ItemSum(data, k))
  }

  /** Adding a file adds its counts key by key. */
  lemma {:induction false} AddFileGet(d: Counts, data: Counts, k: string)
    ensures Count(AddFile(d, data), k) == Count(d, k) + ItemSum(data, k)
    decreases |data|
  {
    if data != [] {
      AddFileGet(d, data[..|data| - 1], k);
      BumpCount(AddFile(d, data[..|data| - 1]), data[|data| - 1], k);
    }
  }

  /** Adding a file adds its keys. */
  lemma {:induction false} AddFileKeys(d: Counts, data: Counts, k: string)
    ensures k in Keys(AddFile(d, data)) <==> k in Keys(d) || k in Keys(data)
    decreases |data|
  {
    if data != [] {
      var n := |data| - 1;
      AddFileKeys(d, data[..n], k);
      BumpKeys(AddFile(d, data[..n]), data[n], k);
      KeysInit(data, k);
    }
  }

  /** A key of a dict is a key of all but its last item, or the last item's. */
  lemma KeysInit(data: Counts, k: string)
    requires data != []
    ensures k in Keys(data) <==> k in Keys(data[..|data| - 1]) || k == data[|data| - 1].0
  {
    var n := |data| - 1;
    if k in Keys(data) {
      var i :| 0 <= i < |data| && KeyList(data)[i] == k;
      if i < n {
        assert KeyList(data[..n])[i] == k;
      }
    }
    if k in Keys(data[..n]) {
      var i :| 0 <= i < n && KeyList(data[..n])[i] == k;
      assert KeyList(data)[i] == k;
    }
    assert KeyList(data)[n] == data[n].0;
  }

  /** Every merged count is the sum of the files' counts under that key. */
  lemma {:induction false} MergeSums(files: seq<Counts>, k: string)
    ensures Count(Merge(files), k) == KeySum(files, k)
    decreases |files|
  {
    if files != [] {
      var n := |files| - 1;
      MergeSums(files[..n], k);
      AddFileGet(Merge(files[..n]), files[n], k);
      assert files == files[..n] + [files[n]];
      SumOverAppend(files[..n], [files[n]], (data: Counts) => ItemSum(data, k));
    }
  }

  /** The merged keys are the keys of all the files together. */
  lemma {:induction false} MergeKeys(files: seq<Counts>, k: string)
    ensures k in Keys(Merge(files)) <==> exists i :: 0 <= i < |files| && k in Keys(files[i])
    decreases |files|
  {
    if files != [] {
      var n := |files| - 1;
      MergeKeys(files[..n], k);
      AddFileKeys(Merge(files[..n]), files[n], k);
      assert forall i :: 0 <= i < n ==> files[..n][i] == files[i];
    }
  }

  /** Each key appears once in the merged dict. */
  lemma {:induction false} MergeUnique(files: seq<Counts>)
    ensures UniqueKeys(Merge(files))
    decreases |files|
  {
    if files != [] {
      MergeUnique(files[..|files| - 1]);
      AddFileUnique(Merge(files[..|files| - 1]), files[|files| - 1]);
    }
  }

  lemma {:induction false} AddFileUnique(d: Counts, data: Counts)
    requires UniqueKeys(d)
    ensures UniqueKeys(AddFile(d, data))
    decreases |data|
  {
    if data != [] {
      var n := |data| - 1;
      AddFileUnique(d, data[..n]);
      BumpUnique(AddFile(d, data[..n]), data[n]);
    }
  }

  /** The merged counts are the same whatever order the files were found in. */
  lemma MergeOrderFree(files: seq<Counts>, shuffled: seq<Counts>, k: string)
    requires multiset(files) == multiset(shuffled)
    ensures k in Keys(Merge(files)) <==> k in Keys(Merge(shuffled))
    ensures Count(Merge(files), k) == Count(Merge(shuffled), k)
  {
    MergeSums(files, k);
    MergeSums(shuffled, k);
    SumOverPermutation(files, shuffled, (data: Counts) => ItemSum(data, k));
    MergeKeys(files, k);
    MergeKeys(shuffled, k);
    forall i | 0 <= i < |files| ensures exists j :: 0 <= j < |shuffled| && shuffled[j] == files[i] {
      assert files[i] in multiset(shuffled);
    }
    forall j | 0 <= j < |shuffled| ensures exists i :: 0 <= i < |files| && files[i] == shuffled[j] {
      assert shuffled[j] in multiset(files);
    }
  }

  lemma {:induction false} SumSnoc(d: Counts)
    requires d != []
    ensures Sum(d) == Sum(d[..|d| - 1]) + d[|d| - 1].1
    decreases |d|
  {
    if |d| > 1 {
      SumSnoc(d[1..]);
      assert d[1..][..|d| - 2] == d[..|d| - 1][1..];
    }
  }

  /** Adding a file adds its total. */
  lemma {:induction false} AddFileTotal(d: Counts, data: Counts)
    ensures Sum(AddFile(d, data)) == Sum(d) + Sum(data)
    decreases |data|
  {
    if data != [] {
      var n := |data| - 1;
      AddFileTotal(d, data[..n]);
      BumpTotal(AddFile(d, data[..n]), data[n]);
      SumSnoc(data);
    }
  }

  /** No count is lost or made up: the merged total is the sum of the files' totals. */
  lemma {:induction false} MergeTotal(files: seq<Counts>)
    ensures Sum(Merge(files)) == SumOver(files, Sum)
    decreases |files|
  {
    if files != [] {
      var n := |files| - 1;
      MergeTotal(files[..n]);
      AddFileTotal(Merge(files[..n]), files[n]);
      assert files == files[..n] + [files[n]];
      SumOverAppend(files[..n], [files[n]], Sum);
    }
  }
}
