/** A Python `dict` from strings to strings: its entries in insertion order.
    Assigning to a key that is already present replaces its value where it
    stands; a new key goes at the end. */
module Dicts {
  import opened Wrappers
  import opened Seqs

  type Dict = seq<(string, string)>

  function Keys(d: Dict): (r: seq<string>)
    ensures |r| == |d| && forall i :: 0 <= i < |d| ==> r[i] == d[i].0
  {
    seq(|d|, i requires 0 <= i < |d| => d[i].0)
  }

  /** `d.values()`, in order. */
  function Values(d: Dict): (r: seq<string>)
    ensures |r| == |d| && forall i :: 0 <= i < |d| ==> r[i] == d[i].1
  {
    seq(|d|, i requires 0 <= i < |d| => d[i].1)
  }

  predicate UniqueKeys(d: Dict) {
    forall i, j :: 0 <= i < j < |d| ==> d[i].0 != d[j].0
  }

  /** `d.get(k)`: the value stored with the entry for `k`. */
  function Get(d: Dict, k: string): Option<string> {
    if k in Keys(d) then Some(d[IndexOf(Keys(d), k)].1) else None
  }

  /** `d[k] = v`. */
  function Put(d: Dict, k: string, v: string): Dict {
    if k in Keys(d) then d[IndexOf(Keys(d), k) := (k, v)] else d + [(k, v)]
  }

  /** Storing a key makes it map to the new value and leaves every other key
      as it was; the key sequence grows only by a new key, at its end, and
      stays free of repetitions. */
  lemma PutSpec(d: Dict, k: string, v: string)
    ensures Get(Put(d, k, v), k) == Some(v)
    ensures forall k' :: k' != k ==> Get(Put(d, k, v), k') == Get(d, k')
    ensures Keys(Put(d, k, v)) == if k in Keys(d) then Keys(d) else Keys(d) + [k]
    ensures UniqueKeys(d) ==> UniqueKeys(Put(d, k, v))
  {
    var r := Put(d, k, v);
    if k in Keys(d) {
      var p := IndexOf(Keys(d), k);
      assert Keys(r) == Keys(d);
      forall k' | k' != k ensures Get(r, k') == Get(d, k') {
        if k' in Keys(d) {
          var q := IndexOf(Keys(d), k');
          assert Keys(r)[q] == k' && q != p;
          assert IndexOf(Keys(r), k') == q;
        }
      }
    } else {
      assert Keys(r) == Keys(d) + [k];
      assert IndexOf(Keys(r), k) == |d|;
      forall k' | k' != k ensures Get(r, k') == Get(d, k') {
        if k' in Keys(d) {
          var q := IndexOf(Keys(d), k');
          assert Keys(r)[q] == k';
          assert IndexOf(Keys(r), k') == q;
        }
      }
    }
  }
}
