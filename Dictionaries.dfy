/**
 * The add-only `Dictionary<string, string>` the program fills, as the list of its entries in
 * insertion order (the order in which `foreach` enumerates a dictionary nothing was removed from).
 */
module Dictionaries {
  import opened Types

  type Entries = seq<(string, string)>

  /** Some entry has the key `k`. */
  predicate ContainsKey(d: Entries, k: string)
  {
    exists i :: 0 <= i < |d| && d[i].0 == k
  }

  /** No key occurs twice: what every `Dictionary` guarantees. */
  predicate DistinctKeys(d: Entries)
  {
    forall i, j :: 0 <= i < j < |d| ==> d[i].0 != d[j].0
  }

  /** `Dictionary.Add`: appends a new entry, throws for a key that is already present. */
  function Add(d: Entries, k: string, v: string): (r: Result<Entries>)
    ensures r.Success? <==> !ContainsKey(d, k)
    ensures r.Success? ==> r.value == d + [(k, v)] && ContainsKey(r.value, k)
    ensures r.Failure? ==> r.error == DuplicateKey(k)
    ensures DistinctKeys(d) && r.Success? ==> DistinctKeys(r.value)
  {
    if ContainsKey(d, k) then Failure(DuplicateKey(k))
    else
      assert (d + [(k, v)])[|d|].0 == k;
      Success(d + [(k, v)])
  }

  /** The indexer `d[k]`: the value stored under `k`, if any. */
  function Lookup(d: Entries, k: string): (r: Option<string>)
    ensures r.Some? <==> ContainsKey(d, k)
  {
    if |d| == 0 then None
    else if d[0].0 == k then Some(d[0].1)
    else
      var r := Lookup(d[1..], k);
      assert ContainsKey(d[1..], k) <==> ContainsKey(d, k) by {
        if ContainsKey(d, k) {
          var i :| 0 <= i < |d| && d[i].0 == k;
          assert d[1..][i - 1].0 == k;
        }
      }
      r
  }

  /** With distinct keys, looking up an entry's key gives that entry's value. */
  lemma {:induction false} LookupAt(d: Entries, i: int)
    requires DistinctKeys(d) && 0 <= i < |d|
    ensures Lookup(d, d[i].0) == Some(d[i].1)
  {
    if i > 0 {
      assert d[0].0 != d[i].0;
      assert d[1..][i - 1] == d[i];
      LookupAt(d[1..], i - 1);
    }
  }
}
