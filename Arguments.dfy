/** `GetKeyValueArgs`: the command line as `--flag value` pairs. */
module Arguments {
  import opened Types
  import opened Sequences
  import opened Dictionaries

  /** An argument that starts with `--` is a flag (an ordinal prefix test). */
  predicate IsFlag(a: string)
  {
    StartsWith(a, "--")
  }

  /**
   * The value the flag at index `i` takes: the next argument when there is one and it is not
   * itself a flag, the empty string otherwise.
   */
  function ValueAfter(args: seq<string>, i: int): string
    requires 0 <= i < |args|
  {
    if |args| >= i + 2 && !IsFlag(args[i + 1]) then args[i + 1] else ""
  }

  /** The entries the flags among the first `n` arguments give, one per flag, in order. */
  function FlagEntries(args: seq<string>, n: int): Entries
    requires 0 <= n <= |args|
    decreases n
  {
    if n == 0 then []
    else FlagEntries(args, n - 1) + (if IsFlag(args[n - 1]) then [(args[n - 1], ValueAfter(args, n - 1))] else [])
  }

  /** The keys are exactly the flags: an argument that is not a flag is never a key. */
  lemma {:induction false} FlagEntriesKeys(args: seq<string>, n: int, k: string)
    requires 0 <= n <= |args|
    ensures ContainsKey(FlagEntries(args, n), k) <==> exists i :: 0 <= i < n && args[i] == k && IsFlag(k)
    decreases n
  {
    if n > 0 {
      FlagEntriesKeys(args, n - 1, k);
      var front := FlagEntries(args, n - 1);
      var d := FlagEntries(args, n);
      assert d[..|front|] == front;
      if ContainsKey(front, k) {
        var i :| 0 <= i < |front| && front[i].0 == k;
        assert d[i].0 == k;
      }
      if ContainsKey(d, k) && !ContainsKey(front, k) {
        var i :| 0 <= i < |d| && d[i].0 == k;
        assert i >= |front| && args[n - 1] == k && IsFlag(k);
      }
      if args[n - 1] == k && IsFlag(k) {
        assert d[|front|].0 == k;
      }
    }
  }

  /** Every entry comes from a flag and carries the value that flag takes. */
  lemma {:induction false} FlagEntriesFrom(args: seq<string>, n: int, e: int)
    requires 0 <= n <= |args| && 0 <= e < |FlagEntries(args, n)|
    ensures exists i :: 0 <= i < n && IsFlag(args[i]) && FlagEntries(args, n)[e] == (args[i], ValueAfter(args, i))
    decreases n
  {
    var front := FlagEntries(args, n - 1);
    if e < |front| {
      FlagEntriesFrom(args, n - 1, e);
      assert FlagEntries(args, n)[e] == front[e];
    } else {
      assert FlagEntries(args, n)[e] == (args[n - 1], ValueAfter(args, n - 1));
    }
  }

  /** With no repeated flag, the dictionary maps every flag to the value it takes. */
  lemma {:induction false} FlagValue(args: seq<string>, n: int, i: int)
    requires 0 <= i < n <= |args| && IsFlag(args[i]) && DistinctKeys(FlagEntries(args, n))
    ensures Lookup(FlagEntries(args, n), args[i]) == Some(ValueAfter(args, i))
    decreases n
  {
    var front := FlagEntries(args, n - 1);
    var d := FlagEntries(args, n);
    assert d[..|front|] == front;
    assert DistinctKeys(front) by {
      forall a, b | 0 <= a < b < |front| ensures front[a].0 != front[b].0 {
        assert d[a] == front[a] && d[b] == front[b];
      }
    }
    if i < n - 1 {
      FlagValue(args, n - 1, i);
      var p :| 0 <= p < |front| && front[p] == (args[i], ValueAfter(args, i)) by {
        LookupEntry(front, args[i]);
      }
      assert d[p] == front[p];
      LookupAt(d, p);
    } else {
      assert d[|front|] == (args[i], ValueAfter(args, i));
      LookupAt(d, |front|);
    }
  }

  /** A value found by `Lookup` sits in some entry with that key. */
  lemma {:induction false} LookupEntry(d: Entries, k: string)
    requires Lookup(d, k).Some?
    ensures exists p :: 0 <= p < |d| && d[p] == (k, Lookup(d, k).value)
  {
    if d[0].0 != k {
      LookupEntry(d[1..], k);
      var p :| 0 <= p < |d[1..]| && d[1..][p] == (k, Lookup(d[1..], k).value);
      assert d[p + 1] == d[1..][p];
    }
  }

  /** Once two entries share a key, every longer prefix of the arguments repeats it too. */
  lemma {:induction false} RepeatStays(args: seq<string>, i: int, n: int)
    requires 0 <= i <= n <= |args| && !DistinctKeys(FlagEntries(args, i))
    ensures !DistinctKeys(FlagEntries(args, n))
    decreases n
  {
    if n > i {
      RepeatStays(args, i, n - 1);
      var front := FlagEntries(args, n - 1);
      var a, b :| 0 <= a < b < |front| && front[a].0 == front[b].0;
      assert FlagEntries(args, n)[a] == front[a] && FlagEntries(args, n)[b] == front[b];
    }
  }

  /** The flag at index `j` is the first one that repeats an earlier flag. */
  predicate FirstRepeat(args: seq<string>, j: int)
  {
    0 <= j < |args| && IsFlag(args[j])
    && DistinctKeys(FlagEntries(args, j)) && ContainsKey(FlagEntries(args, j), args[j])
  }

  /** Adding a flag that is already a key repeats a key. */
  lemma RepeatAt(args: seq<string>, j: int)
    requires FirstRepeat(args, j)
    ensures !DistinctKeys(FlagEntries(args, j + 1))
  {
    var front := FlagEntries(args, j);
    var d := FlagEntries(args, j + 1);
    var p :| 0 <= p < |front| && front[p].0 == args[j];
    assert d[p] == front[p] && d[|front|].0 == args[j];
  }

  /** There is only one first repeat, so the key the failure names is determined by the arguments. */
  lemma FirstRepeatUnique(args: seq<string>, j: int, k: int)
    requires FirstRepeat(args, j) && FirstRepeat(args, k)
    ensures j == k
  {
    if j < k {
      RepeatAt(args, j);
      RepeatStays(args, j + 1, k);
    } else if k < j {
      RepeatAt(args, k);
      RepeatStays(args, k + 1, j);
    }
  }

  /**
   * `GetKeyValueArgs`: every flag is added with the value it takes; the first flag that repeats
   * an earlier one makes `Add` throw.
   */
  method GetKeyValueArgs(args: seq<string>) returns (r: Result<Entries>)
    ensures r.Success? <==> DistinctKeys(FlagEntries(args, |args|))
    ensures r.Success? ==> r.value == FlagEntries(args, |args|)
    ensures r.Failure? ==> exists j :: FirstRepeat(args, j) && r.error == DuplicateKey(args[j])
  {
    var result: Entries := [];
    for i := 0 to |args|
      invariant result == FlagEntries(args, i) && DistinctKeys(result)
    {
      if !IsFlag(args[i]) {
        continue;
      }
      var value := "";
      if |args| >= i + 2 && !IsFlag(args[i + 1]) {
        value := args[i + 1];
      }
      var added := Add(result, args[i], value);
      if added.Failure? {
        assert FirstRepeat(args, i);
        RepeatAt(args, i);
        RepeatStays(args, i + 1, |args|);
        return Failure(added.error);
      }
      result := added.value;
    }
    return Success(result);
  }
}
