/** Integer-keyed records and their conversion to and from lists
    (the two helpers of `src/scripts/utils.ts`).

    A `Record<number, T>` is a map from non-negative integer keys to values.
    `Object.values` enumerates array-index keys (integers below 2^32 - 1)
    in ascending numeric order, so `RecordToArray` lists the values by
    ascending key; keys here are unbounded, which agrees with the host for
    every record `arrayToRecord` writes. */
module Records {

  type Record<T> = map<nat, T>

  predicate StrictlyIncreasing(s: seq<nat>) {
    forall i, j :: 0 <= i < j < |s| ==> s[i] < s[j]
  }

  /** The keys `0, ..., n - 1`. */
  function KeysBelow(n: nat): (ks: set<nat>)
    ensures forall k: nat :: k in ks <==> k < n
    ensures |ks| == n
  {
    if n == 0 then {} else
      var smaller := KeysBelow(n - 1);
      assert n - 1 !in smaller;
      smaller + {n - 1}
  }

  /** The sequence `[0, 1, ..., n - 1]`. */
  function Range(n: nat): (s: seq<nat>)
    ensures |s| == n
    ensures forall i :: 0 <= i < n ==> s[i] == i
  {
    seq(n, i requires 0 <= i => i)
  }

  /** A record is dense when its keys are exactly `0, ..., |r| - 1`:
      the shape `arrayToRecord` produces. */
  predicate Dense<T>(r: Record<T>) {
    r.Keys == KeysBelow(|r|)
  }

  predicate IsMinimum(m: nat, ks: set<nat>) {
    m in ks && forall k :: k in ks ==> m <= k
  }

  lemma {:induction false} MinimumExists(ks: set<nat>)
    requires ks != {}
    ensures exists m :: IsMinimum(m, ks)
    decreases |ks|
  {
    var x :| x in ks;
    if ks == {x} {
      assert IsMinimum(x, ks);
    } else {
      var rest := ks - {x};
      MinimumExists(rest);
      var m :| IsMinimum(m, rest);
      var low := if x <= m then x else m;
      forall k | k in ks
        ensures low <= k
      {
        if k != x {
          assert k in rest;
        }
      }
      assert IsMinimum(low, ks);
    }
  }

  function MinKey(ks: set<nat>): (m: nat)
    requires ks != {}
    ensures m in ks && forall k :: k in ks ==> m <= k
  {
    MinimumExists(ks);
    var m :| IsMinimum(m, ks);
    m
  }

  /** The keys of a record in ascending order. */
  function SortedKeys(ks: set<nat>): (s: seq<nat>)
    ensures |s| == |ks|
    ensures forall k :: k in ks <==> k in s
    ensures StrictlyIncreasing(s)
    decreases |ks|
  {
    if ks == {} then []
    else
      var m := MinKey(ks);
      var rest := SortedKeys(ks - {m});
      assert forall k :: k in rest ==> m < k;
      [m] + rest
  }

  /** A strictly increasing enumeration of a key set is unique: it is
      `SortedKeys`. */
  lemma {:induction false} SortedKeysUnique(ks: set<nat>, s: seq<nat>)
    requires StrictlyIncreasing(s)
    requires forall k :: k in ks <==> k in s
    ensures s == SortedKeys(ks)
    decreases |s|
  {
    if s == [] {
      assert ks == {};
    } else {
      var head, tail := s[0], s[1..];
      assert s == [head] + tail;
      SmallestComesFirst(ks, s);
      assert MinKey(ks) == head;
      TailEnumeratesRest(ks, s);
      SortedKeysUnique(ks - {head}, tail);
    }
  }

  lemma SmallestComesFirst(ks: set<nat>, s: seq<nat>)
    requires StrictlyIncreasing(s)
    requires forall k :: k in ks <==> k in s
    requires s != []
    ensures s[0] in ks && forall k :: k in ks ==> s[0] <= k
  {
    forall k | k in ks
      ensures s[0] <= k
    {
      var j :| 0 <= j < |s| && s[j] == k;
    }
  }

  lemma TailEnumeratesRest(ks: set<nat>, s: seq<nat>)
    requires StrictlyIncreasing(s)
    requires forall k :: k in ks <==> k in s
    requires s != []
    ensures StrictlyIncreasing(s[1..])
    ensures forall k :: k in ks - {s[0]} <==> k in s[1..]
  {
    var tail := s[1..];
    forall k
      ensures k in ks - {s[0]} <==> k in tail
    {
      if k in tail {
        var j :| 0 <= j < |tail| && tail[j] == k;
        assert s[j + 1] == k;
      }
      if k in ks - {s[0]} {
        var j :| 0 <= j < |s| && s[j] == k;
        assert j != 0;
        assert tail[j - 1] == k;
      }
    }
  }

  lemma SortedKeysOfDense(n: nat)
    ensures SortedKeys(KeysBelow(n)) == Range(n)
  {
    var r := Range(n);
    forall k
      ensures k in KeysBelow(n) <==> k in r
    {
      if k in r {
        var j :| 0 <= j < |r| && r[j] == k;
      }
      if k in KeysBelow(n) {
        assert r[k] == k;
      }
    }
    SortedKeysUnique(KeysBelow(n), r);
  }

  /** `recordToArray`: the values of the record by ascending key. */
  function RecordToArray<T>(r: Record<T>): (a: seq<T>)
    ensures |a| == |r|
  {
    var ks := SortedKeys(r.Keys);
    seq(|ks|, i requires 0 <= i < |ks| => r[ks[i]])
  }

  /** `arrayToRecord`: the loop that stores `a[i]` under key `i`. */
  function ArrayToRecord<T>(a: seq<T>): (r: Record<T>)
    ensures r.Keys == KeysBelow(|a|)
    ensures |r| == |a|
    ensures forall i :: 0 <= i < |a| ==> r[i] == a[i]
    decreases |a|
  {
    if a == [] then map[]
    else
      var n := |a| - 1;
      var prefix := ArrayToRecord(a[..n]);
      var r := prefix[n := a[n]];
      assert n !in prefix;
      assert r.Keys == prefix.Keys + {n};
      assert r.Keys == KeysBelow(|a|);
      assert forall i :: 0 <= i < n ==> r[i] == prefix[i] == a[..n][i];
      r
  }

  /** Every value of the record occurs in the list, and nothing else. */
  lemma RecordToArrayValues<T>(r: Record<T>)
    ensures forall v :: v in RecordToArray(r) <==> v in r.Values
  {
    var ks := SortedKeys(r.Keys);
    var a := RecordToArray(r);
    forall v
      ensures v in a <==> v in r.Values
    {
      if v in r.Values {
        var k :| k in r && r[k] == v;
        var i :| 0 <= i < |ks| && ks[i] == k;
        assert a[i] == v;
      }
      if v in a {
        var i :| 0 <= i < |a| && a[i] == v;
        assert ks[i] in r.Keys;
      }
    }
  }

  /** Round trip: densifying a list and listing it again gives the list back. */
  lemma RoundTrip<T>(a: seq<T>)
    ensures RecordToArray(ArrayToRecord(a)) == a
  {
    SortedKeysOfDense(|a|);
  }

  /** Re-densification: listing a record and storing the list again gives a
      dense record of the same size whose entry `i` is the value under the
      `i`-th smallest key. */
  lemma Redensify<T>(r: Record<T>)
    ensures Dense(ArrayToRecord(RecordToArray(r)))
    ensures |ArrayToRecord(RecordToArray(r))| == |r|
    ensures forall i :: 0 <= i < |r| ==>
      ArrayToRecord(RecordToArray(r))[i] == r[SortedKeys(r.Keys)[i]]
  {
    var a := RecordToArray(r);
    var d := ArrayToRecord(a);
    forall i | 0 <= i < |r|
      ensures d[i] == r[SortedKeys(r.Keys)[i]]
    {
      assert d[i] == a[i];
    }
  }

  lemma ListOfDense<T>(r: Record<T>)
    requires Dense(r)
    ensures forall i :: 0 <= i < |r| ==> i in r && RecordToArray(r)[i] == r[i]
  {
    SortedKeysOfDense(|r|);
  }

  /** A record that is already dense is left unchanged by re-densification. */
  lemma RedensifyDense<T>(r: Record<T>)
    requires Dense(r)
    ensures ArrayToRecord(RecordToArray(r)) == r
  {
    var a := RecordToArray(r);
    ListOfDense(r);
    var d := ArrayToRecord(a);
    assert d.Keys == r.Keys;
    forall k | k in d
      ensures d[k] == r[k]
    {
      assert d[k] == a[k];
    }
    SameEntries(d, r);
  }

  lemma SameEntries<T>(d: Record<T>, r: Record<T>)
    requires d.Keys == r.Keys
    requires forall k :: k in d ==> d[k] == r[k]
    ensures d == r
  {
  }
}
