/**
  A Python `dict` with string keys: an association list whose keys are
  distinct and appear in insertion order. Assigning to a present key keeps
  that key's position and replaces its value; a new key goes to the end.
 */
module Dict {
  import opened Wrappers

  type Dict = seq<(string, string)>

  function Keys(d: Dict): (ks: seq<string>)
    ensures |ks| == |d| && forall i :: 0 <= i < |d| ==> ks[i] == d[i].0
  {
    seq(|d|, i requires 0 <= i < |d| => d[i].0)
  }

  predicate DistinctKeys(d: Dict) {
    forall i, j :: 0 <= i < j < |d| ==> d[i].0 != d[j].0
  }

  /** `d.get(k)`. */
  function Get(d: Dict, k: string): Option<string> {
    if d == [] then None else if d[0].0 == k then Some(d[0].1) else Get(d[1..], k)
  }

  /** `d[k] = v`. */
  function Put(d: Dict, k: string, v: string): Dict {
    if d == [] then [(k, v)]
    else if d[0].0 == k then [(k, v)] + d[1..]
    else [d[0]] + Put(d[1..], k, v)
  }

  /** Assignment to a present key keeps the length and every key in place;
      a new key is appended with its value. */
  lemma PutShape(d: Dict, k: string, v: string)
    ensures var r := Put(d, k, v);
      && (k in Keys(d) ==> |r| == |d|)
      && (k !in Keys(d) ==> r == d + [(k, v)])
      && (forall i :: 0 <= i < |d| ==> r[i].0 == d[i].0)
  {
    PutKeepsKeys(d, k, v);
    if k in Keys(d) {
      var i :| 0 <= i < |d| && Keys(d)[i] == k;
      PutPresent(d, k, v, i);
    } else {
      PutAbsent(d, k, v);
    }
  }

  lemma {:induction false} PutKeepsKeys(d: Dict, k: string, v: string)
    ensures |Put(d, k, v)| >= |d|
    ensures forall i :: 0 <= i < |d| ==> Put(d, k, v)[i].0 == d[i].0
  {
    if d != [] && d[0].0 != k {
      var t := d[1..];
      PutKeepsKeys(t, k, v);
      assert Put(d, k, v) == [d[0]] + Put(t, k, v);
      forall i | 0 < i < |d|
        ensures Put(d, k, v)[i].0 == d[i].0
      {
        assert d[i] == t[i - 1];
      }
    }
  }

  lemma {:induction false} PutPresent(d: Dict, k: string, v: string, i: nat)
    requires i < |d| && d[i].0 == k
    ensures |Put(d, k, v)| == |d|
  {
    if d[0].0 != k {
      var t := d[1..];
      assert t[i - 1] == d[i];
      PutPresent(t, k, v, i - 1);
      assert Put(d, k, v) == [d[0]] + Put(t, k, v);
    }
  }

  lemma {:induction false} PutAbsent(d: Dict, k: string, v: string)
    requires forall i :: 0 <= i < |d| ==> d[i].0 != k
    ensures Put(d, k, v) == d + [(k, v)]
  {
    if d != [] {
      var t := d[1..];
      forall i | 0 <= i < |t|
        ensures t[i].0 != k
      {
        assert t[i] == d[i + 1];
      }
      PutAbsent(t, k, v);
      assert Put(d, k, v) == [d[0]] + (t + [(k, v)]);
      assert [d[0]] + (t + [(k, v)]) == d + [(k, v)];
    }
  }

  /** `d.update(e)` where `e` is any sequence of key/value pairs; with
      `d == []` it is the comprehension `{key: value for key, value in e}`. */
  function UpdateAll(d: Dict, e: seq<(string, string)>): Dict {
    if e == [] then d else Put(UpdateAll(d, e[..|e| - 1]), e[|e| - 1].0, e[|e| - 1].1)
  }

  /** The value the last pair with key `k` carries, if any. */
  function LastValue(e: seq<(string, string)>, k: string): Option<string> {
    if e == [] then None
    else if e[|e| - 1].0 == k then Some(e[|e| - 1].1)
    else LastValue(e[..|e| - 1], k)
  }

  /** Assignment leaves every other key's value alone. */
  lemma {:induction false} GetPut(d: Dict, k: string, v: string, k': string)
    ensures Get(Put(d, k, v), k') == if k' == k then Some(v) else Get(d, k')
  {
    if d != [] && d[0].0 != k {
      GetPut(d[1..], k, v, k');
      assert Put(d, k, v)[1..] == Put(d[1..], k, v);
    }
  }

  /** Assignment keeps the keys distinct, so `len(d)` is the number of keys. */
  lemma {:induction false} PutDistinct(d: Dict, k: string, v: string)
    requires DistinctKeys(d)
    ensures DistinctKeys(Put(d, k, v))
  {
    var r := Put(d, k, v);
    PutShape(d, k, v);
    if k in Keys(d) {
      forall i, j | 0 <= i < j < |r|
        ensures r[i].0 != r[j].0
      {
        assert r[i].0 == d[i].0 && r[j].0 == d[j].0;
      }
    } else {
      forall i, j | 0 <= i < j < |r|
        ensures r[i].0 != r[j].0
      {
        if j == |d| {
          assert Keys(d)[i] == d[i].0;
        }
      }
    }
  }

  /** `d.update(e)`: a key of `e` ends with the value of its last pair in
      `e`; every other key keeps its value from `d`. */
  lemma {:induction false} GetUpdateAll(d: Dict, e: seq<(string, string)>, k: string)
    ensures Get(UpdateAll(d, e), k) == if LastValue(e, k).Some? then LastValue(e, k) else Get(d, k)
  {
    if e != [] {
      var p := e[|e| - 1];
      GetUpdateAll(d, e[..|e| - 1], k);
      GetPut(UpdateAll(d, e[..|e| - 1]), p.0, p.1, k);
    }
  }

  /** Assignment keeps the old keys at their positions and adds only `k`. */
  lemma PutKeys(d: Dict, k: string, v: string)
    ensures Keys(d) <= Keys(Put(d, k, v))
    ensures forall k' :: k' in Keys(Put(d, k, v)) <==> k' in Keys(d) || k' == k
  {
    var r := Put(d, k, v);
    PutShape(d, k, v);
    if k in Keys(d) {
      assert Keys(r) == Keys(d);
    } else {
      assert Keys(r) == Keys(d) + [k];
    }
  }

  /** `d.update(e)` keeps every key of `d` at its position (the old keys
      are a prefix), adds exactly the keys of `e`, and keeps keys distinct. */
  lemma {:induction false} UpdateAllKeys(d: Dict, e: seq<(string, string)>)
    requires DistinctKeys(d)
    ensures DistinctKeys(UpdateAll(d, e))
    ensures Keys(d) <= Keys(UpdateAll(d, e))
    ensures forall k :: k in Keys(UpdateAll(d, e)) <==> k in Keys(d) || k in Keys(e)
  {
    if e != [] {
      var p := e[|e| - 1];
      var prior := UpdateAll(d, e[..|e| - 1]);
      UpdateAllKeys(d, e[..|e| - 1]);
      PutDistinct(prior, p.0, p.1);
      PutKeys(prior, p.0, p.1);
      assert Keys(e) == Keys(e[..|e| - 1]) + [p.0];
    }
  }

  /** `k in d` and `d.get(k) is not None` agree. */
  lemma {:induction false} KeysGet(d: Dict, k: string)
    ensures k in Keys(d) <==> Get(d, k).Some?
  {
    if d != [] {
      KeysGet(d[1..], k);
      assert Keys(d) == [d[0].0] + Keys(d[1..]);
    }
  }

  /** With distinct keys, the last pair for a key is its only one. */
  lemma {:induction false} LastValueOfDict(d: Dict, k: string)
    requires DistinctKeys(d)
    ensures LastValue(d, k) == Get(d, k)
  {
    if d != [] {
      var init := d[..|d| - 1];
      assert DistinctKeys(init);
      LastValueOfDict(init, k);
      assert d == init + [d[|d| - 1]];
      GetAppend(init, d[|d| - 1], k);
      if d[|d| - 1].0 == k {
        assert k !in Keys(init) by {
          forall i | 0 <= i < |init| ensures init[i].0 != k { }
        }
        GetAbsent(init, k);
      }
    }
  }

  /** Appending a pair changes the lookup of no key already present. */
  lemma {:induction false} GetAppend(d: Dict, p: (string, string), k: string)
    ensures Get(d + [p], k) == if Get(d, k).Some? then Get(d, k) else if p.0 == k then Some(p.1) else None
  {
    if d != [] {
      assert (d + [p])[1..] == d[1..] + [p];
      GetAppend(d[1..], p, k);
    }
  }

  /** A key that is not in the dict looks up nothing. */
  lemma {:induction false} GetAbsent(d: Dict, k: string)
    requires k !in Keys(d)
    ensures Get(d, k) == None
  {
    if d != [] {
      assert Keys(d) == [d[0].0] + Keys(d[1..]);
      GetAbsent(d[1..], k);
    }
  }

  /** A sequence of pairs gives a last value for `k` exactly when `k` is one of its keys. */
  lemma {:induction false} LastValueKey(e: seq<(string, string)>, k: string)
    ensures LastValue(e, k).Some? <==> k in Keys(e)
  {
    if e != [] {
      LastValueKey(e[..|e| - 1], k);
      assert Keys(e) == Keys(e[..|e| - 1]) + [e[|e| - 1].0];
    }
  }
}
