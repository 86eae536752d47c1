/** A Python `dict` with string keys, kept in insertion order as Python 3.7+ does. */
module PyDict {
  import opened Wrappers

  /** The entries of a dict, in the order their keys were first inserted. */
  type Dict<V> = seq<(string, V)>

  /** The keys of `d` (or the first components of any pair sequence), in order. */
  function Keys<V>(d: seq<(string, V)>): seq<string>
  {
    seq(|d|, i requires 0 <= i < |d| => d[i].0)
  }

  /** No string occurs twice in `s`. */
  predicate Distinct(s: seq<string>)
  {
    forall i, j :: 0 <= i < j < |s| ==> s[i] != s[j]
  }

  /** The slot that holds key `k`: the first one whose key is `k`. */
  function IndexOf<V>(d: Dict<V>, k: string): (i: nat)
    requires k in Keys(d)
    ensures i < |d| && d[i].0 == k
    ensures forall j :: 0 <= j < i ==> d[j].0 != k
  {
    if d[0].0 == k then 0
    else
      assert k in Keys(d[1..]) by {
        var i :| 0 <= i < |d| && Keys(d)[i] == k;
        assert Keys(d[1..])[i - 1] == k;
      }
      1 + IndexOf(d[1..], k)
  }

  /** The first slot holding `k` is the one `IndexOf` finds. */
  lemma IndexOfIsFirst<V>(d: Dict<V>, k: string, i: nat)
    requires i < |d| && d[i].0 == k
    requires forall j :: 0 <= j < i ==> d[j].0 != k
    ensures k in Keys(d) && IndexOf(d, k) == i
  {
    assert Keys(d)[i] == k;
  }

  /** The lookup `d[k]`: the value stored under `k`; `None` is where Python raises `KeyError`. */
  function Get<V>(d: Dict<V>, k: string): (r: Option<V>)
    ensures r.None? <==> k !in Keys(d)
  {
    if k in Keys(d) then Some(d[IndexOf(d, k)].1) else None
  }

  /** `d[k] = v`: an existing key keeps its slot and takes the new value; a new key goes last. */
  function Put<V>(d: Dict<V>, k: string, v: V): (r: Dict<V>)
    ensures Get(r, k) == Some(v)
    ensures k in Keys(d) ==> Keys(r) == Keys(d)
    ensures k !in Keys(d) ==> Keys(r) == Keys(d) + [k]
  {
    if k in Keys(d) then
      var r := d[IndexOf(d, k) := (k, v)];
      assert Keys(r) == Keys(d);
      IndexOfIsFirst(r, k, IndexOf(d, k));
      r
    else
      var r := d + [(k, v)];
      assert Keys(r) == Keys(d) + [k];
      assert forall j | 0 <= j < |d| :: r[j].0 == Keys(d)[j];
      IndexOfIsFirst(r, k, |d|);
      r
  }

  /** `d[k] = v` leaves every other key's value as it was. */
  lemma PutKeepsOthers<V>(d: Dict<V>, k: string, v: V, other: string)
    requires other != k
    ensures Get(Put(d, k, v), other) == Get(d, other)
  {
    var r := Put(d, k, v);
    if other in Keys(d) {
      if k !in Keys(d) {
        assert forall j | 0 <= j < |d| :: r[j] == d[j];
      }
      IndexOfIsFirst(r, other, IndexOf(d, other));
    }
  }

  /** The dict built by assigning each pair of `ps` in turn, starting from `{}`. */
  function FromPairs<V>(ps: seq<(string, V)>): Dict<V>
  {
    if ps == [] then []
    else
      var n := |ps| - 1;
      Put(FromPairs(ps[..n]), ps[n].0, ps[n].1)
  }

  /** The dict's keys are the assigned keys, each once. */
  lemma {:induction false} FromPairsKeys<V>(ps: seq<(string, V)>)
    ensures Distinct(Keys(FromPairs(ps)))
    ensures forall k :: k in Keys(FromPairs(ps)) <==> k in Keys(ps)
  {
    if ps != [] {
      var n := |ps| - 1;
      assert Keys(ps) == Keys(ps[..n]) + [ps[n].0];
      FromPairsKeys(ps[..n]);
    }
  }

  /** The last assignment to a key is the one that is kept. */
  lemma {:induction false} LaterAssignmentWins<V>(ps: seq<(string, V)>, i: nat)
    requires i < |ps|
    requires forall j :: i < j < |ps| ==> ps[j].0 != ps[i].0
    ensures Get(FromPairs(ps), ps[i].0) == Some(ps[i].1)
  {
    var n := |ps| - 1;
    if i < n {
      LaterAssignmentWins(ps[..n], i);
      PutKeepsOthers(FromPairs(ps[..n]), ps[n].0, ps[n].1, ps[i].0);
    }
  }

  /** A key that was never assigned is absent. */
  lemma NeverAssignedIsAbsent<V>(ps: seq<(string, V)>, k: string)
    requires forall j :: 0 <= j < |ps| ==> ps[j].0 != k
    ensures Get(FromPairs(ps), k) == None
  {
    assert k !in Keys(ps);
    FromPairsKeys(ps);
  }

  /** With distinct keys, the dict holds exactly the pairs, in the order given. */
  lemma {:induction false} DistinctPairsKept<V>(ps: seq<(string, V)>)
    requires Distinct(Keys(ps))
    ensures FromPairs(ps) == ps
  {
    if ps != [] {
      var n := |ps| - 1;
      var prefix := ps[..n];
      assert Distinct(Keys(prefix)) by {
        forall i, j | 0 <= i < j < n ensures Keys(prefix)[i] != Keys(prefix)[j] {
          assert Keys(ps)[i] != Keys(ps)[j];
        }
      }
      DistinctPairsKept(prefix);
      forall i | 0 <= i < n ensures Keys(prefix)[i] != ps[n].0 {
        assert Keys(ps)[i] != Keys(ps)[n];
      }
      assert prefix + [ps[n]] == ps;
    }
  }

  /** In a dict with distinct keys, an entry is what `Get` finds. */
  lemma EntryIsFound<V>(d: Dict<V>, key: string, v: V)
    requires Distinct(Keys(d)) && (key, v) in d
    ensures Get(d, key) == Some(v)
  {
    var i :| 0 <= i < |d| && d[i] == (key, v);
    forall j | 0 <= j < i ensures d[j].0 != key {
      assert Keys(d)[j] != Keys(d)[i];
    }
    IndexOfIsFirst(d, key, i);
  }

  /** What `Get` finds is an entry of the dict. */
  lemma FoundIsEntry<V>(d: Dict<V>, key: string)
    requires Get(d, key).Some?
    ensures (key, Get(d, key).value) in d
  {
    assert d[IndexOf(d, key)] == (key, Get(d, key).value);
  }

  /** Every entry of the dict built from `ps` is one of the pairs assigned: nothing is invented. */
  lemma {:induction false} EntriesWereAssigned<V>(ps: seq<(string, V)>, key: string, v: V)
    requires (key, v) in FromPairs(ps)
    ensures (key, v) in ps
  {
    if ps != [] {
      var n := |ps| - 1;
      var prev := FromPairs(ps[..n]);
      if key != ps[n].0 || v != ps[n].1 {
        FromPairsKeys(ps);
        EntryIsFound(FromPairs(ps), key, v);
        if key == ps[n].0 {
          assert false;
        }
        PutKeepsOthers(prev, ps[n].0, ps[n].1, key);
        FoundIsEntry(prev, key);
        EntriesWereAssigned(ps[..n], key, v);
      }
    }
  }
}
