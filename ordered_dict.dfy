/**
 * A Python dict with integer keys, as the service uses for its two tables:
 * a sequence of entries in insertion order with no key twice. Assigning to
 * a key already present replaces its value where it stands; a new key goes
 * at the end; deleting a key closes the gap and keeps the rest in order.
 */
module OrderedDict {
  import opened Optional
  import opened Sequences

  datatype Entry<V> = Entry(key: int, value: V)

  function Keys<V>(d: seq<Entry<V>>): set<int> {
    set i | 0 <= i < |d| :: d[i].key
  }

  ghost predicate DistinctKeys<V>(d: seq<Entry<V>>) {
    forall i, j | 0 <= i < j < |d| :: d[i].key != d[j].key
  }

  lemma KeysCons<V>(d: seq<Entry<V>>)
    requires d != []
    ensures Keys(d) == {d[0].key} + Keys(d[1..])
  {
    forall k | k in Keys(d) ensures k in {d[0].key} + Keys(d[1..]) {
      var i :| 0 <= i < |d| && d[i].key == k;
      if i > 0 {
        assert d[1..][i - 1].key == k;
      }
    }
    forall k | k in Keys(d[1..]) ensures k in Keys(d) {
      var i :| 0 <= i < |d| - 1 && d[1..][i].key == k;
      assert d[i + 1].key == k;
    }
  }

  /** d.get(k) */
  function Get<V>(d: seq<Entry<V>>, k: int): (r: Option<V>)
    ensures r.Some? <==> k in Keys(d)
    ensures r.Some? ==> Entry(k, r.value) in d
  {
    if d == [] then None
    else
      KeysCons(d);
      if d[0].key == k then Some(d[0].value) else Get(d[1..], k)
  }

  /** With no key twice, the entry found for a key is the one stored under it. */
  lemma {:induction false} GetStored<V>(d: seq<Entry<V>>, i: nat)
    requires DistinctKeys(d) && i < |d|
    ensures Get(d, d[i].key) == Some(d[i].value)
  {
    if i > 0 {
      assert d[1..][i - 1] == d[i];
      GetStored(d[1..], i - 1);
    }
  }

  /** d[k] = v */
  function Put<V>(d: seq<Entry<V>>, k: int, v: V): (r: seq<Entry<V>>)
    requires DistinctKeys(d)
    ensures |r| == if k in Keys(d) then |d| else |d| + 1
    ensures forall i | 0 <= i < |d| :: r[i] == if d[i].key == k then Entry(k, v) else d[i]
    ensures k !in Keys(d) ==> r[|d|] == Entry(k, v)
  {
    if d == [] then [Entry(k, v)]
    else if d[0].key == k then
      KeysCons(d);
      assert k !in Keys(d[1..]) by { DistinctTail(d); }
      [Entry(k, v)] + d[1..]
    else
      KeysCons(d);
      DistinctTail(d);
      [d[0]] + Put(d[1..], k, v)
  }

  lemma DistinctTail<V>(d: seq<Entry<V>>)
    requires DistinctKeys(d) && d != []
    ensures DistinctKeys(d[1..]) && d[0].key !in Keys(d[1..])
  {
  }

  /** After d[k] = v the dict still has no key twice, and holds k besides its old keys. */
  lemma PutKeys<V>(d: seq<Entry<V>>, k: int, v: V)
    requires DistinctKeys(d)
    ensures DistinctKeys(Put(d, k, v))
    ensures Keys(Put(d, k, v)) == Keys(d) + {k}
  {
    var r := Put(d, k, v);
    forall x | x in Keys(r) ensures x in Keys(d) + {k} {
      var i :| 0 <= i < |r| && r[i].key == x;
    }
    forall x | x in Keys(d) ensures x in Keys(r) {
      var i :| 0 <= i < |d| && d[i].key == x;
      assert r[i].key == x;
    }
    forall i, j | 0 <= i < j < |r| ensures r[i].key != r[j].key {
      if j == |d| {
        assert d[i].key in Keys(d);
      }
    }
  }

  /** After d[k] = v, d[k] is v. */
  lemma PutGet<V>(d: seq<Entry<V>>, k: int, v: V)
    requires DistinctKeys(d)
    ensures Get(Put(d, k, v), k) == Some(v)
  {
    PutKeys(d, k, v);
    var r := Put(d, k, v);
    var n: nat;
    if k in Keys(d) {
      n :| n < |d| && d[n].key == k;
    } else {
      n := |d|;
    }
    assert r[n] == Entry(k, v);
    GetStored(r, n);
  }

  /** d[k] = v adds Entry(k, v) and drops only the entry k had before. */
  lemma PutMembers<V>(d: seq<Entry<V>>, k: int, v: V)
    requires DistinctKeys(d)
    ensures Entry(k, v) in Put(d, k, v)
    ensures forall e | e in Put(d, k, v) :: e == Entry(k, v) || (e in d && e.key != k)
    ensures forall e | e in d && e.key != k :: e in Put(d, k, v)
  {
    var r := Put(d, k, v);
    forall e | e in d && e.key != k ensures e in r {
      var i :| 0 <= i < |d| && d[i] == e;
      assert r[i] == e;
    }
    if k in Keys(d) {
      var i :| 0 <= i < |d| && d[i].key == k;
      assert r[i] == Entry(k, v);
    } else {
      assert r[|d|] == Entry(k, v);
    }
  }

  /** Assigning a key its own value changes nothing. */
  lemma PutSame<V>(d: seq<Entry<V>>, k: int, v: V)
    requires DistinctKeys(d) && Entry(k, v) in d
    ensures Put(d, k, v) == d
  {
    var r := Put(d, k, v);
    var n :| 0 <= n < |d| && d[n] == Entry(k, v);
    assert k in Keys(d);
    forall i | 0 <= i < |d| ensures r[i] == d[i] {
      if d[i].key == k {
        assert i == n;
      }
    }
  }

  /** A second assignment to the same key overrides the first. */
  lemma PutPut<V>(d: seq<Entry<V>>, k: int, a: V, b: V)
    requires DistinctKeys(d)
    ensures DistinctKeys(Put(d, k, a)) && Put(Put(d, k, a), k, b) == Put(d, k, b)
  {
    PutKeys(d, k, a);
    var r1, r2, r := Put(d, k, a), Put(Put(d, k, a), k, b), Put(d, k, b);
    assert k in Keys(r1);
    forall i | 0 <= i < |r| ensures r2[i] == r[i] {
      if i == |d| {
        assert r1[i] == Entry(k, a);
      }
    }
  }

  /** del d[k]: the entry under k goes, the others keep their order. */
  function Remove<V>(d: seq<Entry<V>>, k: int): (r: seq<Entry<V>>)
    requires DistinctKeys(d)
    ensures DistinctKeys(r)
    ensures Keys(r) == Keys(d) - {k}
    ensures forall e | e in r :: e in d && e.key != k
    ensures forall e | e in d && e.key != k :: e in r
    ensures |r| == if k in Keys(d) then |d| - 1 else |d|
    ensures Subsequence(r, d)
    ensures k !in Keys(d) ==> r == d
  {
    if d == [] then []
    else
      KeysCons(d);
      DistinctTail(d);
      if d[0].key == k then
        SubsequenceRefl(d[1..]);
        SubsequenceSkip(d[0], d[1..], d[1..]);
        assert [d[0]] + d[1..] == d;
        d[1..]
      else
        var t := Remove(d[1..], k);
        var r := [d[0]] + t;
        KeysCons(r);
        assert r[1..] == t;
        SubsequenceKeep(d[0], t, d[1..]);
        assert [d[0]] + d[1..] == d;
        r
  }

  /** Deleting the key at position p closes the gap: what came before and after stays, in order. */
  lemma {:induction false} RemoveAt<V>(d: seq<Entry<V>>, p: nat)
    requires DistinctKeys(d) && p < |d|
    ensures Remove(d, d[p].key) == d[..p] + d[p + 1..]
  {
    if p == 0 {
      assert d[..0] + d[1..] == d[1..];
    } else {
      DistinctTail(d);
      assert d[1..][p - 1] == d[p];
      RemoveAt(d[1..], p - 1);
      RemoveAtLater(d, p);
    }
  }

  /** One step of RemoveAt: a key past the first entry is deleted from the rest. */
  lemma RemoveAtLater<V>(d: seq<Entry<V>>, p: nat)
    requires DistinctKeys(d) && 0 < p < |d| && DistinctKeys(d[1..])
    requires Remove(d[1..], d[p].key) == d[1..][..p - 1] + d[1..][p..]
    ensures Remove(d, d[p].key) == d[..p] + d[p + 1..]
  {
    assert d[0].key != d[p].key;
    assert Remove(d, d[p].key) == [d[0]] + Remove(d[1..], d[p].key);
    ConsGap(d, p);
  }

  lemma ConsGap<T>(d: seq<T>, p: nat)
    requires 0 < p < |d|
    ensures [d[0]] + (d[1..][..p - 1] + d[1..][p..]) == d[..p] + d[p + 1..]
  {
    assert d[1..][..p - 1] == d[1..p] && d[1..][p..] == d[p + 1..];
    assert d[..p] == [d[0]] + d[1..p];
  }

  /** The entries whose key is not in `ks`, in their order: the dict after deleting each of `ks`. */
  function RemoveKeys<V>(d: seq<Entry<V>>, ks: set<int>): (r: seq<Entry<V>>)
    ensures forall e | e in r :: e in d && e.key !in ks
    ensures forall e | e in d && e.key !in ks :: e in r
    ensures Subsequence(r, d)
  {
    if d == [] then []
    else
      var t := RemoveKeys(d[1..], ks);
      assert [d[0]] + d[1..] == d;
      if d[0].key in ks then
        SubsequenceSkip(d[0], t, d[1..]);
        t
      else
        SubsequenceKeep(d[0], t, d[1..]);
        [d[0]] + t
  }

  /** Deleting no keys leaves the dict as it is. */
  lemma {:induction false} RemoveNoKeys<V>(d: seq<Entry<V>>)
    ensures RemoveKeys(d, {}) == d
  {
    if d != [] {
      RemoveNoKeys(d[1..]);
    }
  }

  /** Deleting keys one after another is deleting the whole set of them. */
  lemma {:induction false} RemoveAfterRemoveKeys<V>(d: seq<Entry<V>>, ks: set<int>, k: int)
    requires DistinctKeys(d)
    ensures DistinctKeys(RemoveKeys(d, ks))
    ensures Remove(RemoveKeys(d, ks), k) == RemoveKeys(d, ks + {k})
  {
    if d != [] {
      DistinctTail(d);
      RemoveAfterRemoveKeys(d[1..], ks, k);
      var t := RemoveKeys(d[1..], ks);
      if d[0].key !in ks {
        var r := [d[0]] + t;
        assert r[1..] == t;
        assert DistinctKeys(r) by {
          assert d[0].key !in Keys(t);
          forall i, j | 0 <= i < j < |r| ensures r[i].key != r[j].key {
            if i == 0 {
              assert r[j] == t[j - 1];
            } else {
              assert r[i] == t[i - 1] && r[j] == t[j - 1];
            }
          }
        }
        if d[0].key == k {
          RemoveKeysWithout(d[1..], ks, k);
        }
      }
    }
  }

  /** Adding to `ks` a key the dict does not hold changes nothing. */
  lemma {:induction false} RemoveKeysWithout<V>(d: seq<Entry<V>>, ks: set<int>, k: int)
    requires k !in Keys(d)
    ensures RemoveKeys(d, ks + {k}) == RemoveKeys(d, ks)
  {
    if d != [] {
      KeysCons(d);
      RemoveKeysWithout(d[1..], ks, k);
    }
  }

  /** The values of the dict, in its order. */
  function Values<V>(d: seq<Entry<V>>): (vs: seq<V>)
    ensures |vs| == |d| && forall i | 0 <= i < |d| :: vs[i] == d[i].value
  {
    if d == [] then [] else [d[0].value] + Values(d[1..])
  }
}
