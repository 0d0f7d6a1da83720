/**
 The insertion-ordered record the builder keeps its fields in (the `narabi` ordered map
 that argus.go:67,74,103,109 relies on), as a sequence of key/value pairs.

 Only the contract the logger depends on is modelled: setting a new key appends it at the
 end, setting an existing key replaces its value where it stands, deleting a key removes
 that one entry and keeps the others in their relative order.
 */
module OrderedMap {
  import opened Wrappers

  type Record<V> = seq<(string, V)>

  function Keys<V>(m: Record<V>): seq<string> {
    seq(|m|, i requires 0 <= i < |m| => m[i].0)
  }

  predicate Distinct(ks: seq<string>) {
    forall i, j :: 0 <= i < j < |ks| ==> ks[i] != ks[j]
  }

  /** A well-formed record holds each key at most once. */
  predicate Valid<V>(m: Record<V>) {
    Distinct(Keys(m))
  }

  lemma KeysCons<V>(m: Record<V>)
    requires |m| > 0
    ensures Keys(m) == [m[0].0] + Keys(m[1..])
  {
  }

  lemma KeysAppend<V>(m: Record<V>, e: (string, V))
    ensures Keys(m + [e]) == Keys(m) + [e.0]
  {
  }

  lemma KeysMember<V>(m: Record<V>, k: string)
    ensures k in Keys(m) <==> exists j :: 0 <= j < |m| && m[j].0 == k
  {
    if k in Keys(m) {
      var j :| 0 <= j < |m| && Keys(m)[j] == k;
      assert m[j].0 == k;
    }
    forall j | 0 <= j < |m| && m[j].0 == k
      ensures k in Keys(m)
    {
      assert Keys(m)[j] == k;
    }
  }

  lemma DistinctCons(x: string, ks: seq<string>)
    ensures Distinct([x] + ks) <==> x !in ks && Distinct(ks)
  {
    var s := [x] + ks;
    if Distinct(s) {
      forall i, j | 0 <= i < j < |ks|
        ensures ks[i] != ks[j]
      {
        assert s[i + 1] == ks[i] && s[j + 1] == ks[j];
      }
      forall j | 0 <= j < |ks|
        ensures ks[j] != x
      {
        assert s[j + 1] != s[0];
      }
    }
    if x !in ks && Distinct(ks) {
      forall i, j | 0 <= i < j < |s|
        ensures s[i] != s[j]
      {
        if i > 0 {
          assert s[i] == ks[i - 1] && s[j] == ks[j - 1];
        }
      }
    }
  }

  lemma ValidCons<V>(m: Record<V>)
    requires |m| > 0
    ensures Valid(m) <==> m[0].0 !in Keys(m[1..]) && Valid(m[1..])
  {
    KeysCons(m);
    DistinctCons(m[0].0, Keys(m[1..]));
  }

  /** An entry whose key does not occur before it is where lookup finds that key. */
  lemma IndexOfAt<V>(m: Record<V>, j: nat)
    requires j < |m|
    requires forall l :: 0 <= l < j ==> m[l].0 != m[j].0
    ensures m[j].0 in Keys(m) && IndexOf(m, m[j].0) == j
  {
    assert Keys(m)[j] == m[j].0;
  }

  /** In a well-formed record every entry is where lookup finds its key. */
  lemma IndexOfValid<V>(m: Record<V>, j: nat)
    requires Valid(m) && j < |m|
    ensures m[j].0 in Keys(m) && IndexOf(m, m[j].0) == j
  {
    forall l | 0 <= l < j
      ensures m[l].0 != m[j].0
    {
      assert Keys(m)[l] == m[l].0 && Keys(m)[j] == m[j].0;
    }
    IndexOfAt(m, j);
  }

  /** The position of the first entry with key `k`. */
  function IndexOf<V>(m: Record<V>, k: string): (i: nat)
    requires k in Keys(m)
    ensures i < |m| && m[i].0 == k
    ensures forall j :: 0 <= j < i ==> m[j].0 != k
  {
    KeysCons(m);
    if m[0].0 == k then 0 else 1 + IndexOf(m[1..], k)
  }

  /** The value stored under `k`, if any: the one at the key's position. */
  function Get<V>(m: Record<V>, k: string): (r: Option<V>)
    ensures r.None? <==> k !in Keys(m)
    ensures r.Some? ==> r.value == m[IndexOf(m, k)].1
  {
    if |m| == 0 then None
    else
      KeysCons(m);
      if m[0].0 == k then Some(m[0].1) else Get(m[1..], k)
  }

  /** Keys with `k` taken out, the others in their order: the key-level view of Delete. */
  function Without(ks: seq<string>, k: string): seq<string> {
    if |ks| == 0 then []
    else if ks[0] == k then Without(ks[1..], k)
    else [ks[0]] + Without(ks[1..], k)
  }

  /**
   Set a key: a new key goes after every existing key; an existing key keeps its
   position.
   */
  function Set<V>(m: Record<V>, k: string, v: V): (r: Record<V>)
    ensures k !in Keys(m) ==> r == m + [(k, v)]
    ensures Keys(r) == if k in Keys(m) then Keys(m) else Keys(m) + [k]
  {
    if |m| == 0 then [(k, v)]
    else
      KeysCons(m);
      if m[0].0 == k then [(k, v)] + m[1..]
      else
        var t := Set(m[1..], k, v);
        KeysCons([m[0]] + t);
        assert ([m[0]] + t)[1..] == t;
        KeysAppend(m, (k, v));
        [m[0]] + t
  }

  /** Delete a key: the other keys stay, in their relative order. */
  function Delete<V>(m: Record<V>, k: string): (r: Record<V>)
    ensures Keys(r) == Without(Keys(m), k)
    ensures k !in Keys(m) ==> r == m
  {
    if |m| == 0 then []
    else
      KeysCons(m);
      if m[0].0 == k then Delete(m[1..], k)
      else
        var t := Delete(m[1..], k);
        KeysCons([m[0]] + t);
        assert ([m[0]] + t)[1..] == t;
        [m[0]] + t
  }

  /** Setting an existing key replaces exactly the entry at its position. */
  lemma SetInPlace<V>(m: Record<V>, k: string, v: V)
    requires k in Keys(m)
    ensures Set(m, k, v) == m[..IndexOf(m, k)] + [(k, v)] + m[IndexOf(m, k) + 1..]
  {
    KeysCons(m);
    var i := IndexOf(m, k);
    if m[0].0 == k {
      assert i == 0;
      assert Set(m, k, v) == [(k, v)] + m[1..];
    } else {
      var t := m[1..];
      assert i == IndexOf(t, k) + 1;
      SetInPlace(t, k, v);
      assert Set(m, k, v) == [m[0]] + Set(t, k, v);
      assert [m[0]] + t[..i - 1] == m[..i];
      assert t[i..] == m[i + 1..];
    }
  }

  lemma DeleteCons<V>(m: Record<V>, k: string)
    requires |m| > 0 && m[0].0 != k
    ensures Delete(m, k) == [m[0]] + Delete(m[1..], k)
  {
  }

  /** Dropping entry `i` of the tail and putting the head back drops entry `i + 1`. */
  lemma DropShift<V>(m: Record<V>, i: nat)
    requires i + 1 < |m|
    ensures [m[0]] + (m[1..][..i] + m[1..][i + 1..]) == m[..i + 1] + m[i + 2..]
  {
    var t := m[1..];
    assert [m[0]] + t[..i] == m[..i + 1];
    assert t[i + 1..] == m[i + 2..];
    assert [m[0]] + (t[..i] + t[i + 1..]) == ([m[0]] + t[..i]) + t[i + 1..];
  }

  /** Deleting a present key of a well-formed record removes exactly the entry at its position. */
  lemma {:induction false} DeleteExactlyOne<V>(m: Record<V>, k: string)
    requires Valid(m) && k in Keys(m)
    ensures Delete(m, k) == m[..IndexOf(m, k)] + m[IndexOf(m, k) + 1..]
  {
    ValidCons(m);
    KeysCons(m);
    if m[0].0 == k {
      assert IndexOf(m, k) == 0;
      assert Delete(m, k) == Delete(m[1..], k);
    } else {
      var t := m[1..];
      var i := IndexOf(t, k);
      assert IndexOf(m, k) == i + 1;
      DeleteExactlyOne(t, k);
      DeleteCons(m, k);
      DropShift(m, i);
    }
  }

  /** Set keeps the record well formed. */
  lemma SetValid<V>(m: Record<V>, k: string, v: V)
    requires Valid(m)
    ensures Valid(Set(m, k, v))
  {
    if k !in Keys(m) {
      var r := Set(m, k, v);
      forall i, j | 0 <= i < j < |Keys(r)|
        ensures Keys(r)[i] != Keys(r)[j]
      {
        assert Keys(r)[i] == Keys(m)[i];
        if j < |m| {
          assert Keys(r)[j] == Keys(m)[j];
        }
      }
    }
  }

  /** After Set, the entry at position `j` is either the one written or the old one. */
  lemma SetAt<V>(m: Record<V>, k: string, v: V, j: nat)
    requires Valid(m)
    requires j < |Set(m, k, v)|
    ensures Set(m, k, v)[j] == if j < |m| && m[j].0 != k then m[j] else (k, v)
  {
    if k in Keys(m) {
      SetInPlace(m, k, v);
      var i := IndexOf(m, k);
      if j < i {
        assert Set(m, k, v)[j] == m[j];
      } else if j > i {
        assert Set(m, k, v)[j] == m[j];
        assert Keys(m)[j] == m[j].0 && Keys(m)[i] == k;
      }
    } else {
      KeysMember(m, k);
    }
  }

  /** Setting one key of a well-formed record leaves another present key's value alone. */
  lemma SetKeepsOther<V>(m: Record<V>, k: string, v: V, k': string)
    requires Valid(m) && k' in Keys(m) && k' != k
    ensures Get(Set(m, k, v), k') == Get(m, k')
  {
    var r := Set(m, k, v);
    var j := IndexOf(m, k');
    SetValid(m, k, v);
    SetAt(m, k, v, j);
    IndexOfValid(r, j);
  }

  /** Set stores `v` under `k` and leaves every other key's value alone. */
  lemma SetGet<V>(m: Record<V>, k: string, v: V)
    requires Valid(m)
    ensures Get(Set(m, k, v), k) == Some(v)
    ensures forall k' :: k' != k ==> Get(Set(m, k, v), k') == Get(m, k')
  {
    var r := Set(m, k, v);
    SetValid(m, k, v);
    var i := IndexOf(r, k);
    SetAt(m, k, v, i);
    forall k' | k' != k && k' in Keys(m)
      ensures Get(r, k') == Get(m, k')
    {
      SetKeepsOther(m, k, v, k');
    }
  }

  lemma WithoutSpec(ks: seq<string>, k: string)
    ensures k !in Without(ks, k)
    ensures forall x :: x != k ==> (x in Without(ks, k) <==> x in ks)
    ensures Distinct(ks) ==> Distinct(Without(ks, k))
  {
    if |ks| > 0 {
      WithoutSpec(ks[1..], k);
      assert ks == [ks[0]] + ks[1..];
      DistinctCons(ks[0], ks[1..]);
      if ks[0] != k {
        DistinctCons(ks[0], Without(ks[1..], k));
      }
    }
  }

  lemma DropAt<V>(m: Record<V>, i: nat, j: nat)
    requires i < |m| && j + 1 < |m|
    ensures (m[..i] + m[i + 1..])[j] == if j < i then m[j] else m[j + 1]
  {
  }

  /** Deleting one key of a well-formed record leaves another present key's value alone. */
  lemma DeleteKeepsOther<V>(m: Record<V>, k: string, k': string)
    requires Valid(m) && k in Keys(m) && k' in Keys(m) && k' != k
    ensures Get(Delete(m, k), k') == Get(m, k')
  {
    var r := Delete(m, k);
    var i := IndexOf(m, k);
    var j := IndexOf(m, k');
    DeleteExactlyOne(m, k);
    WithoutSpec(Keys(m), k);
    assert Valid(r);
    IndexOfValid(m, j);
    assert j != i;
    var at := if j < i then j else j - 1;
    DropAt(m, i, at);
    IndexOfValid(r, at);
  }

  /** Delete keeps the record well formed, drops `k` and leaves every other key's value alone. */
  lemma DeleteSpec<V>(m: Record<V>, k: string)
    requires Valid(m)
    ensures Valid(Delete(m, k))
    ensures Get(Delete(m, k), k) == None
    ensures forall k' :: k' != k ==> Get(Delete(m, k), k') == Get(m, k')
  {
    WithoutSpec(Keys(m), k);
    if k in Keys(m) {
      forall k' | k' != k && k' in Keys(m)
        ensures Get(Delete(m, k), k') == Get(m, k')
      {
        DeleteKeepsOther(m, k, k');
      }
    }
  }

  /** A key deleted and set again moves to the end, behind every surviving key. */
  lemma ReAddMovesToEnd<V>(m: Record<V>, k: string, v: V)
    ensures Keys(Set(Delete(m, k), k, v)) == Without(Keys(m), k) + [k]
  {
    WithoutSpec(Keys(m), k);
  }
}
