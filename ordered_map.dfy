/**
 * An insertion-ordered map, the dictionary behind the address book: a key's position is fixed
 * when it is first inserted, overwriting keeps that position, and deleting closes the gap.
 */
module OrderedMaps {
  import opened Results

  datatype OrderedMap<V> = OrderedMap(keys: seq<string>, items: map<string, V>)

  /** The keys are distinct and are exactly the keys of the items. */
  ghost predicate Valid<V>(m: OrderedMap<V>) {
    && (forall i, j :: 0 <= i < j < |m.keys| ==> m.keys[i] != m.keys[j])
    && (forall k :: k in m.items <==> k in m.keys)
  }

  function Empty<V>(): (m: OrderedMap<V>)
    ensures Valid(m) && m.keys == []
  {
    OrderedMap([], map[])
  }

  /** Looking a key up: its value, or None when it is absent. */
  function Get<V>(m: OrderedMap<V>, k: string): Option<V>
  {
    if k in m.items then Some(m.items[k]) else None
  }

  /** Inserting or overwriting: a new key goes last, an existing one keeps its place. */
  function Put<V>(m: OrderedMap<V>, k: string, v: V): OrderedMap<V>
  {
    OrderedMap(if k in m.items then m.keys else m.keys + [k], m.items[k := v])
  }

  /** The key sequence without k. */
  function Without(s: seq<string>, k: string): seq<string>
  {
    if s == [] then []
    else if s[0] == k then Without(s[1..], k)
    else [s[0]] + Without(s[1..], k)
  }

  /** Deleting a present key. */
  function Remove<V>(m: OrderedMap<V>, k: string): OrderedMap<V>
    requires k in m.items
  {
    OrderedMap(Without(m.keys, k), m.items - {k})
  }

  /** Putting keeps the map well formed. */
  lemma PutValid<V>(m: OrderedMap<V>, k: string, v: V)
    requires Valid(m)
    ensures Valid(Put(m, k, v))
  {
  }

  /** After a put the key maps to the new value and every other key is unaffected. */
  lemma GetPut<V>(m: OrderedMap<V>, k: string, v: V, k': string)
    ensures Get(Put(m, k, v), k) == Some(v)
    ensures k' != k ==> Get(Put(m, k, v), k') == Get(m, k')
  {
  }

  /** Overwriting keeps the iteration order; a new key is appended. */
  lemma PutOrder<V>(m: OrderedMap<V>, k: string, v: V)
    requires Valid(m)
    ensures k in m.keys ==> Put(m, k, v).keys == m.keys
    ensures k !in m.keys ==> Put(m, k, v).keys == m.keys + [k]
  {
  }

  /** Without drops every copy of k and keeps the other keys in order. */
  lemma {:induction false} WithoutSpec(s: seq<string>, k: string)
    ensures forall x :: x in Without(s, k) <==> x in s && x != k
    ensures (forall i, j :: 0 <= i < j < |s| ==> s[i] != s[j]) ==>
              forall i, j :: 0 <= i < j < |Without(s, k)| ==> Without(s, k)[i] != Without(s, k)[j]
  {
    if s != [] {
      WithoutSpec(s[1..], k);
      var w := Without(s[1..], k);
      if s[0] != k && forall i, j :: 0 <= i < j < |s| ==> s[i] != s[j] {
        assert s[0] !in s[1..] by {
          forall j | 0 <= j < |s[1..]| ensures s[1..][j] != s[0] {
            assert s[1..][j] == s[j + 1];
          }
        }
        assert s[0] !in w;
        assert Without(s, k) == [s[0]] + w;
        forall i, j | 0 <= i < j < |[s[0]] + w| ensures ([s[0]] + w)[i] != ([s[0]] + w)[j] {
          if i == 0 {
            assert ([s[0]] + w)[j] == w[j - 1];
          } else {
            assert ([s[0]] + w)[i] == w[i - 1] && ([s[0]] + w)[j] == w[j - 1];
          }
        }
      }
    }
  }

  /** Without, on distinct keys, removes the one position holding k. */
  lemma {:induction false} WithoutAt(s: seq<string>, k: string, i: nat)
    requires i < |s| && s[i] == k
    requires forall a, b :: 0 <= a < b < |s| ==> s[a] != s[b]
    ensures Without(s, k) == s[..i] + s[i + 1..]
  {
    if i == 0 {
      WithoutAbsent(s[1..], k);
    } else {
      WithoutAt(s[1..], k, i - 1);
      assert s[..i] == [s[0]] + s[1..][..i - 1];
      assert s[i + 1..] == s[1..][i..];
    }
  }

  lemma {:induction false} WithoutAbsent(s: seq<string>, k: string)
    requires k !in s
    ensures Without(s, k) == s
  {
    if s != [] {
      WithoutAbsent(s[1..], k);
    }
  }

  /** Removing keeps the map well formed. */
  lemma RemoveValid<V>(m: OrderedMap<V>, k: string)
    requires Valid(m) && k in m.items
    ensures Valid(Remove(m, k))
  {
    WithoutSpec(m.keys, k);
  }

  /**
   * After deleting k, looking k up gives None, every other key keeps its value, and the
   * remaining keys keep their order.
   */
  lemma GetRemove<V>(m: OrderedMap<V>, k: string, k': string)
    requires Valid(m) && k in m.items
    ensures Get(Remove(m, k), k) == None
    ensures k' != k ==> Get(Remove(m, k), k') == Get(m, k')
    ensures exists i :: 0 <= i < |m.keys| && m.keys[i] == k && Remove(m, k).keys == m.keys[..i] + m.keys[i + 1..]
  {
    var i :| 0 <= i < |m.keys| && m.keys[i] == k;
    WithoutAt(m.keys, k, i);
  }
}
