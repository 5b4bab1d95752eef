/** Maps under the names of their keys, for a naming that can be read back. */
module NamedMaps {
  /** Reading the name of a key gives the key, and looking the name up finds it. */
  ghost predicate Faithful<K(!new)>(name: K -> string, read: string -> K, look: string -> string) {
    forall k :: read(name(k)) == k && look(name(k)) == name(k)
  }

  /** The map under the names of its keys; no two keys collide. */
  ghost function Renamed<K(!new), V>(name: K -> string, read: string -> K, look: string -> string, m: map<K, V>)
    : map<string, V>
    requires Faithful(name, read, look)
  {
    map k | k in m :: name(k) := m[k]
  }

  /** What a loop over the names collects: the last name read as a key decides its value, and a
      name that cannot be looked up gives the default. */
  function Collected<K, V>(
    read: string -> K, look: string -> string, default: V, data: map<string, V>, names: seq<string>): map<K, V>
  {
    if names == [] then map[]
    else
      var n := |names| - 1;
      var looked := look(names[n]);
      var value := if looked in data then data[looked] else default;
      Collected(read, look, default, data, names[..n])[read(names[n]) := value]
  }

  ghost predicate Enumerates<T(!new)>(xs: seq<T>, s: set<T>) {
    (forall x :: x in xs <==> x in s) && forall i, j :: 0 <= i < j < |xs| ==> xs[i] != xs[j]
  }

  /** The entries of m for the keys listed. */
  ghost function Listed<K(!new), V>(m: map<K, V>, keys: seq<K>): map<K, V> {
    map k | k in m && k in keys :: m[k]
  }

  lemma ListedAll<K(!new), V>(m: map<K, V>, keys: seq<K>)
    requires Enumerates(keys, m.Keys)
    ensures Listed(m, keys) == m
  {
  }

  lemma RenamedGrows<K(!new), V>(
    name: K -> string, read: string -> K, look: string -> string, m: map<K, V>, keys: seq<K>, i: nat)
    requires Faithful(name, read, look) && i < |keys| && keys[i] in m
    ensures Renamed(name, read, look, Listed(m, keys[..i + 1])) ==
            Renamed(name, read, look, Listed(m, keys[..i]))[name(keys[i]) := m[keys[i]]]
  {
    assert keys[..i + 1] == keys[..i] + [keys[i]];
    assert Listed(m, keys[..i + 1]) == Listed(m, keys[..i])[keys[i] := m[keys[i]]];
    RenamedUpdate(name, read, look, Listed(m, keys[..i]), keys[i], m[keys[i]]);
  }

  lemma RenamedUpdate<K(!new), V>(
    name: K -> string, read: string -> K, look: string -> string, m: map<K, V>, k: K, v: V)
    requires Faithful(name, read, look)
    ensures Renamed(name, read, look, m[k := v]) == Renamed(name, read, look, m)[name(k) := v]
  {
    assert Renamed(name, read, look, m[k := v]).Keys == Renamed(name, read, look, m).Keys + {name(k)};
  }

  lemma RenamedInjective<K(!new), V>(
    name: K -> string, read: string -> K, look: string -> string, m: map<K, V>, l: map<K, V>)
    requires Faithful(name, read, look) && Renamed(name, read, look, m) == Renamed(name, read, look, l)
    ensures m == l
  {
    var x := Renamed(name, read, look, m);
    forall k ensures (k in m <==> k in l) && (k in m ==> m[k] == l[k]) {
      assert k in m ==> name(k) in x && x[name(k)] == m[k];
      assert k in l ==> name(k) in x && x[name(k)] == l[k];
    }
  }

  /** The text is the name of a key. */
  predicate IsName<K>(name: K -> string, read: string -> K, text: string) {
    text == name(read(text))
  }

  lemma {:induction false} CollectedNames<K(!new), V>(
    name: K -> string, read: string -> K, look: string -> string, default: V, data: map<string, V>, names: seq<string>)
    requires Faithful(name, read, look)
    requires forall t :: t in names ==> t in data && IsName(name, read, t)
    ensures var m := Collected(read, look, default, data, names);
            && (forall t :: t in names ==> read(t) in m && m[read(t)] == data[t])
            && (forall k :: k in m ==> name(k) in names)
  {
    if names == [] {
    } else {
      var n := |names| - 1;
      assert names == names[..n] + [names[n]] && names[n] in names;
      CollectedNames(name, read, look, default, data, names[..n]);
      assert look(names[n]) == names[n];
    }
  }

  /** The name at i is the last one that reads as the key. */
  ghost predicate LastFor<K(!new)>(read: string -> K, names: seq<string>, k: K, i: nat) {
    i < |names| && read(names[i]) == k && forall j :: i < j < |names| ==> read(names[j]) != k
  }

  /** A key is in the collection if some name reads as it, and the last such name decides. */
  lemma {:induction false} CollectedEntry<K(!new), V>(
    read: string -> K, look: string -> string, default: V, data: map<string, V>, names: seq<string>, k: K)
    ensures var m := Collected(read, look, default, data, names);
            && (k in m <==> exists i: nat :: LastFor(read, names, k, i))
            && forall i: nat :: LastFor(read, names, k, i) ==>
                 k in m && m[k] == if look(names[i]) in data then data[look(names[i])] else default
  {
    if names == [] {
    } else {
      var n := |names| - 1;
      CollectedEntry(read, look, default, data, names[..n], k);
      if read(names[n]) == k {
        assert LastFor(read, names, k, n);
      } else {
        forall i: nat ensures LastFor(read, names, k, i) <==> LastFor(read, names[..n], k, i) { }
      }
    }
  }

  /** Collecting under names, in any order, and renaming are inverse. */
  lemma RenamedCollected<K(!new), V>(
    name: K -> string, read: string -> K, look: string -> string, default: V, data: map<string, V>, names: seq<string>)
    requires Faithful(name, read, look) && Enumerates(names, data.Keys)
    requires forall t :: t in data ==> IsName(name, read, t)
    ensures Renamed(name, read, look, Collected(read, look, default, data, names)) == data
  {
    CollectedNames(name, read, look, default, data, names);
    var m := Collected(read, look, default, data, names);
    var x := Renamed(name, read, look, m);
    forall t | t in data ensures t in x && x[t] == data[t] {
      assert t in names && name(read(t)) == t;
    }
    forall t | t in x ensures t in data {
      var k :| k in m && t == name(k);
    }
  }

  lemma RenamedAreNames<K(!new), V>(name: K -> string, read: string -> K, look: string -> string, m: map<K, V>)
    requires Faithful(name, read, look)
    ensures forall t :: t in Renamed(name, read, look, m) ==> IsName(name, read, t)
  {
  }

  lemma CollectedRenamed<K(!new), V>(
    name: K -> string, read: string -> K, look: string -> string, default: V, m: map<K, V>, names: seq<string>)
    requires Faithful(name, read, look) && Enumerates(names, Renamed(name, read, look, m).Keys)
    ensures Collected(read, look, default, Renamed(name, read, look, m), names) == m
  {
    var data := Renamed(name, read, look, m);
    RenamedAreNames(name, read, look, m);
    RenamedCollected(name, read, look, default, data, names);
    RenamedInjective(name, read, look, Collected(read, look, default, data, names), m);
  }
}
