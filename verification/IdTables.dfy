/** A lookup table with an INTEGER PRIMARY KEY and a UNIQUE natural key, as the map from
    natural key to id. That no two keys share an id is an invariant to be proved. */
module IdTables {
  type Id = nat

  function MaxOf(s: set<Id>): (m: Id)
    ensures forall x :: x in s ==> x <= m
    ensures s != {} ==> m in s
    ensures s == {} ==> m == 0
  {
    if s == {} then 0
    else
      HasMax(s);
      var x :| x in s && forall y :: y in s ==> y <= x;
      x
  }

  lemma HasMax(s: set<Id>)
    requires s != {}
    ensures exists x :: x in s && forall y :: y in s ==> y <= x
  {
    var x :| x in s;
    if s != {x} {
      var rest := s - {x};
      assert s == {x} + rest;
      HasMax(rest);
      var z :| z in rest && forall y :: y in rest ==> y <= z;
      var w := if x < z then z else x;
      assert forall y :: y in s ==> y == x || y in rest;
      assert w in s && forall y :: y in s ==> y <= w;
    }
  }

  /** The rowid SQLite gives the next inserted row. */
  function NextId<K(==)>(m: map<K, Id>): (id: Id)
    ensures forall k :: k in m ==> m[k] < id
  {
    assert forall k :: k in m ==> m[k] in m.Values;
    MaxOf(m.Values) + 1
  }

  /** INSERT OR IGNORE, then SELECT id. */
  function Intern<K(==)>(m: map<K, Id>, k: K): (m': map<K, Id>)
    ensures k in m'
  {
    if k in m then m else m[k := NextId(m)]
  }

  ghost predicate Injective<K(!new)>(m: map<K, Id>) {
    forall a, b :: a in m && b in m && m[a] == m[b] ==> a == b
  }

  ghost predicate Extends<K(!new)>(m: map<K, Id>, m': map<K, Id>) {
    forall k :: k in m ==> k in m' && m'[k] == m[k]
  }

  /** Growing keeps old ids, and an id new to the table is above every old one. */
  ghost predicate Grows<K(!new)>(m: map<K, Id>, m': map<K, Id>) {
    Extends(m, m') && Injective(m')
  }

  lemma InternGrows<K(!new)>(m: map<K, Id>, k: K)
    requires Injective(m)
    ensures Grows(m, Intern(m, k))
    ensures forall j :: j in Intern(m, k) ==> j in m || j == k
  {
  }

  ghost function KeyOf<K(!new, 00)>(m: map<K, Id>, id: Id): K {
    if exists k :: k in m && m[k] == id then (var k :| k in m && m[k] == id; k)
    else (var k: K :| true; k)
  }

  lemma KeyOfId<K(!new, 00)>(m: map<K, Id>, k: K)
    requires Injective(m) && k in m
    ensures KeyOf(m, m[k]) == k
  {
  }
}
