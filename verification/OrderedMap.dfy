/** `std::map<std::string,std::string>`: a Dafny map walked in the order of its keys. */
module OrderedMap {

  type Fields = map<string, string>
  type Entry = (string, string)

  /** `operator<` on `std::string`. */
  predicate Below(a: string, b: string) {
    b != "" && (a == "" || a[0] < b[0] || (a[0] == b[0] && Below(a[1..], b[1..])))
  }

  /** `b` continues `a`, or has the greater character where they first differ. */
  predicate FirstDifference(a: string, b: string, i: nat) {
    i <= |a| && i < |b| && a[..i] == b[..i] && (i == |a| || a[i] < b[i])
  }

  lemma StartAlike(a: string, b: string, i: nat)
    requires 0 < i && FirstDifference(a, b, i)
    ensures a[0] == b[0]
  {
    assert a[..i][0] == b[..i][0];
  }

  lemma {:induction false} BelowExact(a: string, b: string)
    ensures Below(a, b) <==> exists i :: FirstDifference(a, b, i)
  {
    forall i: nat | 0 < i && FirstDifference(a, b, i) ensures a[0] == b[0] {
      StartAlike(a, b, i);
    }
    if a == "" {
      if b != "" {
        assert FirstDifference(a, b, 0);
      }
    } else if b != "" && a[0] == b[0] {
      BelowExact(a[1..], b[1..]);
      forall i: nat | i <= |a[1..]| && i < |b[1..]|
        ensures FirstDifference(a[1..], b[1..], i) <==> FirstDifference(a, b, i + 1)
      {
        assert a[..i + 1] == [a[0]] + a[1..][..i] && b[..i + 1] == [b[0]] + b[1..][..i];
        assert a[1..][..i] == a[..i + 1][1..] && b[1..][..i] == b[..i + 1][1..];
      }
      if i: nat :| FirstDifference(a[1..], b[1..], i) {
        assert FirstDifference(a, b, i + 1);
      }
      if i: nat :| FirstDifference(a, b, i) {
        assert i > 0 && FirstDifference(a[1..], b[1..], i - 1);
      }
    } else if b != "" {
      if a[0] < b[0] {
        assert FirstDifference(a, b, 0);
      }
    }
  }

  lemma BelowTransitive(a: string, b: string, c: string)
    requires Below(a, b) && Below(b, c)
    ensures Below(a, c)
  {
  }

  lemma BelowTotal(a: string, b: string)
    ensures a == b || Below(a, b) || Below(b, a)
  {
    if a != "" && b != "" && a[0] == b[0] {
      BelowTotal(a[1..], b[1..]);
      assert a == [a[0]] + a[1..] && b == [b[0]] + b[1..];
    }
  }

  lemma BelowAntisymmetric(a: string, b: string)
    ensures !(Below(a, b) && Below(b, a))
  {
  }

  predicate IsLeast(k: string, keys: set<string>) {
    k in keys && forall x | x in keys :: x == k || Below(k, x)
  }

  lemma LeastExists(keys: set<string>) returns (k: string)
    requires keys != {}
    ensures IsLeast(k, keys)
  {
    var x :| x in keys;
    if keys == {x} {
      k := x;
    } else {
      var rest := keys - {x};
      assert rest != {} by {
        assert !(keys <= {x});
      }
      var y := LeastExists(rest);
      BelowTotal(x, y);
      if Below(x, y) {
        k := x;
        forall z | z in rest && z != y ensures Below(x, z) {
          BelowTransitive(x, y, z);
        }
      } else {
        k := y;
      }
    }
  }

  lemma LeastUnique(keys: set<string>)
    ensures forall k, l :: IsLeast(k, keys) && IsLeast(l, keys) ==> k == l
  {
    forall k, l | IsLeast(k, keys) && IsLeast(l, keys) ensures k == l {
      BelowAntisymmetric(k, l);
    }
  }

  function Least(keys: set<string>): (k: string)
    requires keys != {}
    ensures IsLeast(k, keys)
  {
    LeastUnique(keys);
    assert exists k :: IsLeast(k, keys) by {
      var k := LeastExists(keys);
    }
    var k :| k in keys && IsLeast(k, keys);
    k
  }

  lemma RemoveShrinks(m: Fields, k: string)
    requires k in m
    ensures |m - {k}| == |m| - 1
  {
    assert (m - {k}).Keys == m.Keys - {k};
    assert |(m - {k}).Keys| == |m.Keys| - 1;
  }

  /** The entries of a map in the order an iterator visits them. */
  function Entries(m: Fields): (es: seq<Entry>)
    ensures |es| == |m|
    ensures forall k, v :: (k, v) in es <==> k in m && m[k] == v
    decreases |m|
  {
    if m == map[] then [] else
      var k := Least(m.Keys);
      RemoveShrinks(m, k);
      var rest := Entries(m - {k});
      assert forall x, v :: (x, v) in [(k, m[k])] + rest <==> (x, v) == (k, m[k]) || (x, v) in rest;
      [(k, m[k])] + rest
  }

  /** Entries come in strictly ascending key order: no key twice. */
  predicate Ascending(es: seq<Entry>) {
    forall i, j :: 0 <= i < j < |es| ==> Below(es[i].0, es[j].0)
  }

  lemma {:induction false} EntriesAscend(m: Fields)
    ensures Ascending(Entries(m))
    decreases |m|
  {
    if m != map[] {
      var k := Least(m.Keys);
      RemoveShrinks(m, k);
      var rest := Entries(m - {k});
      EntriesAscend(m - {k});
      forall j | 0 <= j < |rest| ensures Below(k, rest[j].0) {
        assert (rest[j].0, rest[j].1) in rest;
      }
    }
  }

  predicate Distinct(es: seq<Entry>) {
    forall i, j :: 0 <= i < j < |es| ==> es[i].0 != es[j].0
  }

  lemma EntriesDistinct(m: Fields)
    ensures Distinct(Entries(m))
  {
    EntriesAscend(m);
    var es := Entries(m);
    forall i, j | 0 <= i < j < |es| ensures es[i].0 != es[j].0 {
      BelowAntisymmetric(es[i].0, es[j].0);
    }
  }

  /** `insert`: an existing key keeps its value. */
  function Insert(m: Fields, k: string, v: string): Fields {
    if k in m then m else m[k := v]
  }

  function InsertAll(m: Fields, es: seq<Entry>): Fields
    decreases |es|
  {
    if es == [] then m else InsertAll(Insert(m, es[0].0, es[0].1), es[1..])
  }

  lemma {:induction false} InsertAllKeeps(m: Fields, es: seq<Entry>)
    ensures forall k :: k in m ==> k in InsertAll(m, es) && InsertAll(m, es)[k] == m[k]
    ensures forall k, v :: (k, v) in es ==> k in InsertAll(m, es)
    ensures forall k :: k in InsertAll(m, es) ==> k in m || (k, InsertAll(m, es)[k]) in es
    decreases |es|
  {
    if es != [] {
      var m' := Insert(m, es[0].0, es[0].1);
      InsertAllKeeps(m', es[1..]);
      assert es == [(es[0].0, es[0].1)] + es[1..];
    }
  }

  /** Entries with distinct keys are all kept, with their values. */
  lemma {:induction false} InsertDistinct(m: Fields, es: seq<Entry>)
    requires Distinct(es) && forall k, v :: (k, v) in es ==> k !in m
    ensures forall k, v :: (k, v) in es ==> k in InsertAll(m, es) && InsertAll(m, es)[k] == v
    ensures |InsertAll(m, es)| == |m| + |es|
    decreases |es|
  {
    if es != [] {
      var (k0, v0) := es[0];
      assert es == [(k0, v0)] + es[1..];
      assert (k0, v0) in es;
      var m' := Insert(m, k0, v0);
      forall k, v | (k, v) in es[1..] ensures k !in m' {
        assert (k, v) in es;
        var i :| 0 <= i < |es[1..]| && es[1..][i] == (k, v);
        assert es[i + 1] == (k, v);
      }
      InsertDistinct(m', es[1..]);
      InsertAllKeeps(m', es[1..]);
    }
  }

  /** Inserting entries with distinct keys into an empty map keeps each of them. */
  lemma Collect(es: seq<Entry>)
    requires Distinct(es)
    ensures var r := InsertAll(map[], es);
      |r| == |es| && forall i :: 0 <= i < |es| ==> es[i].0 in r && r[es[i].0] == es[i].1
  {
    InsertDistinct(map[], es);
    var r := InsertAll(map[], es);
    forall i | 0 <= i < |es| ensures es[i].0 in r && r[es[i].0] == es[i].1 {
      assert (es[i].0, es[i].1) in es;
    }
  }

  /** Inserting adds nothing but the given entries. */
  lemma CollectedFrom(es: seq<Entry>, k: string) returns (i: nat)
    requires k in InsertAll(map[], es)
    ensures i < |es| && es[i] == (k, InsertAll(map[], es)[k])
  {
    InsertAllKeeps(map[], es);
    i :| 0 <= i < |es| && es[i] == (k, InsertAll(map[], es)[k]);
  }

  /** `Entries` lists entries of the map, no key twice ... */
  lemma EntriesExact(m: Fields)
    ensures Distinct(Entries(m))
    ensures forall i :: 0 <= i < |Entries(m)| ==> Entries(m)[i].0 in m && m[Entries(m)[i].0] == Entries(m)[i].1
  {
    EntriesDistinct(m);
    var es := Entries(m);
    forall i | 0 <= i < |es| ensures es[i].0 in m && m[es[i].0] == es[i].1 {
      assert (es[i].0, es[i].1) in es;
    }
  }

  /** ... and leaves none out. */
  lemma EntryIndex(m: Fields, k: string) returns (i: nat)
    requires k in m
    ensures i < |Entries(m)| && Entries(m)[i] == (k, m[k])
  {
    assert (k, m[k]) in Entries(m);
    i :| 0 <= i < |Entries(m)| && Entries(m)[i] == (k, m[k]);
  }

  lemma SameSizeSubmap(r: Fields, m: Fields)
    requires |r| == |m| && forall k :: k in r ==> k in m && r[k] == m[k]
    ensures r == m
  {
    assert r.Keys <= m.Keys;
    assert m.Keys == r.Keys + (m.Keys - r.Keys);
    assert |m.Keys - r.Keys| == 0;
  }

  lemma {:induction false} InsertNew(m: Fields, es: seq<Entry>, i: nat)
    requires Distinct(es) && i < |es| && es[i].0 !in m
    ensures es[i].0 in InsertAll(m, es) && InsertAll(m, es)[es[i].0] == es[i].1
    decreases |es|
  {
    var m' := Insert(m, es[0].0, es[0].1);
    InsertAllKeeps(m', es[1..]);
    if i > 0 {
      assert es[1..][i - 1] == es[i];
      InsertNew(m', es[1..], i - 1);
    }
  }

  /** Inserting a map into another one adds what was missing. */
  lemma InsertOnto(m: Fields, n: Fields)
    ensures InsertAll(m, Entries(n)) == n + m
  {
    var r := InsertAll(m, Entries(n));
    InsertedKeys(m, n);
    forall k | k in n && k !in m ensures r[k] == n[k] {
      EntriesExact(n);
      var i := EntryIndex(n, k);
      InsertNew(m, Entries(n), i);
    }
    MergedIs(r, m, n);
  }

  lemma InsertedKeys(m: Fields, n: Fields)
    ensures var r := InsertAll(m, Entries(n));
      r.Keys == m.Keys + n.Keys && forall k :: k in m ==> r[k] == m[k]
  {
    InsertedKeysOf(m, n, Entries(n));
  }

  lemma InsertedKeysOf(m: Fields, n: Fields, es: seq<Entry>)
    requires forall k, v :: (k, v) in es <==> k in n && n[k] == v
    ensures var r := InsertAll(m, es);
      r.Keys == m.Keys + n.Keys && forall k :: k in m ==> r[k] == m[k]
  {
    var r := InsertAll(m, es);
    InsertAllKeeps(m, es);
    forall k | k in n ensures k in r {
      assert (k, n[k]) in es;
    }
  }

  lemma MergedIs(r: Fields, m: Fields, n: Fields)
    requires r.Keys == m.Keys + n.Keys
    requires forall k :: k in r ==> r[k] == if k in m then m[k] else n[k]
    ensures r == n + m
  {
  }

  /** A map is rebuilt by inserting its entries one by one. */
  lemma Rebuild(m: Fields)
    ensures InsertAll(map[], Entries(m)) == m
  {
    var es := Entries(m);
    EntriesExact(m);
    Collect(es);
    forall k | k in InsertAll(map[], es) ensures k in m && m[k] == InsertAll(map[], es)[k] {
      var i := CollectedFrom(es, k);
    }
    SameSizeSubmap(InsertAll(map[], es), m);
  }
}
