/**
 * The route's action-parameter table. A PHP array of parameters is a list of
 * (key, value) pairs with pairwise distinct keys; `setActionParams` sorts it
 * by key with `ksort`. Keys are strings ordered lexicographically by code
 * point, the order PHP uses between two non-numeric string keys.
 */
module ParamTable {
  import opened Results

  type Key = string
  type Table = seq<(Key, string)>

  // ---------------------------------------------------------------------
  // key order
  // ---------------------------------------------------------------------

  /** Strict lexicographic order on keys: a proper prefix comes first. */
  predicate Below(a: Key, b: Key)
    decreases |a|
  {
    if |a| == 0 then |b| > 0
    else if |b| == 0 then false
    else if a[0] != b[0] then a[0] < b[0]
    else Below(a[1..], b[1..])
  }

  lemma {:induction false} BelowIrreflexive(a: Key)
    ensures !Below(a, a)
    decreases |a|
  {
    if |a| > 0 {
      BelowIrreflexive(a[1..]);
    }
  }

  lemma {:induction false} BelowTransitive(a: Key, b: Key, d: Key)
    requires Below(a, b) && Below(b, d)
    ensures Below(a, d)
    decreases |a|
  {
    if |a| > 0 && a[0] == b[0] && b[0] == d[0] {
      BelowTransitive(a[1..], b[1..], d[1..]);
    }
  }

  /** Any two distinct keys are comparable. */
  lemma {:induction false} BelowTotal(a: Key, b: Key)
    requires a != b
    ensures Below(a, b) || Below(b, a)
    decreases |a|
  {
    if |a| > 0 && |b| > 0 && a[0] == b[0] {
      assert a == [a[0]] + a[1..] && b == [b[0]] + b[1..];
      BelowTotal(a[1..], b[1..]);
    }
  }

  lemma {:induction false} BelowAsymmetric(a: Key, b: Key)
    requires Below(a, b)
    ensures !Below(b, a)
  {
    if Below(b, a) {
      BelowTransitive(a, b, a);
      BelowIrreflexive(a);
    }
  }

  // ---------------------------------------------------------------------
  // tables
  // ---------------------------------------------------------------------

  predicate DistinctKeys(t: Table) {
    forall i, j :: 0 <= i < j < |t| ==> t[i].0 != t[j].0
  }

  /** Keys strictly ascending: the shape `ksort` leaves behind. */
  predicate Ascending(t: Table) {
    forall i, j :: 0 <= i < j < |t| ==> Below(t[i].0, t[j].0)
  }

  /** A PHP array of action parameters: keys never repeat. */
  type ParamArray = t: Table | DistinctKeys(t)

  predicate HasKey(t: Table, k: Key) {
    exists i :: 0 <= i < |t| && t[i].0 == k
  }

  /** PHP `array_key_exists(k, t) ? t[k] : null`. */
  function Lookup(t: Table, k: Key): (r: Option<string>)
    ensures r.Some? <==> HasKey(t, k)
    ensures r.Some? ==> (k, r.value) in t
    decreases |t|
  {
    if |t| == 0 then None
    else if t[0].0 == k then Some(t[0].1)
    else
      var r := Lookup(t[1..], k);
      assert HasKey(t, k) ==> HasKey(t[1..], k) by {
        if HasKey(t, k) {
          var i :| 0 <= i < |t| && t[i].0 == k;
          assert t[1..][i - 1].0 == k;
        }
      }
      assert HasKey(t[1..], k) ==> HasKey(t, k) by {
        if HasKey(t[1..], k) {
          var i :| 0 <= i < |t[1..]| && t[1..][i].0 == k;
          assert t[i + 1].0 == k;
        }
      }
      r
  }

  lemma AscendingDistinct(t: Table)
    requires Ascending(t)
    ensures DistinctKeys(t)
  {
    forall i, j | 0 <= i < j < |t| ensures t[i].0 != t[j].0 {
      if t[i].0 == t[j].0 {
        BelowIrreflexive(t[i].0);
      }
    }
  }

  /** In a table without repeated keys, a stored pair is what lookup finds. */
  lemma {:induction false} LookupMember(t: Table, k: Key, v: string)
    requires DistinctKeys(t) && (k, v) in t
    ensures Lookup(t, k) == Some(v)
    decreases |t|
  {
    if t[0] != (k, v) {
      var i :| 0 <= i < |t| && t[i] == (k, v);
      assert t[1..][i - 1] == (k, v);
      LookupMember(t[1..], k, v);
    }
  }

  /** Two tables without repeated keys holding the same pairs answer every
      lookup alike. */
  lemma SamePairsSameLookup(t: Table, u: Table, k: Key)
    requires DistinctKeys(t) && DistinctKeys(u)
    requires forall e :: e in t <==> e in u
    ensures Lookup(t, k) == Lookup(u, k)
  {
    var r := Lookup(t, k);
    if r.Some? {
      LookupMember(u, k, r.value);
    } else if Lookup(u, k).Some? {
      LookupMember(t, k, Lookup(u, k).value);
    }
  }

  // ---------------------------------------------------------------------
  // ksort
  // ---------------------------------------------------------------------

  /** Inserts one pair at its place in an ascending table. */
  function Insert(t: Table, k: Key, v: string): (r: Table)
    requires Ascending(t) && !HasKey(t, k)
    ensures Ascending(r)
    ensures |r| == |t| + 1
    ensures forall e :: e in r <==> e in t || e == (k, v)
    decreases |t|
  {
    if |t| == 0 then
      [(k, v)]
    else if Below(k, t[0].0) then
      var r := [(k, v)] + t;
      assert forall j :: 1 <= j < |r| ==> Below(k, r[j].0) by {
        forall j | 1 <= j < |r| ensures Below(k, r[j].0) {
          if j > 1 { BelowTransitive(k, t[0].0, t[j - 1].0); }
        }
      }
      r
    else
      assert t[0].0 != k;
      BelowTotal(k, t[0].0);
      var rest := Insert(t[1..], k, v);
      var r := [t[0]] + rest;
      assert forall j :: 0 <= j < |rest| ==> Below(t[0].0, rest[j].0) by {
        forall j | 0 <= j < |rest| ensures Below(t[0].0, rest[j].0) {
          assert rest[j] in rest;
        }
      }
      r
  }

  /** PHP `ksort`: the same pairs, keys strictly ascending. */
  function KSort(p: ParamArray): (t: Table)
    ensures Ascending(t)
    ensures |t| == |p|
    ensures forall e :: e in t <==> e in p
    decreases |p|
  {
    if |p| == 0 then
      []
    else
      var last := p[|p| - 1];
      var init: ParamArray := p[..|p| - 1];
      var sorted := KSort(init);
      LastKeyFresh(p, sorted);
      assert p == init + [last];
      Insert(sorted, last.0, last.1)
  }

  /** The last key of a PHP array appears nowhere among the earlier pairs,
      however they are rearranged. */
  lemma LastKeyFresh(p: ParamArray, sorted: Table)
    requires |p| > 0
    requires forall e :: e in sorted <==> e in p[..|p| - 1]
    ensures !HasKey(sorted, p[|p| - 1].0)
  {
    forall i | 0 <= i < |sorted| ensures sorted[i].0 != p[|p| - 1].0 {
      assert sorted[i] in sorted;
      var j :| 0 <= j < |p| - 1 && p[..|p| - 1][j] == sorted[i];
      assert p[j] == sorted[i];
    }
  }

  /** Sorting keeps every key bound to the value it had. */
  lemma KSortKeepsBindings(p: ParamArray, k: Key)
    ensures Lookup(KSort(p), k) == Lookup(p, k)
  {
    AscendingDistinct(KSort(p));
    SamePairsSameLookup(KSort(p), p, k);
  }

  /** An already sorted table is left as it is. */
  lemma {:induction false} KSortSorted(p: ParamArray)
    requires Ascending(p)
    ensures KSort(p) == p
    decreases |p|
  {
    if |p| > 0 {
      var init: ParamArray := p[..|p| - 1];
      KSortSorted(init);
      InsertLast(init, p[|p| - 1].0, p[|p| - 1].1);
      assert init + [p[|p| - 1]] == p;
    }
  }

  /** Inserting a key above every key present appends it. */
  lemma {:induction false} InsertLast(t: Table, k: Key, v: string)
    requires Ascending(t) && !HasKey(t, k)
    requires forall i :: 0 <= i < |t| ==> Below(t[i].0, k)
    ensures Insert(t, k, v) == t + [(k, v)]
    decreases |t|
  {
    if |t| > 0 {
      BelowAsymmetric(t[0].0, k);
      InsertLast(t[1..], k, v);
      assert [t[0]] + (t[1..] + [(k, v)]) == t + [(k, v)];
    }
  }
}
