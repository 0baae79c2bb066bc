/** The canonical form that `json.dumps(record, sort_keys=True)` serialises:
    every dictionary, at every depth, has its entries sorted by key. The
    content hash of a record is taken over this form, which is what makes
    it independent of the order in which keys were inserted. */
module Canonical {
  import opened PyData

  /** Python's `<` on str: lexicographic comparison by code point. */
  predicate StrLt(a: string, b: string)
    decreases |a|
  {
    if |a| == 0 then |b| > 0
    else if |b| == 0 then false
    else if a[0] != b[0] then a[0] < b[0]
    else StrLt(a[1..], b[1..])
  }

  lemma {:induction false} StrLtIrreflexive(a: string)
    ensures !StrLt(a, a)
    decreases |a|
  {
    if |a| > 0 {
      StrLtIrreflexive(a[1..]);
    }
  }

  lemma {:induction false} StrLtTransitive(a: string, b: string, c: string)
    requires StrLt(a, b) && StrLt(b, c)
    ensures StrLt(a, c)
    decreases |a|
  {
    if |a| > 0 && a[0] == b[0] && b[0] == c[0] {
      StrLtTransitive(a[1..], b[1..], c[1..]);
    }
  }

  lemma {:induction false} StrLtTotal(a: string, b: string)
    requires a != b
    ensures StrLt(a, b) || StrLt(b, a)
    decreases |a|
  {
    if |a| > 0 && |b| > 0 && a[0] == b[0] {
      assert a == [a[0]] + a[1..] && b == [b[0]] + b[1..];
      StrLtTotal(a[1..], b[1..]);
    }
  }

  lemma {:induction false} StrLtAsymmetric(a: string, b: string)
    requires StrLt(a, b)
    ensures !StrLt(b, a)
  {
    if StrLt(b, a) {
      StrLtTransitive(a, b, a);
      StrLtIrreflexive(a);
    }
  }

  /** Entries strictly ascending by key. */
  predicate Sorted(fs: seq<Field>) {
    forall i, j :: 0 <= i < j < |fs| ==> StrLt(fs[i].key, fs[j].key)
  }

  /** Inserts one entry into a key-ordered list, before the first entry
      whose key is not smaller. */
  function Insert(f: Field, fs: seq<Field>): (r: seq<Field>)
    ensures multiset(r) == multiset(fs) + multiset{f}
  {
    if |fs| == 0 then [f]
    else if StrLt(fs[0].key, f.key) then
      assert fs == [fs[0]] + fs[1..];
      [fs[0]] + Insert(f, fs[1..])
    else [f] + fs
  }

  lemma {:induction false} InsertSorted(f: Field, fs: seq<Field>)
    requires Sorted(fs)
    requires forall g :: g in fs ==> g.key != f.key
    ensures Sorted(Insert(f, fs))
  {
    if |fs| > 0 {
      assert fs[0] in fs;
      if StrLt(fs[0].key, f.key) {
        assert forall g :: g in fs[1..] ==> g in fs;
        InsertSorted(f, fs[1..]);
        HeadBeforeInserted(f, fs);
        SortedCons(fs[0], Insert(f, fs[1..]));
      } else {
        StrLtTotal(f.key, fs[0].key);
        forall g | g in fs ensures StrLt(f.key, g.key) {
          var m :| 0 <= m < |fs| && fs[m] == g;
          if m > 0 {
            StrLtTransitive(f.key, fs[0].key, g.key);
          }
        }
        SortedCons(f, fs);
      }
    }
  }

  /** An entry smaller than every entry of a sorted list can go in front. */
  lemma SortedCons(h: Field, rest: seq<Field>)
    requires Sorted(rest)
    requires forall g :: g in rest ==> StrLt(h.key, g.key)
    ensures Sorted([h] + rest)
  {
    var r := [h] + rest;
    forall i, j | 0 <= i < j < |r| ensures StrLt(r[i].key, r[j].key) {
      assert r[j] == rest[j - 1] && rest[j - 1] in rest;
      if i > 0 {
        assert r[i] == rest[i - 1];
      }
    }
  }

  /** Inserting behind the head of a sorted list keeps the head smallest. */
  lemma HeadBeforeInserted(f: Field, fs: seq<Field>)
    requires Sorted(fs) && |fs| > 0 && StrLt(fs[0].key, f.key)
    ensures forall g :: g in Insert(f, fs[1..]) ==> StrLt(fs[0].key, g.key)
  {
    var rest := Insert(f, fs[1..]);
    forall g | g in rest ensures StrLt(fs[0].key, g.key) {
      assert g in multiset(rest);
      if g != f {
        assert g in multiset(fs[1..]);
        var m :| 0 <= m < |fs| - 1 && fs[1..][m] == g;
        assert fs[m + 1] == g;
      }
    }
  }

  /** Sorts dictionary entries by key (insertion sort), as `sort_keys=True`
      does before writing a dictionary out. */
  function SortFields(fs: seq<Field>): (r: seq<Field>)
    ensures multiset(r) == multiset(fs)
  {
    if |fs| == 0 then []
    else
      assert fs == [fs[0]] + fs[1..];
      Insert(fs[0], SortFields(fs[1..]))
  }

  /** Sorting entries with distinct keys yields a strictly ascending list
      holding exactly the same entries. */
  lemma {:induction false} SortFieldsSorted(fs: seq<Field>)
    requires DistinctKeys(fs)
    ensures Sorted(SortFields(fs))
  {
    if |fs| > 0 {
      assert DistinctKeys(fs[1..]) by {
        forall i, j | 0 <= i < j < |fs[1..]| ensures fs[1..][i].key != fs[1..][j].key {
          assert fs[1..][i] == fs[i + 1] && fs[1..][j] == fs[j + 1];
        }
      }
      SortFieldsSorted(fs[1..]);
      var s := SortFields(fs[1..]);
      forall g | g in s ensures g.key != fs[0].key {
        assert g in multiset(s);
        assert g in multiset(fs[1..]);
        var m :| 0 <= m < |fs[1..]| && fs[1..][m] == g;
        assert fs[m + 1] == g;
      }
      InsertSorted(fs[0], s);
    }
  }

  /** Two strictly sorted lists with the same entries are the same list. */
  lemma {:induction false} SortedUnique(a: seq<Field>, b: seq<Field>)
    requires Sorted(a) && Sorted(b)
    requires forall x :: x in a <==> x in b
    ensures a == b
  {
    if |a| == 0 {
      EmptyWithoutMembers(b);
    } else {
      assert a[0] in a && a[0] in b;
      SortedHeadsAgree(a, b);
      forall x
        ensures x in a[1..] <==> x in b[1..]
      {
        if x in a[1..] {
          TailMember(a, b, x);
        }
        if x in b[1..] {
          TailMember(b, a, x);
        }
      }
      SortedUnique(a[1..], b[1..]);
      assert a == [a[0]] + a[1..] && b == [b[0]] + b[1..];
    }
  }

  /** Two sorted lists with the same members start with the same entry:
      the smallest one. */
  lemma SortedHeadsAgree(a: seq<Field>, b: seq<Field>)
    requires Sorted(a) && Sorted(b) && |a| > 0 && |b| > 0
    requires forall x :: x in a <==> x in b
    ensures a[0] == b[0]
  {
    assert a[0] in a && b[0] in b;
    var i :| 0 <= i < |a| && a[i] == b[0];
    var j :| 0 <= j < |b| && b[j] == a[0];
    if i > 0 && j > 0 {
      StrLtAsymmetric(a[0].key, b[0].key);
    }
  }

  /** Past the shared head, a member of one tail is a member of the other. */
  lemma TailMember(a: seq<Field>, b: seq<Field>, x: Field)
    requires Sorted(a) && |a| > 0 && |b| > 0 && a[0] == b[0]
    requires forall y :: y in a <==> y in b
    requires x in a[1..]
    ensures x in b[1..]
  {
    var i :| 0 <= i < |a[1..]| && a[1..][i] == x;
    assert a[i + 1] == x;
    StrLtIrreflexive(x.key);
    assert x in a;
    var j :| 0 <= j < |b| && b[j] == x;
    assert b[1..][j - 1] == x;
  }

  /** The canonical form of a value: dictionaries at every depth have
      their entries sorted by key; everything else is unchanged. */
  function Canon(v: Value): (r: Value)
    ensures r.JObj? <==> v.JObj?
    ensures r.JArr? <==> v.JArr?
    ensures v.JArr? ==> |r.items| == |v.items|
    ensures v.JObj? ==> multiset(r.fields) == multiset(CanonEntries(v.fields))
    ensures !v.JObj? && !v.JArr? ==> r == v
  {
    match v
    case JArr(items) => JArr(seq(|items|, i requires 0 <= i < |items| => Canon(items[i])))
    case JObj(fs) => JObj(SortFields(CanonEntries(fs)))
    case _ => v
  }

  /** A dictionary with distinct keys comes out of canonicalisation with
      its keys in ascending order, as `sort_keys=True` writes them. */
  lemma CanonSorted(v: Value)
    requires v.JObj? && DistinctKeys(v.fields)
    ensures Sorted(Canon(v).fields)
  {
    CanonEntriesDistinct(v.fields);
    SortFieldsSorted(CanonEntries(v.fields));
  }

  /** The entries of a dictionary with each value in canonical form,
      still in insertion order. */
  function CanonEntries(fs: seq<Field>): (r: seq<Field>)
    ensures |r| == |fs|
    ensures forall i :: 0 <= i < |fs| ==> r[i] == Field(fs[i].key, Canon(fs[i].value))
  {
    if |fs| == 0 then []
    else [Field(fs[0].key, Canon(fs[0].value))] + CanonEntries(fs[1..])
  }

  /** Python dictionary equality, ignoring the order of insertion: the
      same keys, and under each key values that are again equal up to key
      order. Lists compare element-wise; scalars compare exactly. */
  predicate SameUpToKeyOrder(a: Value, b: Value) {
    match a
    case JArr(xs) =>
      b.JArr? && |xs| == |b.items| &&
      forall i :: 0 <= i < |xs| ==> SameUpToKeyOrder(xs[i], b.items[i])
    case JObj(fs) =>
      b.JObj? &&
      (forall i :: 0 <= i < |fs| ==> fs[i].key in Keys(b.fields)) &&
      (forall j :: 0 <= j < |b.fields| ==> b.fields[j].key in Keys(fs)) &&
      forall i, j :: 0 <= i < |fs| && 0 <= j < |b.fields| && fs[i].key == b.fields[j].key ==>
        SameUpToKeyOrder(fs[i].value, b.fields[j].value)
    case _ => a == b
  }

  /** Lists of entries with distinct keys and the same members sort to
      the same list. */
  lemma SameEntriesSameSort(ca: seq<Field>, cb: seq<Field>)
    requires DistinctKeys(ca) && DistinctKeys(cb)
    requires forall x :: x in ca <==> x in cb
    ensures SortFields(ca) == SortFields(cb)
  {
    SortFieldsSorted(ca);
    SortFieldsSorted(cb);
    var sa := SortFields(ca);
    var sb := SortFields(cb);
    forall x
      ensures x in sa <==> x in sb
    {
      assert x in sa <==> x in multiset(sa);
      assert x in sb <==> x in multiset(sb);
      assert x in multiset(ca) <==> x in ca;
      assert x in multiset(cb) <==> x in cb;
    }
    SortedUnique(sa, sb);
  }

  /** Canonicalising the values of a dictionary keeps its keys distinct. */
  lemma CanonEntriesDistinct(fs: seq<Field>)
    requires DistinctKeys(fs)
    ensures DistinctKeys(CanonEntries(fs))
  {
    var c := CanonEntries(fs);
    forall i, j | 0 <= i < j < |c| ensures c[i].key != c[j].key {
      assert c[i].key == fs[i].key && c[j].key == fs[j].key;
    }
  }

  /** Sorting is what makes the serialisation order independent: two
      dictionaries that are equal up to the order in which their keys were
      inserted, at any depth, have the same canonical form. */
  lemma {:induction false} CanonOrderIndependent(a: Value, b: Value)
    requires WellFormed(a) && WellFormed(b)
    requires SameUpToKeyOrder(a, b)
    ensures Canon(a) == Canon(b)
    decreases a
  {
    match a
    case JArr(xs) =>
      var ys := b.items;
      forall i | 0 <= i < |xs|
        ensures Canon(xs[i]) == Canon(ys[i])
      {
        CanonOrderIndependent(xs[i], ys[i]);
      }
      assert Canon(a).items == Canon(b).items;
    case JObj(fa) =>
      var fb := b.fields;
      forall i, j | 0 <= i < |fa| && 0 <= j < |fb| && fa[i].key == fb[j].key
        ensures Canon(fa[i].value) == Canon(fb[j].value)
      {
        CanonOrderIndependent(fa[i].value, fb[j].value);
      }
      CanonEntriesMatch(fa, fb);
      CanonEntriesMatch(fb, fa);
      CanonEntriesDistinct(fa);
      CanonEntriesDistinct(fb);
      SameEntriesSameSort(CanonEntries(fa), CanonEntries(fb));
    case _ =>
  }

  /** Every canonical entry of one dictionary is a canonical entry of the
      other, when both have the same keys and canonically equal values
      under each key. */
  lemma CanonEntriesMatch(fa: seq<Field>, fb: seq<Field>)
    requires forall i :: 0 <= i < |fa| ==> fa[i].key in Keys(fb)
    requires forall i, j :: 0 <= i < |fa| && 0 <= j < |fb| && fa[i].key == fb[j].key ==>
      Canon(fa[i].value) == Canon(fb[j].value)
    ensures forall x :: x in CanonEntries(fa) ==> x in CanonEntries(fb)
  {
    var ca := CanonEntries(fa);
    var cb := CanonEntries(fb);
    forall x | x in ca
      ensures x in cb
    {
      var i :| 0 <= i < |ca| && ca[i] == x;
      assert fa[i].key in Keys(fb);
      var j :| 0 <= j < |fb| && Keys(fb)[j] == fa[i].key;
      assert fb[j].key == fa[i].key;
      assert Canon(fa[i].value) == Canon(fb[j].value);
      assert cb[j] == Field(fb[j].key, Canon(fb[j].value));
    }
  }
}
