/** Stable sorting by name, as the builder sorts children and directory entries. */
module Sorting {
  import Results
  import opened Names

  function Insert<T(!new)>(x: T, s: seq<T>, key: T -> Name): (r: seq<T>)
    ensures |r| == |s| + 1
  {
    if s == [] || !Less(key(s[0]), key(x)) then [x] + s else [s[0]] + Insert(x, s[1..], key)
  }

  function Sort<T(!new)>(xs: seq<T>, key: T -> Name): (r: seq<T>)
    ensures |r| == |xs|
  {
    if xs == [] then [] else Insert(xs[0], Sort(xs[1..], key), key)
  }

  ghost predicate Strict<T(!new)>(s: seq<T>, key: T -> Name) {
    forall i, j :: 0 <= i < j < |s| ==> Less(key(s[i]), key(s[j]))
  }

  ghost predicate Distinct<T(!new)>(s: seq<T>, key: T -> Name) {
    forall i, j :: 0 <= i < j < |s| ==> key(s[i]) != key(s[j])
  }

  /** The first element with the given name. */
  function Find<T(!new)>(s: seq<T>, key: T -> Name, name: Name): (r: Results.Option<T>)
    ensures r.Some? ==> r.value in s && key(r.value) == name
    ensures r.None? ==> forall x :: x in s ==> key(x) != name
  {
    if s == [] then Results.None
    else if key(s[0]) == name then Results.Some(s[0])
    else Find(s[1..], key, name)
  }

  lemma {:induction false} InsertMembers<T(!new)>(x: T, s: seq<T>, key: T -> Name)
    ensures forall e :: e in Insert(x, s, key) <==> e == x || e in s
  {
    if s != [] && Less(key(s[0]), key(x)) {
      InsertMembers(x, s[1..], key);
      assert s == [s[0]] + s[1..];
    }
  }

  lemma {:induction false} SortMembers<T(!new)>(xs: seq<T>, key: T -> Name)
    ensures forall e :: e in Sort(xs, key) <==> e in xs
  {
    if xs != [] {
      SortMembers(xs[1..], key);
      InsertMembers(xs[0], Sort(xs[1..], key), key);
      assert xs == [xs[0]] + xs[1..];
    }
  }

  lemma {:induction false} InsertStrict<T(!new)>(x: T, s: seq<T>, key: T -> Name)
    requires Strict(s, key)
    requires forall e :: e in s ==> key(e) != key(x)
    ensures Strict(Insert(x, s, key), key)
  {
    if s == [] {
    } else if Less(key(s[0]), key(x)) {
      var t := s[1..];
      InsertStrict(x, t, key);
      InsertMembers(x, t, key);
      var r := Insert(x, t, key);
      forall j | 0 <= j < |r| ensures Less(key(s[0]), key(r[j])) {
        assert r[j] in r;
        if r[j] != x {
          assert r[j] in t;
          var i :| 0 <= i < |t| && t[i] == r[j];
          assert s[i + 1] == r[j];
        }
      }
    } else {
      assert s[0] in s;
      LessTotal(key(s[0]), key(x));
      forall j | 0 <= j < |s| ensures Less(key(x), key(s[j])) {
        if j > 0 { LessTransitive(key(x), key(s[0]), key(s[j])); }
      }
    }
  }

  /** Sorting items with distinct names puts them in strictly increasing order. */
  lemma {:induction false} SortStrict<T(!new)>(xs: seq<T>, key: T -> Name)
    requires Distinct(xs, key)
    ensures Strict(Sort(xs, key), key)
  {
    if xs != [] {
      var t := xs[1..];
      SortStrict(t, key);
      SortMembers(t, key);
      forall e | e in Sort(t, key) ensures key(e) != key(xs[0]) {
        assert e in t;
        var j :| 0 <= j < |t| && t[j] == e;
        assert xs[j + 1] == e;
      }
      InsertStrict(xs[0], Sort(t, key), key);
    }
  }

  lemma StrictDistinct<T(!new)>(s: seq<T>, key: T -> Name)
    requires Strict(s, key)
    ensures Distinct(s, key)
  {
    forall i, j | 0 <= i < j < |s| ensures key(s[i]) != key(s[j]) {
      if key(s[i]) == key(s[j]) { LessIrreflexive(key(s[i])); }
    }
  }

  lemma {:induction false} FindInsert<T(!new)>(x: T, s: seq<T>, key: T -> Name, name: Name)
    ensures Find(Insert(x, s, key), key, name)
            == if key(x) == name then Results.Some(x) else Find(s, key, name)
  {
    if s != [] && Less(key(s[0]), key(x)) {
      LessIrreflexive(key(x));
      FindInsert(x, s[1..], key, name);
    }
  }

  /** Sorting does not change which item a name finds, duplicates included. */
  lemma {:induction false} FindSort<T(!new)>(xs: seq<T>, key: T -> Name, name: Name)
    ensures Find(Sort(xs, key), key, name) == Find(xs, key, name)
  {
    if xs != [] {
      FindSort(xs[1..], key, name);
      FindInsert(xs[0], Sort(xs[1..], key), key, name);
    }
  }

  /** Sorting what is already sorted changes nothing. */
  lemma {:induction false} SortSorted<T(!new)>(xs: seq<T>, key: T -> Name)
    requires Strict(xs, key)
    ensures Sort(xs, key) == xs
  {
    if xs != [] {
      SortSorted(xs[1..], key);
      if |xs| > 1 {
        assert xs[1..][0] == xs[1];
        if Less(key(xs[1]), key(xs[0])) {
          LessTransitive(key(xs[0]), key(xs[1]), key(xs[0]));
          LessIrreflexive(key(xs[0]));
        }
      }
    }
  }
}
