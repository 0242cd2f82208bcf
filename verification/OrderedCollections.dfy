/** Sets and maps kept as sorted lists, as BTreeSet and BTreeMap are read. */
module OrderedCollections {

  datatype Entry<+V> = Entry(key: string, value: V)

  ghost predicate StrictTotalOrder<T(!new)>(less: (T, T) -> bool) {
    && (forall x :: !less(x, x))
    && (forall x, y :: x == y || less(x, y) || less(y, x))
    && (forall x, y, z :: less(x, y) && less(y, z) ==> less(x, z))
  }

  predicate StrictlySorted<T>(less: (T, T) -> bool, s: seq<T>) {
    forall i, j | 0 <= i < j < |s| :: less(s[i], s[j])
  }

  // ---------- Sets ----------

  /** Inserts into a sorted list unless the element is there. */
  function Insert<T(==)>(less: (T, T) -> bool, s: seq<T>, x: T): seq<T> {
    if s == [] then [x]
    else if s[0] == x then s
    else if less(x, s[0]) then [x] + s
    else [s[0]] + Insert(less, s[1..], x)
  }

  /** Collects a list into a set, element by element. */
  function CollectSet<T(==)>(less: (T, T) -> bool, xs: seq<T>): seq<T> {
    if xs == [] then [] else Insert(less, CollectSet(less, xs[..|xs| - 1]), xs[|xs| - 1])
  }

  lemma {:induction false} InsertSorted<T(!new)>(less: (T, T) -> bool, s: seq<T>, x: T)
    requires StrictTotalOrder(less) && StrictlySorted(less, s)
    ensures StrictlySorted(less, Insert(less, s, x))
    ensures forall y :: y in Insert(less, s, x) <==> y == x || y in s
  {
    if s != [] && s[0] != x && !less(x, s[0]) {
      InsertSorted(less, s[1..], x);
      var rest := Insert(less, s[1..], x);
      assert forall y | y in rest :: less(s[0], y);
      forall y ensures y in Insert(less, s, x) <==> y == x || y in s {
        assert y in s <==> y == s[0] || y in s[1..];
      }
    } else if s != [] && less(x, s[0]) {
      forall i | 0 <= i < |s| ensures less(x, s[i]) {
        assert i > 0 ==> less(s[0], s[i]);
      }
    }
  }

  /** A collected set is sorted without repetition and has the elements of the list. */
  lemma {:induction false} CollectSetSorted<T(!new)>(less: (T, T) -> bool, xs: seq<T>)
    requires StrictTotalOrder(less)
    ensures StrictlySorted(less, CollectSet(less, xs))
    ensures forall y :: y in CollectSet(less, xs) <==> y in xs
  {
    if xs == [] {
    } else {
      var front, last := xs[..|xs| - 1], xs[|xs| - 1];
      CollectSetSorted(less, front);
      InsertSorted(less, CollectSet(less, front), last);
      assert xs == front + [last];
    }
  }

  lemma {:induction false} InsertLast<T(!new)>(less: (T, T) -> bool, s: seq<T>, x: T)
    requires StrictTotalOrder(less) && forall y | y in s :: less(y, x)
    ensures Insert(less, s, x) == s + [x]
  {
    if s == [] {
    } else {
      assert s[0] in s;
      InsertLast(less, s[1..], x);
    }
  }

  /** Collecting what is sorted already changes nothing. */
  lemma {:induction false} CollectSortedSet<T(!new)>(less: (T, T) -> bool, xs: seq<T>)
    requires StrictTotalOrder(less) && StrictlySorted(less, xs)
    ensures CollectSet(less, xs) == xs
  {
    if xs == [] {
    } else {
      var front, last := xs[..|xs| - 1], xs[|xs| - 1];
      CollectSortedSet(less, front);
      InsertLast(less, front, last);
      assert xs == front + [last];
    }
  }

  // ---------- Strings as keys ----------

  /** Lexicographic order by code point. */
  predicate StringLess(a: string, b: string) {
    if b == "" then false
    else if a == "" then true
    else a[0] < b[0] || (a[0] == b[0] && StringLess(a[1..], b[1..]))
  }

  /** The texts agree up to `n`, and there the first is at its end or has the smaller character. */
  predicate DifferFirstAt(a: string, b: string, n: nat) {
    n <= |a| && n < |b| && a[..n] == b[..n] && (n == |a| || a[n] < b[n])
  }

  /** The order is decided at the first difference. */
  lemma {:induction false} StringLessIff(a: string, b: string)
    ensures StringLess(a, b) <==> exists n: nat :: DifferFirstAt(a, b, n)
  {
    if a == "" || b == "" {
      if b != "" {
        assert DifferFirstAt(a, b, 0);
      }
    } else {
      StringLessIff(a[1..], b[1..]);
      if a[0] < b[0] {
        assert DifferFirstAt(a, b, 0);
      } else if StringLess(a, b) {
        var n: nat :| DifferFirstAt(a[1..], b[1..], n);
        assert a[..n + 1] == [a[0]] + a[1..][..n] && b[..n + 1] == [b[0]] + b[1..][..n];
        assert DifferFirstAt(a, b, n + 1);
      } else if n: nat :| DifferFirstAt(a, b, n) {
        assert n > 0 && a[0] == a[..n][0] == b[..n][0];
        assert a[1..][..n - 1] == a[..n][1..] && b[1..][..n - 1] == b[..n][1..];
        assert DifferFirstAt(a[1..], b[1..], n - 1);
      }
    }
  }

  lemma {:induction false} StringLessIrreflexive(a: string)
    ensures !StringLess(a, a)
  {
    if a == "" {
    } else {
      StringLessIrreflexive(a[1..]);
    }
  }

  lemma {:induction false} StringLessTotal(a: string, b: string)
    ensures a == b || StringLess(a, b) || StringLess(b, a)
  {
    if a != "" && b != "" && a[0] == b[0] {
      StringLessTotal(a[1..], b[1..]);
      assert a == [a[0]] + a[1..] && b == [b[0]] + b[1..];
    }
  }

  lemma {:induction false} StringLessTransitive(a: string, b: string, c: string)
    requires StringLess(a, b) && StringLess(b, c)
    ensures StringLess(a, c)
  {
    if a != "" && a[0] == b[0] == c[0] {
      StringLessTransitive(a[1..], b[1..], c[1..]);
    }
  }

  // ---------- Maps ----------

  predicate SortedKeys<V>(m: seq<Entry<V>>) {
    forall i, j | 0 <= i < j < |m| :: StringLess(m[i].key, m[j].key)
  }

  /** Inserts into a map; an entry with the same key is replaced. */
  function Put<V>(m: seq<Entry<V>>, e: Entry<V>): seq<Entry<V>> {
    if m == [] then [e]
    else if m[0].key == e.key then [e] + m[1..]
    else if StringLess(e.key, m[0].key) then [e] + m
    else [m[0]] + Put(m[1..], e)
  }

  /** Collects entries into a map, in order: the last one with a key stays. */
  function CollectMap<V>(es: seq<Entry<V>>): seq<Entry<V>> {
    if es == [] then [] else Put(CollectMap(es[..|es| - 1]), es[|es| - 1])
  }

  lemma {:induction false} PutSorted<V>(m: seq<Entry<V>>, e: Entry<V>)
    requires SortedKeys(m)
    ensures SortedKeys(Put(m, e))
    ensures e in Put(m, e)
    ensures forall x | x in Put(m, e) :: x == e || (x in m && x.key != e.key)
    ensures forall x | x in m && x.key != e.key :: x in Put(m, e)
  {
    if m == [] {
    } else {
      StringLessTotal(m[0].key, e.key);
      forall i | 0 < i < |m|
        ensures m[i].key != m[0].key
        ensures StringLess(e.key, m[0].key) ==> StringLess(e.key, m[i].key) && m[i].key != e.key
      {
        StringLessIrreflexive(m[0].key);
        StringLessIrreflexive(e.key);
        if StringLess(e.key, m[0].key) {
          StringLessTransitive(e.key, m[0].key, m[i].key);
        }
      }
      assert m == [m[0]] + m[1..];
      if m[0].key != e.key && !StringLess(e.key, m[0].key) {
        PutSorted(m[1..], e);
        assert forall x | x in m[1..] :: StringLess(m[0].key, x.key);
        var rest := Put(m[1..], e);
        forall i | 0 <= i < |rest| ensures StringLess(m[0].key, rest[i].key) {
          assert rest[i] in rest;
        }
      } else if m[0].key != e.key {
        StringLessIrreflexive(e.key);
      }
    }
  }

  /** The collected map is sorted and holds, for each key, the last entry with it. */
  lemma {:induction false} CollectMapSorted<V>(es: seq<Entry<V>>)
    ensures SortedKeys(CollectMap(es))
    ensures forall x :: x in CollectMap(es) <==>
              exists i :: 0 <= i < |es| && es[i] == x && forall j | i < j < |es| :: es[j].key != x.key
  {
    if es == [] {
    } else {
      var front, last := es[..|es| - 1], es[|es| - 1];
      CollectMapSorted(front);
      PutSorted(CollectMap(front), last);
      forall x ensures x in CollectMap(es) <==>
                         exists i :: 0 <= i < |es| && es[i] == x && forall j | i < j < |es| :: es[j].key != x.key
      {
        LastEntry(front, last, x);
        assert es == front + [last];
      }
    }
  }

  lemma LastEntry<V>(front: seq<Entry<V>>, last: Entry<V>, x: Entry<V>)
    ensures var es := front + [last];
            (exists i :: 0 <= i < |es| && es[i] == x && forall j | i < j < |es| :: es[j].key != x.key)
            <==> (x == last || (x.key != last.key
                  && exists i ::
                       0 <= i < |front| && front[i] == x && forall j | i < j < |front| :: front[j].key != x.key))
  {
    var es := front + [last];
    if i :| 0 <= i < |es| && es[i] == x && forall j | i < j < |es| :: es[j].key != x.key {
      if i < |front| {
        assert es[|front|] == last;
        assert front[i] == x && forall j | i < j < |front| :: front[j].key == es[j].key;
      }
    }
    if x == last {
      assert es[|front|] == x;
    } else if x.key != last.key {
      if i :| 0 <= i < |front| && front[i] == x && forall j | i < j < |front| :: front[j].key != x.key {
        assert es[i] == x;
      }
    }
  }

  lemma {:induction false} PutLast<V>(m: seq<Entry<V>>, e: Entry<V>)
    requires forall i | 0 <= i < |m| :: StringLess(m[i].key, e.key)
    ensures Put(m, e) == m + [e]
  {
    if m == [] {
    } else {
      if StringLess(e.key, m[0].key) {
        StringLessTransitive(m[0].key, e.key, m[0].key);
      }
      StringLessIrreflexive(m[0].key);
      PutLast(m[1..], e);
    }
  }

  lemma FrontSorted<V>(es: seq<Entry<V>>)
    requires SortedKeys(es) && es != []
    ensures var front, last := es[..|es| - 1], es[|es| - 1];
            SortedKeys(front) && forall i | 0 <= i < |front| :: StringLess(front[i].key, last.key)
  {
  }

  /** Collecting a map that is sorted already changes nothing. */
  lemma {:induction false} CollectSortedMap<V>(es: seq<Entry<V>>)
    requires SortedKeys(es)
    ensures CollectMap(es) == es
  {
    if es == [] {
    } else {
      var front, last := es[..|es| - 1], es[|es| - 1];
      FrontSorted(es);
      CollectSortedMap(front);
      PutLast(front, last);
      assert es == front + [last];
    }
  }
}
