/**
 The order in which start tags list their namespace declarations and attributes:
 the `BTreeSet` of byte-vector tuples, as strictly sorted sequences.
 */
module CanonicalOrder {
  import opened Bytes

  /** Lexicographic order of byte vectors. */
  predicate BytesLess(a: bytes, b: bytes) {
    b != [] && (a == [] || a[0] < b[0] || (a[0] == b[0] && BytesLess(a[1..], b[1..])))
  }

  /** `a` comes first in a dictionary: a proper prefix, or smaller where the two first differ. */
  ghost predicate Before(a: bytes, b: bytes) {
    (|a| < |b| && a == b[..|a|]) || exists i :: 0 <= i < |a| && i < |b| && FirstSmaller(a, b, i)
  }

  ghost predicate FirstSmaller(a: bytes, b: bytes, i: nat)
    requires i < |a| && i < |b|
  {
    a[..i] == b[..i] && a[i] as int < b[i] as int
  }

  /** The order is the dictionary order of octets as unsigned numbers. */
  lemma {:induction false} BytesLessExactly(a: bytes, b: bytes)
    ensures BytesLess(a, b) <==> Before(a, b)
  {
    if a != [] && b != [] {
      var s, t := a[1..], b[1..];
      BytesLessExactly(s, t);
      if a[0] == b[0] {
        assert a == [a[0]] + s && b == [b[0]] + t;
        forall i | 0 <= i < |s| && i < |t| ensures FirstSmaller(s, t, i) <==> FirstSmaller(a, b, i + 1) {
          assert a[..i + 1] == [a[0]] + s[..i] && b[..i + 1] == [b[0]] + t[..i];
        }
        if Before(a, b) && !(|a| < |b| && a == b[..|a|]) {
          var i :| 0 <= i < |a| && i < |b| && FirstSmaller(a, b, i);
          assert FirstSmaller(s, t, i - 1);
        }
        assert |a| < |b| ==> b[..|a|] == [b[0]] + t[..|s|];
      } else {
        HeadsDecide(a, b);
      }
    }
  }

  lemma HeadsDecide(a: bytes, b: bytes)
    requires a != [] && b != [] && a[0] != b[0]
    ensures Before(a, b) <==> a[0] < b[0]
  {
    assert FirstSmaller(a, b, 0) <==> a[0] < b[0];
    forall i | 0 < i < |a| && i < |b| ensures !FirstSmaller(a, b, i) {
      assert a[..i][0] == a[0] && b[..i][0] == b[0];
    }
    assert |a| < |b| ==> b[..|a|][0] == b[0];
  }

  /** One tuple of a set. A namespace declaration leaves `local` empty. */
  datatype Entry = Entry(prefix: bytes, local: bytes, value: bytes)

  predicate EntryLess(x: Entry, y: Entry) {
    BytesLess(x.prefix, y.prefix)
    || (x.prefix == y.prefix
        && (BytesLess(x.local, y.local)
            || (x.local == y.local && BytesLess(x.value, y.value))))
  }

  /** Tuples go by prefix, then local name, then value. */
  ghost predicate EntryBefore(x: Entry, y: Entry) {
    Before(x.prefix, y.prefix)
    || (x.prefix == y.prefix && Before(x.local, y.local))
    || (x.prefix == y.prefix && x.local == y.local && Before(x.value, y.value))
  }

  lemma EntryLessExactly(x: Entry, y: Entry)
    ensures EntryLess(x, y) <==> EntryBefore(x, y)
  {
    BytesLessExactly(x.prefix, y.prefix);
    BytesLessExactly(x.local, y.local);
    BytesLessExactly(x.value, y.value);
  }

  lemma {:induction false} BytesLessTotal(a: bytes, b: bytes)
    ensures !(BytesLess(a, b) && BytesLess(b, a))
    ensures a == b <==> !BytesLess(a, b) && !BytesLess(b, a)
  {
    if a != [] && b != [] {
      BytesLessTotal(a[1..], b[1..]);
      if a[0] == b[0] && a[1..] == b[1..] {
        assert a == [a[0]] + a[1..] == b;
      }
    }
  }

  lemma {:induction false} BytesLessTransitive(a: bytes, b: bytes, c: bytes)
    requires BytesLess(a, b) && BytesLess(b, c)
    ensures BytesLess(a, c)
  {
    if a != [] && a[0] == b[0] == c[0] {
      BytesLessTransitive(a[1..], b[1..], c[1..]);
    }
  }

  lemma EntryLessTotal(x: Entry, y: Entry)
    ensures !(EntryLess(x, y) && EntryLess(y, x))
    ensures x == y <==> !EntryLess(x, y) && !EntryLess(y, x)
  {
    BytesLessTotal(x.prefix, y.prefix);
    BytesLessTotal(x.local, y.local);
    BytesLessTotal(x.value, y.value);
  }

  lemma EntryLessTransitive(x: Entry, y: Entry, z: Entry)
    requires EntryLess(x, y) && EntryLess(y, z)
    ensures EntryLess(x, z)
  {
    if BytesLess(x.prefix, y.prefix) && BytesLess(y.prefix, z.prefix) {
      BytesLessTransitive(x.prefix, y.prefix, z.prefix);
    } else if x.prefix == y.prefix == z.prefix {
      if BytesLess(x.local, y.local) && BytesLess(y.local, z.local) {
        BytesLessTransitive(x.local, y.local, z.local);
      } else if x.local == y.local == z.local {
        BytesLessTransitive(x.value, y.value, z.value);
      }
    }
  }

  ghost predicate Sorted(s: seq<Entry>) {
    forall i, j :: 0 <= i < j < |s| ==> EntryLess(s[i], s[j])
  }

  ghost predicate SameElems(a: seq<Entry>, b: seq<Entry>) {
    forall e :: e in a <==> e in b
  }

  /** `BTreeSet::insert`. */
  function Insert(s: seq<Entry>, e: Entry): (r: seq<Entry>)
    requires Sorted(s)
    ensures Sorted(r)
    ensures forall x :: x in r <==> x == e || x in s
  {
    if s == [] then [e]
    else if e == s[0] then s
    else if EntryLess(e, s[0]) then
      BelowAll(e, s);
      [e] + s
    else
      var rest := Insert(s[1..], e);
      AboveHead(s, e, rest);
      [s[0]] + rest
  }

  lemma BelowAll(e: Entry, s: seq<Entry>)
    requires Sorted(s) && (s == [] || EntryLess(e, s[0]))
    ensures Sorted([e] + s)
  {
    forall j | 0 <= j < |s| ensures EntryLess(e, s[j]) {
      if j > 0 {
        EntryLessTransitive(e, s[0], s[j]);
      }
    }
  }

  lemma AboveHead(s: seq<Entry>, e: Entry, rest: seq<Entry>)
    requires Sorted(s) && s != [] && e != s[0] && !EntryLess(e, s[0])
    requires Sorted(rest) && forall x :: x in rest <==> x == e || x in s[1..]
    ensures Sorted([s[0]] + rest)
  {
    EntryLessTotal(e, s[0]);
    if rest != [] {
      assert rest[0] in rest;
    }
    BelowAll(s[0], rest);
  }

  /** A set has one strictly sorted listing. */
  lemma {:induction false} SortedUnique(a: seq<Entry>, b: seq<Entry>)
    requires Sorted(a) && Sorted(b) && SameElems(a, b)
    ensures a == b
  {
    assert a != [] ==> a[0] in b;
    assert b != [] ==> b[0] in a;
    if a != [] {
      EntryLessTotal(a[0], b[0]);
      TailElems(a);
      TailElems(b);
      SortedUnique(a[1..], b[1..]);
      assert a == [a[0]] + a[1..] == b;
    }
  }

  lemma TailElems(a: seq<Entry>)
    requires Sorted(a) && a != []
    ensures forall e :: e in a[1..] <==> e in a && e != a[0]
  {
    forall e | e in a[1..] ensures e != a[0] {
      EntryLessTotal(a[0], e);
    }
  }
}
