/** Lists of service names, and the order that sorting puts names in: character by
    character, a proper prefix first. */
module Names {
  import opened Services

  ghost predicate NoDuplicates(p: seq<Name>) {
    forall i, j :: 0 <= i < j < |p| ==> p[i] != p[j]
  }

  function Elements(p: seq<Name>): set<Name> {
    set s | s in p
  }

  lemma LastApart(p: seq<Name>)
    requires p != []
    ensures p == p[..|p| - 1] + [p[|p| - 1]]
    ensures Elements(p) == Elements(p[..|p| - 1]) + {p[|p| - 1]}
    ensures NoDuplicates(p) ==> NoDuplicates(p[..|p| - 1]) && p[|p| - 1] !in p[..|p| - 1]
  {
    assert p == p[..|p| - 1] + [p[|p| - 1]];
  }

  predicate Before(a: Name, b: Name) {
    b != "" && (a == "" || a[0] < b[0] || (a[0] == b[0] && Before(a[1..], b[1..])))
  }

  /** The names agree up to position `i`, and there the first one ends or has the smaller
      character. */
  predicate DiffersAt(a: Name, b: Name, i: int) {
    0 <= i <= |a| && i < |b| && a[..i] == b[..i] && (i == |a| || a[i] < b[i])
  }

  /** This is the lexicographic order. */
  lemma {:induction false} BeforeMeaning(a: Name, b: Name)
    ensures Before(a, b) <==> exists i :: DiffersAt(a, b, i)
  {
    if b != "" && a != "" && a[0] == b[0] {
      BeforeMeaning(a[1..], b[1..]);
      if i :| DiffersAt(a[1..], b[1..], i) { DiffersFurther(a, b, i + 1); }
      if i :| DiffersAt(a, b, i) { DiffersFurther(a, b, i); }
    } else if Before(a, b) {
      assert DiffersAt(a, b, 0);
    }
  }

  lemma DiffersFurther(a: Name, b: Name, i: int)
    requires a != "" && b != "" && a[0] == b[0]
    ensures DiffersAt(a, b, i) <==> DiffersAt(a[1..], b[1..], i - 1)
  {
    if 0 < i <= |a| && i < |b| {
      assert a[..i] == [a[0]] + a[1..][..i - 1] && b[..i] == [b[0]] + b[1..][..i - 1];
    }
  }

  lemma {:induction false} BeforeIsOrder(a: Name, b: Name)
    ensures Before(a, b) ==> a != b && !Before(b, a)
    ensures a != b ==> Before(a, b) || Before(b, a)
  {
    if a != "" && b != "" {
      BeforeIsOrder(a[1..], b[1..]);
      assert a == [a[0]] + a[1..] && b == [b[0]] + b[1..];
    }
  }

  lemma {:induction false} BeforeTransitive(a: Name, b: Name, c: Name)
    requires Before(a, b) && Before(b, c)
    ensures Before(a, c)
  {
    if a != "" && a[0] == b[0] == c[0] { BeforeTransitive(a[1..], b[1..], c[1..]); }
  }

  ghost predicate Ascending(p: seq<Name>) {
    forall i, j :: 0 <= i < j < |p| ==> Before(p[i], p[j])
  }

  /** Insertion into a sorted list. */
  function Insert(s: Name, p: seq<Name>): seq<Name> {
    if p == [] || !Before(p[0], s) then [s] + p else [p[0]] + Insert(s, p[1..])
  }

  function Sorted(p: seq<Name>): seq<Name> {
    if p == [] then [] else Insert(p[0], Sorted(p[1..]))
  }

  lemma {:induction false} InsertAscending(s: Name, p: seq<Name>)
    requires Ascending(p) && s !in p
    ensures Ascending(Insert(s, p)) && forall x :: x in Insert(s, p) <==> x == s || x in p
  {
    if p == [] {
    } else if Before(p[0], s) {
      InsertAscending(s, p[1..]);
      assert p == [p[0]] + p[1..];
      var rest := Insert(s, p[1..]);
      forall j | 0 <= j < |rest| ensures Before(p[0], rest[j]) {
        assert rest[j] in rest;
        if rest[j] != s {
          var i :| 0 <= i < |p[1..]| && p[1..][i] == rest[j];
          assert p[i + 1] == rest[j];
        }
      }
    } else {
      BeforeIsOrder(s, p[0]);
      forall j | 0 <= j < |p| ensures Before(s, p[j]) {
        if j > 0 { BeforeTransitive(s, p[0], p[j]); }
      }
    }
  }

  /** Sorting keeps the names and puts them in order. */
  lemma {:induction false} SortedAscending(p: seq<Name>)
    requires NoDuplicates(p)
    ensures Ascending(Sorted(p)) && NoDuplicates(Sorted(p)) && forall x :: x in Sorted(p) <==> x in p
  {
    if p != [] {
      SortedAscending(p[1..]);
      assert p == [p[0]] + p[1..];
      assert p[0] !in p[1..];
      InsertAscending(p[0], Sorted(p[1..]));
    }
    forall i, j | 0 <= i < j < |Sorted(p)| ensures Sorted(p)[i] != Sorted(p)[j] {
      BeforeIsOrder(Sorted(p)[i], Sorted(p)[j]);
    }
  }
}
