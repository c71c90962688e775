/**
 * The order `OrderBy(b => b.Title).ThenBy(b => b.Id)` puts the books of the book API in
 * (Lab-0.3/BookManagement/BookManagement/Features/Books/GetBookByIdByPageHandler.cs),
 * and the table's primary-key lookup `FindAsync`.
 *
 * Titles compare character by character on their code; a `Guid` compares as the number
 * its bits spell. `SortBooks` is a reference sort: since the ids of a table are unique,
 * every sorted permutation of the table is the same sequence, so the pages do not depend
 * on the order the table keeps its rows in.
 */
module BookOrder {
  import opened Wrappers
  import opened Numerics
  import opened BookModel

  // ---------------------------------------------------------------------------
  // Titles
  // ---------------------------------------------------------------------------

  /** `a` sorts strictly before `b`: a proper prefix, or smaller at the first difference. */
  predicate StrLess(a: string, b: string) {
    if |a| == 0 then |b| > 0
    else if |b| == 0 then false
    else a[0] < b[0] || (a[0] == b[0] && StrLess(a[1..], b[1..]))
  }

  lemma {:induction false} StrLessIrreflexive(a: string)
    ensures !StrLess(a, a)
  {
    if |a| > 0 {
      StrLessIrreflexive(a[1..]);
    }
  }

  lemma {:induction false} StrLessTransitive(a: string, b: string, c: string)
    requires StrLess(a, b) && StrLess(b, c)
    ensures StrLess(a, c)
  {
    if |a| > 0 && a[0] == b[0] && b[0] == c[0] {
      StrLessTransitive(a[1..], b[1..], c[1..]);
    }
  }

  /** Two different titles are always ordered one way or the other. */
  lemma {:induction false} StrLessTotal(a: string, b: string)
    ensures a == b || StrLess(a, b) || StrLess(b, a)
  {
    if |a| > 0 && |b| > 0 && a[0] == b[0] {
      StrLessTotal(a[1..], b[1..]);
      if a[1..] == b[1..] {
        assert a == [a[0]] + a[1..] && b == [b[0]] + b[1..];
      }
    }
  }

  // ---------------------------------------------------------------------------
  // Books
  // ---------------------------------------------------------------------------

  /** `a` comes strictly before `b` by title, then by id. */
  predicate Before(a: Book, b: Book) {
    StrLess(a.title, b.title) || (a.title == b.title && a.id < b.id)
  }

  /** `a` may come before `b`. */
  predicate KeyLeq(a: Book, b: Book) {
    !Before(b, a)
  }

  lemma KeyLeqReflexive(a: Book)
    ensures KeyLeq(a, a)
  {
    StrLessIrreflexive(a.title);
  }

  /** The key order is total ... */
  lemma KeyLeqTotal(a: Book, b: Book)
    ensures KeyLeq(a, b) || KeyLeq(b, a)
  {
    StrLessTotal(a.title, b.title);
    if StrLess(a.title, b.title) && StrLess(b.title, a.title) {
      StrLessTransitive(a.title, b.title, a.title);
      StrLessIrreflexive(a.title);
    }
  }

  /** ... transitive ... */
  lemma KeyLeqTransitive(a: Book, b: Book, c: Book)
    requires KeyLeq(a, b) && KeyLeq(b, c)
    ensures KeyLeq(a, c)
  {
    StrLessTotal(a.title, b.title);
    StrLessTotal(b.title, c.title);
    if StrLess(c.title, a.title) {
      if StrLess(a.title, b.title) {
        StrLessTransitive(c.title, a.title, b.title);
      } else if StrLess(b.title, c.title) {
        StrLessTransitive(b.title, c.title, a.title);
      }
    }
  }

  /** ... and two books may each come before the other only when title and id coincide. */
  lemma KeyLeqAntisymmetric(a: Book, b: Book)
    requires KeyLeq(a, b) && KeyLeq(b, a)
    ensures a.title == b.title && a.id == b.id
  {
    StrLessTotal(a.title, b.title);
  }

  /** Every book comes no later than every book after it. */
  predicate Sorted(s: seq<Book>) {
    forall i, j {:trigger KeyLeq(s[i], s[j])} :: 0 <= i < j < |s| ==> KeyLeq(s[i], s[j])
  }

  /** A book that comes no later than every element of a sorted sequence can head it. */
  lemma PrependSorted(b: Book, s: seq<Book>)
    requires Sorted(s)
    requires forall x :: x in s ==> KeyLeq(b, x)
    ensures Sorted([b] + s)
  {
    var r := [b] + s;
    forall i, j | 0 <= i < j < |r|
      ensures KeyLeq(r[i], r[j])
    {
      if i == 0 {
        assert r[j] == s[j - 1];
      } else {
        assert r[i] == s[i - 1] && r[j] == s[j - 1];
      }
    }
  }

  /** `b` inserted into a sorted sequence before the first book it may precede. */
  function Insert(b: Book, s: seq<Book>): (r: seq<Book>)
    requires Sorted(s)
    ensures Sorted(r)
    ensures multiset(r) == multiset(s) + multiset{b}
  {
    if |s| == 0 then [b]
    else if KeyLeq(b, s[0]) then
      InsertAtHead(b, s);
      [b] + s
    else
      var rest := Insert(b, s[1..]);
      InsertBehindHead(b, s, rest);
      assert s == [s[0]] + s[1..];
      [s[0]] + rest
  }

  lemma InsertAtHead(b: Book, s: seq<Book>)
    requires Sorted(s) && |s| > 0 && KeyLeq(b, s[0])
    ensures Sorted([b] + s)
  {
    forall x | x in s
      ensures KeyLeq(b, x)
    {
      var j :| 0 <= j < |s| && s[j] == x;
      if j > 0 {
        KeyLeqTransitive(b, s[0], x);
      }
    }
    PrependSorted(b, s);
  }

  lemma InsertBehindHead(b: Book, s: seq<Book>, rest: seq<Book>)
    requires Sorted(s) && |s| > 0 && !KeyLeq(b, s[0])
    requires Sorted(rest) && multiset(rest) == multiset(s[1..]) + multiset{b}
    ensures Sorted([s[0]] + rest)
  {
    KeyLeqTotal(b, s[0]);
    forall x | x in rest
      ensures KeyLeq(s[0], x)
    {
      assert x in multiset(rest);
      if x != b {
        assert x in multiset(s[1..]);
        var j :| 0 <= j < |s[1..]| && s[1..][j] == x;
        assert s[j + 1] == x;
      }
    }
    PrependSorted(s[0], rest);
  }

  /** The table ordered by title, then id. */
  function SortBooks(s: seq<Book>): (r: seq<Book>)
    ensures Sorted(r)
    ensures multiset(r) == multiset(s)
  {
    if |s| == 0 then []
    else
      assert s == [s[0]] + s[1..];
      Insert(s[0], SortBooks(s[1..]))
  }

  // ---------------------------------------------------------------------------
  // Unique ids
  // ---------------------------------------------------------------------------

  /** No two rows of the table share an id (it is the primary key). */
  predicate UniqueIds(s: seq<Book>) {
    forall i, j :: 0 <= i < |s| && 0 <= j < |s| && s[i].id == s[j].id ==> i == j
  }

  /** Two books of `s` with the same id are the same book. */
  predicate IdsIdentify(s: seq<Book>) {
    forall a, b :: a in s && b in s && a.id == b.id ==> a == b
  }

  lemma UniqueIdsIdentify(s: seq<Book>)
    requires UniqueIds(s)
    ensures IdsIdentify(s)
  {
    forall a, b | a in s && b in s && a.id == b.id
      ensures a == b
    {
      var i :| 0 <= i < |s| && s[i] == a;
      var j :| 0 <= j < |s| && s[j] == b;
    }
  }

  /**
   * Two sorted sequences holding the same books, in which an id names one book, are
   * equal: the order by title then id leaves no choice.
   */
  lemma {:induction false} SortedPermutationUnique(s: seq<Book>, t: seq<Book>)
    requires Sorted(s) && Sorted(t) && multiset(s) == multiset(t) && IdsIdentify(s)
    ensures s == t
  {
    if |s| == 0 {
      assert |multiset(t)| == 0;
    } else {
      assert |t| == |multiset(t)| == |multiset(s)| == |s|;
      SortedHeadsAgree(s, t);
      SortedTails(s, t);
      SortedPermutationUnique(s[1..], t[1..]);
    }
  }

  /** The first books of two such sequences coincide: each comes no later than the other. */
  lemma SortedHeadsAgree(s: seq<Book>, t: seq<Book>)
    requires |s| > 0 && |t| > 0
    requires Sorted(s) && Sorted(t) && multiset(s) == multiset(t) && IdsIdentify(s)
    ensures s[0] == t[0]
  {
    assert s[0] in multiset(t) && t[0] in multiset(s);
    var j :| 0 <= j < |t| && t[j] == s[0];
    var i :| 0 <= i < |s| && s[i] == t[0];
    if j == 0 { KeyLeqReflexive(t[0]); }
    if i == 0 { KeyLeqReflexive(s[0]); }
    assert KeyLeq(t[0], s[0]) && KeyLeq(s[0], t[0]);
    KeyLeqAntisymmetric(s[0], t[0]);
  }

  /** With equal first books, the rests meet the same conditions. */
  lemma SortedTails(s: seq<Book>, t: seq<Book>)
    requires |s| > 0 && |t| > 0 && s[0] == t[0]
    requires Sorted(s) && Sorted(t) && multiset(s) == multiset(t) && IdsIdentify(s)
    ensures Sorted(s[1..]) && Sorted(t[1..]) && multiset(s[1..]) == multiset(t[1..]) && IdsIdentify(s[1..])
  {
    assert s == [s[0]] + s[1..] && t == [t[0]] + t[1..];
    assert multiset(s) == multiset{s[0]} + multiset(s[1..]);
    assert multiset(t) == multiset{t[0]} + multiset(t[1..]);
    assert multiset(s[1..]) == multiset(s) - multiset{s[0]};
    assert multiset(t[1..]) == multiset(t) - multiset{t[0]};
    forall x | x in s[1..]
      ensures x in s
    {
    }
  }

  /** The sorted table depends only on which books it holds, not on their stored order. */
  lemma SortIgnoresStoredOrder(s: seq<Book>, t: seq<Book>)
    requires multiset(s) == multiset(t) && UniqueIds(s)
    ensures SortBooks(s) == SortBooks(t)
  {
    UniqueIdsIdentify(s);
    var a, b := SortBooks(s), SortBooks(t);
    assert IdsIdentify(a) by {
      forall x | x in a
        ensures x in s
      {
        assert x in multiset(a);
      }
    }
    SortedPermutationUnique(a, b);
  }

  /** The count of `x` in a sequence where `x` sits at index `k` and its id nowhere else. */
  lemma {:induction false} CountOfUnique(s: seq<Book>, k: nat)
    requires UniqueIds(s) && k < |s|
    ensures multiset(s)[s[k]] == 1
  {
    var x := s[k];
    assert s == s[..k] + [x] + s[k + 1..];
    assert forall i :: 0 <= i < k ==> s[..k][i] == s[i];
    assert x !in s[..k];
    var tail := s[k + 1..];
    assert forall i :: 0 <= i < |tail| ==> tail[i] == s[k + 1 + i];
    assert x !in tail;
    assert multiset(s) == multiset(s[..k]) + multiset{x} + multiset(s[k + 1..]);
  }

  /** Two indices of one book make it count twice. */
  lemma TwoIndicesCountTwice(s: seq<Book>, i: nat, j: nat)
    requires i < j < |s| && s[i] == s[j]
    ensures multiset(s)[s[i]] >= 2
  {
    assert s == s[..j] + s[j..];
    assert s[i] == s[..j][i] && s[j] == s[j..][0];
    assert multiset(s) == multiset(s[..j]) + multiset(s[j..]);
  }

  /** Reordering the table keeps its ids unique. */
  lemma UniqueIdsPermutation(s: seq<Book>, t: seq<Book>)
    requires UniqueIds(s) && multiset(s) == multiset(t)
    ensures UniqueIds(t)
  {
    UniqueIdsIdentify(s);
    forall i, j | 0 <= i < |t| && 0 <= j < |t| && t[i].id == t[j].id
      ensures i == j
    {
      assert t[i] in multiset(s) && t[j] in multiset(s);
      assert t[i] == t[j];
      var k :| 0 <= k < |s| && s[k] == t[i];
      CountOfUnique(s, k);
      if i < j {
        TwoIndicesCountTwice(t, i, j);
      } else if j < i {
        TwoIndicesCountTwice(t, j, i);
      }
    }
  }

  // ---------------------------------------------------------------------------
  // Lookup
  // ---------------------------------------------------------------------------

  /** `i` is the position of the first book with id `id`. */
  predicate FirstIndexOf(s: seq<Book>, id: Guid, i: int) {
    0 <= i < |s| && s[i].id == id && forall j :: 0 <= j < i ==> s[j].id != id
  }

  /** The first book with id `id`: `FirstOrDefault(b => b.Id == id)`, and `FindAsync(id)` on the table. */
  function FirstWithId(s: seq<Book>, id: Guid): (r: Option<Book>)
    ensures r.None? <==> forall i :: 0 <= i < |s| ==> s[i].id != id
    ensures r.Some? ==> exists i :: FirstIndexOf(s, id, i) && s[i] == r.value
  {
    if |s| == 0 then None
    else if s[0].id == id then
      assert FirstIndexOf(s, id, 0);
      Some(s[0])
    else
      var r := FirstWithId(s[1..], id);
      TailFirst(s, id, r);
      r
  }

  /** A first match in the tail is the first match in the whole when the head does not match. */
  lemma TailFirst(s: seq<Book>, id: Guid, r: Option<Book>)
    requires |s| > 0 && s[0].id != id
    requires r.Some? ==> exists i :: FirstIndexOf(s[1..], id, i) && s[1..][i] == r.value
    ensures r.Some? ==> exists i :: FirstIndexOf(s, id, i) && s[i] == r.value
  {
    if r.Some? {
      var i :| FirstIndexOf(s[1..], id, i) && s[1..][i] == r.value;
      assert forall j :: 1 <= j <= i ==> s[j] == s[1..][j - 1];
      assert FirstIndexOf(s, id, i + 1);
    }
  }

  /** With distinct ids, the first book with a stored id is the one stored under it. */
  lemma FirstWithIdFindsTheBook(s: seq<Book>, id: Guid, k: nat)
    requires UniqueIds(s) && k < |s| && s[k].id == id
    ensures FirstWithId(s, id) == Some(s[k])
  {
    var i :| 0 <= i < |s| && s[i] == FirstWithId(s, id).value;
  }
}
