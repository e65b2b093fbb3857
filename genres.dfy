/** The Genre entity (reference data) and the by-name order in which the
    movie form lists genres. */
module Genres {
  import opened Basics

  /** A genre name is required and holds at most 100 characters. */
  const MaxNameLength: nat := 100

  type GenreName = s: string | |s| <= MaxNameLength

  /** A genre row; read-only from the movie workflow. */
  datatype Genre = Genre(id: byte, name: GenreName)

  /** Ordinal lexicographic order on names: character codes compared left to
      right, and a proper prefix sorts first. */
  predicate NameLe(a: string, b: string)
    decreases |a|
  {
    a == [] || (b != [] && (a[0] < b[0] || (a[0] == b[0] && NameLe(a[1..], b[1..]))))
  }

  lemma {:induction false} NameLeTotal(a: string, b: string)
    ensures NameLe(a, b) || NameLe(b, a)
    decreases |a|
  {
    if a != [] && b != [] && a[0] == b[0] {
      NameLeTotal(a[1..], b[1..]);
    }
  }

  lemma {:induction false} NameLeTransitive(a: string, b: string, c: string)
    requires NameLe(a, b) && NameLe(b, c)
    ensures NameLe(a, c)
    decreases |a|
  {
    if a != [] && b != [] && c != [] && a[0] == b[0] && b[0] == c[0] {
      NameLeTransitive(a[1..], b[1..], c[1..]);
    }
  }

  ghost predicate SortedByName(gs: seq<Genre>)
  {
    forall i, j :: 0 <= i < j < |gs| ==> NameLe(gs[i].name, gs[j].name)
  }

  /** Prepending a genre that sorts no later than every listed one keeps the
      list sorted. */
  lemma PrependByName(g: Genre, gs: seq<Genre>)
    requires SortedByName(gs)
    requires forall h :: h in gs ==> NameLe(g.name, h.name)
    ensures SortedByName([g] + gs)
  {
  }

  /** Inserts `g` before the first genre whose name does not sort before it. */
  function InsertByName(g: Genre, gs: seq<Genre>): (r: seq<Genre>)
    requires SortedByName(gs)
    ensures SortedByName(r)
    ensures multiset(r) == multiset(gs) + multiset{g}
    decreases |gs|
  {
    if gs == [] then
      [g]
    else if NameLe(g.name, gs[0].name) then
      InsertFrontByName(g, gs);
      [g] + gs
    else
      var rest := InsertByName(g, gs[1..]);
      InsertBehindByName(g, gs, rest);
      [gs[0]] + rest
  }

  lemma InsertFrontByName(g: Genre, gs: seq<Genre>)
    requires SortedByName(gs) && gs != [] && NameLe(g.name, gs[0].name)
    ensures SortedByName([g] + gs)
  {
    forall h | h in gs ensures NameLe(g.name, h.name) {
      var k :| 0 <= k < |gs| && gs[k] == h;
      if k > 0 {
        NameLeTransitive(g.name, gs[0].name, h.name);
      }
    }
    PrependByName(g, gs);
  }

  lemma InsertBehindByName(g: Genre, gs: seq<Genre>, rest: seq<Genre>)
    requires SortedByName(gs) && gs != [] && !NameLe(g.name, gs[0].name)
    requires SortedByName(rest) && multiset(rest) == multiset(gs[1..]) + multiset{g}
    ensures SortedByName([gs[0]] + rest)
    ensures multiset([gs[0]] + rest) == multiset(gs) + multiset{g}
  {
    NameLeTotal(g.name, gs[0].name);
    forall h | h in rest ensures NameLe(gs[0].name, h.name) {
      assert h in multiset(rest);
      if h != g {
        assert h in multiset(gs[1..]);
        var k :| 0 <= k < |gs[1..]| && gs[1..][k] == h;
        assert gs[k + 1] == h;
      }
    }
    PrependByName(gs[0], rest);
    assert gs == [gs[0]] + gs[1..];
  }

  /** The genre list in the order the form shows it: sorted by name. */
  function OrderByName(gs: seq<Genre>): (r: seq<Genre>)
    ensures SortedByName(r)
    ensures multiset(r) == multiset(gs)
  {
    if gs == [] then []
    else
      assert gs == [gs[0]] + gs[1..];
      InsertByName(gs[0], OrderByName(gs[1..]))
  }
}
