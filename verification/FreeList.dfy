/** Address-ordered lists of free blocks, as values: what a list covers, and
    the splice both heap operations perform on it. */
module FreeList {
  import opened Machine

  datatype Block = Block(start: nat, size: nat) {
    function End(): nat { start + size }

    predicate Has(a: int) { start <= a < End() }

    predicate OnGrid() { start % 16 == 0 && size % 16 == 0 && size > 0 }
  }

  ghost predicate Covers(fl: seq<Block>, a: int) {
    exists i :: 0 <= i < |fl| && fl[i].Has(a)
  }

  /** Ordered, on the grid, inside `[lo, hi)`, and no two blocks touch. */
  ghost predicate Canonical(fl: seq<Block>, lo: nat, hi: nat) {
    && (forall i :: 0 <= i < |fl| ==> fl[i].OnGrid() && lo <= fl[i].start && fl[i].End() <= hi)
    && (forall i, j :: 0 <= i < j < |fl| ==> fl[i].End() < fl[j].start)
  }

  ghost predicate SameCover(f: seq<Block>, g: seq<Block>) {
    forall a :: Covers(f, a) <==> Covers(g, a)
  }

  function Total(fl: seq<Block>): nat {
    if fl == [] then 0 else fl[0].size + Total(fl[1..])
  }

  lemma {:induction false} TotalConcat(f: seq<Block>, g: seq<Block>)
    ensures Total(f + g) == Total(f) + Total(g)
  {
    if f == [] {
      assert f + g == g;
    } else {
      assert (f + g)[1..] == f[1..] + g;
      TotalConcat(f[1..], g);
    }
  }

  lemma CoversConcat(f: seq<Block>, g: seq<Block>, a: int)
    ensures Covers(f + g, a) <==> Covers(f, a) || Covers(g, a)
  {
    if i :| 0 <= i < |f| && f[i].Has(a) {
      assert (f + g)[i].Has(a);
    }
    if i :| 0 <= i < |g| && g[i].Has(a) {
      assert (f + g)[|f| + i].Has(a);
    }
  }

  /** Replacing `fl[i..j]` by `mid`. */
  function Splice(fl: seq<Block>, i: nat, j: nat, mid: seq<Block>): seq<Block>
    requires i <= j <= |fl|
  {
    fl[..i] + mid + fl[j..]
  }

  lemma CanonicalSlice(fl: seq<Block>, i: nat, j: nat, lo: nat, hi: nat)
    requires Canonical(fl, lo, hi) && i <= j <= |fl|
    ensures Canonical(fl[i..j], lo, hi)
  {
  }

  lemma CanonicalConcat(f: seq<Block>, g: seq<Block>, lo: nat, hi: nat)
    requires Canonical(f, lo, hi) && Canonical(g, lo, hi)
    requires f != [] && g != [] ==> f[|f| - 1].End() < g[0].start
    ensures Canonical(f + g, lo, hi)
  {
    var r := f + g;
    forall k, l | 0 <= k < l < |r| ensures r[k].End() < r[l].start {
      if k < |f| <= l {
        assert f[k].End() <= f[|f| - 1].End();
        assert g[0].start <= g[l - |f|].start;
      }
    }
  }

  lemma SpliceCanonical(fl: seq<Block>, i: nat, j: nat, mid: seq<Block>, lo: nat, hi: nat)
    requires Canonical(fl, lo, hi) && i <= j <= |fl| && Canonical(mid, lo, hi)
    requires i > 0 && mid != [] ==> fl[i - 1].End() < mid[0].start
    requires j < |fl| && mid != [] ==> mid[|mid| - 1].End() < fl[j].start
    ensures Canonical(Splice(fl, i, j, mid), lo, hi)
  {
    CanonicalSlice(fl, 0, i, lo, hi);
    CanonicalSlice(fl, j, |fl|, lo, hi);
    assert fl[0..i] == fl[..i] && fl[j..|fl|] == fl[j..];
    CanonicalConcat(fl[..i], mid, lo, hi);
    CanonicalConcat(fl[..i] + mid, fl[j..], lo, hi);
  }

  lemma SpliceCovers(fl: seq<Block>, i: nat, j: nat, mid: seq<Block>, a: int)
    requires i <= j <= |fl|
    ensures Covers(Splice(fl, i, j, mid), a) <==> Covers(fl[..i], a) || Covers(mid, a) || Covers(fl[j..], a)
    ensures Covers(fl, a) <==> Covers(fl[..i], a) || Covers(fl[i..j], a) || Covers(fl[j..], a)
  {
    CoversConcat(fl[..i], mid, a);
    CoversConcat(fl[..i] + mid, fl[j..], a);
    CoversConcat(fl[..i], fl[i..j], a);
    CoversConcat(fl[..i] + fl[i..j], fl[j..], a);
    assert fl[..i] + fl[i..j] == fl[..j] && fl == fl[..j] + fl[j..];
  }

  lemma SpliceTotal(fl: seq<Block>, i: nat, j: nat, mid: seq<Block>)
    requires i <= j <= |fl|
    ensures Total(Splice(fl, i, j, mid)) + Total(fl[i..j]) == Total(fl) + Total(mid)
  {
    TotalConcat(fl[..i], mid);
    TotalConcat(fl[..i] + mid, fl[j..]);
    TotalConcat(fl[..i], fl[i..j]);
    TotalConcat(fl[..i] + fl[i..j], fl[j..]);
    assert fl[..i] + fl[i..j] == fl[..j] && fl == fl[..j] + fl[j..];
  }

  lemma HeadCovered(f: seq<Block>, lo: nat, hi: nat)
    requires Canonical(f, lo, hi)
    ensures f != [] ==> Covers(f, f[0].start)
  {
    assert f != [] ==> f[0].Has(f[0].start);
  }

  lemma TailCovers(f: seq<Block>, lo: nat, hi: nat, a: int)
    requires f != [] && Canonical(f, lo, hi)
    ensures Covers(f[1..], a) <==> Covers(f, a) && a >= f[0].End()
  {
    if i :| 0 <= i < |f[1..]| && f[1..][i].Has(a) {
      assert f[i + 1].Has(a);
    }
    if Covers(f, a) && a >= f[0].End() {
      var i :| 0 <= i < |f| && f[i].Has(a);
      assert f[1..][i - 1].Has(a);
    }
  }

  lemma SameTails(f: seq<Block>, g: seq<Block>, lo: nat, hi: nat)
    requires f != [] && g != [] && f[0].End() == g[0].End()
    requires Canonical(f, lo, hi) && Canonical(g, lo, hi) && SameCover(f, g)
    ensures Canonical(f[1..], lo, hi) && Canonical(g[1..], lo, hi) && SameCover(f[1..], g[1..])
  {
    CanonicalSlice(f, 1, |f|, lo, hi);
    CanonicalSlice(g, 1, |g|, lo, hi);
    assert f[1..|f|] == f[1..] && g[1..|g|] == g[1..];
    forall a ensures Covers(f[1..], a) <==> Covers(g[1..], a) {
      TailCovers(f, lo, hi, a);
      TailCovers(g, lo, hi, a);
    }
  }

  lemma NotCoveredAtEnd(fl: seq<Block>, i: nat, lo: nat, hi: nat)
    requires Canonical(fl, lo, hi) && i < |fl|
    ensures !Covers(fl, fl[i].End())
  {
    forall j | 0 <= j < |fl| ensures !fl[j].Has(fl[i].End()) {}
  }

  lemma SameHead(f: seq<Block>, g: seq<Block>, lo: nat, hi: nat)
    requires f != [] && g != []
    requires Canonical(f, lo, hi) && Canonical(g, lo, hi) && SameCover(f, g)
    ensures f[0].start >= g[0].start
    ensures f[0].start == g[0].start ==> f[0].End() >= g[0].End()
  {
    assert f[0].Has(f[0].start) && Covers(f, f[0].start);
    assert Covers(g, f[0].start);
    assert g[0].Has(f[0].End()) ==> Covers(g, f[0].End());
    NotCoveredAtEnd(f, 0, lo, hi);
  }

  /** The canonical form is unique: the covered bytes determine the list. */
  lemma {:induction false} CanonicalUnique(f: seq<Block>, g: seq<Block>, lo: nat, hi: nat)
    requires Canonical(f, lo, hi) && Canonical(g, lo, hi) && SameCover(f, g)
    ensures f == g
  {
    HeadCovered(f, lo, hi);
    HeadCovered(g, lo, hi);
    if f == [] || g == [] {
    } else {
      SameHead(f, g, lo, hi);
      SameHead(g, f, lo, hi);
      SameTails(f, g, lo, hi);
      CanonicalUnique(f[1..], g[1..], lo, hi);
      assert f == [f[0]] + f[1..] && g == [g[0]] + g[1..];
    }
  }

  /** Because no two blocks touch, consecutive free bytes lie in one block. */
  lemma RangeInOneBlock(fl: seq<Block>, lo: nat, hi: nat, p: nat, n: nat) returns (i: nat)
    requires Canonical(fl, lo, hi) && n > 0
    requires forall a :: p <= a < p + n ==> Covers(fl, a)
    ensures i < |fl| && fl[i].start <= p && p + n <= fl[i].End()
  {
    assert Covers(fl, p);
    i :| 0 <= i < |fl| && fl[i].Has(p);
    NotCoveredAtEnd(fl, i, lo, hi);
  }
}
