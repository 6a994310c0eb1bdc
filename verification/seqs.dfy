/** Generic sequence helpers: flattening and the "position index" map that
    the tokenizer builds for its vocabulary and for its merge ranks. */
module Seqs {

  /** Concatenation of all inner sequences, in order. */
  function Flatten<T>(xss: seq<seq<T>>): (flat: seq<T>)
  {
    if |xss| == 0 then [] else Flatten(xss[..|xss| - 1]) + xss[|xss| - 1]
  }

  lemma {:induction false} FlattenAppend<T>(xss: seq<seq<T>>, yss: seq<seq<T>>)
    ensures Flatten(xss + yss) == Flatten(xss) + Flatten(yss)
    decreases |yss|
  {
    if |yss| == 0 {
      assert xss + yss == xss;
    } else {
      var last := yss[|yss| - 1];
      assert (xss + yss)[..|xss + yss| - 1] == xss + yss[..|yss| - 1];
      FlattenAppend(xss, yss[..|yss| - 1]);
    }
  }

  lemma FlattenSingle<T>(xs: seq<T>)
    ensures Flatten([xs]) == xs
  {
    assert [xs][..0] == [];
  }

  lemma FlattenCons<T>(xs: seq<T>, yss: seq<seq<T>>)
    ensures Flatten([xs] + yss) == xs + Flatten(yss)
  {
    FlattenAppend([xs], yss);
    assert [xs][..0] == [];
  }

  /** Row i of the flattening starts right after the rows before it. */
  lemma FlattenRowSlice<T>(rows: seq<seq<T>>, i: nat)
    requires i < |rows|
    ensures var o := |Flatten(rows[..i])|;
      o + |rows[i]| <= |Flatten(rows)| && Flatten(rows)[o .. o + |rows[i]|] == rows[i]
  {
    var pre := rows[..i];
    var post := rows[i + 1..];
    assert rows == pre + ([rows[i]] + post);
    FlattenAppend(pre, [rows[i]] + post);
    FlattenCons(rows[i], post);
    var fp := Flatten(pre);
    assert Flatten(rows) == fp + (rows[i] + Flatten(post));
  }

  /** The first k rows of width w flatten to w * k elements. */
  lemma {:induction false} FlattenPrefixLength<T>(rows: seq<seq<T>>, w: nat, k: nat)
    requires forall i :: 0 <= i < |rows| ==> |rows[i]| == w
    requires k <= |rows|
    ensures |Flatten(rows[..k])| == w * k
    decreases k
  {
    if k > 0 {
      FlattenPrefixLength(rows, w, k - 1);
      assert rows[..k][..k - 1] == rows[..k - 1];
      MulSucc(w, k - 1);
    }
  }

  lemma FlattenUniformRow<T>(rows: seq<seq<T>>, w: nat, i: nat)
    requires forall j :: 0 <= j < |rows| ==> |rows[j]| == w
    requires i < |rows|
    ensures w * i + w <= |Flatten(rows)| && Flatten(rows)[w * i .. w * i + w] == rows[i]
  {
    FlattenPrefixLength(rows, w, i);
    FlattenRowSlice(rows, i);
  }

  /** Flattening rows that all have width w lays row i out at [w*i, w*(i+1)). */
  lemma FlattenUniformRows<T>(rows: seq<seq<T>>, w: nat)
    requires forall i :: 0 <= i < |rows| ==> |rows[i]| == w
    ensures |Flatten(rows)| == w * |rows|
    ensures forall i :: 0 <= i < |rows| ==>
      w * i + w <= |Flatten(rows)| && Flatten(rows)[w * i .. w * i + w] == rows[i]
  {
    FlattenPrefixLength(rows, w, |rows|);
    assert rows[..|rows|] == rows;
    forall i | 0 <= i < |rows|
      ensures w * i + w <= |Flatten(rows)| && Flatten(rows)[w * i .. w * i + w] == rows[i]
    {
      FlattenUniformRow(rows, w, i);
    }
  }

  lemma MulSucc(w: nat, a: nat)
    ensures w * (a + 1) == w * a + w
  {
  }

  /** f applied to each element, in order (the effect of a loop that
      pushes f(x) for each x). */
  function MapSeq<A, B>(f: A -> B, xs: seq<A>): (ys: seq<B>)
    ensures |ys| == |xs|
    decreases |xs|
  {
    if |xs| == 0 then [] else MapSeq(f, xs[..|xs| - 1]) + [f(xs[|xs| - 1])]
  }

  lemma {:induction false} MapSeqAt<A, B>(f: A -> B, xs: seq<A>)
    ensures forall i :: 0 <= i < |xs| ==> MapSeq(f, xs)[i] == f(xs[i])
    decreases |xs|
  {
    if |xs| > 0 {
      var n := |xs| - 1;
      MapSeqAt(f, xs[..n]);
      assert forall i :: 0 <= i < n ==> xs[..n][i] == xs[i];
    }
  }

  /** Flattening the images of xs under an f whose results all have width w
      lays f(xs[i]) out at [w*i, w*(i+1)). */
  lemma FlattenMapped<A, B>(f: A -> seq<B>, xs: seq<A>, w: nat)
    requires forall x :: |f(x)| == w
    ensures |Flatten(MapSeq(f, xs))| == w * |xs|
    ensures forall i :: 0 <= i < |xs| ==>
      w * i + w <= |Flatten(MapSeq(f, xs))| && Flatten(MapSeq(f, xs))[w * i .. w * i + w] == f(xs[i])
  {
    MapSeqAt(f, xs);
    FlattenUniformRows(MapSeq(f, xs), w);
  }

  /** The map that sends each element to the LAST position where it occurs:
      the effect of the loop `m[xs[i]] = i` for i = 0, 1, ... */
  function IndexMap<T>(xs: seq<T>): (m: map<T, nat>)
  {
    if |xs| == 0 then map[] else IndexMap(xs[..|xs| - 1])[xs[|xs| - 1] := |xs| - 1]
  }

  /** Keys of the index map are exactly the elements; each key points at its
      last occurrence. */
  lemma {:induction false} IndexMapSpec<T>(xs: seq<T>)
    ensures forall x :: x in IndexMap(xs) <==> x in xs
    ensures forall x :: x in IndexMap(xs) ==>
      IndexMap(xs)[x] < |xs| && xs[IndexMap(xs)[x]] == x &&
      forall j :: IndexMap(xs)[x] < j < |xs| ==> xs[j] != x
    decreases |xs|
  {
    if |xs| > 0 {
      var n := |xs| - 1;
      IndexMapSpec(xs[..n]);
      forall x
        ensures x in IndexMap(xs) <==> x in xs
      {
        if x in xs && x != xs[n] {
          var k :| 0 <= k < |xs| && xs[k] == x;
          assert xs[..n][k] == x;
        }
      }
    }
  }

  /** When the elements are pairwise distinct, the index map sends the i-th
      element back to i. */
  lemma IndexMapDistinct<T>(xs: seq<T>, i: nat)
    requires forall a, b :: 0 <= a < b < |xs| ==> xs[a] != xs[b]
    requires i < |xs|
    ensures xs[i] in IndexMap(xs) && IndexMap(xs)[xs[i]] == i
  {
    IndexMapSpec(xs);
    var k := IndexMap(xs)[xs[i]];
    assert xs[k] == xs[i];
  }

  /** Distinct keys get distinct positions. */
  lemma IndexMapInjective<T>(xs: seq<T>, x: T, y: T)
    requires x in IndexMap(xs) && y in IndexMap(xs) && x != y
    ensures IndexMap(xs)[x] != IndexMap(xs)[y]
  {
    IndexMapSpec(xs);
  }
}
