/** The merges file parser (`open_bpe`) and the merge ranks (`bpe_ranks`).
    The file is given as its sequence of lines; opening it is not modelled. */
module Merges {
  import opened Seqs
  import opened Text

  /** A learned merge: the two symbols it joins, in order. */
  type Merge = (Str, Str)

  predicate WellFormedMerge(m: Merge)
  {
    IsSymbol(m.0) && IsSymbol(m.1)
  }

  /** What one line contributes: `iss >> first >> second` succeeds exactly
      when the line has at least two whitespace-separated fields, and then
      yields the first two; further fields are ignored. */
  function ParseLine(line: Str): (r: seq<Merge>)
    ensures |r| <= 1
    ensures forall i :: 0 <= i < |r| ==> WellFormedMerge(r[i])
  {
    var f := Fields(line);
    FieldsAreSymbols(line);
    if |f| >= 2 then [(f[0], f[1])] else []
  }

  /** The merges contributed by the lines after the header, in file order. */
  function ParseBody(lines: seq<Str>): (r: seq<Merge>)
    ensures |r| <= |lines|
    ensures forall i :: 0 <= i < |r| ==> WellFormedMerge(r[i])
  {
    if |lines| == 0 then [] else ParseLine(lines[0]) + ParseBody(lines[1..])
  }

  /** `open_bpe` over the file's lines: the first line (a version header) is
      always discarded. */
  function ParseMerges(lines: seq<Str>): (r: seq<Merge>)
    ensures |lines| <= 1 ==> r == []
    ensures |r| < |lines| || |lines| == 0
    ensures forall i :: 0 <= i < |r| ==> WellFormedMerge(r[i])
  {
    if |lines| == 0 then [] else ParseBody(lines[1..])
  }

  /** Parsing distributes over concatenation of line blocks: every line is
      read on its own, in file order. */
  lemma {:induction false} ParseBodyAppend(a: seq<Str>, b: seq<Str>)
    ensures ParseBody(a + b) == ParseBody(a) + ParseBody(b)
    decreases |a|
  {
    if |a| == 0 {
      assert a + b == b;
    } else {
      assert (a + b)[0] == a[0];
      assert (a + b)[1..] == a[1..] + b;
      ParseBodyAppend(a[1..], b);
    }
  }

  /** A line with fewer than two fields is skipped; it does not disturb the
      merges read before or after it. */
  lemma SkipShortLine(a: seq<Str>, line: Str, b: seq<Str>)
    requires |Fields(line)| < 2
    ensures ParseBody(a + [line] + b) == ParseBody(a) + ParseBody(b)
  {
    ParseBodyAppend(a + [line], b);
    ParseBodyAppend(a, [line]);
  }

  /** A line "first second [more...]" contributes exactly (first, second). */
  lemma {:induction false} LineWithFields(first: Str, second: Str, more: seq<Str>)
    requires IsSymbol(first) && IsSymbol(second)
    requires forall i :: 0 <= i < |more| ==> IsSymbol(more[i])
    ensures ParseLine(Join([first, second] + more)) == [(first, second)]
  {
    var w := [first, second] + more;
    assert forall i :: 0 <= i < |w| ==> IsSymbol(w[i]);
    FieldsOfJoin(w);
  }

  /** The merges file as written by a trainer: a header, then one
      "first second" line per merge, in rank order. */
  function MergesFile(header: Str, ms: seq<Merge>): (lines: seq<Str>)
    ensures |lines| == |ms| + 1
  {
    [header] + seq(|ms|, i requires 0 <= i < |ms| => Join([ms[i].0, ms[i].1]))
  }

  /** Reading back a written merges file yields the merges in the same
      order, whatever the header line says. */
  lemma {:induction false} ParseMergesFile(header: Str, ms: seq<Merge>)
    requires forall i :: 0 <= i < |ms| ==> WellFormedMerge(ms[i])
    ensures ParseMerges(MergesFile(header, ms)) == ms
    decreases |ms|
  {
    var body := MergesFile(header, ms)[1..];
    if |ms| > 0 {
      var n := |ms| - 1;
      ParseMergesFile(header, ms[..n]);
      assert body == MergesFile(header, ms[..n])[1..] + [Join([ms[n].0, ms[n].1])];
      ParseBodyAppend(MergesFile(header, ms[..n])[1..], [Join([ms[n].0, ms[n].1])]);
      LineWithFields(ms[n].0, ms[n].1, []);
      assert [ms[n].0, ms[n].1] + [] == [ms[n].0, ms[n].1];
      assert ms[..n] + [ms[n]] == ms;
    }
  }

  /** `bpe_ranks`: each merge's rank is its position in the parsed list
      (a merge listed twice keeps its later position, as the map
      assignment loop would). */
  function Ranks(ms: seq<Merge>): (ranks: map<Merge, nat>)
    ensures forall p :: p in ranks <==> p in ms
    ensures forall p :: p in ranks ==> ranks[p] < |ms| && ms[ranks[p]] == p
  {
    IndexMapSpec(ms);
    IndexMap(ms)
  }

  /** With no repeated merge, the rank of the i-th merge is exactly i. */
  lemma RankIsPosition(ms: seq<Merge>, i: nat)
    requires forall a, b :: 0 <= a < b < |ms| ==> ms[a] != ms[b]
    requires i < |ms|
    ensures Ranks(ms)[ms[i]] == i
  {
    IndexMapDistinct(ms, i);
  }

  /** Different merges never share a rank, so the lowest-ranked pair is
      unique. */
  lemma RanksInjective(ms: seq<Merge>, p: Merge, q: Merge)
    requires p in Ranks(ms) && q in Ranks(ms) && p != q
    ensures Ranks(ms)[p] != Ranks(ms)[q]
  {
  }
}
