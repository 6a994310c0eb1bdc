/** Text cleaning before pre-tokenization: `basic_clean` (trim leading and
    trailing whitespace), `whitespace_clean` (each run of whitespace becomes
    one space) and the per-byte `tolower` of the C locale. */
module Clean {
  import opened Seqs
  import opened Text

  /** s without its leading whitespace. */
  function TrimLeft(s: seq<Byte>): (r: seq<Byte>)
    ensures |r| <= |s| && r == s[|s| - |r|..]
    ensures |r| == 0 || !IsSpace(r[0])
  {
    if |s| == 0 || !IsSpace(s[0]) then s else TrimLeft(s[1..])
  }

  /** Only whitespace is removed. */
  lemma {:induction false} TrimLeftDropsSpaces(s: seq<Byte>)
    ensures forall i :: 0 <= i < |s| - |TrimLeft(s)| ==> IsSpace(s[i])
    decreases |s|
  {
    if |s| > 0 && IsSpace(s[0]) {
      TrimLeftDropsSpaces(s[1..]);
      assert forall i :: 1 <= i < |s| ==> s[i] == s[1..][i - 1];
    }
  }

  /** s without its trailing whitespace. */
  function TrimRight(s: seq<Byte>): (r: seq<Byte>)
    ensures |r| <= |s| && r == s[..|r|]
    ensures |r| == 0 || !IsSpace(r[|r| - 1])
  {
    if |s| == 0 || !IsSpace(s[|s| - 1]) then s else TrimRight(s[..|s| - 1])
  }

  /** Only whitespace is removed. */
  lemma {:induction false} TrimRightDropsSpaces(s: seq<Byte>)
    ensures forall i :: |TrimRight(s)| <= i < |s| ==> IsSpace(s[i])
    decreases |s|
  {
    if |s| > 0 && IsSpace(s[|s| - 1]) {
      TrimRightDropsSpaces(s[..|s| - 1]);
    }
  }

  /** `basic_clean`: the two `erase` calls around find_first_not_of and
      find_last_not_of; an all-whitespace text becomes empty. */
  function BasicClean(s: seq<Byte>): (r: seq<Byte>)
    ensures |r| == 0 || (!IsSpace(r[0]) && !IsSpace(r[|r| - 1]))
  {
    TrimRight(TrimLeft(s))
  }

  /** `regex_replace(text, \s+, " ")` scanning s, where `inRun` says the
      previous character was whitespace (its run already produced a space). */
  function CollapseFrom(s: seq<Byte>, inRun: bool): (r: seq<Byte>)
    decreases |s|
  {
    if |s| == 0 then []
    else if IsSpace(s[0]) then
      (if inRun then [] else [Space as Byte]) + CollapseFrom(s[1..], true)
    else [s[0]] + CollapseFrom(s[1..], false)
  }

  /** `whitespace_clean`: every maximal run of whitespace becomes one space. */
  function WhitespaceClean(s: seq<Byte>): (r: seq<Byte>)
  {
    CollapseFrom(s, false)
  }

  lemma {:induction false} CollapseKeepsText(s: seq<Byte>, inRun: bool)
    ensures RemoveSpaces(CollapseFrom(s, inRun)) == RemoveSpaces(s)
    decreases |s|
  {
    if |s| > 0 {
      var rest := CollapseFrom(s[1..], IsSpace(s[0]));
      CollapseKeepsText(s[1..], IsSpace(s[0]));
      if IsSpace(s[0]) {
        var head: seq<Byte> := if inRun then [] else [Space as Byte];
        RemoveSpacesAppend(head, rest);
        RemoveSpacesOfSpaces(head);
      } else {
        RemoveSpacesAppend([s[0]], rest);
      }
    }
  }

  lemma {:induction false} RemoveSpacesOfSpaces(s: Str)
    requires forall i :: 0 <= i < |s| ==> IsSpace(s[i])
    ensures RemoveSpaces(s) == []
    decreases |s|
  {
    if |s| > 0 {
      RemoveSpacesOfSpaces(s[1..]);
    }
  }

  /** `whitespace_clean` removes and adds nothing but whitespace. */
  lemma WhitespaceCleanKeepsText(s: seq<Byte>)
    ensures RemoveSpaces(WhitespaceClean(s)) == RemoveSpaces(s)
  {
    CollapseKeepsText(s, false);
  }

  /** The cleaning the encoder applies before lowercasing. */
  function CleanText(s: seq<Byte>): (r: seq<Byte>)
  {
    WhitespaceClean(BasicClean(s))
  }

  /** ASCII `tolower` of the C locale; other bytes are unchanged. */
  function LowerByte(c: Byte): (d: Byte)
  {
    if 65 <= c <= 90 then c + 32 else c
  }

  function UpperByte(c: Byte): (d: Byte)
  {
    if 97 <= c <= 122 then c - 32 else c
  }

  function Lower(s: seq<Byte>): (r: seq<Byte>)
    ensures |r| == |s|
  {
    seq(|s|, i requires 0 <= i < |s| => LowerByte(s[i]))
  }

  function Upper(s: seq<Byte>): (r: seq<Byte>)
    ensures |r| == |s|
  {
    seq(|s|, i requires 0 <= i < |s| => UpperByte(s[i]))
  }

  /** Lowercasing an uppercased text gives the lowercased text. */
  lemma LowerUpper(s: seq<Byte>)
    ensures Lower(Upper(s)) == Lower(s)
  {
  }

  // ---------------------------------------------------------------------
  // Cleaning is "split on whitespace, join with single spaces"

  /** Leading whitespace never changes the fields. */
  lemma {:induction false} FieldsAfterSpaces(sp: Str, r: Str)
    requires forall i :: 0 <= i < |sp| ==> IsSpace(sp[i])
    ensures Fields(sp + r) == Fields(r)
    decreases |sp|
  {
    if |sp| == 0 {
      assert sp + r == r;
    } else {
      FieldsSplitAtSpace([], sp[0], sp[1..] + r);
      assert [] + [sp[0]] + (sp[1..] + r) == sp + r;
      FieldsAfterSpaces(sp[1..], r);
    }
  }

  /** Trailing whitespace never changes the fields. */
  lemma FieldsBeforeSpaces(r: Str, sp: Str)
    requires forall i :: 0 <= i < |sp| ==> IsSpace(sp[i])
    ensures Fields(r + sp) == Fields(r)
  {
    if |sp| == 0 {
      assert r + sp == r;
    } else {
      FieldsSplitAtSpace(r, sp[0], sp[1..]);
      assert r + [sp[0]] + sp[1..] == r + sp;
      FieldsOfSpaces(sp[1..]);
      assert Fields(r + sp) == Fields(r) + [];
    }
  }

  lemma FieldsOfTrimLeft(s: seq<Byte>)
    ensures Fields(TrimLeft(s)) == Fields(s)
  {
    var l := TrimLeft(s);
    TrimLeftDropsSpaces(s);
    FieldsDropLead(s, l, |s| - |l|);
  }

  lemma FieldsDropLead(s: Str, l: Str, k: nat)
    requires k <= |s| && l == s[k..]
    requires forall i :: 0 <= i < k ==> IsSpace(s[i])
    ensures Fields(l) == Fields(s)
  {
    assert s == s[..k] + l;
    FieldsAfterSpaces(s[..k], l);
  }

  lemma FieldsOfTrimRight(s: seq<Byte>)
    ensures Fields(TrimRight(s)) == Fields(s)
  {
    var r := TrimRight(s);
    TrimRightDropsSpaces(s);
    FieldsDropTrail(s, r, |r|);
  }

  lemma FieldsDropTrail(s: Str, r: Str, k: nat)
    requires k <= |s| && r == s[..k]
    requires forall i :: k <= i < |s| ==> IsSpace(s[i])
    ensures Fields(r) == Fields(s)
  {
    assert s == r + s[k..];
    FieldsBeforeSpaces(r, s[k..]);
  }

  /** Trimming keeps the fields. */
  lemma FieldsOfBasicClean(s: seq<Byte>)
    ensures Fields(BasicClean(s)) == Fields(s)
  {
    FieldsOfTrimLeft(s);
    FieldsOfTrimRight(TrimLeft(s));
  }

  lemma JoinCons(w: Str, f: seq<Str>)
    requires |f| > 0
    ensures Join([w] + f) == w + [Space] + Join(f)
  {
    var g := [w] + f;
    assert g[0] == w && g[1..] == f;
  }

  /** Some field is produced once a non-whitespace character is read. */
  lemma {:induction false} FieldsFromNonEmpty(t: seq<Byte>, cur: Str)
    requires |t| > 0 && !IsSpace(t[|t| - 1])
    ensures |FieldsFrom(t, cur)| > 0
    decreases |t|
  {
    if |t| > 1 {
      if IsSpace(t[0]) {
        FieldsFromNonEmpty(t[1..], []);
      } else {
        FieldsFromNonEmpty(t[1..], cur + [t[0]]);
      }
    }
  }

  /** Inside a field (`cur` read so far) of a text without trailing
      whitespace, collapsing emits the joined fields. */
  lemma {:induction false} CollapseInField(t: seq<Byte>, cur: Str)
    requires |cur| > 0
    requires |t| == 0 || !IsSpace(t[|t| - 1])
    ensures cur + CollapseFrom(t, false) == Join(FieldsFrom(t, cur))
    decreases |t|, 1
  {
    if |t| == 0 {
      assert cur + [] == cur;
    } else if IsSpace(t[0]) {
      var u := t[1..];
      CollapseInRun(u);
      FieldsFromNonEmpty(u, []);
      JoinCons(cur, FieldsFrom(u, []));
    } else {
      var next := cur + [t[0]];
      CollapseInField(t[1..], next);
      assert cur + ([t[0]] + CollapseFrom(t[1..], false)) == next + CollapseFrom(t[1..], false);
    }
  }

  /** After a whitespace run that already produced its space, collapsing a
      text without trailing whitespace emits the joined fields. */
  lemma {:induction false} CollapseInRun(t: seq<Byte>)
    requires |t| > 0 && !IsSpace(t[|t| - 1])
    ensures CollapseFrom(t, true) == Join(FieldsFrom(t, []))
    decreases |t|, 0
  {
    if IsSpace(t[0]) {
      CollapseInRun(t[1..]);
      assert Piece([]) + FieldsFrom(t[1..], []) == FieldsFrom(t[1..], []);
    } else {
      CollapseInField(t[1..], [t[0]]);
      assert [] + [t[0]] == [t[0]];
    }
  }

  /** Cleaning equals splitting on whitespace and joining the fields with
      single spaces. */
  lemma CleanIsJoinedFields(s: seq<Byte>)
    ensures CleanText(s) == Join(Fields(s))
  {
    FieldsOfBasicClean(s);
    var t := BasicClean(s);
    if |t| > 0 {
      CollapseInField(t[1..], [t[0]]);
      assert [] + [t[0]] == [t[0]];
    }
  }

  /** Cleaning an already cleaned text changes nothing. */
  lemma CleanIdempotent(s: seq<Byte>)
    ensures CleanText(CleanText(s)) == CleanText(s)
  {
    CleanIsJoinedFields(s);
    CleanIsJoinedFields(CleanText(s));
    FieldsAreSymbols(s);
    FieldsOfJoin(Fields(s));
  }

  /** A longer whitespace run cleans to the same text as a single
      whitespace character. */
  lemma CleanCollapsesRun(a: seq<Byte>, x: Byte, y: Byte, b: seq<Byte>)
    requires IsSpace(x) && IsSpace(y)
    ensures CleanText(a + [x, y] + b) == CleanText(a + [x] + b)
  {
    CleanIsJoinedFields(a + [x, y] + b);
    CleanIsJoinedFields(a + [x] + b);
    FieldsOfRun(a, x, y, b);
  }

  lemma FieldsOfRun(a: Str, x: int, y: int, b: Str)
    requires IsSpace(x) && IsSpace(y)
    ensures Fields(a + [x, y] + b) == Fields(a + [x] + b)
  {
    assert a + [x, y] + b == a + [x] + ([y] + b);
    FieldsSplitAtSpace(a, x, [y] + b);
    FieldsSplitAtSpace([], y, b);
    assert [] + [y] + b == [y] + b;
    FieldsSplitAtSpace(a, x, b);
  }

  /** Leading and trailing whitespace is cleaned away. */
  lemma CleanTrims(x: Byte, s: seq<Byte>)
    requires IsSpace(x)
    ensures CleanText([x] + s) == CleanText(s)
    ensures CleanText(s + [x]) == CleanText(s)
  {
    CleanIsJoinedFields(s);
    assert CleanText([x] + s) == CleanText(s) by {
      CleanIsJoinedFields([x] + s);
      FieldsLeadingSpace(x, s);
    }
    assert CleanText(s + [x]) == CleanText(s) by {
      CleanIsJoinedFields(s + [x]);
      FieldsTrailingSpace(s, x);
    }
  }

  lemma FieldsLeadingSpace(x: int, s: Str)
    requires IsSpace(x)
    ensures Fields([x] + s) == Fields(s)
  {
    FieldsSplitAtSpace([], x, s);
    assert [] + [x] + s == [x] + s;
  }

  lemma FieldsTrailingSpace(s: Str, x: int)
    requires IsSpace(x)
    ensures Fields(s + [x]) == Fields(s)
  {
    FieldsSplitAtSpace(s, x, []);
    assert s + [x] + [] == s + [x];
  }

  /** A text of whitespace only cleans to the empty text. */
  lemma CleanAllSpaces(s: seq<Byte>)
    requires forall i :: 0 <= i < |s| ==> IsSpace(s[i])
    ensures CleanText(s) == []
  {
    CleanIsJoinedFields(s);
    FieldsOfSpaces(s);
  }

  // ---------------------------------------------------------------------
  // Cleaning commutes with lowercasing

  lemma LowerSpace(c: Byte)
    ensures IsSpace(LowerByte(c)) <==> IsSpace(c)
    ensures IsSpace(c) ==> LowerByte(c) == c
  {
  }

  lemma {:induction false} TrimLeftLower(s: seq<Byte>)
    ensures TrimLeft(Lower(s)) == Lower(TrimLeft(s))
    decreases |s|
  {
    if |s| > 0 {
      var l := Lower(s);
      assert l[0] == LowerByte(s[0]);
      LowerSpace(s[0]);
      if IsSpace(s[0]) {
        assert l[1..] == Lower(s[1..]);
        TrimLeftLower(s[1..]);
      }
    }
  }

  lemma {:induction false} TrimRightLower(s: seq<Byte>)
    ensures TrimRight(Lower(s)) == Lower(TrimRight(s))
    decreases |s|
  {
    if |s| > 0 {
      assert Lower(s)[|s| - 1] == LowerByte(s[|s| - 1]);
      assert Lower(s)[..|s| - 1] == Lower(s[..|s| - 1]);
      TrimRightLower(s[..|s| - 1]);
    }
  }

  lemma {:induction false} CollapseLower(s: seq<Byte>, inRun: bool)
    ensures CollapseFrom(Lower(s), inRun) == Lower(CollapseFrom(s, inRun))
    decreases |s|
  {
    if |s| > 0 {
      var l := Lower(s);
      assert l[0] == LowerByte(s[0]);
      assert l[1..] == Lower(s[1..]);
      CollapseLower(s[1..], IsSpace(s[0]));
      var rest := CollapseFrom(s[1..], IsSpace(s[0]));
      var head: seq<Byte> := if IsSpace(s[0]) then (if inRun then [] else [Space as Byte]) else [s[0]];
      assert CollapseFrom(s, inRun) == head + rest;
      assert Lower(head + rest) == Lower(head) + Lower(rest);
    }
  }

  lemma WhitespaceCleanLower(s: seq<Byte>)
    ensures WhitespaceClean(Lower(s)) == Lower(WhitespaceClean(s))
  {
    CollapseLower(s, false);
  }

  /** Lowercasing before or after cleaning gives the same text. */
  lemma CleanLowerCommute(s: seq<Byte>)
    ensures Lower(CleanText(s)) == CleanText(Lower(s))
  {
    TrimLeftLower(s);
    TrimRightLower(TrimLeft(s));
    WhitespaceCleanLower(BasicClean(s));
  }
}
