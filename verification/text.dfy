/** Characters, code-point strings and the whitespace conventions the
    tokenizer relies on: C-locale whitespace, istream-style field splitting,
    space joining, and the end-of-word marker. */
module Text {
  import opened Seqs

  /** One byte of the UTF-8 input text (a `char` of `std::string`). */
  type Byte = b: int | 0 <= b < 256

  /** A string of code points: BPE symbols, vocabulary entries, merge fields. */
  type Str = seq<int>

  /** `isspace` in the C locale: tab, newline, vertical tab, form feed,
      carriage return and space; `\s` and `>>` use the same class. */
  predicate IsSpace(c: int)
  {
    c == 32 || 9 <= c <= 13
  }

  const Space: int := 32

  /** The code points of a string literal. */
  function Chars(s: string): (r: Str)
    ensures |r| == |s|
    ensures forall i :: 0 <= i < |s| ==> r[i] == s[i] as int
  {
    seq(|s|, i requires 0 <= i < |s| => s[i] as int)
  }

  /** "</w>", spelled out so that its four code points are visible. */
  const EndOfWord: Str := ['<' as int, '/' as int, 'w' as int, '>' as int]
  const StartOfText: Str := Chars("<|startoftext|>")
  const EndOfText: Str := Chars("<|endoftext|>")

  predicate SpaceFree(x: Str)
  {
    forall i :: 0 <= i < |x| ==> !IsSpace(x[i])
  }

  /** A well-formed BPE symbol or field: non-empty and without whitespace. */
  predicate IsSymbol(x: Str)
  {
    |x| > 0 && SpaceFree(x)
  }

  lemma SpecialStringsAreSymbols()
    ensures IsSymbol(EndOfWord) && IsSymbol(StartOfText) && IsSymbol(EndOfText)
    ensures StartOfText != EndOfText
    ensures |EndOfWord| == 4 && |StartOfText| == 15 && |EndOfText| == 13
  {
  }

  lemma ConcatSymbols(x: Str, y: Str)
    requires IsSymbol(x) && IsSymbol(y)
    ensures IsSymbol(x + y)
  {
  }

  /** The text with every whitespace character removed. */
  function RemoveSpaces(s: Str): (r: Str)
    ensures SpaceFree(r)
    ensures |r| <= |s|
  {
    if |s| == 0 then []
    else if IsSpace(s[0]) then RemoveSpaces(s[1..])
    else [s[0]] + RemoveSpaces(s[1..])
  }

  lemma {:induction false} RemoveSpacesAppend(a: Str, b: Str)
    ensures RemoveSpaces(a + b) == RemoveSpaces(a) + RemoveSpaces(b)
    decreases |a|
  {
    if |a| == 0 {
      assert a + b == b;
    } else {
      assert (a + b)[0] == a[0];
      assert (a + b)[1..] == a[1..] + b;
      RemoveSpacesAppend(a[1..], b);
      if !IsSpace(a[0]) {
        assert [a[0]] + (RemoveSpaces(a[1..]) + RemoveSpaces(b))
            == ([a[0]] + RemoveSpaces(a[1..])) + RemoveSpaces(b);
      }
    }
  }

  function Piece(x: Str): (ps: seq<Str>)
  {
    if |x| == 0 then [] else [x]
  }

  /** The fields of `cur + s`, where `cur` is the part of the current field
      read so far: a whitespace character closes the current field, any
      other character extends it. */
  function FieldsFrom(s: Str, cur: Str): (fs: seq<Str>)
    decreases |s|
  {
    if |s| == 0 then Piece(cur)
    else if IsSpace(s[0]) then Piece(cur) + FieldsFrom(s[1..], [])
    else FieldsFrom(s[1..], cur + [s[0]])
  }

  /** The whitespace-separated fields of s, in order: what repeated
      `istream >> field` extracts from a line. */
  function Fields(s: Str): (fs: seq<Str>)
  {
    FieldsFrom(s, [])
  }

  lemma SpaceFreeSnoc(x: Str, c: int)
    requires SpaceFree(x) && !IsSpace(c)
    ensures SpaceFree(x + [c])
  {
    assert forall i :: 0 <= i < |x| ==> (x + [c])[i] == x[i];
  }

  lemma {:induction false} FieldsFromAreSymbols(s: Str, cur: Str)
    requires SpaceFree(cur)
    ensures forall i :: 0 <= i < |FieldsFrom(s, cur)| ==> IsSymbol(FieldsFrom(s, cur)[i])
    decreases |s|
  {
    if |s| > 0 {
      if IsSpace(s[0]) {
        FieldsFromAreSymbols(s[1..], []);
      } else {
        SpaceFreeSnoc(cur, s[0]);
        FieldsFromAreSymbols(s[1..], cur + [s[0]]);
      }
    }
  }

  /** Every field is a non-empty run of non-whitespace characters. */
  lemma FieldsAreSymbols(s: Str)
    ensures forall i :: 0 <= i < |Fields(s)| ==> IsSymbol(Fields(s)[i])
  {
    FieldsFromAreSymbols(s, []);
  }

  lemma FlattenPiece(x: Str)
    ensures Flatten(Piece(x)) == x
  {
    if |x| > 0 {
      FlattenSingle(x);
    }
  }

  lemma {:induction false} FieldsFromKeepNonSpace(s: Str, cur: Str)
    ensures Flatten(FieldsFrom(s, cur)) == cur + RemoveSpaces(s)
    decreases |s|
  {
    if |s| == 0 {
      FlattenPiece(cur);
      assert cur + [] == cur;
    } else if IsSpace(s[0]) {
      FieldsFromKeepNonSpace(s[1..], []);
      FlattenAfterPiece(cur, FieldsFrom(s[1..], []), RemoveSpaces(s[1..]));
    } else {
      var rest := RemoveSpaces(s[1..]);
      assert RemoveSpaces(s) == [s[0]] + rest;
      FieldsFromKeepNonSpace(s[1..], cur + [s[0]]);
      assert cur + [s[0]] + rest == cur + ([s[0]] + rest);
    }
  }

  lemma FlattenAfterPiece(cur: Str, f: seq<Str>, r: Str)
    requires Flatten(f) == [] + r
    ensures Flatten(Piece(cur) + f) == cur + r
  {
    FlattenAppend(Piece(cur), f);
    FlattenPiece(cur);
  }

  /** Splitting loses exactly the whitespace. */
  lemma FieldsKeepNonSpace(s: Str)
    ensures Flatten(Fields(s)) == RemoveSpaces(s)
  {
    FieldsFromKeepNonSpace(s, []);
    assert [] + RemoveSpaces(s) == RemoveSpaces(s);
  }

  lemma {:induction false} NoSpaceRemovesNothing(s: Str)
    requires SpaceFree(s)
    ensures RemoveSpaces(s) == s
    decreases |s|
  {
    if |s| > 0 {
      NoSpaceRemovesNothing(s[1..]);
    }
  }

  lemma {:induction false} FieldsFromSplit(a: Str, x: int, b: Str, cur: Str)
    requires IsSpace(x)
    ensures FieldsFrom(a + [x] + b, cur) == FieldsFrom(a, cur) + Fields(b)
    decreases |a|
  {
    var s := a + [x] + b;
    if |a| == 0 {
      assert s[0] == x && s[1..] == b;
    } else {
      assert s[0] == a[0];
      assert s[1..] == a[1..] + [x] + b;
      if IsSpace(a[0]) {
        FieldsFromSplit(a[1..], x, b, []);
      } else {
        FieldsFromSplit(a[1..], x, b, cur + [a[0]]);
      }
    }
  }

  /** A whitespace character always ends a field: the fields of a + [x] + b
      are those of a followed by those of b. */
  lemma FieldsSplitAtSpace(a: Str, x: int, b: Str)
    requires IsSpace(x)
    ensures Fields(a + [x] + b) == Fields(a) + Fields(b)
  {
    FieldsFromSplit(a, x, b, []);
  }

  lemma {:induction false} FieldsFromSpaceFree(x: Str, cur: Str)
    requires SpaceFree(x)
    ensures FieldsFrom(x, cur) == Piece(cur + x)
    decreases |x|
  {
    if |x| == 0 {
      assert cur + x == cur;
    } else {
      FieldsFromSpaceFree(x[1..], cur + [x[0]]);
      assert cur + [x[0]] + x[1..] == cur + x;
    }
  }

  lemma FieldsOfSymbol(x: Str)
    requires IsSymbol(x)
    ensures Fields(x) == [x]
  {
    FieldsFromSpaceFree(x, []);
    assert [] + x == x;
  }

  lemma {:induction false} FieldsOfSpaces(s: Str)
    requires forall i :: 0 <= i < |s| ==> IsSpace(s[i])
    ensures Fields(s) == []
    decreases |s|
  {
    if |s| > 0 {
      FieldsOfSpaces(s[1..]);
    }
  }

  /** The symbols joined by single spaces, as the BPE result string is built. */
  function Join(w: seq<Str>): (s: Str)
  {
    if |w| == 0 then []
    else if |w| == 1 then w[0]
    else w[0] + [Space] + Join(w[1..])
  }

  /** Splitting a space-joined word on whitespace gives the word back. */
  lemma {:induction false} FieldsOfJoin(w: seq<Str>)
    requires forall i :: 0 <= i < |w| ==> IsSymbol(w[i])
    ensures Fields(Join(w)) == w
    decreases |w|
  {
    if |w| == 1 {
      FieldsOfSymbol(w[0]);
    } else if |w| > 1 {
      FieldsSplitAtSpace(w[0], Space, Join(w[1..]));
      FieldsOfSymbol(w[0]);
      FieldsOfJoin(w[1..]);
      assert [w[0]] + w[1..] == w;
    }
  }

  /** `regex_replace(text, "</w>", " ")`: a single left-to-right pass that
      replaces each non-overlapping end-of-word marker by one space. */
  function ReplaceEndOfWord(s: Str): (r: Str)
    ensures |r| <= |s|
    decreases |s|
  {
    if |s| == 0 then []
    else if |s| >= 4 && s[..4] == EndOfWord then [Space] + ReplaceEndOfWord(s[4..])
    else [s[0]] + ReplaceEndOfWord(s[1..])
  }

  /** An end-of-word marker starts at position i of s. */
  predicate MarkerAt(s: Str, i: int)
  {
    0 <= i && i + 4 <= |s| && s[i..i + 4] == EndOfWord
  }

  predicate HasEndOfWord(s: Str)
  {
    exists i :: 0 <= i <= |s| && MarkerAt(s, i)
  }

  lemma NoMarkerInTail(s: Str)
    requires |s| > 0 && !HasEndOfWord(s)
    ensures !HasEndOfWord(s[1..])
  {
    forall i | 0 <= i <= |s[1..]|
      ensures !MarkerAt(s[1..], i)
    {
      assert !MarkerAt(s, i + 1);
      if i + 4 <= |s[1..]| {
        assert s[1..][i..i + 4] == s[i + 1..i + 5];
      }
    }
  }

  /** Text without a marker passes through unchanged. */
  lemma {:induction false} ReplaceEndOfWordNoMarker(s: Str)
    requires !HasEndOfWord(s)
    ensures ReplaceEndOfWord(s) == s
    decreases |s|
  {
    if |s| > 0 {
      if |s| >= 4 {
        assert !MarkerAt(s, 0);
        assert s[0..4] == s[..4];
      }
      NoMarkerInTail(s);
      ReplaceEndOfWordNoMarker(s[1..]);
    }
  }

  /** "</w>" has no proper prefix that is also a suffix, so a marker-free,
      non-empty x followed by a marker does not start with one. */
  lemma NoMarkerAtStart(x: Str, y: Str)
    requires |x| > 0 && !HasEndOfWord(x)
    ensures var s := x + EndOfWord + y; !(|s| >= 4 && s[..4] == EndOfWord)
  {
    var s := x + EndOfWord + y;
    if |x| >= 4 {
      assert !MarkerAt(x, 0);
      assert s[..4] == x[..4];
    } else {
      assert s[|x|] == EndOfWord[0] == 60;
      assert EndOfWord[|x|] != 60;
      if |s| >= 4 {
        assert s[..4][|x|] != EndOfWord[|x|];
      }
    }
  }

  /** A marker following marker-free text becomes one space; the rest of the
      text is processed independently ("</w>" cannot overlap itself). */
  lemma {:induction false} ReplaceEndOfWordAfter(x: Str, y: Str)
    requires !HasEndOfWord(x)
    ensures ReplaceEndOfWord(x + EndOfWord + y) == x + [Space] + ReplaceEndOfWord(y)
    decreases |x|
  {
    var s := x + EndOfWord + y;
    if |x| == 0 {
      assert s[..4] == EndOfWord;
      assert s[4..] == y;
    } else {
      var rest := x[1..] + EndOfWord + y;
      var r := ReplaceEndOfWord(y);
      assert ReplaceEndOfWord(rest) == x[1..] + [Space] + r by {
        NoMarkerInTail(x);
        ReplaceEndOfWordAfter(x[1..], y);
      }
      assert ReplaceEndOfWord(s) == [x[0]] + ReplaceEndOfWord(rest) by {
        NoMarkerAtStart(x, y);
        ReplaceEndOfWordUnmarked(s);
        assert s[0] == x[0] && s[1..] == rest;
      }
      assert [x[0]] + (x[1..] + [Space] + r) == x + [Space] + r;
    }
  }

  lemma ReplaceEndOfWordUnmarked(s: Str)
    requires |s| > 0 && !(|s| >= 4 && s[..4] == EndOfWord)
    ensures ReplaceEndOfWord(s) == [s[0]] + ReplaceEndOfWord(s[1..])
  {
  }
}
