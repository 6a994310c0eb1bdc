/** The pre-tokenizer pattern (tokenizer.cpp:7):

      <|startoftext|> | <|endoftext|> | 's | 't | 're | 've | 'm | 'll | 'd
      | [\p{L}]+ | [\p{N}] | [^\s\p{L}\p{N}]+

    compiled with `icase` and enumerated left to right by a regex iterator.
    The pattern is a `std::regex` over the bytes of a `std::string`, whose
    ECMAScript grammar has no `\p{..}` escape: what a given library makes of
    the classes `[\p{L}]` and `[\p{N}]` (a literal character set, say) is
    left open as the two predicates of a `CharClass`. Whitespace is the
    C-locale class. */
module PreTokenizer {
  import opened Seqs
  import opened Text
  import opened Clean

  /** Membership in the pattern's classes `[\p{L}]` (letter) and `[\p{N}]`
      (digit), as the regex library reads them, on the bytes of the cleaned
      text. */
  datatype CharClass = CharClass(letter: Byte -> bool, digit: Byte -> bool)

  /** The class `[^\s\p{L}\p{N}]`. */
  predicate IsOther(cls: CharClass, c: Byte)
  {
    !IsSpace(c) && !cls.letter(c) && !cls.digit(c)
  }

  /** A character some alternative of the pattern can consume; the others
      (whitespace that is neither letter nor digit) only separate matches. */
  predicate Kept(cls: CharClass, c: Byte)
  {
    !IsSpace(c) || cls.letter(c) || cls.digit(c)
  }

  /** s starts with the literal lit, compared case-insensitively (`icase`). */
  predicate StartsWithLiteral(s: seq<Byte>, lit: Str)
  {
    |lit| <= |s| && Lower(s[..|lit|]) == lit
  }

  /** The contraction alternatives, in pattern order. */
  const Contractions: seq<Str> :=
    [Chars("'s"), Chars("'t"), Chars("'re"), Chars("'ve"), Chars("'m"), Chars("'ll"), Chars("'d")]

  /** Length of the first contraction (in pattern order) that starts s, or 0. */
  function ContractionAt(s: seq<Byte>, cs: seq<Str>): (k: nat)
    ensures k <= |s|
    ensures k > 0 ==> exists i :: 0 <= i < |cs| && |cs[i]| == k && StartsWithLiteral(s, cs[i])
    ensures k == 0 ==> forall i :: 0 <= i < |cs| && |cs[i]| > 0 ==> !StartsWithLiteral(s, cs[i])
  {
    if |cs| == 0 then 0
    else if |cs[0]| > 0 && StartsWithLiteral(s, cs[0]) then |cs[0]|
    else
      var k := ContractionAt(s, cs[1..]);
      assert forall i :: 1 <= i < |cs| ==> cs[i] == cs[1..][i - 1];
      k
  }

  /** Length of the longest prefix of s whose characters all satisfy p. */
  function RunLength(s: seq<Byte>, p: Byte -> bool): (k: nat)
    ensures k <= |s|
    ensures forall i :: 0 <= i < k ==> p(s[i])
    ensures k < |s| ==> !p(s[k])
  {
    if |s| == 0 || !p(s[0]) then 0 else 1 + RunLength(s[1..], p)
  }

  /** Length of the match the pattern finds at the start of s: the first
      alternative, in pattern order, that matches there. 0 means none does,
      and the iterator moves on to the next character. */
  function MatchAt(cls: CharClass, s: seq<Byte>): (k: nat)
    ensures k <= |s|
  {
    if StartsWithLiteral(s, StartOfText) then |StartOfText|
    else if StartsWithLiteral(s, EndOfText) then |EndOfText|
    else if ContractionAt(s, Contractions) > 0 then ContractionAt(s, Contractions)
    else if |s| > 0 && cls.letter(s[0]) then RunLength(s, cls.letter)
    else if |s| > 0 && cls.digit(s[0]) then 1
    else if |s| > 0 && IsOther(cls, s[0]) then RunLength(s, (c: Byte) => IsOther(cls, c))
    else 0
  }

  /** The coarse tokens of s, in order (the `sregex_iterator` walk). */
  function Split(cls: CharClass, s: seq<Byte>): (pieces: seq<seq<Byte>>)
    decreases |s|
  {
    if |s| == 0 then []
    else
      var k := MatchAt(cls, s);
      if k == 0 then Split(cls, s[1..]) else [s[..k]] + Split(cls, s[k..])
  }

  /** The characters of s that some alternative can consume, in order. */
  function KeptChars(cls: CharClass, s: seq<Byte>): (r: seq<Byte>)
    ensures |r| <= |s|
  {
    if |s| == 0 then []
    else if Kept(cls, s[0]) then [s[0]] + KeptChars(cls, s[1..])
    else KeptChars(cls, s[1..])
  }

  // ---------------------------------------------------------------------
  // Properties of a single match

  lemma LiteralIsKept(cls: CharClass, s: seq<Byte>, lit: Str)
    requires StartsWithLiteral(s, lit) && SpaceFree(lit)
    ensures forall i :: 0 <= i < |lit| ==> Kept(cls, s[i])
  {
    forall i | 0 <= i < |lit|
      ensures Kept(cls, s[i])
    {
      assert Lower(s[..|lit|])[i] == LowerByte(s[i]);
      LowerSpace(s[i]);
    }
  }

  lemma ContractionsAreSpaceFree()
    ensures forall i :: 0 <= i < |Contractions| ==> SpaceFree(Contractions[i])
  {
  }

  /** A match is non-empty exactly when the first character can be consumed,
      and it consists of consumable characters only. */
  lemma MatchAtSpec(cls: CharClass, s: seq<Byte>)
    requires |s| > 0
    ensures MatchAt(cls, s) > 0 <==> Kept(cls, s[0])
    ensures forall i :: 0 <= i < MatchAt(cls, s) ==> Kept(cls, s[i])
  {
    var k := MatchAt(cls, s);
    SpecialStringsAreSymbols();
    if StartsWithLiteral(s, StartOfText) {
      LiteralIsKept(cls, s, StartOfText);
    } else if StartsWithLiteral(s, EndOfText) {
      LiteralIsKept(cls, s, EndOfText);
    } else if ContractionAt(s, Contractions) > 0 {
      var i :| 0 <= i < |Contractions| && |Contractions[i]| == k && StartsWithLiteral(s, Contractions[i]);
      ContractionsAreSpaceFree();
      LiteralIsKept(cls, s, Contractions[i]);
    }
  }

  // ---------------------------------------------------------------------
  // Properties of the split

  lemma {:induction false} KeptCharsAppend(cls: CharClass, a: seq<Byte>, b: seq<Byte>)
    ensures KeptChars(cls, a + b) == KeptChars(cls, a) + KeptChars(cls, b)
    decreases |a|
  {
    if |a| == 0 {
      assert a + b == b;
    } else {
      assert (a + b)[0] == a[0];
      assert (a + b)[1..] == a[1..] + b;
      KeptCharsAppend(cls, a[1..], b);
    }
  }

  lemma {:induction false} KeptCharsAllKept(cls: CharClass, s: seq<Byte>)
    requires forall i :: 0 <= i < |s| ==> Kept(cls, s[i])
    ensures KeptChars(cls, s) == s
    decreases |s|
  {
    if |s| > 0 {
      KeptCharsAllKept(cls, s[1..]);
    }
  }

  /** Every coarse token is non-empty and made of consumable characters. */
  lemma {:induction false} SplitPieces(cls: CharClass, s: seq<Byte>)
    ensures forall j :: 0 <= j < |Split(cls, s)| ==>
      |Split(cls, s)[j]| > 0 && forall i :: 0 <= i < |Split(cls, s)[j]| ==> Kept(cls, Split(cls, s)[j][i])
    decreases |s|
  {
    if |s| > 0 {
      var k := MatchAt(cls, s);
      MatchAtSpec(cls, s);
      if k == 0 {
        SplitPieces(cls, s[1..]);
      } else {
        SplitPieces(cls, s[k..]);
        var rest := Split(cls, s[k..]);
        assert forall j :: 1 <= j < |rest| + 1 ==> ([s[..k]] + rest)[j] == rest[j - 1];
      }
    }
  }

  lemma KeptPrefix(cls: CharClass, s: seq<Byte>, k: nat)
    requires k <= |s|
    requires forall i :: 0 <= i < k ==> Kept(cls, s[i])
    ensures KeptChars(cls, s) == s[..k] + KeptChars(cls, s[k..])
  {
    assert s == s[..k] + s[k..];
    KeptCharsAppend(cls, s[..k], s[k..]);
    KeptCharsAllKept(cls, s[..k]);
  }

  /** The split loses exactly the separating whitespace: concatenating the
      coarse tokens gives the consumable characters of the text, in order. */
  lemma {:induction false} SplitKeepsText(cls: CharClass, s: seq<Byte>)
    ensures Flatten(Split(cls, s)) == KeptChars(cls, s)
    decreases |s|
  {
    if |s| > 0 {
      var k := MatchAt(cls, s);
      MatchAtSpec(cls, s);
      if k == 0 {
        SplitKeepsText(cls, s[1..]);
      } else {
        var rest := Split(cls, s[k..]);
        assert Split(cls, s) == [s[..k]] + rest;
        assert Flatten(rest) == KeptChars(cls, s[k..]) by {
          SplitKeepsText(cls, s[k..]);
        }
        FlattenCons(s[..k], rest);
        KeptPrefix(cls, s, k);
      }
    }
  }

  /** Text without consumable characters (only whitespace) yields no token. */
  lemma {:induction false} SplitOfSeparators(cls: CharClass, s: seq<Byte>)
    requires forall i :: 0 <= i < |s| ==> !Kept(cls, s[i])
    ensures Split(cls, s) == []
    decreases |s|
  {
    if |s| > 0 {
      MatchAtSpec(cls, s);
      SplitOfSeparators(cls, s[1..]);
    }
  }

  /** No literal alternative starts with a character other than '<' and
      '\''. */
  lemma {:induction false} ContractionNeedsQuote(s: seq<Byte>, cs: seq<Str>)
    requires |s| > 0 && s[0] != '\'' as int
    requires forall i :: 0 <= i < |cs| ==> |cs[i]| > 0 && cs[i][0] == '\'' as int
    ensures ContractionAt(s, cs) == 0
    decreases |cs|
  {
    if |cs| > 0 {
      assert !StartsWithLiteral(s, cs[0]) by {
        if |cs[0]| <= |s| {
          assert Lower(s[..|cs[0]|])[0] == LowerByte(s[0]);
        }
      }
      ContractionNeedsQuote(s, cs[1..]);
    }
  }

  lemma NotLiteral(s: seq<Byte>, lit: Str)
    requires |s| > 0 && |lit| > 0 && lit[0] == '<' as int && s[0] != '<' as int
    ensures !StartsWithLiteral(s, lit)
  {
    if |lit| <= |s| {
      assert Lower(s[..|lit|])[0] == LowerByte(s[0]);
    }
  }

  /** A digit that is not a letter (nor one of the characters '<' and '\''
      that start the literal alternatives) is always a coarse token of its
      own: digit runs are not merged. */
  lemma DigitAlone(cls: CharClass, s: seq<Byte>)
    requires |s| > 0 && cls.digit(s[0]) && !cls.letter(s[0])
    requires s[0] != '<' as int && s[0] != '\'' as int
    ensures Split(cls, s) == [s[..1]] + Split(cls, s[1..])
  {
    SpecialStringsAreSymbols();
    NotLiteral(s, StartOfText);
    NotLiteral(s, EndOfText);
    ContractionNeedsQuote(s, Contractions);
    assert MatchAt(cls, s) == 1;
  }
}
