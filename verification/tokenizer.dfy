/** The tokenizer object: the state its constructor builds, and `encode`,
    `decode` and `encode_text` over that state. */
module Tokenizer {
  import opened Wrappers
  import opened Seqs
  import opened Text
  import opened Clean
  import opened ByteTable
  import opened Merges
  import opened Vocabulary
  import opened PreTokenizer
  import opened Bpe

  /** The tokenizer's state. `order` is the order in which the constructor
      visits `byte_encoder` (see `IsByteOrder`) and `cls` supplies the
      pre-tokenizer pattern's letter and digit classes as the regex library
      reads them; the other fields are the source's members. */
  datatype ClipTokenizer = ClipTokenizer(
    cls: CharClass,
    order: seq<Byte>,
    merges: seq<Merge>,
    ranks: RankMap,
    encoder: map<Str, nat>,
    decoder: map<int, Str>,
    cache: map<Str, Str>)

  /** The vocabulary the constructor assembled (a local of the constructor;
      only `encoder` and `decoder` are kept). */
  function Vocab(t: ClipTokenizer): (v: seq<Str>)
  {
    BuildVocab(t.order, t.merges)
  }

  /** What the constructor establishes and `encode` keeps: the maps are the
      ones built from the merges, and the cache holds only true `bpe`
      results. */
  predicate Valid(t: ClipTokenizer)
  {
    && IsByteOrder(t.order)
    && t.ranks == Ranks(t.merges)
    && t.encoder == Encoder(Vocab(t))
    && t.decoder == Decoder(Vocab(t))
    && CacheSound(t.ranks, t.cache)
  }

  /** The constructor, given the lines of the merges file: the merges are
      parsed, the maps built from them and the cache seeded with the two
      special tokens, each standing for itself. */
  function Create(cls: CharClass, order: seq<Byte>, lines: seq<Str>): (t: ClipTokenizer)
    requires IsByteOrder(order)
    ensures Valid(t)
    ensures t.merges == ParseMerges(lines)
    ensures t.cache.Keys == {StartOfText, EndOfText}
    ensures forall k :: k in t.cache ==> t.cache[k] == k
  {
    var ms := ParseMerges(lines);
    SeedCacheSound(Ranks(ms));
    ClipTokenizer(cls, order, ms, Ranks(ms), Encoder(BuildVocab(order, ms)),
      Decoder(BuildVocab(order, ms)), SeedCache())
  }

  /** The ids of a valid tokenizer: 0 .. 513 + |merges|, the special tokens
      last, and every byte's symbol, bare and with the marker, has one. */
  lemma ValidIds(t: ClipTokenizer)
    requires Valid(t)
    ensures forall i :: i in t.decoder <==> 0 <= i < 514 + |t.merges|
    ensures StartOfText in t.encoder && t.encoder[StartOfText] == 512 + |t.merges|
    ensures EndOfText in t.encoder && t.encoder[EndOfText] == 513 + |t.merges|
    ensures forall b :: 0 <= b < 256 ==>
      [ByteToSymbol(b)] in t.encoder && [ByteToSymbol(b)] + EndOfWord in t.encoder
  {
    VocabLayout(t.order, t.merges);
    VocabCoversSymbols(t.order, t.merges);
    SpecialTokenIds(t.order, t.merges);
  }

  // ---------------------------------------------------------------------
  // encode

  /** The byte remap of `encode` (tokenizer.cpp:203-207) done through the
      byte table. The source's loop is a placeholder that copies each byte
      unchanged. */
  function ByteEncode(p: seq<Byte>): (x: Str)
    ensures |x| == |p|
  {
    seq(|p|, i requires 0 <= i < |p| => ByteToSymbol(p[i]))
  }

  /** `byte_decoder` applied symbol by symbol; None when some symbol is not
      a byte's placeholder. */
  function ByteDecode(x: Str): (r: Option<seq<Byte>>)
    ensures r.Some? ==> |r.value| == |x|
    decreases |x|
  {
    if |x| == 0 then Some([])
    else
      var rest := ByteDecode(x[1..]);
      match SymbolToByte(x[0])
      case None => None
      case Some(b) => if rest.None? then None else Some([b] + rest.value)
  }

  /** The byte remap loses nothing: decoding it gives the bytes back. */
  lemma {:induction false} ByteDecodeEncode(p: seq<Byte>)
    ensures ByteDecode(ByteEncode(p)) == Some(p)
    decreases |p|
  {
    if |p| > 0 {
      var x := ByteEncode(p);
      assert x[1..] == ByteEncode(p[1..]);
      ByteDecodeEncode(p[1..]);
      SymbolRoundTrip(p[0], x[0]);
      assert p == [p[0]] + p[1..];
    }
  }

  /** A remapped coarse token contains no whitespace, so `bpe` and the
      splitting of its result see it as one word. */
  lemma ByteEncodeIsSymbol(p: seq<Byte>)
    requires |p| > 0
    ensures IsSymbol(ByteEncode(p))
  {
    var x := ByteEncode(p);
    forall i | 0 <= i < |x|
      ensures !IsSpace(x[i])
    {
      assert x[i] == ByteToSymbol(p[i]);
    }
  }

  /** Looks each field up in `encoder`, silently dropping those it lacks. */
  function Lookup(enc: map<Str, nat>, fs: seq<Str>): (ids: seq<nat>)
    ensures |ids| <= |fs|
    decreases |fs|
  {
    if |fs| == 0 then []
    else (if fs[0] in enc then [enc[fs[0]]] else []) + Lookup(enc, fs[1..])
  }

  /** When every field is known, one id per field, in order. */
  lemma {:induction false} LookupKnown(enc: map<Str, nat>, fs: seq<Str>)
    requires forall i :: 0 <= i < |fs| ==> fs[i] in enc
    ensures |Lookup(enc, fs)| == |fs|
    ensures forall i :: 0 <= i < |fs| ==> Lookup(enc, fs)[i] == enc[fs[i]]
    decreases |fs|
  {
    if |fs| > 0 {
      LookupKnown(enc, fs[1..]);
    }
  }

  /** When no field is known, nothing at all. */
  lemma {:induction false} LookupUnknown(enc: map<Str, nat>, fs: seq<Str>)
    requires forall i :: 0 <= i < |fs| ==> fs[i] !in enc
    ensures Lookup(enc, fs) == []
    decreases |fs|
  {
    if |fs| > 0 {
      LookupUnknown(enc, fs[1..]);
    }
  }

  /** Fields are looked up independently of each other. */
  lemma {:induction false} LookupAppend(enc: map<Str, nat>, a: seq<Str>, b: seq<Str>)
    ensures Lookup(enc, a + b) == Lookup(enc, a) + Lookup(enc, b)
    decreases |a|
  {
    if |a| == 0 {
      assert a + b == b;
    } else {
      assert (a + b)[0] == a[0];
      assert (a + b)[1..] == a[1..] + b;
      LookupAppend(enc, a[1..], b);
    }
  }

  /** An unknown field among known ones is skipped without a trace. */
  lemma LookupDropsUnknown(enc: map<Str, nat>, a: seq<Str>, x: Str, b: seq<Str>)
    requires x !in enc
    ensures Lookup(enc, a + [x] + b) == Lookup(enc, a + b)
  {
    LookupAppend(enc, a + [x], b);
    LookupAppend(enc, a, [x]);
    LookupAppend(enc, a, b);
    assert Lookup(enc, [x]) == [] by {
      assert [x][1..] == [];
    }
  }

  /** The ids `encode` emits for one coarse token: remap its bytes, run
      `bpe`, split the result on whitespace, look each part up. */
  function PieceIds(ranks: RankMap, enc: map<Str, nat>, p: seq<Byte>): (ids: seq<nat>)
  {
    if |p| == 0 then [] else Lookup(enc, Fields(Reference(ranks, ByteEncode(p))))
  }

  /** The ids of a list of coarse tokens, in order. */
  function Ids(ranks: RankMap, enc: map<Str, nat>, ps: seq<seq<Byte>>): (ids: seq<nat>)
    decreases |ps|
  {
    if |ps| == 0 then [] else PieceIds(ranks, enc, ps[0]) + Ids(ranks, enc, ps[1..])
  }

  /** The coarse tokens of a text: cleaned, lowercased, split by the
      pattern. */
  function Pieces(cls: CharClass, text: seq<Byte>): (ps: seq<seq<Byte>>)
  {
    Split(cls, Lower(CleanText(text)))
  }

  /** What `encode` returns, computed without the cache. */
  function EncodeReference(t: ClipTokenizer, text: seq<Byte>): (ids: seq<nat>)
  {
    Ids(t.ranks, t.encoder, Pieces(t.cls, text))
  }

  /** The token loop of `encode` with the `bpe` cache threaded through. A
      sound cache gives the cache-free ids and stays sound; entries already
      cached are never changed. */
  function EncodePieces(ranks: RankMap, enc: map<Str, nat>, cache: map<Str, Str>, ps: seq<seq<Byte>>)
    : (out: (seq<nat>, map<Str, Str>))
    ensures CacheSound(ranks, cache) ==> out.0 == Ids(ranks, enc, ps) && CacheSound(ranks, out.1)
    ensures forall k :: k in cache ==> k in out.1 && out.1[k] == cache[k]
    decreases |ps|
  {
    if |ps| == 0 then ([], cache)
    else if |ps[0]| == 0 then
      var rest := EncodePieces(ranks, enc, cache, ps[1..]);
      ([] + rest.0, rest.1)
    else
      var step := BpeCached(ranks, cache, ByteEncode(ps[0]));
      var rest := EncodePieces(ranks, enc, step.1, ps[1..]);
      (Lookup(enc, Fields(step.0)) + rest.0, rest.1)
  }

  /** `encode`: the ids of the text, and the tokenizer with its cache
      updated. The ids are those of the cache-free reference, and nothing
      but the cache changes. */
  function Encode(t: ClipTokenizer, text: seq<Byte>): (out: (seq<nat>, ClipTokenizer))
    requires Valid(t)
    ensures out.0 == EncodeReference(t, text)
    ensures Valid(out.1) && out.1 == t.(cache := out.1.cache)
    ensures t.cache.Keys <= out.1.cache.Keys
  {
    var r := EncodePieces(t.ranks, t.encoder, t.cache, Pieces(t.cls, text));
    (r.0, t.(cache := r.1))
  }

  /** Texts that clean and lowercase to the same text encode alike. */
  lemma EncodeSameCleanText(t: ClipTokenizer, a: seq<Byte>, b: seq<Byte>)
    requires Lower(CleanText(a)) == Lower(CleanText(b))
    ensures EncodeReference(t, a) == EncodeReference(t, b)
  {
  }

  /** Empty or all-whitespace text encodes to no ids. */
  lemma EncodeBlank(t: ClipTokenizer, text: seq<Byte>)
    requires forall i :: 0 <= i < |text| ==> IsSpace(text[i])
    ensures EncodeReference(t, text) == []
  {
    CleanAllSpaces(text);
    EncodeSameCleanText(t, text, []);
  }

  /** Texts that agree up to ASCII case encode alike. */
  lemma EncodeIgnoresCase(t: ClipTokenizer, a: seq<Byte>, b: seq<Byte>)
    requires Lower(a) == Lower(b)
    ensures EncodeReference(t, a) == EncodeReference(t, b)
  {
    CleanLowerCommute(a);
    CleanLowerCommute(b);
    EncodeSameCleanText(t, a, b);
  }

  /** Uppercasing a text does not change its ids. */
  lemma EncodeUpper(t: ClipTokenizer, text: seq<Byte>)
    ensures EncodeReference(t, Upper(text)) == EncodeReference(t, text)
  {
    LowerUpper(text);
    EncodeIgnoresCase(t, Upper(text), text);
  }

  /** "test" and "TEST" encode alike. */
  lemma EncodeTestUpperCase(t: ClipTokenizer, lower: seq<Byte>, upper: seq<Byte>)
    requires lower == [116, 101, 115, 116] && upper == [84, 69, 83, 84]
    ensures EncodeReference(t, lower) == EncodeReference(t, upper)
  {
    assert Upper(lower) == upper;
    EncodeUpper(t, lower);
  }

  /** A run of whitespace encodes like a single whitespace character. */
  lemma EncodeCollapsesRun(t: ClipTokenizer, a: seq<Byte>, x: Byte, y: Byte, b: seq<Byte>)
    requires IsSpace(x) && IsSpace(y)
    ensures EncodeReference(t, a + [x, y] + b) == EncodeReference(t, a + [x] + b)
  {
    CleanCollapsesRun(a, x, y, b);
    EncodeSameCleanText(t, a + [x, y] + b, a + [x] + b);
  }

  /** Leading and trailing whitespace does not change the ids. */
  lemma EncodeTrims(t: ClipTokenizer, x: Byte, s: seq<Byte>)
    requires IsSpace(x)
    ensures EncodeReference(t, [x] + s) == EncodeReference(t, s)
    ensures EncodeReference(t, s + [x]) == EncodeReference(t, s)
  {
    CleanTrims(x, s);
    EncodeSameCleanText(t, [x] + s, s);
    EncodeSameCleanText(t, s + [x], s);
  }

  // ---------------------------------------------------------------------
  // Every merged symbol is in the vocabulary

  /** The initial word of a remapped token holds vocabulary entries only. */
  lemma InitialWordKnown(t: ClipTokenizer, p: seq<Byte>)
    requires Valid(t) && |p| > 0
    ensures forall x :: x in InitialWord(ByteEncode(p)) ==> x in Vocab(t)
  {
    var tok := ByteEncode(p);
    var w := InitialWord(tok);
    VocabCoversSymbols(t.order, t.merges);
    InitialWordSymbols(tok);
    forall x | x in w
      ensures x in Vocab(t)
    {
      var i :| 0 <= i < |w| && w[i] == x;
      assert tok[i] == ByteToSymbol(p[i]);
    }
  }

  /** The merge loop on a remapped token yields vocabulary entries only:
      the initial symbols are entries and every ranked merge's
      concatenation is one. */
  lemma MergedSymbolsKnown(t: ClipTokenizer, p: seq<Byte>)
    requires Valid(t) && |p| > 0
    ensures forall x :: x in MergeLoop(t.ranks, InitialWord(ByteEncode(p))) ==> x in Vocab(t)
  {
    var known := set x | x in Vocab(t);
    InitialWordKnown(t, p);
    VocabCoversSymbols(t.order, t.merges);
    MergeLoopStaysIn(t.ranks, InitialWord(ByteEncode(p)), known);
  }

  /** A coarse token that is not a special token yields exactly one id per
      merged symbol, and each id decodes to its symbol: `encode` drops
      nothing. */
  lemma PieceIdsKnown(t: ClipTokenizer, p: seq<Byte>)
    requires Valid(t) && |p| > 0
    requires ByteEncode(p) != StartOfText && ByteEncode(p) != EndOfText
    ensures var w := MergeLoop(t.ranks, InitialWord(ByteEncode(p)));
      var ids := PieceIds(t.ranks, t.encoder, p);
      |ids| == |w| &&
      forall i :: 0 <= i < |w| ==> ids[i] in t.decoder && t.decoder[ids[i]] == w[i]
  {
    var w := MergeLoop(t.ranks, InitialWord(ByteEncode(p)));
    ByteEncodeIsSymbol(p);
    ReferenceFields(t.ranks, ByteEncode(p));
    MergedSymbolsKnown(t, p);
    assert forall i :: 0 <= i < |w| ==> w[i] in t.encoder by {
      forall i | 0 <= i < |w|
        ensures w[i] in t.encoder
      {
        assert w[i] in w;
      }
    }
    LookupKnown(t.encoder, w);
    forall i | 0 <= i < |w|
      ensures PieceIds(t.ranks, t.encoder, p)[i] in t.decoder
      ensures t.decoder[PieceIds(t.ranks, t.encoder, p)[i]] == w[i]
    {
      DecoderUndoesEncoder(Vocab(t), w[i]);
    }
  }

  // ---------------------------------------------------------------------
  // decode

  /** The strings `decoder` holds for the ids, concatenated in order; an id
      it lacks contributes nothing. */
  function DecodeConcat(dec: map<int, Str>, ids: seq<int>): (s: Str)
    decreases |ids|
  {
    if |ids| == 0 then []
    else (if ids[0] in dec then dec[ids[0]] else []) + DecodeConcat(dec, ids[1..])
  }

  /** `decode`: concatenate, then replace every end-of-word marker by a
      space. */
  function Decode(t: ClipTokenizer, ids: seq<int>): (s: Str)
  {
    ReplaceEndOfWord(DecodeConcat(t.decoder, ids))
  }

  lemma {:induction false} DecodeConcatAppend(dec: map<int, Str>, a: seq<int>, b: seq<int>)
    ensures DecodeConcat(dec, a + b) == DecodeConcat(dec, a) + DecodeConcat(dec, b)
    decreases |a|
  {
    if |a| == 0 {
      assert a + b == b;
    } else {
      assert (a + b)[0] == a[0];
      assert (a + b)[1..] == a[1..] + b;
      DecodeConcatAppend(dec, a[1..], b);
    }
  }

  /** An id `decoder` lacks may be removed without changing the result. */
  lemma DecodeIgnoresUnknown(t: ClipTokenizer, a: seq<int>, id: int, b: seq<int>)
    requires id !in t.decoder
    ensures Decode(t, a + [id] + b) == Decode(t, a + b)
  {
    var dec := t.decoder;
    assert DecodeConcat(dec, [id]) == [] by {
      assert [id][1..] == [];
    }
    assert DecodeConcat(dec, a + [id]) == DecodeConcat(dec, a) by {
      DecodeConcatAppend(dec, a, [id]);
    }
    assert DecodeConcat(dec, a + [id] + b) == DecodeConcat(dec, a + b) by {
      DecodeConcatAppend(dec, a + [id], b);
      DecodeConcatAppend(dec, a, b);
    }
  }

  /** Looking known strings up and decoding the ids gives the strings back,
      concatenated. */
  lemma {:induction false} DecodeLookup(vocab: seq<Str>, fs: seq<Str>)
    requires forall i :: 0 <= i < |fs| ==> fs[i] in vocab
    ensures DecodeConcat(Decoder(vocab), Lookup(Encoder(vocab), fs)) == Flatten(fs)
    decreases |fs|
  {
    if |fs| > 0 {
      var enc := Encoder(vocab);
      var dec := Decoder(vocab);
      DecoderUndoesEncoder(vocab, fs[0]);
      DecodeLookup(vocab, fs[1..]);
      DecodeConcatAppend(dec, [enc[fs[0]]], Lookup(enc, fs[1..]));
      assert DecodeConcat(dec, [enc[fs[0]]]) == fs[0];
      FlattenCons(fs[0], fs[1..]);
      assert [fs[0]] + fs[1..] == fs;
    }
  }

  /** A coarse token that can be told apart after decoding: not a special
      token and free of the end-of-word marker. */
  predicate Plain(p: seq<Byte>)
  {
    && |p| > 0
    && ByteEncode(p) != StartOfText
    && ByteEncode(p) != EndOfText
    && !HasEndOfWord(ByteEncode(p))
  }

  /** The ids of one such token decode to its symbols followed by the
      marker. */
  lemma PieceDecodes(t: ClipTokenizer, p: seq<Byte>)
    requires Valid(t) && Plain(p)
    ensures DecodeConcat(t.decoder, PieceIds(t.ranks, t.encoder, p)) == ByteEncode(p) + EndOfWord
  {
    var w := MergeLoop(t.ranks, InitialWord(ByteEncode(p)));
    ByteEncodeIsSymbol(p);
    ReferenceFields(t.ranks, ByteEncode(p));
    MergedSymbolsKnown(t, p);
    assert forall i :: 0 <= i < |w| ==> w[i] in Vocab(t) by {
      forall i | 0 <= i < |w|
        ensures w[i] in Vocab(t)
      {
        assert w[i] in w;
      }
    }
    DecodeLookup(Vocab(t), w);
  }

  /** What decoding the ids of some coarse tokens should give: each token's
      symbols followed by one space. */
  function Spaced(ps: seq<seq<Byte>>): (s: Str)
    decreases |ps|
  {
    if |ps| == 0 then [] else ByteEncode(ps[0]) + [Space] + Spaced(ps[1..])
  }

  lemma {:induction false} DecodeIds(t: ClipTokenizer, ps: seq<seq<Byte>>)
    requires Valid(t)
    requires forall i :: 0 <= i < |ps| ==> Plain(ps[i])
    ensures Decode(t, Ids(t.ranks, t.encoder, ps)) == Spaced(ps)
    decreases |ps|
  {
    if |ps| > 0 {
      var x := ByteEncode(ps[0]);
      var a := PieceIds(t.ranks, t.encoder, ps[0]);
      var b := Ids(t.ranks, t.encoder, ps[1..]);
      var y := DecodeConcat(t.decoder, b);
      assert DecodeConcat(t.decoder, a + b) == x + EndOfWord + y by {
        DecodeConcatAppend(t.decoder, a, b);
        PieceDecodes(t, ps[0]);
      }
      assert ReplaceEndOfWord(y) == Spaced(ps[1..]) by {
        DecodeIds(t, ps[1..]);
      }
      ReplaceEndOfWordAfter(x, y);
    }
  }

  /** The round trip: when no coarse token of the text is a special token
      or contains the marker, decoding its ids gives every coarse token's
      (remapped) symbols, each followed by one space. */
  lemma DecodeEncode(t: ClipTokenizer, text: seq<Byte>)
    requires Valid(t)
    requires forall i :: 0 <= i < |Pieces(t.cls, text)| ==> Plain(Pieces(t.cls, text)[i])
    ensures Decode(t, EncodeReference(t, text)) == Spaced(Pieces(t.cls, text))
  {
    DecodeIds(t, Pieces(t.cls, text));
  }

  /** The first code point of a non-empty spacing is the first token's. */
  lemma SpacedHead(ps: seq<seq<Byte>>)
    requires |ps| > 0 && |ps[0]| > 0
    ensures |Spaced(ps)| > 0 && Spaced(ps)[0] == ByteToSymbol(ps[0][0])
  {
  }

  /** Between tokens of the spacing there is exactly one whitespace
      character: no two whitespace characters are adjacent. */
  lemma {:induction false} SpacedSingleSpaces(ps: seq<seq<Byte>>)
    requires forall i :: 0 <= i < |ps| ==> |ps[i]| > 0
    ensures forall i :: 0 <= i < |Spaced(ps)| - 1 ==>
      !(IsSpace(Spaced(ps)[i]) && IsSpace(Spaced(ps)[i + 1]))
    decreases |ps|
  {
    if |ps| > 0 {
      var x := ByteEncode(ps[0]);
      var rest := Spaced(ps[1..]);
      var s := Spaced(ps);
      SpacedSingleSpaces(ps[1..]);
      ByteEncodeIsSymbol(ps[0]);
      assert s == x + [Space] + rest;
      forall i | 0 <= i < |s| - 1
        ensures !(IsSpace(s[i]) && IsSpace(s[i + 1]))
      {
        if i < |x| {
          assert s[i] == x[i];
        } else if i == |x| {
          SpacedHead(ps[1..]);
          assert s[i + 1] == rest[0];
        } else {
          assert s[i] == rest[i - |x| - 1] && s[i + 1] == rest[i - |x|];
        }
      }
    }
  }

  /** So decoding never yields a whitespace run, whatever runs the text had
      (under the round trip's condition). */
  lemma DecodeSingleSpaces(t: ClipTokenizer, text: seq<Byte>)
    requires Valid(t)
    requires forall i :: 0 <= i < |Pieces(t.cls, text)| ==> Plain(Pieces(t.cls, text)[i])
    ensures var d := Decode(t, EncodeReference(t, text));
      forall i :: 0 <= i < |d| - 1 ==> !(IsSpace(d[i]) && IsSpace(d[i + 1]))
  {
    DecodeEncode(t, text);
    SpacedSingleSpaces(Pieces(t.cls, text));
  }

  // ---------------------------------------------------------------------
  // encode_text

  /** The fixed window `encode_text` fills: the start-of-text id, the first
      min(|ids|, L - 2) ids, the end-of-text id, then zeros up to length L. */
  function Window(ids: seq<int>, L: int, sot: int, eot: int): (r: seq<int>)
    requires L >= 2
    ensures |r| == L && r[0] == sot
    ensures var n := if |ids| < L - 2 then |ids| else L - 2;
      && (forall i :: 1 <= i <= n ==> r[i] == ids[i - 1])
      && r[n + 1] == eot
      && (forall i :: n + 1 < i < L ==> r[i] == 0)
  {
    var n := if |ids| < L - 2 then |ids| else L - 2;
    [sot] + ids[..n] + [eot] + seq(L - n - 2, _ => 0)
  }

  /** `encode_text(text, L, truncate)`: the window of the text's ids, with
      the special tokens' ids taken from `encoder`. The `truncate` flag has
      no effect. */
  method EncodeText(t: ClipTokenizer, text: seq<Byte>, contextLength: int, truncate: bool)
    returns (result: seq<int>, t': ClipTokenizer)
    requires Valid(t)
    requires contextLength >= 2
    ensures result == Window(EncodeReference(t, text), contextLength,
      512 + |t.merges|, 513 + |t.merges|)
    ensures Valid(t') && t' == t.(cache := t'.cache)
  {
    ValidIds(t);
    var out := Encode(t, text);
    t' := out.1;
    result := FillWindow(out.0, contextLength, t.encoder[StartOfText], t.encoder[EndOfText]);
  }

  /** The body of `encode_text` after encoding: a zero vector of length L,
      the start-of-text id in front, then as many ids as fit before the
      last slot, then the end-of-text id. */
  method FillWindow(tokens: seq<int>, contextLength: int, sot: int, eot: int) returns (result: seq<int>)
    requires contextLength >= 2
    ensures result == Window(tokens, contextLength, sot, eot)
  {
    var r := seq(contextLength, _ => 0);
    r := r[0 := sot];
    var maxTokens := if |tokens| < contextLength - 2 then |tokens| else contextLength - 2;
    var i := 0;
    while i < maxTokens
      invariant 0 <= i <= maxTokens
      invariant |r| == contextLength && r[0] == sot
      invariant forall j :: 1 <= j <= i ==> r[j] == tokens[j - 1]
      invariant forall j :: i < j < contextLength ==> r[j] == 0
    {
      r := r[i + 1 := tokens[i]];
      i := i + 1;
    }
    r := r[maxTokens + 1 := eot];
    result := r;
    WindowUnique(tokens, contextLength, sot, eot, result);
  }

  /** The window is the only sequence with its positional description. */
  lemma WindowUnique(ids: seq<int>, L: int, sot: int, eot: int, r: seq<int>)
    requires L >= 2
    requires |r| == L && r[0] == sot
    requires var n := if |ids| < L - 2 then |ids| else L - 2;
      && (forall i :: 1 <= i <= n ==> r[i] == ids[i - 1])
      && r[n + 1] == eot
      && (forall i :: n + 1 < i < L ==> r[i] == 0)
    ensures r == Window(ids, L, sot, eot)
  {
    var w := Window(ids, L, sot, eot);
    assert forall i :: 0 <= i < L ==> r[i] == w[i];
  }
}
