/** The vocabulary the tokenizer's constructor assembles, and the `encoder`
    (string -> id) and `decoder` (id -> string) maps built from it. */
module Vocabulary {
  import opened Seqs
  import opened Text
  import opened ByteTable
  import opened Merges

  /** The order in which the constructor visits the 256 entries of
      `byte_encoder`. The source iterates an unordered map, whose order the
      language leaves unspecified, so the model accepts any permutation. */
  predicate IsByteOrder(order: seq<Byte>)
  {
    && |order| == 256
    && (forall i, j :: 0 <= i < j < |order| ==> order[i] != order[j])
    && (forall b :: 0 <= b < 256 ==> b in order)
  }

  /** The bytes in increasing order: one admissible visiting order. */
  function AscendingBytes(): (order: seq<Byte>)
    ensures IsByteOrder(order)
  {
    var order := seq(256, i requires 0 <= i < 256 => i);
    forall b | 0 <= b < 256
      ensures b in order
    {
      assert order[b] == b;
    }
    order
  }

  /** For each byte, in visiting order: its symbol, then its symbol with the
      end-of-word marker. */
  function BaseEntries(order: seq<Byte>): (r: seq<Str>)
    ensures |r| == 2 * |order|
    ensures forall i :: 0 <= i < |r| ==>
      r[i] == if i % 2 == 0 then [ByteToSymbol(order[i / 2])]
              else [ByteToSymbol(order[i / 2])] + EndOfWord
  {
    if |order| == 0 then []
    else
      var s := [ByteToSymbol(order[0])];
      var rest := BaseEntries(order[1..]);
      assert forall i :: 2 <= i < 2 * |order| ==> ([s, s + EndOfWord] + rest)[i] == rest[i - 2];
      [s, s + EndOfWord] + rest
  }

  lemma BaseEntryAt(order: seq<Byte>, k: nat)
    requires k < |order|
    ensures BaseEntries(order)[2 * k] == [ByteToSymbol(order[k])]
    ensures BaseEntries(order)[2 * k + 1] == [ByteToSymbol(order[k])] + EndOfWord
  {
    assert (2 * k) % 2 == 0 && (2 * k) / 2 == k;
    assert (2 * k + 1) % 2 == 1 && (2 * k + 1) / 2 == k;
  }

  /** One entry per merge, in rank order: the two symbols concatenated. */
  function MergeEntries(ms: seq<Merge>): (r: seq<Str>)
    ensures |r| == |ms|
  {
    seq(|ms|, i requires 0 <= i < |ms| => ms[i].0 + ms[i].1)
  }

  /** The full vocabulary; an entry's id is its position. */
  function BuildVocab(order: seq<Byte>, ms: seq<Merge>): (v: seq<Str>)
  {
    BaseEntries(order) + MergeEntries(ms) + [StartOfText, EndOfText]
  }

  /** The two vocabulary entries of the k-th visited byte. */
  lemma VocabByteEntries(order: seq<Byte>, ms: seq<Merge>, k: nat)
    requires k < |order|
    ensures 2 * k + 1 < |BuildVocab(order, ms)|
    ensures BuildVocab(order, ms)[2 * k] == [ByteToSymbol(order[k])]
    ensures BuildVocab(order, ms)[2 * k + 1] == [ByteToSymbol(order[k])] + EndOfWord
  {
    var base := BaseEntries(order);
    var tail := MergeEntries(ms) + [StartOfText, EndOfText];
    assert BuildVocab(order, ms) == base + tail;
    BaseEntryAt(order, k);
    var j := 2 * k;
    assert (base + tail)[j] == base[j];
    assert (base + tail)[j + 1] == base[j + 1];
  }

  /** The entry of the merge of rank i. */
  lemma VocabMergeEntry(order: seq<Byte>, ms: seq<Merge>, i: nat)
    requires i < |ms|
    ensures 2 * |order| + i < |BuildVocab(order, ms)|
    ensures BuildVocab(order, ms)[2 * |order| + i] == ms[i].0 + ms[i].1
  {
    var base := BaseEntries(order);
    assert BuildVocab(order, ms) == base + (MergeEntries(ms) + [StartOfText, EndOfText]);
  }

  /** Layout of the vocabulary: 512 byte entries, then the merges in rank
      order, then start-of-text and end-of-text. */
  lemma VocabLayout(order: seq<Byte>, ms: seq<Merge>)
    requires IsByteOrder(order)
    ensures |BuildVocab(order, ms)| == 512 + |ms| + 2
    ensures forall k :: 0 <= k < 256 ==>
      BuildVocab(order, ms)[2 * k] == [ByteToSymbol(order[k])] &&
      BuildVocab(order, ms)[2 * k + 1] == [ByteToSymbol(order[k])] + EndOfWord
    ensures forall i :: 0 <= i < |ms| ==> BuildVocab(order, ms)[512 + i] == ms[i].0 + ms[i].1
    ensures BuildVocab(order, ms)[512 + |ms|] == StartOfText
    ensures BuildVocab(order, ms)[513 + |ms|] == EndOfText
  {
    forall k | 0 <= k < 256
      ensures BuildVocab(order, ms)[2 * k] == [ByteToSymbol(order[k])]
      ensures BuildVocab(order, ms)[2 * k + 1] == [ByteToSymbol(order[k])] + EndOfWord
    {
      VocabByteEntries(order, ms, k);
    }
    forall i | 0 <= i < |ms|
      ensures BuildVocab(order, ms)[512 + i] == ms[i].0 + ms[i].1
    {
      VocabMergeEntry(order, ms, i);
    }
  }

  /** Every byte's symbol, bare and with the end-of-word marker, is a
      vocabulary entry, and so is every merge's concatenation. */
  lemma VocabCoversSymbols(order: seq<Byte>, ms: seq<Merge>)
    requires IsByteOrder(order)
    ensures forall b :: 0 <= b < 256 ==>
      [ByteToSymbol(b)] in BuildVocab(order, ms) &&
      [ByteToSymbol(b)] + EndOfWord in BuildVocab(order, ms)
    ensures forall p :: p in ms ==> p.0 + p.1 in BuildVocab(order, ms)
    ensures StartOfText in BuildVocab(order, ms) && EndOfText in BuildVocab(order, ms)
  {
    var v := BuildVocab(order, ms);
    var base := BaseEntries(order);
    forall b | 0 <= b < 256
      ensures [ByteToSymbol(b)] in v && [ByteToSymbol(b)] + EndOfWord in v
    {
      assert b in order;
      var k :| 0 <= k < |order| && order[k] == b;
      BaseEntryAt(order, k);
      assert v[2 * k] == base[2 * k];
      assert v[2 * k + 1] == base[2 * k + 1];
    }
    forall p | p in ms
      ensures p.0 + p.1 in v
    {
      var i :| 0 <= i < |ms| && ms[i] == p;
      assert v[|base| + i] == MergeEntries(ms)[i];
    }
    assert v[|v| - 2] == StartOfText && v[|v| - 1] == EndOfText;
  }

  /** `encoder`: each entry maps to its position (a repeated entry keeps its
      last position, as the assignment loop leaves it). */
  function Encoder(vocab: seq<Str>): (enc: map<Str, nat>)
    ensures forall s :: s in enc <==> s in vocab
    ensures forall s :: s in enc ==> enc[s] < |vocab| && vocab[enc[s]] == s
  {
    IndexMapSpec(vocab);
    IndexMap(vocab)
  }

  /** `decoder`: each id maps to the entry at that position. */
  function Decoder(vocab: seq<Str>): (dec: map<int, Str>)
    ensures forall i :: i in dec <==> 0 <= i < |vocab|
  {
    map i | 0 <= i < |vocab| :: vocab[i]
  }

  /** Decoding an encoded string always gives it back. */
  lemma DecoderUndoesEncoder(vocab: seq<Str>, s: Str)
    requires s in Encoder(vocab)
    ensures Encoder(vocab)[s] in Decoder(vocab)
    ensures Decoder(vocab)[Encoder(vocab)[s]] == s
  {
  }

  predicate Distinct(v: seq<Str>)
  {
    forall i, j :: 0 <= i < j < |v| ==> v[i] != v[j]
  }

  /** With no repeated entry, encoding a decoded id gives the id back, so
      `encoder` and `decoder` are mutually inverse. */
  lemma EncoderUndoesDecoder(vocab: seq<Str>, i: int)
    requires Distinct(vocab)
    requires i in Decoder(vocab)
    ensures Decoder(vocab)[i] in Encoder(vocab)
    ensures Encoder(vocab)[Decoder(vocab)[i]] == i
  {
    IndexMapDistinct(vocab, i);
  }

  /** The special tokens sit at the end, so their ids are 512 + |merges| and
      513 + |merges| whatever the merges contain. */
  lemma SpecialTokenIds(order: seq<Byte>, ms: seq<Merge>)
    requires IsByteOrder(order)
    ensures Encoder(BuildVocab(order, ms))[StartOfText] == 512 + |ms|
    ensures Encoder(BuildVocab(order, ms))[EndOfText] == 513 + |ms|
  {
    var v := BuildVocab(order, ms);
    VocabLayout(order, ms);
    VocabCoversSymbols(order, ms);
    IndexMapSpec(v);
    SpecialStringsAreSymbols();
    var n := |v|;
    assert v[n - 2] == StartOfText && v[n - 1] == EndOfText;
  }

  /** The 512 byte entries are pairwise distinct. */
  lemma BaseEntriesDistinct(order: seq<Byte>)
    requires IsByteOrder(order)
    ensures Distinct(BaseEntries(order))
  {
    var base := BaseEntries(order);
    forall i, j | 0 <= i < j < |base|
      ensures base[i] != base[j]
    {
      SpecialStringsAreSymbols();
      if i / 2 == j / 2 {
        assert |base[i]| != |base[j]|;
      } else {
        ByteToSymbolInjective(order[i / 2], order[j / 2]);
        assert base[i][0] != base[j][0];
      }
    }
  }

  /** The vocabulary has no repeated entry as long as the merges'
      concatenations are pairwise distinct and differ from the byte entries
      and the special tokens. */
  lemma VocabDistinct(order: seq<Byte>, ms: seq<Merge>)
    requires IsByteOrder(order)
    requires Distinct(MergeEntries(ms))
    requires forall i :: 0 <= i < |ms| ==>
      ms[i].0 + ms[i].1 !in BaseEntries(order) + [StartOfText, EndOfText]
    ensures Distinct(BuildVocab(order, ms))
  {
    var base := BaseEntries(order);
    var me := MergeEntries(ms);
    var v := BuildVocab(order, ms);
    BaseEntriesDistinct(order);
    SpecialStringsAreSymbols();
    forall i, j | 0 <= i < j < |v|
      ensures v[i] != v[j]
    {
      var nb := |base|;
      var nm := |me|;
      if j < nb {
        assert v[i] == base[i] && v[j] == base[j];
      } else if j < nb + nm {
        if i >= nb {
          assert v[i] == me[i - nb] && v[j] == me[j - nb];
        } else {
          assert v[j] == me[j - nb];
          assert v[i] in base + [StartOfText, EndOfText];
        }
      } else if i < nb {
        assert |v[i]| <= 5;
      } else if i < nb + nm {
        assert v[i] == me[i - nb];
        assert v[j] in base + [StartOfText, EndOfText];
      }
    }
  }
}
