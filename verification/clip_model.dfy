/** The pure parts of the model wrapper `OnnxClip` (model.cpp): splitting a
    list into batches, and laying the tokenized texts out as the flat id
    buffer handed to the text model. */
module ClipModel {
  import opened Wrappers
  import opened Seqs
  import opened Text
  import opened Tokenizer

  /** The number of batches: |items| / size, rounded up. */
  lemma BatchCount(size: int, full: nat, rest: nat)
    requires size >= 1 && rest < size
    ensures (size * full + rest + size - 1) / size == full + (if rest > 0 then 1 else 0)
  {
    var q := full + (if rest > 0 then 1 else 0);
    var x := size * full + rest + size - 1;
    assert size * q <= x < size * q + size;
    DivUnique(x, size, q);
  }

  lemma DivUnique(x: int, d: int, q: int)
    requires d > 0 && d * q <= x < d * q + d
    ensures x / d == q
  {
    var k := x / d;
    assert x == d * k + x % d;
    assert 0 <= x % d < d;
    if k > q {
      MulMono(d, q + 1, k);
    } else if k < q {
      MulMono(d, k + 1, q);
    }
  }

  lemma MulMono(d: int, a: int, b: int)
    requires d > 0 && a <= b
    ensures d * a <= d * b
  {
  }

  /** `toBatches(items, size)`: the items cut into consecutive batches of
      `size`, the last one possibly shorter; a size below 1 is an error. */
  method ToBatches<T>(items: seq<T>, size: int) returns (r: Result<seq<seq<T>>, string>)
    ensures r.Failure? <==> size < 1
    ensures r.Success? ==> Flatten(r.value) == items
    ensures r.Success? ==> forall i :: 0 <= i < |r.value| ==> 0 < |r.value[i]| <= size
    ensures r.Success? ==> forall i :: 0 <= i < |r.value| - 1 ==> |r.value[i]| == size
    ensures r.Success? ==> |r.value| == (|items| + size - 1) / size
  {
    if size < 1 {
      return Failure("Batch size must be positive");
    }
    var batches: seq<seq<T>> := [];
    var current: seq<T> := [];
    var k := 0;
    while k < |items|
      invariant 0 <= k <= |items|
      invariant Flatten(batches) + current == items[..k]
      invariant forall i :: 0 <= i < |batches| ==> |batches[i]| == size
      invariant |Flatten(batches)| == size * |batches|
      invariant |current| < size
    {
      assert items[..k + 1] == items[..k] + [items[k]];
      current := current + [items[k]];
      if |current| == size {
        FlattenAppend(batches, [current]);
        FlattenSingle(current);
        MulSucc(size, |batches|);
        batches := batches + [current];
        current := [];
      }
      k := k + 1;
    }
    assert items[..k] == items;
    BatchCount(size, |batches|, |current|);
    if |current| > 0 {
      FlattenAppend(batches, [current]);
      FlattenSingle(current);
      batches := batches + [current];
    }
    return Success(batches);
  }

  /** The window `encode_text(text, 77, true)` produces for one text. */
  function TextRow(t: ClipTokenizer, text: seq<Byte>): (row: seq<int>)
    ensures |row| == 77
  {
    Window(EncodeReference(t, text), 77, 512 + |t.merges|, 513 + |t.merges|)
  }

  /** Only the cache differs, and the cache does not change the ids. */
  lemma RowIgnoresCache(t: ClipTokenizer, u: ClipTokenizer, text: seq<Byte>)
    requires u == t.(cache := u.cache)
    ensures TextRow(u, text) == TextRow(t, text)
  {
  }

  /** The windows of the texts, in order. */
  function Rows(t: ClipTokenizer, texts: seq<seq<Byte>>): (rows: seq<seq<int>>)
  {
    MapSeq((x: seq<Byte>) => TextRow(t, x), texts)
  }

  /** The first loop of `getTextEmbeddings`: `encode_text(text, 77, true)`
      for each text in turn, the cache carried from one call to the next. */
  method TokenizeAll(t: ClipTokenizer, texts: seq<seq<Byte>>) returns (rows: seq<seq<int>>, t': ClipTokenizer)
    requires Valid(t)
    ensures rows == Rows(t, texts)
    ensures Valid(t') && t' == t.(cache := t'.cache)
  {
    rows := [];
    t' := t;
    var k := 0;
    while k < |texts|
      invariant 0 <= k <= |texts|
      invariant Valid(t') && t' == t.(cache := t'.cache)
      invariant rows == Rows(t, texts[..k])
    {
      rows, t' := TokenizeNext(t, t', texts, k, rows);
      k := k + 1;
    }
    assert texts[..k] == texts;
  }

  /** One round of that loop: encode text k and append its window. */
  method TokenizeNext(t: ClipTokenizer, u: ClipTokenizer, texts: seq<seq<Byte>>, k: nat, rows: seq<seq<int>>)
    returns (rows': seq<seq<int>>, u': ClipTokenizer)
    requires Valid(u) && u == t.(cache := u.cache)
    requires k < |texts| && rows == Rows(t, texts[..k])
    ensures rows' == Rows(t, texts[..k + 1])
    ensures Valid(u') && u' == t.(cache := u'.cache)
  {
    var row;
    row, u' := EncodeText(u, texts[k], 77, true);
    RowIgnoresCache(t, u, texts[k]);
    rows' := rows + [row];
    RowsSnoc(t, texts, k);
  }

  lemma RowsSnoc(t: ClipTokenizer, texts: seq<seq<Byte>>, k: nat)
    requires k < |texts|
    ensures Rows(t, texts[..k + 1]) == Rows(t, texts[..k]) + [TextRow(t, texts[k])]
  {
    assert texts[..k + 1][..k] == texts[..k];
  }

  /** The second loop: the rows appended one after another. */
  method FlattenRows<T>(rows: seq<seq<T>>) returns (flat: seq<T>)
    ensures flat == Flatten(rows)
  {
    flat := [];
    var j := 0;
    while j < |rows|
      invariant 0 <= j <= |rows|
      invariant flat == Flatten(rows[..j])
    {
      assert rows[..j + 1][..j] == rows[..j];
      flat := flat + rows[j];
      j := j + 1;
    }
    assert rows[..j] == rows;
  }

  /** The token buffer of `getTextEmbeddings` (unbatched path): each text
      encoded into a window of 77 ids, the windows laid end to end, so text
      i occupies positions [77 i, 77 i + 77). */
  method TextTokens(t: ClipTokenizer, texts: seq<seq<Byte>>) returns (flat: seq<int>, t': ClipTokenizer)
    requires Valid(t)
    ensures |flat| == 77 * |texts|
    ensures forall i :: 0 <= i < |texts| ==>
      77 * i + 77 <= |flat| && flat[77 * i .. 77 * i + 77] == TextRow(t, texts[i])
    ensures Valid(t') && t' == t.(cache := t'.cache)
  {
    var rows;
    rows, t' := TokenizeAll(t, texts);
    flat := FlattenRows(rows);
    RowsLaidOut(t, texts);
  }

  /** Text i's window sits at [77 i, 77 i + 77) of the flattened rows. */
  lemma RowsLaidOut(t: ClipTokenizer, texts: seq<seq<Byte>>)
    ensures |Flatten(Rows(t, texts))| == 77 * |texts|
    ensures forall i :: 0 <= i < |texts| ==>
      77 * i + 77 <= |Flatten(Rows(t, texts))| &&
      Flatten(Rows(t, texts))[77 * i .. 77 * i + 77] == TextRow(t, texts[i])
  {
    FlattenMapped((x: seq<Byte>) => TextRow(t, x), texts, 77);
  }
}
