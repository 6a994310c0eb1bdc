/** The fixed byte -> placeholder-symbol table (`bytes_to_unicode`) and its
    inverse (`byte_decoder`). Printable, non-space bytes stand for
    themselves; every other byte is given, in increasing byte order, the
    next code point from 256 upwards, so that no symbol is whitespace or a
    control character. */
module ByteTable {
  import opened Wrappers
  import opened Text

  /** The bytes in [33,126], [161,172] and [174,255]. */
  predicate Printable(b: int)
  {
    33 <= b <= 126 || 161 <= b <= 172 || 174 <= b <= 255
  }

  /** The number of non-printable bytes strictly below b. */
  function UnprintableBelow(b: int): (n: nat)
    requires 0 <= b <= 256
  {
    if b == 0 then 0 else UnprintableBelow(b - 1) + (if Printable(b - 1) then 0 else 1)
  }

  /** UnprintableBelow in closed form: 0..32, 127..160 and 173 are the 68
      non-printable bytes. */
  lemma {:induction false} UnprintableBelowValue(b: int)
    requires 0 <= b <= 256
    ensures UnprintableBelow(b) ==
      if b <= 33 then b
      else if b <= 127 then 33
      else if b <= 161 then 33 + (b - 127)
      else if b <= 173 then 67
      else 68
    decreases b
  {
    if b > 0 {
      UnprintableBelowValue(b - 1);
    }
  }

  /** The placeholder symbol of byte b: b itself when printable, otherwise
      256 + (number of non-printable bytes below b). */
  function ByteToSymbol(b: Byte): (c: int)
    ensures Printable(b) ==> c == b
    ensures !Printable(b) ==> c == 256 + UnprintableBelow(b)
    ensures 33 <= c < 324 && !IsSpace(c)
  {
    UnprintableBelowValue(b);
    if Printable(b) then b
    else if b <= 32 then 256 + b
    else if b <= 160 then 289 + (b - 127)
    else 323
  }

  /** The inverse of ByteToSymbol; None for code points that are not
      placeholder symbols. */
  function SymbolToByte(c: int): (r: Option<Byte>)
  {
    if 0 <= c < 256 && Printable(c) then Some(c)
    else if 256 <= c <= 288 then Some(c - 256)
    else if 289 <= c <= 322 then Some(c - 289 + 127)
    else if c == 323 then Some(173)
    else None
  }

  /** The two directions are mutually inverse, so the table is injective. */
  lemma SymbolRoundTrip(b: Byte, c: int)
    ensures SymbolToByte(ByteToSymbol(b)) == Some(b)
    ensures SymbolToByte(c) == Some(b) <==> ByteToSymbol(b) == c
  {
  }

  lemma ByteToSymbolInjective(a: Byte, b: Byte)
    requires a != b
    ensures ByteToSymbol(a) != ByteToSymbol(b)
  {
    SymbolRoundTrip(a, ByteToSymbol(a));
    SymbolRoundTrip(b, ByteToSymbol(b));
  }

  /** `byte_encoder` as a total map on 0..255. */
  function ByteEncoder(): (m: map<Byte, int>)
    ensures forall b :: 0 <= b < 256 ==> b in m && m[b] == ByteToSymbol(b)
  {
    map b: Byte | 0 <= b < 256 :: ByteToSymbol(b)
  }

  /** `byte_decoder`: the inverse of `byte_encoder`, keyed by symbol. */
  function ByteDecoder(): (m: map<int, Byte>)
    ensures forall c :: c in m <==> SymbolToByte(c).Some?
  {
    map c | 0 <= c < 324 && SymbolToByte(c).Some? :: SymbolToByte(c).value
  }

  /** The decoder's keys are exactly the encoder's values, and the two maps
      undo each other in both directions. */
  lemma EncoderDecoderInverse()
    ensures ByteDecoder().Keys == ByteEncoder().Values
    ensures forall b :: 0 <= b < 256 ==> ByteDecoder()[ByteEncoder()[b]] == b
    ensures forall c :: c in ByteDecoder() ==> ByteEncoder()[ByteDecoder()[c]] == c
  {
    var enc := ByteEncoder();
    var dec := ByteDecoder();
    forall c | c in dec
      ensures c in enc.Values && enc[dec[c]] == c
    {
      var b := SymbolToByte(c).value;
      SymbolRoundTrip(b, c);
      assert enc[b] == c;
    }
    forall c | c in enc.Values
      ensures c in dec
    {
      var b :| b in enc && enc[b] == c;
      SymbolRoundTrip(b, c);
    }
    forall b | 0 <= b < 256
      ensures dec[enc[b]] == b
    {
      SymbolRoundTrip(b, ByteToSymbol(b));
    }
  }

  /** The list `bs` starts from: 33..126, 161..172, 174..255 in order. */
  function PrintableBytes(): (bs: seq<Byte>)
    ensures forall c :: c in bs <==> 0 <= c < 256 && Printable(c)
  {
    var bs := seq(94, i requires 0 <= i < 94 => 33 + i)
      + seq(12, i requires 0 <= i < 12 => 161 + i)
      + seq(82, i requires 0 <= i < 82 => 174 + i);
    assert forall c :: 0 <= c < 256 && Printable(c) ==> c in bs by {
      forall c | 0 <= c < 256 && Printable(c)
        ensures c in bs
      {
        if c <= 126 {
          assert bs[c - 33] == c;
        } else if c <= 172 {
          assert bs[94 + c - 161] == c;
        } else {
          assert bs[106 + c - 174] == c;
        }
      }
    }
    bs
  }

  /** The non-printable bytes below b, in increasing order: what the middle
      loop of `bytes_to_unicode` has appended to `bs` before visiting b. */
  function Unprintables(b: int): (r: seq<Byte>)
    requires 0 <= b <= 256
    ensures |r| == UnprintableBelow(b)
  {
    if b == 0 then [] else Unprintables(b - 1) + (if Printable(b - 1) then [] else [b - 1])
  }

  lemma {:induction false} UnprintablesMembers(b: int)
    requires 0 <= b <= 256
    ensures forall c :: c in Unprintables(b) <==> 0 <= c < b && !Printable(c)
    decreases b
  {
    if b > 0 {
      UnprintablesMembers(b - 1);
    }
  }

  /** One step of the middle loop: b is in `bs` exactly when printable, and
      the extended list covers the bytes below b + 1. */
  lemma ExtendStep(printable: seq<Byte>, bs: seq<Byte>, b: int)
    requires 0 <= b < 256
    requires forall c :: c in printable <==> 0 <= c < 256 && Printable(c)
    requires bs == printable + Unprintables(b)
    ensures b in bs <==> Printable(b)
    ensures Printable(b) ==> bs == printable + Unprintables(b + 1)
    ensures !Printable(b) ==> bs + [b] == printable + Unprintables(b + 1)
  {
    UnprintablesMembers(b);
    assert Unprintables(b + 1) == Unprintables(b) + (if Printable(b) then [] else [b]);
  }

  /** The middle loop of `bytes_to_unicode`: every byte missing from `bs`
      is appended to it, in increasing order, and paired in `cs` with the
      next code point from 256 upwards. */
  method ExtendBytes() returns (bs: seq<Byte>, cs: seq<int>)
    ensures |cs| == |bs|
    ensures forall c :: 0 <= c < 256 ==> c in bs
    ensures forall i :: 0 <= i < |bs| ==> cs[i] == ByteToSymbol(bs[i])
  {
    var printable := PrintableBytes();
    bs := printable;
    cs := bs;
    var n := 0;
    for b := 0 to 256
      invariant bs == printable + Unprintables(b)
      invariant |cs| == |bs|
      invariant forall i :: 0 <= i < |bs| ==> cs[i] == ByteToSymbol(bs[i])
      invariant n == UnprintableBelow(b)
    {
      ExtendStep(printable, bs, b);
      if b !in bs {
        bs := bs + [b];
        cs := cs + [256 + n];
        n := n + 1;
      }
    }
    UnprintablesMembers(256);
  }

  /** `bytes_to_unicode` with its intended final step: the extended byte list
      `bs` is zipped with the symbol list `cs`, so byte bs[i] gets cs[i]. */
  method BytesToUnicode() returns (table: map<Byte, int>)
    ensures forall b :: 0 <= b < 256 ==> b in table && table[b] == ByteToSymbol(b)
  {
    var bs, cs := ExtendBytes();
    table := map[];
    for i := 0 to |bs|
      invariant forall j :: 0 <= j < i ==> bs[j] in table && table[bs[j]] == ByteToSymbol(bs[j])
    {
      table := table[bs[i] := cs[i]];
    }
    forall b | 0 <= b < 256
      ensures b in table && table[b] == ByteToSymbol(b)
    {
      assert b in bs;
      var j :| 0 <= j < |bs| && bs[j] == b;
    }
  }

  /** `bytes_to_unicode` exactly as written: after extending `bs`, the last
      loop walks `bs` (now every byte) and stores each byte as itself,
      overwriting the placeholders assigned in the middle loop. The middle
      loop's `static_cast<char>(256 + n)` keeps only the low byte, n. */
  method BytesToUnicodeAsWritten() returns (table: map<Byte, int>)
    ensures forall b :: 0 <= b < 256 ==> b in table && table[b] == b
  {
    var bs := PrintableBytes();
    table := map[];
    var n := 0;
    for b := 0 to 256
      invariant forall c :: c in bs ==> Printable(c) || c < b
      invariant forall c :: 0 <= c < 256 && Printable(c) ==> c in bs
      invariant forall c :: 0 <= c < b ==> c in bs
    {
      if b !in bs {
        bs := bs + [b];
        table := table[b := (256 + n) % 256];
        n := n + 1;
      }
    }
    for i := 0 to |bs|
      invariant forall j :: 0 <= j < i ==> bs[j] in table && table[bs[j]] == bs[j]
    {
      table := table[bs[i] := bs[i]];
    }
    forall b | 0 <= b < 256
      ensures b in table && table[b] == b
    {
      assert b in bs;
      var j :| 0 <= j < |bs| && bs[j] == b;
    }
  }

  /** The as-written table sends the space byte to the space character, which
      the pre-tokenizer and the space-joined BPE output treat as a separator;
      the intended table sends it to the placeholder 288. */
  lemma AsWrittenKeepsSpace(asWritten: map<Byte, int>)
    requires forall b :: 0 <= b < 256 ==> b in asWritten && asWritten[b] == b
    ensures IsSpace(asWritten[32])
    ensures ByteToSymbol(32) == 288 && !IsSpace(ByteToSymbol(32))
  {
  }
}
