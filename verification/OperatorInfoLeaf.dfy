/** EncodeOperatorInfoLeaf of ponos/pkg/util/encode.go. Packing follows the Solidity Contract ABI
    Specification, section "Formal Specification of the Encoding", for the three kinds of value the
    operator-info struct is made of. */
module OperatorInfoLeaf {
  import opened Bytes
  import opened Wrappers

  datatype Value = Uint(n: int) | Tuple(fields: seq<Value>) | DynArray(elems: seq<Value>)

  const MODULUS := 0x1_0000_0000_0000_0000_0000_0000_0000_0000_0000_0000_0000_0000_0000_0000_0000_0000

  lemma ModulusIsPower()
    ensures Pow256(32) == MODULUS
  {
    PowerOfSum(8, 8);
    PowerOfSum(16, 16);
    Pow256Values();
  }

  lemma {:induction false} PowerOfSum(m: nat, n: nat)
    ensures Pow256(m + n) == Pow256(m) * Pow256(n)
  {
    if m > 0 {
      PowerOfSum(m - 1, n);
    }
  }

  /** uint256 as one word; a number outside the range is reduced modulo 2^256. */
  function Word(v: int): (w: seq<byte>)
    ensures |w| == 32
  {
    ToBE(v % MODULUS, 32)
  }

  predicate IsDynamic(v: Value) {
    match v
    case Uint(_) => false
    case DynArray(_) => true
    case Tuple(fs) => exists i :: 0 <= i < |fs| && IsDynamic(fs[i])
  }

  function Encode(v: Value): seq<byte>
    decreases v, 0
  {
    match v
    case Uint(n) => Word(n)
    case Tuple(fs) => EncodeFields(fs)
    case DynArray(es) => Word(|es|) + EncodeFields(es)
  }

  /** Heads first, then the tails of the dynamic components; a dynamic head is the offset of its tail. */
  function EncodeFields(fs: seq<Value>): seq<byte>
    decreases fs, 2
  {
    Heads(fs, HeadLength(fs)) + Tails(fs)
  }

  function HeadLength(fs: seq<Value>): nat
    decreases fs, 1
  {
    if fs == [] then 0
    else (if IsDynamic(fs[0]) then 32 else |Encode(fs[0])|) + HeadLength(fs[1..])
  }

  function Heads(fs: seq<Value>, offset: nat): seq<byte>
    decreases fs, 1
  {
    if fs == [] then []
    else if IsDynamic(fs[0]) then Word(offset) + Heads(fs[1..], offset + |Encode(fs[0])|)
    else Encode(fs[0]) + Heads(fs[1..], offset)
  }

  function Tails(fs: seq<Value>): seq<byte>
    decreases fs, 1
  {
    if fs == [] then []
    else (if IsDynamic(fs[0]) then Encode(fs[0]) else []) + Tails(fs[1..])
  }

  const SALT: byte := 0x75

  function Uints(ws: seq<int>): (vs: seq<Value>)
    ensures |vs| == |ws| && forall i :: 0 <= i < |ws| ==> vs[i] == Uint(ws[i])
  {
    seq(|ws|, i requires 0 <= i < |ws| => Uint(ws[i]))
  }

  function OperatorInfo(x: int, y: int, weights: seq<int>): Value {
    Tuple([Tuple([Uint(x), Uint(y)]), DynArray(Uints(weights))])
  }

  function EncodeOperatorInfoLeaf(x: int, y: int, weights: seq<int>): seq<byte> {
    [SALT] + EncodeFields([OperatorInfo(x, y, weights)])
  }

  // ----- the flat layout

  function Words(ws: seq<int>): (b: seq<byte>)
    ensures |b| == 32 * |ws|
  {
    if ws == [] then [] else Word(ws[0]) + Words(ws[1..])
  }

  /** Salt, offset of the struct, X, Y, offset of the list, length, weights. */
  function FlatParts(structOffset: nat, x: int, y: int, listOffset: nat, weights: seq<int>): (b: seq<byte>)
    ensures |b| == 161 + 32 * |weights|
  {
    [SALT] + (Word(structOffset)
              + (Word(x) + (Word(y) + (Word(listOffset) + (Word(|weights|) + Words(weights))))))
  }

  function FlatLeaf(x: int, y: int, weights: seq<int>): seq<byte> {
    FlatParts(0x20, x, y, 0x60, weights)
  }

  lemma {:induction false} StaticFields(ws: seq<int>, offset: nat)
    ensures Heads(Uints(ws), offset) == Words(ws) && Tails(Uints(ws)) == []
    ensures HeadLength(Uints(ws)) == 32 * |ws|
  {
    if ws != [] {
      assert Uints(ws)[0] == Uint(ws[0]) && Uints(ws)[1..] == Uints(ws[1..]);
      StaticFields(ws[1..], offset);
    }
  }

  lemma PairOfFields(f: Value, g: Value, offset: nat)
    requires !IsDynamic(f) && IsDynamic(g)
    ensures HeadLength([f, g]) == |Encode(f)| + 32
    ensures Heads([f, g], offset) == Encode(f) + Word(offset)
    ensures Tails([f, g]) == Encode(g)
  {
    assert [f, g][1..] == [g] && [g][1..] == [];
    assert HeadLength([g]) == 32;
    assert Heads([g], offset) == Word(offset) + [];
    assert Tails([g]) == Encode(g) + [];
    assert Tails([f, g]) == [] + Tails([g]);
  }

  lemma KeyEncoding(x: int, y: int)
    ensures Encode(Tuple([Uint(x), Uint(y)])) == Word(x) + Word(y)
  {
    assert Uints([x, y]) == [Uint(x), Uint(y)];
    StaticFields([x, y], HeadLength(Uints([x, y])));
    assert [x, y][1..] == [y] && [y][1..] == [];
    assert Words([y]) == Word(y) + [];
    assert Words([x, y]) == Word(x) + Word(y);
  }

  lemma WeightsEncoding(weights: seq<int>)
    ensures Encode(DynArray(Uints(weights))) == Word(|weights|) + Words(weights)
  {
    StaticFields(weights, HeadLength(Uints(weights)));
  }

  lemma StructEncoding(f: Value, g: Value)
    requires !IsDynamic(f) && IsDynamic(g)
    ensures Encode(Tuple([f, g])) == Encode(f) + Word(|Encode(f)| + 32) + Encode(g)
  {
    PairOfFields(f, g, |Encode(f)| + 32);
  }

  lemma SingleArgument(arg: Value)
    requires IsDynamic(arg)
    ensures EncodeFields([arg]) == Word(32) + Encode(arg)
  {
    var rest := [arg][1..];
    assert rest == [] && HeadLength(rest) == 0 && Heads(rest, 32 + |Encode(arg)|) == [] && Tails(rest) == [];
    assert HeadLength([arg]) == 32;
  }

  /** Packing the struct as one argument gives exactly the six-part layout. */
  lemma LeafLayout(x: int, y: int, weights: seq<int>)
    ensures EncodeOperatorInfoLeaf(x, y, weights) == FlatLeaf(x, y, weights)
  {
    var key, list := Tuple([Uint(x), Uint(y)]), DynArray(Uints(weights));
    KeyEncoding(x, y);
    WeightsEncoding(weights);
    StructEncoding(key, list);
    var arg := OperatorInfo(x, y, weights);
    assert arg.fields[1] == list;
    SingleArgument(arg);
  }

  lemma LeafStartsWithSalt(x: int, y: int, weights: seq<int>)
    ensures |EncodeOperatorInfoLeaf(x, y, weights)| == 1 + 32 * (5 + |weights|)
    ensures EncodeOperatorInfoLeaf(x, y, weights)[0] == 0x75
  {
    LeafLayout(x, y, weights);
  }

  // ----- decoding

  datatype Info = Info(x: int, y: int, weights: seq<int>)

  function Unwords(b: seq<byte>): seq<int> {
    if |b| < 32 then [] else [FromBE(b[..32])] + Unwords(b[32..])
  }

  /** Reads the parts one after the other; every part but the first and the last is one word. */
  function DecodeParts(structOffset: nat, listOffset: nat, b: seq<byte>): Option<Info> {
    if |b| < 161 || b[0] != SALT then None
    else
      var fromOffset := b[1..];
      var fromX := fromOffset[32..];
      var fromY := fromX[32..];
      var fromListOffset := fromY[32..];
      var fromLength := fromListOffset[32..];
      var words := fromLength[32..];
      if fromOffset[..32] != Word(structOffset) || fromListOffset[..32] != Word(listOffset) || |words| % 32 != 0
         || fromLength[..32] != Word(|words| / 32) then None
      else Some(Info(FromBE(fromX[..32]), FromBE(fromY[..32]), Unwords(words)))
  }

  function DecodeLeaf(b: seq<byte>): Option<Info> {
    DecodeParts(0x20, 0x60, b)
  }

  function Reduced(ws: seq<int>): (r: seq<int>)
    ensures |r| == |ws| && forall i :: 0 <= i < |ws| ==> r[i] == ws[i] % MODULUS
  {
    seq(|ws|, i requires 0 <= i < |ws| => ws[i] % MODULUS)
  }

  lemma {:induction false} WordsRoundTrip(ws: seq<int>)
    ensures Unwords(Words(ws)) == Reduced(ws)
  {
    if ws != [] {
      WordsRoundTrip(ws[1..]);
      WordValue(ws[0]);
      assert Words(ws)[..32] == Word(ws[0]) && Words(ws)[32..] == Words(ws[1..]);
      assert Reduced(ws) == [ws[0] % MODULUS] + Reduced(ws[1..]);
    } else {
      assert Reduced(ws) == [];
    }
  }

  lemma FirstWord(w: seq<byte>, rest: seq<byte>)
    requires |w| == 32
    ensures (w + rest)[..32] == w && (w + rest)[32..] == rest
  {
  }

  /** Cutting off one word after the other gives the parts back. */
  lemma Slices(w0: seq<byte>, w1: seq<byte>, w2: seq<byte>, w3: seq<byte>, w4: seq<byte>, words: seq<byte>)
    requires |w0| == |w1| == |w2| == |w3| == |w4| == 32
    ensures var b0 := ([SALT] + (w0 + (w1 + (w2 + (w3 + (w4 + words))))))[1..];
            var b1 := b0[32..]; var b2 := b1[32..]; var b3 := b2[32..]; var b4 := b3[32..];
            b0[..32] == w0 && b1[..32] == w1 && b2[..32] == w2 && b3[..32] == w3 && b4[..32] == w4
            && b4[32..] == words
  {
    FirstWord(w4, words);
    FirstWord(w3, w4 + words);
    FirstWord(w2, w3 + (w4 + words));
    FirstWord(w1, w2 + (w3 + (w4 + words)));
    FirstWord(w0, w1 + (w2 + (w3 + (w4 + words))));
    var rest := w0 + (w1 + (w2 + (w3 + (w4 + words))));
    assert ([SALT] + rest)[1..] == rest;
  }

  lemma FlatRoundTrip(structOffset: nat, x: int, y: int, listOffset: nat, weights: seq<int>)
    ensures DecodeParts(structOffset, listOffset, FlatParts(structOffset, x, y, listOffset, weights))
            == Some(Info(FromBE(Word(x)), FromBE(Word(y)), Unwords(Words(weights))))
  {
    var words := Words(weights);
    assert |words| % 32 == 0 && |words| / 32 == |weights|;
    Slices(Word(structOffset), Word(x), Word(y), Word(listOffset), Word(|weights|), words);
  }

  /** Decoding the leaf gives back the key and every weight, for any number of weights. */
  lemma LeafRoundTrip(x: int, y: int, weights: seq<int>)
    ensures DecodeLeaf(EncodeOperatorInfoLeaf(x, y, weights))
            == Some(Info(x % MODULUS, y % MODULUS, Reduced(weights)))
  {
    LeafLayout(x, y, weights);
    FlatRoundTrip(0x20, x, y, 0x60, weights);
    WordValue(x);
    WordValue(y);
    WordsRoundTrip(weights);
  }

  lemma WordValue(v: int)
    ensures FromBE(Word(v)) == v % MODULUS
  {
    ModulusIsPower();
    FromToBE(v % MODULUS, 32);
  }

  lemma InRange(v: int)
    requires 0 <= v < MODULUS
    ensures v % MODULUS == v
  {
  }

  lemma WordOfNumber(b: seq<byte>)
    requires |b| == 32
    ensures Word(FromBE(b)) == b
  {
    ModulusIsPower();
    ToFromBE(b);
    InRange(FromBE(b));
    assert Word(FromBE(b)) == ToBE(FromBE(b), |b|);
  }

  lemma {:induction false} UnwordsInvert(b: seq<byte>)
    requires |b| % 32 == 0
    ensures 32 * |Unwords(b)| == |b| && Words(Unwords(b)) == b
    decreases |b|
  {
    if |b| >= 32 {
      UnwordsInvert(b[32..]);
      WordOfNumber(b[..32]);
      assert Unwords(b)[1..] == Unwords(b[32..]);
      assert b == b[..32] + b[32..];
    } else {
      assert b == [];
    }
  }

  lemma Unsliced(b: seq<byte>)
    requires |b| >= 161
    ensures var b0 := b[1..];
            var b1 := b0[32..]; var b2 := b1[32..]; var b3 := b2[32..]; var b4 := b3[32..];
            b == [b[0]] + (b0[..32] + (b1[..32] + (b2[..32] + (b3[..32] + (b4[..32] + b4[32..])))))
  {
    var b0 := b[1..];
    var b1 := b0[32..];
    var b2 := b1[32..];
    var b3 := b2[32..];
    var b4 := b3[32..];
    SplitWord(b4);
    SplitWord(b3);
    SplitWord(b2);
    SplitWord(b1);
    SplitWord(b0);
    assert b == [b[0]] + b0;
  }

  lemma DecodedParts(structOffset: nat, listOffset: nat, b: seq<byte>)
    requires DecodeParts(structOffset, listOffset, b).Some?
    ensures var i := DecodeParts(structOffset, listOffset, b).value;
            FlatParts(structOffset, i.x, i.y, listOffset, i.weights) == b
  {
    var b1 := b[1..][32..];
    var b2 := b1[32..];
    var words := b2[32..][32..][32..];
    UnwordsInvert(words);
    assert |Unwords(words)| == |words| / 32;
    var x, y := FromBE(b1[..32]), FromBE(b2[..32]);
    assert Word(x) == b1[..32] by { WordOfNumber(b1[..32]); }
    assert Word(y) == b2[..32] by { WordOfNumber(b2[..32]); }
    Unsliced(b);
  }

  /** Whatever decodes is the encoding of what it decodes to: the decoder accepts no second form. */
  lemma DecodedLeafIsCanonical(b: seq<byte>)
    requires DecodeLeaf(b).Some?
    ensures var i := DecodeLeaf(b).value; EncodeOperatorInfoLeaf(i.x, i.y, i.weights) == b
  {
    var i := DecodeLeaf(b).value;
    DecodedParts(0x20, 0x60, b);
    LeafLayout(i.x, i.y, i.weights);
  }

  lemma SplitWord(b: seq<byte>)
    requires |b| >= 32
    ensures b == b[..32] + b[32..]
  {
  }

  /** Two leaves are equal exactly when key and weights agree modulo 2^256, weight by weight. */
  lemma LeafInjective(x: int, y: int, ws: seq<int>, x': int, y': int, ws': seq<int>)
    ensures EncodeOperatorInfoLeaf(x, y, ws) == EncodeOperatorInfoLeaf(x', y', ws') <==>
            x % MODULUS == x' % MODULUS && y % MODULUS == y' % MODULUS && Reduced(ws) == Reduced(ws')
  {
    LeafRoundTrip(x, y, ws);
    LeafRoundTrip(x', y', ws');
    if x % MODULUS == x' % MODULUS && y % MODULUS == y' % MODULUS && Reduced(ws) == Reduced(ws') {
      LeafLayout(x, y, ws);
      LeafLayout(x', y', ws');
      SameWords(ws, ws');
    }
  }

  lemma {:induction false} SameWords(ws: seq<int>, ws': seq<int>)
    requires Reduced(ws) == Reduced(ws')
    ensures |ws| == |ws'| && Words(ws) == Words(ws')
  {
    assert |Reduced(ws)| == |Reduced(ws')|;
    if ws != [] {
      assert Reduced(ws)[0] == Reduced(ws')[0];
      assert Reduced(ws[1..]) == Reduced(ws)[1..] && Reduced(ws'[1..]) == Reduced(ws')[1..];
      SameWords(ws[1..], ws'[1..]);
    }
  }
}
