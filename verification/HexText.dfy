/** Hexadecimal text as the Go programs read it: go-ethereum's common.FromHex with the partial
    results of hex.DecodeString, and the ASCII case folding of strings.EqualFold.
    A char stands for one byte of a Go string. */
module HexText {
  import opened Bytes

  predicate IsHexDigit(c: char) {
    '0' <= c <= '9' || 'a' <= c <= 'f' || 'A' <= c <= 'F'
  }

  function Lower(c: char): (l: char)
    ensures 'A' <= c <= 'Z' <==> l != c
    ensures l != c ==> 'a' <= l <= 'z' && l as int - 'a' as int == c as int - 'A' as int
  {
    if 'A' <= c <= 'Z' then (c as int + 32) as char else c
  }

  function Nibble(c: char): (n: nat)
    requires IsHexDigit(c)
    ensures n < 16
  {
    if '0' <= c <= '9' then c as int - '0' as int
    else if 'a' <= c <= 'f' then c as int - 'a' as int + 10
    else c as int - 'A' as int + 10
  }

  /** The number a hex text stands for, in positional notation. */
  function ValueOf(s: string): nat
    requires AllHex(s)
  {
    if s == "" then 0 else 16 * ValueOf(s[..|s| - 1]) + Nibble(s[|s| - 1])
  }

  predicate EqualFold(a: string, b: string) {
    |a| == |b| && forall i :: 0 <= i < |a| ==> Lower(a[i]) == Lower(b[i])
  }

  /** strings.ToLower: the key under which the executor keeps the performer of an AVS address. */
  function ToLower(s: string): (l: string)
    ensures |l| == |s| && EqualFold(l, s)
  {
    seq(|s|, i requires 0 <= i < |s| => Lower(s[i]))
  }

  lemma LowerKeysAgreeIff(a: string, b: string)
    ensures ToLower(a) == ToLower(b) <==> EqualFold(a, b)
  {
    if EqualFold(a, b) {
      forall i | 0 <= i < |a| ensures ToLower(a)[i] == ToLower(b)[i] {}
    }
  }

  predicate AllHex(s: string) {
    forall i :: 0 <= i < |s| ==> IsHexDigit(s[i])
  }

  predicate Has0xPrefix(s: string) {
    |s| >= 2 && s[0] == '0' && (s[1] == 'x' || s[1] == 'X')
  }

  /** hex.DecodeString with its error ignored: the bytes before the first bad pair. */
  function DecodePairs(s: string): seq<byte> {
    if |s| < 2 || !IsHexDigit(s[0]) || !IsHexDigit(s[1]) then []
    else [16 * Nibble(s[0]) + Nibble(s[1])] + DecodePairs(s[2..])
  }

  /** common.FromHex */
  function FromHex(s: string): seq<byte> {
    var digits := if Has0xPrefix(s) then s[2..] else s;
    DecodePairs(if |digits| % 2 == 1 then "0" + digits else digits)
  }

  function HexToHash(s: string): (r: seq<byte>)
    ensures |r| == 32
  {
    FitLeft(FromHex(s), 32)
  }

  function HexToAddress(s: string): (r: seq<byte>)
    ensures |r| == 20
  {
    FitLeft(FromHex(s), 20)
  }

  /** "0x" followed by exactly n bytes of hex digits. */
  predicate IsFixedHex(s: string, n: nat) {
    |s| == 2 + 2 * n && s[..2] == "0x" && AllHex(s[2..])
  }

  // ----- what the decoded bytes are

  lemma NibbleIsPlace(c: char)
    requires IsHexDigit(c)
    ensures "0123456789abcdef"[Nibble(c)] == Lower(c)
  {
  }

  predicate GoodPair(s: string, k: nat) {
    2 * k + 1 < |s| && IsHexDigit(s[2 * k]) && IsHexDigit(s[2 * k + 1])
  }

  /** Decoding gives one byte per pair, high digit first, up to the first pair that is not one. */
  lemma {:induction false} DecodedPairs(s: string)
    ensures var b := DecodePairs(s);
            && 2 * |b| <= |s| && !GoodPair(s, |b|)
            && forall k :: 0 <= k < |b| ==> GoodPair(s, k) && b[k] == 16 * Nibble(s[2 * k]) + Nibble(s[2 * k + 1])
    decreases |s|
  {
    if GoodPair(s, 0) {
      var rest := s[2..];
      DecodedPairs(rest);
      var b := DecodePairs(s);
      forall k | 0 <= k < |b|
        ensures GoodPair(s, k) && b[k] == 16 * Nibble(s[2 * k]) + Nibble(s[2 * k + 1])
      {
        if k > 0 {
          assert GoodPair(rest, k - 1) && b[k] == DecodePairs(rest)[k - 1];
          assert rest[2 * (k - 1)] == s[2 * k] && rest[2 * (k - 1) + 1] == s[2 * k + 1];
        }
      }
      assert GoodPair(rest, |b| - 1) <==> GoodPair(s, |b|);
    }
  }

  lemma {:induction false} LeadingZeroDigit(s: string)
    requires AllHex(s)
    ensures AllHex("0" + s) && ValueOf("0" + s) == ValueOf(s)
    decreases |s|
  {
    var t := "0" + s;
    if s == "" {
      assert t[..0] == "";
    } else {
      assert t[..|t| - 1] == "0" + s[..|s| - 1];
      LeadingZeroDigit(s[..|s| - 1]);
    }
  }

  lemma {:induction false} PairsAppend(s: string, t: string)
    requires AllHex(s) && |s| % 2 == 0
    ensures DecodePairs(s + t) == DecodePairs(s) + DecodePairs(t)
    decreases |s|
  {
    if s == "" {
      assert s + t == t;
    } else {
      assert (s + t)[2..] == s[2..] + t;
      PairsAppend(s[2..], t);
    }
  }

  lemma {:induction false} PairsValue(s: string)
    requires AllHex(s) && |s| % 2 == 0
    ensures |DecodePairs(s)| == |s| / 2 && FromBE(DecodePairs(s)) == ValueOf(s)
    decreases |s|
  {
    if s != "" {
      var n := |s|;
      var front, last := s[..n - 2], s[n - 2..];
      PairsValue(front);
      PairsAppend(front, last);
      assert s == front + last && last[2..] == "";
      var byte := 16 * Nibble(s[n - 2]) + Nibble(s[n - 1]);
      assert DecodePairs(last) == [byte];
      var all := DecodePairs(s);
      assert all[..|all| - 1] == DecodePairs(front) && all[|all| - 1] == byte;
      assert s[..n - 1][..n - 2] == front;
      assert ValueOf(s[..n - 1]) == 16 * ValueOf(front) + Nibble(s[n - 2]);
    }
  }

  /** Hex text with its prefix decodes to the big-endian bytes of the number it stands for; with an odd
      number of digits, too. */
  lemma DecodedValue(body: string)
    requires AllHex(body)
    ensures var b := FromHex("0x" + body); |b| == (|body| + 1) / 2 && FromBE(b) == ValueOf(body)
  {
    var s := "0x" + body;
    assert s[2..] == body;
    if |body| % 2 == 1 {
      LeadingZeroDigit(body);
      PairsValue("0" + body);
    } else {
      PairsValue(body);
    }
  }

  /** A well-formed task id or address is, as a hash or an address, the number it spells. */
  lemma FixedHexValue(s: string, n: nat)
    requires IsFixedHex(s, n)
    ensures FromBE(FitLeft(FromHex(s), n)) == ValueOf(s[2..])
  {
    assert s == "0x" + s[2..];
    DecodedValue(s[2..]);
    assert FitLeft(FromHex(s), n)[0..] == FromHex(s);
  }

  // ----- letter case

  lemma LowerDecidesDigit(c: char, d: char)
    ensures Lower(c) == Lower(d) ==> IsHexDigit(c) == IsHexDigit(d)
    ensures IsHexDigit(c) && IsHexDigit(d) ==> (Lower(c) == Lower(d) <==> Nibble(c) == Nibble(d))
    ensures c == '0' || d == '0' ==> (Lower(c) == Lower(d) <==> c == d)
  {
  }

  lemma {:induction false} FoldedPairsDecodeAlike(a: string, b: string)
    requires EqualFold(a, b)
    ensures DecodePairs(a) == DecodePairs(b)
    decreases |a|
  {
    if |a| >= 2 {
      LowerDecidesDigit(a[0], b[0]);
      LowerDecidesDigit(a[1], b[1]);
      FoldedPairsDecodeAlike(a[2..], b[2..]);
    }
  }

  /** Letter case never changes what is decoded, for any two strings at all. */
  lemma FoldedHexDecodesAlike(a: string, b: string)
    requires EqualFold(a, b)
    ensures FromHex(a) == FromHex(b)
  {
    if |a| >= 2 {
      LowerDecidesDigit(a[0], b[0]);
      assert Lower(a[1]) == 'x' <==> a[1] == 'x' || a[1] == 'X';
      assert Lower(b[1]) == 'x' <==> b[1] == 'x' || b[1] == 'X';
    }
    assert Has0xPrefix(a) == Has0xPrefix(b);
    var da := if Has0xPrefix(a) then a[2..] else a;
    var db := if Has0xPrefix(b) then b[2..] else b;
    FoldedPairsDecodeAlike(da, db);
    FoldedPairsDecodeAlike("0" + da, "0" + db);
  }

  lemma {:induction false} DecodePairsFaithful(a: string, b: string)
    requires |a| == |b| && |a| % 2 == 0 && AllHex(a) && AllHex(b)
    ensures |DecodePairs(a)| == |a| / 2
    ensures DecodePairs(a) == DecodePairs(b) ==> EqualFold(a, b)
    decreases |a|
  {
    if |a| >= 2 {
      DecodePairsFaithful(a[2..], b[2..]);
      if DecodePairs(a) == DecodePairs(b) {
        assert DecodePairs(a)[0] == DecodePairs(b)[0];
        assert DecodePairs(a)[1..] == DecodePairs(a[2..]) && DecodePairs(b)[1..] == DecodePairs(b[2..]);
        LowerDecidesDigit(a[0], b[0]);
        LowerDecidesDigit(a[1], b[1]);
        forall i | 0 <= i < |a| ensures Lower(a[i]) == Lower(b[i]) {
          if i >= 2 { assert a[i] == a[2..][i - 2] && b[i] == b[2..][i - 2]; }
        }
      }
    }
  }

  lemma FoldBehindPrefix(a: string, b: string)
    requires |a| == |b| >= 2 && a[..2] == b[..2]
    ensures EqualFold(a, b) <==> EqualFold(a[2..], b[2..])
  {
    if EqualFold(a[2..], b[2..]) {
      forall i | 0 <= i < |a| ensures Lower(a[i]) == Lower(b[i]) {
        if i >= 2 {
          assert a[i] == a[2..][i - 2] && b[i] == b[2..][i - 2];
        } else {
          assert a[i] == a[..2][i] && b[i] == b[..2][i];
        }
      }
    }
  }

  lemma FixedHexBytes(a: string, n: nat)
    requires IsFixedHex(a, n)
    ensures FromHex(a) == DecodePairs(a[2..])
    ensures FromHex(a) == FitLeft(FromHex(a), n) && |FromHex(a)| == n
  {
    assert a[0] == a[..2][0] == '0' && a[1] == a[..2][1] == 'x';
    DecodePairsFaithful(a[2..], a[2..]);
    assert FitLeft(FromHex(a), n)[0..] == FromHex(a);
  }

  /** On well-formed text of one length the decoding loses the letter case and nothing else. */
  lemma FixedHexFaithful(a: string, b: string, n: nat)
    requires IsFixedHex(a, n) && IsFixedHex(b, n)
    ensures |FromHex(a)| == n
    ensures FitLeft(FromHex(a), n) == FitLeft(FromHex(b), n) <==> EqualFold(a, b)
  {
    FixedHexBytes(a, n);
    FixedHexBytes(b, n);
    FoldBehindPrefix(a, b);
    DecodePairsFaithful(a[2..], b[2..]);
    if EqualFold(a[2..], b[2..]) {
      FoldedPairsDecodeAlike(a[2..], b[2..]);
    }
  }
}
