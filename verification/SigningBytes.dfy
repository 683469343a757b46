/** The bytes that aggregator and executor sign: ponos/pkg/util/signatures.go,
    ponos/pkg/util/taskMessageVersion.go and AuthSignatureData in ponos/pkg/types/task.go. */
module SigningBytes {
  import opened Bytes
  import opened HexText
  import opened Wrappers

  type uint32 = n: int | 0 <= n < 0x1_0000_0000
  type uint64 = n: int | 0 <= n < 0x1_0000_0000_0000_0000
  type Digest = d: seq<byte> | |d| == 32 witness Zeros(32)

  datatype SubmissionData = SubmissionData(
    taskId: string, avsAddress: string, executorAddress: string,
    operatorSetId: uint32, blockNumber: uint64, payloadDigest: Digest, timestamp: uint32)

  /** Both 160-byte records: TaskResultSignatureData and AuthSignatureData. */
  datatype ResultData = ResultData(
    taskId: string, avsAddress: string, operatorAddress: string, operatorSetId: uint32, digest: Digest)

  /** What survives in the bytes: hashes and addresses as numbers of fixed width. */
  datatype CanonicalSubmission = CanonicalSubmission(
    taskId: seq<byte>, avs: seq<byte>, executor: seq<byte>,
    operatorSetId: nat, timestamp: nat, blockNumber: nat, payloadDigest: seq<byte>)

  datatype CanonicalResult = CanonicalResult(
    taskId: seq<byte>, avs: seq<byte>, operator: seq<byte>, operatorSetId: nat, digest: seq<byte>)

  function Canonical(d: SubmissionData): CanonicalSubmission {
    CanonicalSubmission(HexToHash(d.taskId), HexToAddress(d.avsAddress), HexToAddress(d.executorAddress),
                        d.operatorSetId, d.timestamp, d.blockNumber, d.payloadDigest)
  }

  function CanonicalOfResult(d: ResultData): CanonicalResult {
    CanonicalResult(HexToHash(d.taskId), HexToAddress(d.avsAddress), HexToAddress(d.operatorAddress),
                    d.operatorSetId, d.digest)
  }

  /** Reference layout: every field as one 32-byte ABI word, in this order. */
  function SubmissionWords(d: SubmissionData): (b: seq<byte>)
    ensures |b| == 224
  {
    HexToHash(d.taskId) + FitLeft(HexToAddress(d.avsAddress), 32) + FitLeft(HexToAddress(d.executorAddress), 32)
    + ToBE(d.operatorSetId, 32) + ToBE(d.timestamp, 32) + ToBE(d.blockNumber, 32) + d.payloadDigest
  }

  function ResultWords(d: ResultData): (b: seq<byte>)
    ensures |b| == 160
  {
    HexToHash(d.taskId) + FitLeft(HexToAddress(d.avsAddress), 32) + FitLeft(HexToAddress(d.operatorAddress), 32)
    + ToBE(d.operatorSetId, 32) + d.digest
  }

  /** binary.BigEndian.PutUint32 into b[off..off+4]. */
  method PutUint32(b: array<byte>, off: nat, v: uint32)
    requires off + 4 <= b.Length
    modifies b
    ensures b[..] == old(b[..off]) + ToBE(v, 4) + old(b[off + 4..])
    ensures b[off] == v / 0x100_0000 && b[off + 3] == v % 256
  {
    ghost var before := b[..];
    b[off] := v / 0x100_0000;
    b[off + 1] := v / 0x1_0000 % 256;
    b[off + 2] := v / 0x100 % 256;
    b[off + 3] := v % 256;
    FourBytes(v, 0);
    FourWrites(before, b[..], off, ToBE(v, 4));
  }

  /** binary.BigEndian.PutUint64 into b[off..off+8], as two halves. */
  method PutUint64(b: array<byte>, off: nat, v: uint64)
    requires off + 8 <= b.Length
    modifies b
    ensures b[..] == old(b[..off]) + ToBE(v, 8) + old(b[off + 8..])
  {
    var hi, lo := v / 0x1_0000_0000, v % 0x1_0000_0000;
    ghost var before := b[..];
    PutUint32(b, off, hi);
    ghost var between := b[..];
    PutUint32(b, off + 4, lo);
    JoinHalves(before, between, b[..], off, ToBE(hi, 4), ToBE(lo, 4));
    HalfWords(v, hi, lo);
  }

  /** The last four base-256 digits of v. */
  function LowFour(v: nat): (b: seq<byte>)
    ensures |b| == 4
  {
    [v / 0x100_0000 % 256, v / 0x1_0000 % 256, v / 0x100 % 256, v % 256]
  }

  lemma FourBytes(v: nat, width: nat)
    ensures ToBE(v, width + 4) == ToBE(v / 0x1_0000_0000, width) + LowFour(v)
  {
    var v1, v2, v3 := v / 256, v / 256 / 256, v / 256 / 256 / 256;
    assert ToBE(v, width + 4) == ToBE(v1, width + 3) + [v % 256];
    assert ToBE(v1, width + 3) == ToBE(v2, width + 2) + [v1 % 256];
    assert ToBE(v2, width + 2) == ToBE(v3, width + 1) + [v2 % 256];
    assert ToBE(v3, width + 1) == ToBE(v3 / 256, width) + [v3 % 256];
    assert v3 / 256 == v / 0x1_0000_0000 && v3 == v / 0x100_0000 && v2 == v / 0x1_0000;
  }

  lemma FourWrites(before: seq<byte>, after: seq<byte>, off: nat, w: seq<byte>)
    requires off + 4 <= |before| == |after| && |w| == 4
    requires after == before[off := w[0]][off + 1 := w[1]][off + 2 := w[2]][off + 3 := w[3]]
    ensures after == before[..off] + w + before[off + 4..]
  {
  }

  lemma JoinHalves(before: seq<byte>, between: seq<byte>, after: seq<byte>, off: nat, h: seq<byte>, l: seq<byte>)
    requires off + 8 <= |before| && |h| == 4 && |l| == 4
    requires between == before[..off] + h + before[off + 4..]
    requires after == between[..off + 4] + l + between[off + 8..]
    ensures after == before[..off] + (h + l) + before[off + 8..]
  {
    assert between[..off + 4] == before[..off] + h;
    assert between[off + 8..] == before[off + 8..];
  }

  lemma LowDigit3(v: nat, hi: nat, lo: nat)
    requires v == hi * 0x1_0000_0000 + lo
    ensures v / 0x100_0000 % 256 == lo / 0x100_0000 % 256
  {
    var q, r := lo / 0x100_0000, lo % 0x100_0000;
    assert v == 0x100_0000 * (hi * 256 + q) + r;
    assert v / 0x100_0000 == hi * 256 + q;
  }

  lemma LowDigit2(v: nat, hi: nat, lo: nat)
    requires v == hi * 0x1_0000_0000 + lo
    ensures v / 0x1_0000 % 256 == lo / 0x1_0000 % 256
  {
    var q, r := lo / 0x1_0000, lo % 0x1_0000;
    assert v == 0x1_0000 * (hi * 0x1_0000 + q) + r;
    assert v / 0x1_0000 == hi * 0x1_0000 + q;
  }

  lemma LowDigit1(v: nat, hi: nat, lo: nat)
    requires v == hi * 0x1_0000_0000 + lo
    ensures v / 0x100 % 256 == lo / 0x100 % 256
    ensures v % 256 == lo % 256
  {
    var q, r := lo / 0x100, lo % 0x100;
    assert v == 0x100 * (hi * 0x100_0000 + q) + r;
    assert v / 0x100 == hi * 0x100_0000 + q;
  }

  lemma LowFourOfLow(v: nat, hi: nat, lo: nat)
    requires v == hi * 0x1_0000_0000 + lo
    ensures LowFour(v) == LowFour(lo)
  {
    LowDigit3(v, hi, lo);
    LowDigit2(v, hi, lo);
    LowDigit1(v, hi, lo);
  }

  lemma HalfWords(v: nat, hi: nat, lo: nat)
    requires v == hi * 0x1_0000_0000 + lo && hi == v / 0x1_0000_0000
    ensures ToBE(v, 8) == ToBE(hi, 4) + ToBE(lo, 4)
  {
    FourBytes(v, 4);
    FourBytes(lo, 0);
    LowFourOfLow(v, hi, lo);
    assert ToBE(lo / 0x1_0000_0000, 0) == [];
  }

  /** A fresh 32-byte slice with v in its last four bytes. */
  method PaddedUint32(v: uint32) returns (word: seq<byte>)
    ensures word == ToBE(v, 32)
  {
    var buffer := new byte[32](_ => 0);
    PutUint32(buffer, 28, v);
    Pow256Values();
    PaddedIntegerIsWord(v, 4);
    assert buffer[..] == Zeros(28) + ToBE(v, 4);
    word := buffer[..];
  }

  method PaddedUint64(v: uint64) returns (word: seq<byte>)
    ensures word == ToBE(v, 32)
  {
    var buffer := new byte[32](_ => 0);
    PutUint64(buffer, 24, v);
    Pow256Values();
    PaddedIntegerIsWord(v, 8);
    assert buffer[..] == Zeros(24) + ToBE(v, 8);
    word := buffer[..];
  }

  /** The seven words by their place in the bytes. */
  ghost predicate SubmissionLayout(d: SubmissionData, b: seq<byte>) {
    && |b| == 224
    && b[..32] == HexToHash(d.taskId)
    && b[32..64] == Zeros(12) + HexToAddress(d.avsAddress)
    && b[64..96] == Zeros(12) + HexToAddress(d.executorAddress)
    && b[96..128] == Zeros(28) + ToBE(d.operatorSetId, 4)
    && b[128..160] == Zeros(28) + ToBE(d.timestamp, 4)
    && b[160..192] == Zeros(24) + ToBE(d.blockNumber, 8)
    && b[192..] == d.payloadDigest
  }

  ghost predicate ResultLayout(d: ResultData, b: seq<byte>) {
    && |b| == 160
    && b[..32] == HexToHash(d.taskId)
    && b[32..64] == Zeros(12) + HexToAddress(d.avsAddress)
    && b[64..96] == Zeros(12) + HexToAddress(d.operatorAddress)
    && b[96..128] == Zeros(28) + ToBE(d.operatorSetId, 4)
    && b[128..] == d.digest
  }

  lemma NumberWords(v: nat, width: nat)
    requires (width == 4 && v < 0x1_0000_0000) || (width == 8 && v < 0x1_0000_0000_0000_0000)
    ensures ToBE(v, 32) == Zeros(32 - width) + ToBE(v, width)
  {
    Pow256Values();
    PaddedIntegerIsWord(v, width);
  }

  /** Cutting a sequence of words at the word boundaries gives the words back. */
  lemma {:induction false} CutWords(ws: seq<seq<byte>>, k: nat)
    requires k < |ws| && forall i :: 0 <= i < |ws| ==> |ws[i]| == 32
    ensures |Joined(ws)| == 32 * |ws| && Joined(ws)[32 * k..32 * k + 32] == ws[k]
  {
    var n := |ws| - 1;
    JoinedLength(ws[..n]);
    if k < n {
      CutWords(ws[..n], k);
      assert Joined(ws)[32 * k..32 * k + 32] == Joined(ws[..n])[32 * k..32 * k + 32];
    }
  }

  function Joined(ws: seq<seq<byte>>): seq<byte> {
    if ws == [] then [] else Joined(ws[..|ws| - 1]) + ws[|ws| - 1]
  }

  lemma {:induction false} JoinedLength(ws: seq<seq<byte>>)
    requires forall i :: 0 <= i < |ws| ==> |ws[i]| == 32
    ensures |Joined(ws)| == 32 * |ws|
  {
    if ws != [] { JoinedLength(ws[..|ws| - 1]); }
  }

  lemma JoinNext(ws: seq<seq<byte>>, w: seq<byte>)
    ensures Joined(ws + [w]) == Joined(ws) + w
  {
    assert (ws + [w])[..|ws|] == ws;
  }

  /** The words that both records begin with. */
  lemma JoinFour(a: seq<byte>, b: seq<byte>, c: seq<byte>, d: seq<byte>)
    ensures Joined([a, b, c, d]) == a + b + c + d
  {
    JoinNext([], a);
    JoinNext([a], b);
    JoinNext([a, b], c);
    JoinNext([a, b, c], d);
    assert [] + [a] == [a] && [a] + [b] == [a, b] && [a, b] + [c] == [a, b, c] && [a, b, c] + [d] == [a, b, c, d];
    assert [] + a == a;
  }

  lemma SubmissionIsJoined(d: SubmissionData)
    ensures var a, e := FitLeft(HexToAddress(d.avsAddress), 32), FitLeft(HexToAddress(d.executorAddress), 32);
            SubmissionWords(d) == Joined([HexToHash(d.taskId), a, e, ToBE(d.operatorSetId, 32), ToBE(d.timestamp, 32),
                                          ToBE(d.blockNumber, 32), d.payloadDigest])
  {
    var h, a, e := HexToHash(d.taskId), FitLeft(HexToAddress(d.avsAddress), 32), FitLeft(HexToAddress(d.executorAddress), 32);
    var o, t, n := ToBE(d.operatorSetId, 32), ToBE(d.timestamp, 32), ToBE(d.blockNumber, 32);
    JoinFour(h, a, e, o);
    JoinNext([h, a, e, o], t);
    JoinNext([h, a, e, o, t], n);
    JoinNext([h, a, e, o, t, n], d.payloadDigest);
    assert [h, a, e, o] + [t] == [h, a, e, o, t] && [h, a, e, o, t] + [n] == [h, a, e, o, t, n];
    assert [h, a, e, o, t, n] + [d.payloadDigest] == [h, a, e, o, t, n, d.payloadDigest];
  }

  /** The 224 bytes, place by place: every number is big-endian in its own zero-padded word. */
  lemma SubmissionWordsLayout(d: SubmissionData)
    ensures SubmissionLayout(d, SubmissionWords(d))
  {
    SubmissionIsJoined(d);
    var ws := [HexToHash(d.taskId), FitLeft(HexToAddress(d.avsAddress), 32), FitLeft(HexToAddress(d.executorAddress), 32),
               ToBE(d.operatorSetId, 32), ToBE(d.timestamp, 32), ToBE(d.blockNumber, 32), d.payloadDigest];
    CutWords(ws, 0);
    CutWords(ws, 1);
    CutWords(ws, 2);
    CutWords(ws, 3);
    CutWords(ws, 4);
    CutWords(ws, 5);
    CutWords(ws, 6);
    NumberWords(d.operatorSetId, 4);
    NumberWords(d.timestamp, 4);
    NumberWords(d.blockNumber, 8);
  }

  lemma ResultWordsLayout(d: ResultData)
    ensures ResultLayout(d, ResultWords(d))
  {
    var h, a, e := HexToHash(d.taskId), FitLeft(HexToAddress(d.avsAddress), 32), FitLeft(HexToAddress(d.operatorAddress), 32);
    var o := ToBE(d.operatorSetId, 32);
    JoinFour(h, a, e, o);
    JoinNext([h, a, e, o], d.digest);
    var ws := [h, a, e, o, d.digest];
    assert [h, a, e, o] + [d.digest] == ws;
    CutWords(ws, 0);
    CutWords(ws, 1);
    CutWords(ws, 2);
    CutWords(ws, 3);
    CutWords(ws, 4);
    NumberWords(d.operatorSetId, 4);
  }

  method SubmissionToSigningBytes(d: SubmissionData) returns (result: seq<byte>)
    ensures result == SubmissionWords(d)
  {
    result := [];
    result := result + HexToHash(d.taskId);
    result := result + FitLeft(HexToAddress(d.avsAddress), 32);
    result := result + FitLeft(HexToAddress(d.executorAddress), 32);
    var operSetId := PaddedUint32(d.operatorSetId);
    result := result + operSetId;
    var timestamp := PaddedUint32(d.timestamp);
    result := result + timestamp;
    var blockNum := PaddedUint64(d.blockNumber);
    result := result + blockNum;
    result := result + d.payloadDigest;
  }

  method ResultToSigningBytes(d: ResultData) returns (result: seq<byte>)
    ensures result == ResultWords(d)
  {
    result := [];
    result := result + HexToHash(d.taskId);
    result := result + FitLeft(HexToAddress(d.avsAddress), 32);
    result := result + FitLeft(HexToAddress(d.operatorAddress), 32);
    var operSetId := PaddedUint32(d.operatorSetId);
    result := result + operSetId;
    result := result + d.digest;
  }

  // ----- decoding

  function DecodeSubmission(b: seq<byte>): CanonicalSubmission
    requires |b| == 224
  {
    CanonicalSubmission(b[..32], b[44..64], b[76..96],
                        FromBE(b[96..128]), FromBE(b[128..160]), FromBE(b[160..192]), b[192..])
  }

  function DecodeResult(b: seq<byte>): CanonicalResult
    requires |b| == 160
  {
    CanonicalResult(b[..32], b[44..64], b[76..96], FromBE(b[96..128]), b[128..])
  }

  lemma NumberSurvives(v: nat)
    requires v < 0x1_0000_0000_0000_0000
    ensures FromBE(ToBE(v, 32)) == v
  {
    Pow256Values();
    PaddedIntegerIsWord(v, 8);
  }

  lemma SubmissionRoundTrip(d: SubmissionData)
    ensures DecodeSubmission(SubmissionWords(d)) == Canonical(d)
  {
    var b := SubmissionWords(d);
    NumberSurvives(d.operatorSetId);
    NumberSurvives(d.timestamp);
    NumberSurvives(d.blockNumber);
    assert b[..32] == HexToHash(d.taskId);
    assert b[32..64] == FitLeft(HexToAddress(d.avsAddress), 32);
    assert b[44..64] == b[32..64][12..];
    assert b[64..96] == FitLeft(HexToAddress(d.executorAddress), 32);
    assert b[76..96] == b[64..96][12..];
    assert b[96..128] == ToBE(d.operatorSetId, 32);
    assert b[128..160] == ToBE(d.timestamp, 32);
    assert b[160..192] == ToBE(d.blockNumber, 32);
    assert b[192..] == d.payloadDigest;
  }

  lemma ResultRoundTrip(d: ResultData)
    ensures DecodeResult(ResultWords(d)) == CanonicalOfResult(d)
  {
    var b := ResultWords(d);
    NumberSurvives(d.operatorSetId);
    assert b[..32] == HexToHash(d.taskId);
    assert b[32..64] == FitLeft(HexToAddress(d.avsAddress), 32);
    assert b[44..64] == b[32..64][12..];
    assert b[64..96] == FitLeft(HexToAddress(d.operatorAddress), 32);
    assert b[76..96] == b[64..96][12..];
    assert b[96..128] == ToBE(d.operatorSetId, 32);
    assert b[128..] == d.digest;
  }

  /** Hash, address and address fields that passed the length, prefix and digit checks. */
  predicate WellFormed(d: SubmissionData) {
    IsFixedHex(d.taskId, 32) && IsFixedHex(d.avsAddress, 20) && IsFixedHex(d.executorAddress, 20)
  }

  predicate SameUpToCase(d: SubmissionData, e: SubmissionData) {
    && EqualFold(d.taskId, e.taskId)
    && EqualFold(d.avsAddress, e.avsAddress)
    && EqualFold(d.executorAddress, e.executorAddress)
    && d.operatorSetId == e.operatorSetId && d.blockNumber == e.blockNumber
    && d.payloadDigest == e.payloadDigest && d.timestamp == e.timestamp
  }

  /** Equal bytes exactly when ids and addresses agree up to letter case and the rest agrees. */
  lemma SubmissionBytesIff(d: SubmissionData, e: SubmissionData)
    requires WellFormed(d) && WellFormed(e)
    ensures SubmissionWords(d) == SubmissionWords(e) <==> SameUpToCase(d, e)
  {
    FixedHexFaithful(d.taskId, e.taskId, 32);
    FixedHexFaithful(d.avsAddress, e.avsAddress, 20);
    FixedHexFaithful(d.executorAddress, e.executorAddress, 20);
    if SubmissionWords(d) == SubmissionWords(e) {
      SubmissionRoundTrip(d);
      SubmissionRoundTrip(e);
      assert Canonical(d) == Canonical(e);
    }
  }

  predicate ResultWellFormed(d: ResultData) {
    IsFixedHex(d.taskId, 32) && IsFixedHex(d.avsAddress, 20) && IsFixedHex(d.operatorAddress, 20)
  }

  lemma ResultBytesIff(d: ResultData, e: ResultData)
    requires ResultWellFormed(d) && ResultWellFormed(e)
    ensures ResultWords(d) == ResultWords(e) <==>
            EqualFold(d.taskId, e.taskId) && EqualFold(d.avsAddress, e.avsAddress)
            && EqualFold(d.operatorAddress, e.operatorAddress)
            && d.operatorSetId == e.operatorSetId && d.digest == e.digest
  {
    FixedHexFaithful(d.taskId, e.taskId, 32);
    FixedHexFaithful(d.avsAddress, e.avsAddress, 20);
    FixedHexFaithful(d.operatorAddress, e.operatorAddress, 20);
    if ResultWords(d) == ResultWords(e) {
      ResultRoundTrip(d);
      ResultRoundTrip(e);
      assert CanonicalOfResult(d) == CanonicalOfResult(e);
    }
  }

  // ----- versioned encoders and the two ends of one submission

  const MESSAGE_VERSION_V1 := 1

  type Keccak = seq<byte> -> Digest

  function EncodeSubmissionVersioned(
    keccak: Keccak, taskId: string, avsAddress: string, executorAddress: string,
    referenceTimestamp: uint32, blockNumber: uint64, operatorSetId: uint32, payload: seq<byte>, version: uint32)
    : Option<seq<byte>>
  {
    if version == MESSAGE_VERSION_V1 then
      Some(SubmissionWords(SubmissionData(taskId, avsAddress, executorAddress, operatorSetId, blockNumber,
                                          keccak(payload), referenceTimestamp)))
    else None
  }

  function EncodeResultVersioned(keccak: Keccak, taskId: string, avsAddress: string, operatorAddress: string,
                                 operatorSetId: uint32, output: seq<byte>, version: uint32): Option<seq<byte>>
  {
    if version == MESSAGE_VERSION_V1 then
      Some(ResultWords(ResultData(taskId, avsAddress, operatorAddress, operatorSetId, keccak(output))))
    else None
  }

  /** The same for results: version 1 encodes the given fields with the hash of the output. */
  lemma EncodedResultFields(keccak: Keccak, taskId: string, avsAddress: string, operatorAddress: string,
                            operatorSetId: uint32, output: seq<byte>, version: uint32)
    ensures var m := EncodeResultVersioned(keccak, taskId, avsAddress, operatorAddress, operatorSetId, output, version);
            && (m.Some? <==> version == 1)
            && (m.Some? ==>
                  && |m.value| == 160
                  && DecodeResult(m.value) == CanonicalResult(HexToHash(taskId), HexToAddress(avsAddress),
                                                              HexToAddress(operatorAddress), operatorSetId, keccak(output)))
  {
    ResultRoundTrip(ResultData(taskId, avsAddress, operatorAddress, operatorSetId, keccak(output)));
  }

  datatype Task = Task(taskId: string, avsAddress: string, operatorSetId: uint32, payload: seq<byte>,
                       l1ReferenceBlockNumber: uint64, referenceTimestamp: uint32, version: uint32)

  datatype Submission = Submission(
    taskId: string, aggregatorAddress: string, avsAddress: string, payload: seq<byte>, signature: seq<byte>,
    operatorSetId: uint32, referenceTimestamp: uint32, executorAddress: string, taskBlockNumber: uint64,
    version: uint32)

  /** generateSignatureForExecutor: the message the aggregator signs for one executor. */
  function MessageForExecutor(keccak: Keccak, task: Task, executorAddress: string): Option<seq<byte>> {
    EncodeSubmissionVersioned(keccak, task.taskId, task.avsAddress, executorAddress, task.referenceTimestamp,
                              task.l1ReferenceBlockNumber, task.operatorSetId, task.payload, task.version)
  }

  /** The request Broadcast sends to the peer at executorAddress. */
  function SubmissionForPeer(task: Task, aggregatorAddress: string, peer: string, signature: seq<byte>): Submission {
    Submission(task.taskId, aggregatorAddress, task.avsAddress, task.payload, signature, task.operatorSetId,
               task.referenceTimestamp, peer, task.l1ReferenceBlockNumber, task.version)
  }

  /** constructTaskSubmissionMessage: the executor uses its own configured address; nil on error. */
  function RebuiltMessage(keccak: Keccak, configured: string, s: Submission): seq<byte> {
    match EncodeSubmissionVersioned(keccak, s.taskId, s.avsAddress, configured, s.referenceTimestamp,
                                    s.taskBlockNumber, s.operatorSetId, s.payload, s.version)
    case Some(m) => m
    case None => []
  }

  /** Version 1 encodes exactly the given fields, with the hash of the payload; nothing else encodes. */
  lemma EncodedFields(keccak: Keccak, taskId: string, avsAddress: string, executorAddress: string,
                      referenceTimestamp: uint32, blockNumber: uint64, operatorSetId: uint32, payload: seq<byte>,
                      version: uint32)
    ensures var m := EncodeSubmissionVersioned(keccak, taskId, avsAddress, executorAddress, referenceTimestamp,
                                               blockNumber, operatorSetId, payload, version);
            && (m.Some? <==> version == 1)
            && (m.Some? ==>
                  && |m.value| == 224
                  && DecodeSubmission(m.value) ==
                     CanonicalSubmission(HexToHash(taskId), HexToAddress(avsAddress), HexToAddress(executorAddress),
                                         operatorSetId, referenceTimestamp, blockNumber, keccak(payload)))
  {
    SubmissionRoundTrip(SubmissionData(taskId, avsAddress, executorAddress, operatorSetId, blockNumber,
                                       keccak(payload), referenceTimestamp));
  }

  /** What the aggregator signs for one executor decodes to the task's fields, the executor's address and the
      hash of the task's payload. */
  lemma SignedMessageFields(keccak: Keccak, task: Task, executorAddress: string)
    ensures var m := MessageForExecutor(keccak, task, executorAddress);
            && (m.Some? <==> task.version == 1)
            && (m.Some? ==>
                  && |m.value| == 224
                  && DecodeSubmission(m.value) ==
                     CanonicalSubmission(HexToHash(task.taskId), HexToAddress(task.avsAddress),
                                         HexToAddress(executorAddress), task.operatorSetId, task.referenceTimestamp,
                                         task.l1ReferenceBlockNumber, keccak(task.payload)))
  {
    EncodedFields(keccak, task.taskId, task.avsAddress, executorAddress, task.referenceTimestamp,
                  task.l1ReferenceBlockNumber, task.operatorSetId, task.payload, task.version);
  }

  /** What an executor checks a signature against is the encoding of the request with its own address in
      place of the one in the request, and nothing for another version. */
  lemma RebuiltMessageFields(keccak: Keccak, configured: string, s: Submission)
    ensures RebuiltMessage(keccak, configured, s) ==
            if s.version == 1 then SubmissionWords(DataOf(keccak, s.(executorAddress := configured))) else []
  {
  }

  /** Two tasks give one executor the same message exactly when ids and AVS addresses agree up to letter
      case, the numbers agree, and the hashes of the payloads agree. */
  lemma SameMessageIff(keccak: Keccak, task: Task, other: Task, executorAddress: string)
    requires task.version == other.version == 1
    requires IsFixedHex(task.taskId, 32) && IsFixedHex(other.taskId, 32)
    requires IsFixedHex(task.avsAddress, 20) && IsFixedHex(other.avsAddress, 20) && IsFixedHex(executorAddress, 20)
    ensures MessageForExecutor(keccak, task, executorAddress) == MessageForExecutor(keccak, other, executorAddress) <==>
            && EqualFold(task.taskId, other.taskId) && EqualFold(task.avsAddress, other.avsAddress)
            && task.operatorSetId == other.operatorSetId
            && task.l1ReferenceBlockNumber == other.l1ReferenceBlockNumber
            && task.referenceTimestamp == other.referenceTimestamp
            && keccak(task.payload) == keccak(other.payload)
  {
    var d := SubmissionData(task.taskId, task.avsAddress, executorAddress, task.operatorSetId,
                            task.l1ReferenceBlockNumber, keccak(task.payload), task.referenceTimestamp);
    var e := SubmissionData(other.taskId, other.avsAddress, executorAddress, other.operatorSetId,
                            other.l1ReferenceBlockNumber, keccak(other.payload), other.referenceTimestamp);
    assert MessageForExecutor(keccak, task, executorAddress) == Some(SubmissionWords(d));
    assert MessageForExecutor(keccak, other, executorAddress) == Some(SubmissionWords(e));
    SubmissionBytesIff(d, e);
  }

  /** The executor that passes the EqualFold check on its address rebuilds exactly the signed bytes. */
  lemma ExecutorRebuildsSignedBytes(keccak: Keccak, task: Task, aggregator: string, peer: string,
                                    signature: seq<byte>, configured: string)
    requires EqualFold(peer, configured)
    ensures match MessageForExecutor(keccak, task, peer)
            case Some(m) => RebuiltMessage(keccak, configured, SubmissionForPeer(task, aggregator, peer, signature)) == m
            case None => task.version != MESSAGE_VERSION_V1
  {
    FoldedHexDecodesAlike(peer, configured);
  }

  /** The message binds the executor: another well-formed address rebuilds different bytes. */
  lemma MessageBindsExecutor(keccak: Keccak, task: Task, aggregator: string, peer: string,
                             signature: seq<byte>, configured: string)
    requires IsFixedHex(peer, 20) && IsFixedHex(configured, 20) && task.version == MESSAGE_VERSION_V1
    ensures MessageForExecutor(keccak, task, peer)
            == Some(RebuiltMessage(keccak, configured, SubmissionForPeer(task, aggregator, peer, signature)))
            <==> EqualFold(peer, configured)
  {
    var digest := keccak(task.payload);
    var d := SubmissionData(task.taskId, task.avsAddress, peer, task.operatorSetId,
                            task.l1ReferenceBlockNumber, digest, task.referenceTimestamp);
    var e := d.(executorAddress := configured);
    assert MessageForExecutor(keccak, task, peer) == Some(SubmissionWords(d));
    assert RebuiltMessage(keccak, configured, SubmissionForPeer(task, aggregator, peer, signature)) == SubmissionWords(e);
    FixedHexFaithful(peer, configured, 20);
    SubmissionRoundTrip(d);
    SubmissionRoundTrip(e);
    if SubmissionWords(d) == SubmissionWords(e) {
      assert Canonical(d) == Canonical(e);
    }
  }

  // ----- validateTaskSubmission

  datatype ValidationError =
    | TaskIdLength | TaskIdPrefix | TaskIdFormat
    | AggregatorLength | AggregatorPrefix | AggregatorFormat
    | AvsLength | AvsPrefix | AvsFormat
    | ExecutorLength | ExecutorPrefix | ExecutorFormat
    | EmptySignature | ZeroTimestamp

  function FieldError(s: string, n: nat, length: ValidationError, prefix: ValidationError, format: ValidationError)
    : Option<ValidationError>
  {
    if |s| != 2 + 2 * n then Some(length)
    else if s[..2] != "0x" then Some(prefix)
    else if !AllHex(s[2..]) then Some(format)
    else None
  }

  /** The first check that fails, in the order of the source. */
  function ValidateTaskSubmission(s: Submission): (e: Option<ValidationError>)
    ensures e == None <==>
            IsFixedHex(s.taskId, 32) && IsFixedHex(s.aggregatorAddress, 20) && IsFixedHex(s.avsAddress, 20)
            && IsFixedHex(s.executorAddress, 20) && |s.signature| != 0 && s.referenceTimestamp != 0
  {
    var taskId := FieldError(s.taskId, 32, TaskIdLength, TaskIdPrefix, TaskIdFormat);
    var aggregator := FieldError(s.aggregatorAddress, 20, AggregatorLength, AggregatorPrefix, AggregatorFormat);
    var avs := FieldError(s.avsAddress, 20, AvsLength, AvsPrefix, AvsFormat);
    var executor := FieldError(s.executorAddress, 20, ExecutorLength, ExecutorPrefix, ExecutorFormat);
    if taskId.Some? then taskId
    else if aggregator.Some? then aggregator
    else if avs.Some? then avs
    else if executor.Some? then executor
    else if |s.signature| == 0 then Some(EmptySignature)
    else if s.referenceTimestamp == 0 then Some(ZeroTimestamp)
    else None
  }

  /** The checks in the order of the source, each with the error it gives. */
  function Checks(s: Submission): (c: seq<(bool, ValidationError)>)
    ensures |c| == 14
  {
    [(|s.taskId| == 66, TaskIdLength), (Prefixed(s.taskId), TaskIdPrefix), (HexBehindPrefix(s.taskId), TaskIdFormat),
     (|s.aggregatorAddress| == 42, AggregatorLength), (Prefixed(s.aggregatorAddress), AggregatorPrefix),
     (HexBehindPrefix(s.aggregatorAddress), AggregatorFormat),
     (|s.avsAddress| == 42, AvsLength), (Prefixed(s.avsAddress), AvsPrefix), (HexBehindPrefix(s.avsAddress), AvsFormat),
     (|s.executorAddress| == 42, ExecutorLength), (Prefixed(s.executorAddress), ExecutorPrefix),
     (HexBehindPrefix(s.executorAddress), ExecutorFormat),
     (s.signature != [], EmptySignature), (s.referenceTimestamp > 0, ZeroTimestamp)]
  }

  predicate Prefixed(s: string) {
    "0x" <= s
  }

  predicate HexBehindPrefix(s: string) {
    forall i :: 2 <= i < |s| ==> IsHexDigit(s[i])
  }

  lemma FieldErrorIs(s: string, n: nat, length: ValidationError, prefix: ValidationError, format: ValidationError)
    ensures FieldError(s, n, length, prefix, format) ==
            if |s| != 2 + 2 * n then Some(length) else if !Prefixed(s) then Some(prefix)
            else if !HexBehindPrefix(s) then Some(format) else None
  {
    if |s| == 2 + 2 * n {
      assert s == s[..2] + s[2..];
      assert forall i :: 0 <= i < 2 * n ==> s[2..][i] == s[i + 2];
      assert forall i :: 2 <= i < |s| ==> s[i] == s[2..][i - 2];
    }
  }

  /** A refused request gets the error of the first check that fails. */
  lemma FirstFailedCheck(s: Submission, k: nat)
    requires k < 14 && !Checks(s)[k].0 && forall i :: 0 <= i < k ==> Checks(s)[i].0
    ensures ValidateTaskSubmission(s) == Some(Checks(s)[k].1)
  {
    FieldErrorIs(s.taskId, 32, TaskIdLength, TaskIdPrefix, TaskIdFormat);
    FieldErrorIs(s.aggregatorAddress, 20, AggregatorLength, AggregatorPrefix, AggregatorFormat);
    FieldErrorIs(s.avsAddress, 20, AvsLength, AvsPrefix, AvsFormat);
    FieldErrorIs(s.executorAddress, 20, ExecutorLength, ExecutorPrefix, ExecutorFormat);
    var c := Checks(s);
    assert k > 0 ==> c[0].0;
    assert k > 1 ==> c[1].0;
    assert k > 2 ==> c[2].0;
    assert k > 3 ==> c[3].0;
    assert k > 4 ==> c[4].0;
    assert k > 5 ==> c[5].0;
    assert k > 6 ==> c[6].0;
    assert k > 7 ==> c[7].0;
    assert k > 8 ==> c[8].0;
    assert k > 9 ==> c[9].0;
    assert k > 10 ==> c[10].0;
    assert k > 11 ==> c[11].0;
    assert k > 12 ==> c[12].0;
  }

  /** The request Broadcast sends to a peer is valid exactly when task, addresses and signature are; it
      carries the peer's address and the signature. */
  lemma SentRequestIsValidIff(task: Task, aggregator: string, peer: string, signature: seq<byte>)
    ensures var s := SubmissionForPeer(task, aggregator, peer, signature);
            && s.executorAddress == peer && s.signature == signature
            && (ValidateTaskSubmission(s) == None <==>
                && IsFixedHex(task.taskId, 32) && IsFixedHex(task.avsAddress, 20)
                && IsFixedHex(aggregator, 20) && IsFixedHex(peer, 20)
                && signature != [] && task.referenceTimestamp > 0)
  {
  }

  function DataOf(keccak: Keccak, s: Submission): SubmissionData {
    SubmissionData(s.taskId, s.avsAddress, s.executorAddress, s.operatorSetId, s.taskBlockNumber,
                   keccak(s.payload), s.referenceTimestamp)
  }

  /** Two accepted requests have equal signing bytes exactly when they differ in letter case only. */
  lemma AcceptedSubmissionsIff(keccak: Keccak, s: Submission, t: Submission)
    requires ValidateTaskSubmission(s) == None && ValidateTaskSubmission(t) == None
    ensures SubmissionWords(DataOf(keccak, s)) == SubmissionWords(DataOf(keccak, t)) <==>
            SameUpToCase(DataOf(keccak, s), DataOf(keccak, t))
  {
    SubmissionBytesIff(DataOf(keccak, s), DataOf(keccak, t));
  }
}
