/** The canonical byte strings that get signed: receipts (crates/core/src/receipt.rs) and execution attestations
    (crates/core/src/attestation.rs). */
module Encodings {
  import opened Core
  import opened Scalars

  function Ascii(s: string): (b: Bytes)
    ensures |b| == |s|
  {
    seq(|s|, i requires 0 <= i < |s| => s[i] as int % 0x100)
  }

  /** Reading the bytes back as characters. */
  function FromAscii(b: Bytes): string {
    seq(|b|, i requires 0 <= i < |b| => b[i] as char)
  }

  lemma {:induction false} AsciiIsRead(s: string)
    requires forall i :: 0 <= i < |s| ==> s[i] < 128 as char
    ensures FromAscii(Ascii(s)) == s
  {
    forall i | 0 <= i < |s|
      ensures FromAscii(Ascii(s))[i] == s[i]
    {
      assert s[i] as int < 0x100;
    }
  }

  const RECEIPT_TAG := "CraftSEC-Receipt-v1"

  const ATTESTATION_TAG := "CraftSEC-ExecAttest-v1"

  /** Both encodings: a tag, the program CID, two hashes and a timestamp, one after the other. */
  function Encode(tag: string, cid: Str, first: Bytes, second: Bytes, timestamp: u64): Bytes {
    Ascii(tag) + cid + first + second + LittleEndian(timestamp, 8)
  }

  /** The fields of an encoding whose hashes have m bytes each, cut off from the end. */
  function Decode(tag: string, m: nat, data: Bytes): Option<(Bytes, Bytes, Bytes, nat)> {
    if |data| < |tag| + 2 * m + 8 then None
    else
      var end := |data| - 8;
      Some((data[|tag|..end - 2 * m], data[end - 2 * m..end - m], data[end - m..end],
            FromLittleEndian(data[end..])))
  }

  lemma {:induction false} DecodeInvertsEncode(tag: string, m: nat, cid: Str, first: Bytes, second: Bytes,
                                               timestamp: u64)
    requires |first| == m && |second| == m
    ensures Decode(tag, m, Encode(tag, cid, first, second, timestamp)) == Some((cid, first, second, timestamp))
  {
    var data, end := Encode(tag, cid, first, second, timestamp), |tag| + |cid| + 2 * m;
    assert Power256(8) == 0x1_0000_0000_0000_0000;
    LittleEndianRoundTrip(timestamp, 8);
    assert data[|tag|..end - 2 * m] == cid;
    assert data[end - 2 * m..end - m] == first;
    assert data[end - m..end] == second;
    assert data[end..] == LittleEndian(timestamp, 8);
  }

  /** Two encodings with the same bytes are of the same fields iff their hashes are equally long. */
  lemma {:induction false} EncodeIsInjective(tag: string, cid: Str, first: Bytes, second: Bytes, timestamp: u64,
                                             cid': Str, first': Bytes, second': Bytes, timestamp': u64)
    requires Encode(tag, cid, first, second, timestamp) == Encode(tag, cid', first', second', timestamp')
    ensures (cid == cid' && first == first' && second == second' && timestamp == timestamp')
            <==> (|first| == |first'| && |second| == |second'|)
  {
    if |first| == |first'| && |second| == |second'| {
      var a := Ascii(tag);
      assert Power256(8) == 0x1_0000_0000_0000_0000;
      LittleEndianRoundTrip(timestamp, 8);
      LittleEndianRoundTrip(timestamp', 8);
      SplitEqual(a + cid + first + second, LittleEndian(timestamp, 8),
                 a + cid' + first' + second', LittleEndian(timestamp', 8));
      SplitEqual(a + cid + first, second, a + cid' + first', second');
      SplitEqual(a + cid, first, a + cid', first');
      SplitEqual(a, cid, a, cid');
    }
  }

  lemma {:induction false} SplitEqual(a: Bytes, b: Bytes, c: Bytes, d: Bytes)
    requires a + b == c + d && |b| == |d|
    ensures a == c && b == d
  {
    assert a == (a + b)[..|a|] && b == (a + b)[|a|..];
    assert c == (c + d)[..|c|] && d == (c + d)[|c|..];
  }

  // Receipts.

  function HexDigit(d: nat): (c: byte)
    requires d < 16
    ensures c < 0x80
  {
    if d < 10 then '0' as int + d else 'a' as int + d - 10
  }

  function Hex(data: Bytes): (h: Str)
    ensures |h| == 2 * |data|
  {
    if data == [] then [] else [HexDigit(data[0] / 16), HexDigit(data[0] % 16)] + Hex(data[1..])
  }

  /** The value of a hex digit. */
  function DigitValue(c: byte): int {
    if '0' as int <= c <= '9' as int then c - '0' as int else c - 'a' as int + 10
  }

  /** Reading hex digits, two to a byte, the high one first. */
  function Unhex(h: Bytes): seq<int>
    decreases |h|
  {
    if |h| < 2 then [] else [16 * DigitValue(h[0]) + DigitValue(h[1])] + Unhex(h[2..])
  }

  lemma {:induction false} UnhexInvertsHex(data: Bytes)
    ensures Unhex(Hex(data)) == data
  {
    if data == [] {
    } else {
      var h := Hex(data);
      assert h[0] == HexDigit(data[0] / 16) && h[1] == HexDigit(data[0] % 16) && h[2..] == Hex(data[1..]);
      UnhexInvertsHex(data[1..]);
      assert data == [data[0]] + data[1..];
    }
  }

  lemma {:induction false} HexIsInjective(a: Bytes, b: Bytes)
    requires Hex(a) == Hex(b)
    ensures a == b
  {
    UnhexInvertsHex(a);
    UnhexInvertsHex(b);
  }

  type Digest = d: Bytes | |d| == 32 witness seq(32, _ => 0)

  class AttestationReceipt {
    var programCid: Str
    var argsHash: Str
    var resultHash: Str
    var timestamp: u64
    var nodeSignatures: seq<(u32, Str)>

    constructor (sha256: Bytes -> Digest, programCid: Str, args: Bytes, result: Bytes, timestamp: u64)
      ensures this.programCid == programCid && this.timestamp == timestamp
      ensures argsHash == Hex(sha256(args)) && resultHash == Hex(sha256(result))
      ensures nodeSignatures == []
    {
      this.programCid := programCid;
      this.argsHash := Hex(sha256(args));
      this.resultHash := Hex(sha256(result));
      this.timestamp := timestamp;
      this.nodeSignatures := [];
    }

    method SigningBytes() returns (data: Bytes)
      ensures data == Encode(RECEIPT_TAG, programCid, argsHash, resultHash, timestamp)
    {
      data := Ascii(RECEIPT_TAG);
      data := data + programCid;
      data := data + argsHash;
      data := data + resultHash;
      data := data + LittleEndian(timestamp, 8);
    }

    /** Signatures are appended; what gets signed does not change. */
    method AddSignature(nodeIndex: u32, signatureHex: Str)
      modifies this`nodeSignatures
      ensures nodeSignatures == old(nodeSignatures) + [(nodeIndex, signatureHex)]
    {
      nodeSignatures := nodeSignatures + [(nodeIndex, signatureHex)];
    }
  }

  /** Receipts built from arguments and results: the signed bytes determine CID, both digests and the timestamp. */
  lemma {:induction false} ReceiptBytesDetermineReceipt(sha256: Bytes -> Digest, cid: Str, args: Bytes, result: Bytes,
                                                        timestamp: u64, cid': Str, args': Bytes, result': Bytes,
                                                        timestamp': u64)
    requires Encode(RECEIPT_TAG, cid, Hex(sha256(args)), Hex(sha256(result)), timestamp)
          == Encode(RECEIPT_TAG, cid', Hex(sha256(args')), Hex(sha256(result')), timestamp')
    ensures cid == cid' && timestamp == timestamp'
    ensures sha256(args) == sha256(args') && sha256(result) == sha256(result')
  {
    EncodeIsInjective(RECEIPT_TAG, cid, Hex(sha256(args)), Hex(sha256(result)), timestamp,
                      cid', Hex(sha256(args')), Hex(sha256(result')), timestamp');
    HexIsInjective(sha256(args), sha256(args'));
    HexIsInjective(sha256(result), sha256(result'));
  }

  /** The fields of a receipt are public strings; with hashes of other lengths two different receipts can have the
      same signed bytes. */
  lemma {:induction false} ReceiptBytesCollideForOtherLengths()
    ensures Encode(RECEIPT_TAG, [0x61], [0x62], [], 0) == Encode(RECEIPT_TAG, [0x61, 0x62], [], [], 0)
  {
    var a := Ascii(RECEIPT_TAG);
    assert a + [0x61] + [0x62] == a + [0x61, 0x62];
  }

  // Execution attestations.

  method AttestationSigningBytes(cid: Str, inputHash: Digest, outputHash: Digest, timestampMs: u64)
      returns (data: Bytes)
    ensures data == Encode(ATTESTATION_TAG, cid, inputHash, outputHash, timestampMs)
  {
    data := Ascii(ATTESTATION_TAG);
    data := data + cid;
    data := data + inputHash;
    data := data + outputHash;
    data := data + LittleEndian(timestampMs, 8);
  }

  /** The signed bytes of an execution attestation determine all four of its fields. */
  lemma {:induction false} AttestationBytesDetermineFields(cid: Str, input: Digest, output: Digest, timestamp: u64,
                                                           cid': Str, input': Digest, output': Digest, timestamp': u64)
    requires Encode(ATTESTATION_TAG, cid, input, output, timestamp)
          == Encode(ATTESTATION_TAG, cid', input', output', timestamp')
    ensures cid == cid' && input == input' && output == output' && timestamp == timestamp'
  {
    EncodeIsInjective(ATTESTATION_TAG, cid, input, output, timestamp, cid', input', output', timestamp');
  }

  /** A receipt's signed bytes are never an execution attestation's, whatever the fields of either. */
  lemma {:induction false} ReceiptsAreNotAttestations(cid: Str, first: Bytes, second: Bytes, timestamp: u64,
                                                      cid': Str, first': Bytes, second': Bytes, timestamp': u64)
    ensures Encode(RECEIPT_TAG, cid, first, second, timestamp)
         != Encode(ATTESTATION_TAG, cid', first', second', timestamp')
  {
    var a := Encode(RECEIPT_TAG, cid, first, second, timestamp);
    var b := Encode(ATTESTATION_TAG, cid', first', second', timestamp');
    assert a[9] == Ascii(RECEIPT_TAG)[9] && b[9] == Ascii(ATTESTATION_TAG)[9];
    assert RECEIPT_TAG[9] == 'R' && ATTESTATION_TAG[9] == 'E';
  }

  /** Both start with the tag that the code writes, readable as text. */
  lemma {:induction false} TagsAreReadable(cid: Str, first: Bytes, second: Bytes, timestamp: u64)
    ensures FromAscii(Encode(RECEIPT_TAG, cid, first, second, timestamp)[..19]) == "CraftSEC-Receipt-v1"
    ensures FromAscii(Encode(ATTESTATION_TAG, cid, first, second, timestamp)[..22]) == "CraftSEC-ExecAttest-v1"
  {
    AsciiIsRead(RECEIPT_TAG);
    AsciiIsRead(ATTESTATION_TAG);
    assert Encode(RECEIPT_TAG, cid, first, second, timestamp)[..19] == Ascii(RECEIPT_TAG);
    assert Encode(ATTESTATION_TAG, cid, first, second, timestamp)[..22] == Ascii(ATTESTATION_TAG);
  }
}
