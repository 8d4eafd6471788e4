/** Batons: what a client shows to continue its stream (`sqld/src/hrana/http/stream.rs`). */
module Batons {
  import opened Basics
  import opened BigEndian
  import opened PageFile

  function Payload(streamId: nat, batonSeq: nat): (p: Bytes)
    ensures |p| == 16
  {
    ToBigEndian(streamId, 8) + ToBigEndian(batonSeq, 8)
  }

  /** `mac` authenticates under the server's key; `encode` is base64 without padding. */
  function EncodeBaton(mac: Bytes -> Bytes, encode: Bytes -> string, streamId: nat, batonSeq: nat): string {
    var payload := Payload(streamId, batonSeq);
    encode(payload + mac(payload))
  }

  function DecodeBaton(mac: Bytes -> Bytes, decode: string -> Option<Bytes>, baton: string): Option<(nat, nat)> {
    match decode(baton)
    case None => None
    case Some(data) =>
      if |data| != 48 then None
      else
        var payload, receivedMac := data[..16], data[16..];
        if mac(payload) != receivedMac then None
        else Some((FromBigEndian(payload[..8]), FromBigEndian(payload[8..])))
  }

  ghost predicate IsMac(mac: Bytes -> Bytes) {
    forall p :: |mac(p)| == 32
  }

  /** Each byte string has one text, and only texts of byte strings decode (section 4 of RFC 4648). */
  ghost predicate IsBase64(encode: Bytes -> string, decode: string -> Option<Bytes>) {
    forall data, text :: decode(text) == Some(data) <==> text == encode(data)
  }

  lemma PayloadBack(streamId: nat, batonSeq: nat)
    requires streamId < U64_RANGE && batonSeq < U64_RANGE
    ensures FromBigEndian(Payload(streamId, batonSeq)[..8]) == streamId
    ensures FromBigEndian(Payload(streamId, batonSeq)[8..]) == batonSeq
  {
    EightBytes();
    BigEndianBack(streamId, 8);
    BigEndianBack(batonSeq, 8);
    var p := Payload(streamId, batonSeq);
    assert p[..8] == ToBigEndian(streamId, 8) && p[8..] == ToBigEndian(batonSeq, 8);
  }

  lemma BackToPayload(p: Bytes)
    requires |p| == 16
    ensures Payload(FromBigEndian(p[..8]), FromBigEndian(p[8..])) == p
    ensures FromBigEndian(p[..8]) < U64_RANGE && FromBigEndian(p[8..]) < U64_RANGE
  {
    EightBytes();
    FromBigEndianBack(p[..8]);
    FromBigEndianBack(p[8..]);
    assert p == p[..8] + p[8..];
  }

  /** The server reads a stream and a sequence number from exactly the baton it issued for them. */
  lemma DecodesExactlyItsOwn(mac: Bytes -> Bytes, encode: Bytes -> string, decode: string -> Option<Bytes>,
                             baton: string, streamId: nat, batonSeq: nat)
    requires IsMac(mac) && IsBase64(encode, decode) && streamId < U64_RANGE && batonSeq < U64_RANGE
    ensures DecodeBaton(mac, decode, baton) == Some((streamId, batonSeq)) <==>
      baton == EncodeBaton(mac, encode, streamId, batonSeq)
  {
    hide ToBigEndian, FromBigEndian, Payload;
    var payload := Payload(streamId, batonSeq);
    PayloadBack(streamId, batonSeq);
    var data := payload + mac(payload);
    assert decode(encode(data)) == Some(data);
    assert data[..16] == payload && data[16..] == mac(payload);
    if DecodeBaton(mac, decode, baton) == Some((streamId, batonSeq)) {
      var received := decode(baton).value;
      BackToPayload(received[..16]);
      assert received == received[..16] + received[16..];
      assert baton == encode(received);
    }
  }

  /** Different streams and sequence numbers have different batons. */
  lemma BatonsDiffer(mac: Bytes -> Bytes, encode: Bytes -> string, decode: string -> Option<Bytes>,
                     a: (nat, nat), b: (nat, nat))
    requires IsMac(mac) && IsBase64(encode, decode)
    requires a.0 < U64_RANGE && a.1 < U64_RANGE && b.0 < U64_RANGE && b.1 < U64_RANGE
    ensures EncodeBaton(mac, encode, a.0, a.1) == EncodeBaton(mac, encode, b.0, b.1) ==> a == b
  {
    hide EncodeBaton, DecodeBaton;
    DecodesExactlyItsOwn(mac, encode, decode, EncodeBaton(mac, encode, a.0, a.1), a.0, a.1);
    DecodesExactlyItsOwn(mac, encode, decode, EncodeBaton(mac, encode, a.0, a.1), b.0, b.1);
  }
}
