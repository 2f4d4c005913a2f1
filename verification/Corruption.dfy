/** What the line may do to a packet without the acceptor noticing. */
module Corruption {
  import opened Bytes
  import opened Editions
  import opened NgxParse
  import opened Crc
  import opened CrcDetection
  import opened Frame

  /** A built packet whose data segment arrives as `received` instead of `sent`. */
  function Garbled(sent: bytes, received: bytes, terminator: bytes): bytes
    requires |sent| < 10000
  {
    HASHES + Dec4(|sent|) + received + Hex4(Gb212(sent)) + terminator
  }

  /** Nothing but a checksum collision lets other data of the same length through. Data that
      bring a terminator of their own only end the packet too early. */
  lemma OnlyCollisionsPass(e: Edition, terminator: bytes, prefix: bytes, sent: bytes, received: bytes, tail: bytes)
    requires |terminator| > 0 && |received| == |sent| < 10000 && !Contains(prefix + [0x23], HASHES)
    ensures FrameVerdict(e, terminator, prefix + Garbled(sent, received, terminator) + tail).Accept? ==>
              Gb212(received) == Gb212(sent)
  {
    hide StrStr, MatchesAt, Contains, Atoi, HexToI, Gb212, Dec4, Hex4, FrameVerdict;
    var len4, crc4 := Dec4(|sent|), Hex4(Gb212(sent));
    var str := prefix + Garbled(sent, received, terminator) + tail;
    assert str == prefix + HASHES + len4 + received + crc4 + terminator + tail;
    assert str == prefix + HASHES + len4 + received + crc4 + (terminator + tail);
    MarkerInParts(str, terminator, prefix, len4, received, crc4, tail);
    Parts(str, prefix, len4, received, crc4, terminator + tail);
    AtoiDec4(|sent|);
    HexToIHex4(Gb212(sent));
    if FrameVerdict(e, terminator, str).Accept? {
      AcceptedFacts(e, terminator, str);
      SameCrc(Gb212(received), Gb212(sent));
    }
  }

  function FromInt(n: nat): bv16
    requires n < 0x1_0000
  {
    n as bv16
  }

  lemma Back(w: bv16)
    ensures FromInt(w as int) == w
  {
  }

  lemma SameCrc(x: bv16, y: bv16)
    requires x as int == y as int
    ensures x == y
  {
    hide FromInt;
    Back(x);
    Back(y);
  }

  /** And it lets them through exactly when they bring no terminator. */
  lemma PassesExactly(e: Edition, terminator: bytes, prefix: bytes, sent: bytes, received: bytes, tail: bytes)
    requires |terminator| >= 2 && HexFree(terminator)
    requires |received| == |sent| < 10000 && !Contains(prefix + [0x23], HASHES)
    ensures FrameVerdict(e, terminator, prefix + Garbled(sent, received, terminator) + tail)
              == Accept(|prefix| + 6, |prefix| + 6 + |received|) <==>
            Gb212(received) == Gb212(sent) && !Contains(received, terminator)
  {
    hide FrameVerdict, Contains, Gb212, HexFree;
    OnlyCollisionsPass(e, terminator, prefix, sent, received, tail);
    if Gb212(received) == Gb212(sent) {
      assert Garbled(sent, received, terminator) == Packet(received, terminator);
      BuiltPacketAccepted(e, terminator, prefix, received, tail);
    }
  }

  /** A packet with one wrong data byte is never accepted. */
  lemma SubstitutionRefused(e: Edition, terminator: bytes, prefix: bytes, sent: bytes, i: nat, b: byte, tail: bytes)
    requires |terminator| > 0 && i < |sent| < 10000 && b != sent[i] && !Contains(prefix + [0x23], HASHES)
    ensures !FrameVerdict(e, terminator, prefix + Garbled(sent, sent[i := b], terminator) + tail).Accept?
  {
    hide FrameVerdict, Garbled, Contains, Gb212;
    OnlyCollisionsPass(e, terminator, prefix, sent, sent[i := b], tail);
    SubstitutionDetected(sent, i, b);
  }

  /** Nor is one with two unequal neighbouring characters exchanged. */
  lemma SwapRefused(e: Edition, terminator: bytes, prefix: bytes, sent: bytes, i: nat, tail: bytes)
    requires |terminator| > 0 && i + 1 < |sent| < 10000 && !Contains(prefix + [0x23], HASHES)
    requires sent[i] < 0x80 && sent[i + 1] < 0x80 && sent[i] != sent[i + 1]
    ensures !FrameVerdict(e, terminator, prefix + Garbled(sent, Swapped(sent, i), terminator) + tail).Accept?
  {
    hide FrameVerdict, Garbled, Contains, Gb212;
    OnlyCollisionsPass(e, terminator, prefix, sent, Swapped(sent, i), tail);
    SwapDetectedInText(sent, i);
  }
}
