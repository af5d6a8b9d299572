/** Messages on a byte stream: a fixed header that gives the body's size, then the body. */
module Framing {
  import opened Wrappers
  import opened NumberTheory
  import opened Words
  import opened Fermat
  import opened Convert
  import C = Camellia

  const HEADER_SIZE: nat := 16

  type HeaderBytes = bs: seq<byte> | |bs| == 16 witness seq(16, _ => 0)

  /** The fields of the header, at offsets 0, 8, 10, 11 and 12 of its bytes; the last two bytes
      are padding. */
  datatype Header = Header(bodySize: nat, bodyFiller: nat, encryption: byte, messageType: byte, opponentId: nat) {
    ghost predicate Valid() {
      bodySize < TWO_64 && bodyFiller < 65536 && opponentId < 65536
    }

    /** A difference of unsigned words. */
    function RealSize(): nat {
      (bodySize - bodyFiller) % TWO_64
    }
  }

  datatype Message = Message(header: HeaderBytes, body: seq<byte>)

  const ENCRYPTION_NONE: byte := 0
  const ENCRYPTION_SYMMETRIC: byte := 2

  /** The bytes of a header in memory; the padding may hold anything. */
  function Raw(h: Header, padding: seq<byte>): HeaderBytes
    requires |padding| == 2
  {
    LeBytes(h.bodySize, 8) + LeBytes(h.bodyFiller, 2) + [h.encryption, h.messageType]
    + LeBytes(h.opponentId, 2) + padding
  }

  function Parse(bs: HeaderBytes): Header {
    Header(LeNat(bs[..8]), LeNat(bs[8..10]), bs[10], bs[11], LeNat(bs[12..14]))
  }

  lemma Pow256()
    ensures Pow(256, 2) == 65536 && Pow(256, 8) == TWO_64
  {
    assert Pow(256, 3) == 256 * 65536 && Pow(256, 4) == 65536 * 65536;
    PowAdd(256, 4, 4);
  }

  lemma ParseOfRaw(h: Header, padding: seq<byte>)
    requires h.Valid() && |padding| == 2
    ensures Parse(Raw(h, padding)) == h
  {
    Pow256();
    var bs := Raw(h, padding);
    LeNatOfLeBytes(h.bodySize, 8);
    LeNatOfLeBytes(h.bodyFiller, 2);
    LeNatOfLeBytes(h.opponentId, 2);
    assert bs[..8] == LeBytes(h.bodySize, 8);
    assert bs[8..10] == LeBytes(h.bodyFiller, 2);
    assert bs[12..14] == LeBytes(h.opponentId, 2);
  }

  /** Where each field of the header lies, byte by byte. */
  lemma HeaderLayout(h: Header, padding: seq<byte>)
    requires |padding| == 2
    ensures var bs := Raw(h, padding);
            && FieldAt(bs, 0, 8, h.bodySize) && FieldAt(bs, 8, 2, h.bodyFiller)
            && bs[10] == h.encryption && bs[11] == h.messageType && FieldAt(bs, 12, 2, h.opponentId)
            && bs[14] == padding[0] && bs[15] == padding[1]
  {
    hide LeBytes, FieldAt;
    var bs := Raw(h, padding);
    assert bs[0..0 + 8] == LeBytes(h.bodySize, 8);
    assert bs[8..8 + 2] == LeBytes(h.bodyFiller, 2);
    assert bs[12..12 + 2] == LeBytes(h.opponentId, 2);
    FieldIs(bs, 0, 8, h.bodySize);
    FieldIs(bs, 8, 2, h.bodyFiller);
    FieldIs(bs, 12, 2, h.opponentId);
  }

  /** Every header that arrives is some header: no bit of it but the padding is lost. */
  lemma RawOfParse(bs: HeaderBytes)
    ensures Parse(bs).Valid() && Raw(Parse(bs), bs[14..]) == bs
  {
    Pow256();
    LeBytesOfLeNat(bs[..8]);
    LeBytesOfLeNat(bs[8..10]);
    LeBytesOfLeNat(bs[12..14]);
    assert bs == bs[..8] + bs[8..10] + [bs[10], bs[11]] + bs[12..14] + bs[14..];
  }

  /** An assignment to the opponent through the header's address. */
  function WithOpponent(m: Message, id: nat): Message {
    Message(m.header[..12] + LeBytes(id, 2) + m.header[14..], m.body)
  }

  lemma LowBytes(id: nat)
    ensures id % 65536 == id % 256 + 256 * (id / 256 % 256)
  {
    var low, high, rest := id % 256, id / 256 % 256, id / 256 / 256;
    assert id == 65536 * rest + (low + 256 * high);
    MultipleIsDivisible(65536, rest);
    CongIffSameMod(id, low + 256 * high, 65536);
    SmallMod(low + 256 * high, 65536);
  }

  /** Only the low 16 bits of a word are written to two bytes. */
  lemma TwoBytes(id: nat)
    ensures LeNat(LeBytes(id, 2)) == id % 65536
  {
    var low, high := id % 256, id / 256 % 256;
    LowBytes(id);
    ByteOfNat(low);
    ByteOfNat(high);
    hide Pow;
    TwoBytesAre(id);
    assert LeNat([high as byte]) == high;
    assert [low as byte, high as byte][1..] == [high as byte];
  }

  lemma TwoBytesAre(id: nat)
    ensures LeBytes(id, 2) == [(id % 256) as byte, (id / 256 % 256) as byte]
  {
    assert LeBytes(id / 256, 1) == [(id / 256 % 256) as byte] + LeBytes(id / 256 / 256, 0);
  }

  lemma OnlyOpponentChanges(m: Message, id: nat)
    ensures Parse(WithOpponent(m, id).header) == Parse(m.header).(opponentId := id % 65536)
    ensures WithOpponent(m, id).body == m.body
    ensures forall i :: 0 <= i < 12 || 14 <= i < 16 ==> WithOpponent(m, id).header[i] == m.header[i]
    ensures WithOpponent(WithOpponent(m, id), Parse(m.header).opponentId) == m
  {
    var bs := WithOpponent(m, id).header;
    TwoBytes(id);
    LeBytesOfLeNat(m.header[12..14]);
    assert bs[12..14] == LeBytes(id, 2) && bs[..8] == m.header[..8] && bs[8..10] == m.header[8..10];
    assert WithOpponent(WithOpponent(m, id), Parse(m.header).opponentId).header == m.header;
  }

  /** A message is framed when its header tells the size of its body. */
  predicate Framed(m: Message) {
    Parse(m.header).bodySize == |m.body|
  }

  function Wire(m: Message): seq<byte> {
    m.header + m.body
  }

  function CreateMessage(messageType: byte, encryption: byte, payload: seq<byte>, opponentId: nat, filler: nat,
                         padding: seq<byte>): Message
    requires |padding| == 2
  {
    Message(Raw(Header(|payload|, filler, encryption, messageType, opponentId), padding), payload)
  }

  lemma CreatedIsFramed(messageType: byte, encryption: byte, payload: seq<byte>, opponentId: nat, filler: nat,
                        padding: seq<byte>)
    requires |padding| == 2 && |payload| < TWO_64 && filler < 65536 && opponentId < 65536
    ensures var m := CreateMessage(messageType, encryption, payload, opponentId, filler, padding);
            Framed(m) && m.body == payload
            && Parse(m.header) == Header(|payload|, filler, encryption, messageType, opponentId)
  {
    ParseOfRaw(Header(|payload|, filler, encryption, messageType, opponentId), padding);
  }

  // ------------------------------------------------------------------------ streams

  function Stream(ms: seq<Message>): seq<byte> {
    if ms == [] then [] else Wire(ms[0]) + Stream(ms[1..])
  }

  /** A message that is sent later comes later, its header first. */
  lemma {:induction false} StreamGrows(ms: seq<Message>, m: Message)
    ensures Stream(ms + [m]) == Stream(ms) + m.header + m.body
  {
    if ms == [] {
      assert Stream([m]) == Wire(m) + Stream([]);
    } else {
      assert (ms + [m])[1..] == ms[1..] + [m];
      StreamGrows(ms[1..], m);
    }
  }

  /** The size of the first message's bytes, once its header is there. */
  function FirstSize(bs: seq<byte>): nat
    requires |bs| >= HEADER_SIZE
  {
    HEADER_SIZE + Parse(bs[..HEADER_SIZE]).bodySize
  }

  predicate Complete(bs: seq<byte>) {
    |bs| >= HEADER_SIZE && |bs| >= FirstSize(bs)
  }

  function First(bs: seq<byte>): Message
    requires Complete(bs)
  {
    Message(bs[..HEADER_SIZE], bs[HEADER_SIZE..FirstSize(bs)])
  }

  /** The complete messages at the front of a stream, and the bytes after them. */
  function Frames(bs: seq<byte>): (r: (seq<Message>, seq<byte>))
    decreases |bs|
  {
    if Complete(bs) then
      var (ms, rest) := Frames(bs[FirstSize(bs)..]);
      ([First(bs)] + ms, rest)
    else ([], bs)
  }

  lemma WireIs(m: Message)
    ensures Wire(m) == m.header + m.body
  {}

  lemma Regroup<T>(a: seq<T>, b: seq<T>, c: seq<T>)
    ensures a + (b + c) == a + b + c
  {}

  /** Sends every queued message, header and body in one go, first in first out. */
  method Writer(queue: seq<Message>) returns (socket: seq<byte>)
    ensures socket == Stream(queue)
  {
    hide Wire;
    var pending := queue;
    socket := [];
    while pending != []
      invariant Stream(queue) == socket + Stream(pending)
      decreases |pending|
    {
      var msg := pending[0];
      WireIs(msg);
      Regroup(socket, Wire(msg), Stream(pending[1..]));
      socket := socket + (msg.header + msg.body);
      pending := pending[1..];
    }
  }

  /** Reads messages until the stream ends; one message is reused for all of them. */
  method Reader(socket: seq<byte>) returns (delivered: seq<Message>, lost: seq<byte>)
    ensures (delivered, lost) == Frames(socket)
  {
    hide Parse, Wire;
    delivered, lost := [], socket;
    assert [] + Frames(socket).0 == Frames(socket).0;
    var message := Message(seq(HEADER_SIZE, _ => 0), []);
    while true
      invariant Frames(socket).0 == delivered + Frames(lost).0 && Frames(socket).1 == Frames(lost).1
      decreases |lost|
    {
      if |lost| < HEADER_SIZE {
        break;
      }
      message := message.(header := lost[..HEADER_SIZE]);
      var size := Parse(message.header).bodySize;
      if |lost| - HEADER_SIZE < size {
        break;
      }
      message := message.(body := lost[HEADER_SIZE..][..size]);
      assert message == First(lost);
      Regroup(delivered, [message], Frames(lost[FirstSize(lost)..]).0);
      delivered := delivered + [message];
      lost := lost[HEADER_SIZE + size..];
    }
    assert Frames(lost) == ([], lost) && delivered + [] == delivered;
  }

  lemma FirstOfWire(m: Message, rest: seq<byte>)
    requires Framed(m)
    ensures Complete(Wire(m) + rest) && First(Wire(m) + rest) == m
        && (Wire(m) + rest)[FirstSize(Wire(m) + rest)..] == rest
  {
    assert (Wire(m) + rest)[..HEADER_SIZE] == m.header;
  }

  lemma FramesAfterFirst(m: Message, rest: seq<byte>)
    requires Framed(m)
    ensures Frames(Wire(m) + rest).0 == [m] + Frames(rest).0 && Frames(Wire(m) + rest).1 == Frames(rest).1
  {
    hide Parse, Wire, Complete, First, FirstSize;
    FirstOfWire(m, rest);
  }

  /** Whatever was written is read back, message by message, and bytes that follow are left. */
  lemma {:induction false} FramesOfStream(ms: seq<Message>, rest: seq<byte>)
    requires forall m <- ms :: Framed(m)
    ensures Frames(Stream(ms) + rest) == (ms + Frames(rest).0, Frames(rest).1)
  {
    hide Parse, Wire, Complete, First, FirstSize;
    if ms == [] {
      assert Stream(ms) + rest == rest && ms + Frames(rest).0 == Frames(rest).0;
    } else {
      Regroup(Wire(ms[0]), Stream(ms[1..]), rest);
      FramesAfterFirst(ms[0], Stream(ms[1..]) + rest);
      FramesOfStream(ms[1..], rest);
      Regroup([ms[0]], ms[1..], Frames(rest).0);
      assert [ms[0]] + ms[1..] == ms;
    }
  }

  /** Writing and reading back gives the same messages with nothing left over. */
  lemma StreamRoundTrip(ms: seq<Message>)
    requires forall m <- ms :: Framed(m)
    ensures Frames(Stream(ms)) == (ms, [])
  {
    hide Wire, Stream;
    FramesOfStream(ms, []);
    assert Stream(ms) + [] == Stream(ms) && ms + [] == ms;
  }

  /** Reading loses no byte of any stream, and delivers only framed messages. */
  lemma {:induction false} StreamOfFrames(bs: seq<byte>)
    ensures Stream(Frames(bs).0) + Frames(bs).1 == bs
    ensures forall m <- Frames(bs).0 :: Framed(m)
    ensures !Complete(Frames(bs).1)
    decreases |bs|
  {
    if Complete(bs) {
      StreamOfFrames(bs[FirstSize(bs)..]);
      assert Wire(First(bs)) == bs[..FirstSize(bs)];
      assert bs == bs[..FirstSize(bs)] + bs[FirstSize(bs)..];
    }
  }

  /** However the stream is cut into two arrivals, reading them one after the other delivers
      the same messages. */
  lemma ArrivalsDoNotMatter(a: seq<byte>, b: seq<byte>)
    ensures var (ms, rest) := Frames(a);
            Frames(a + b) == (ms + Frames(rest + b).0, Frames(rest + b).1)
  {
    hide Wire, Stream, Parse, Frames, Complete;
    var (ms, rest) := Frames(a);
    StreamOfFrames(a);
    Regroup(Stream(ms), rest, b);
    assert a + b == Stream(ms) + (rest + b);
    FramesOfStream(ms, rest + b);
  }

  /** When the peer goes away in the middle, exactly the messages sent whole are delivered. */
  lemma {:induction false} CutStream(ms: seq<Message>, n: nat) returns (k: nat)
    requires n <= |Stream(ms)| && forall m <- ms :: Framed(m)
    ensures k <= |ms| && Frames(Stream(ms)[..n]).0 == ms[..k]
    ensures |Stream(ms[..k])| <= n && (k < |ms| ==> n < |Stream(ms[..k + 1])|)
  {
    hide Wire, Parse, Complete, First, FirstSize;
    k := 0;
    assert ms[..0] == [];
    if ms == [] {
      NothingArrived();
    } else {
      var w, rest := Wire(ms[0]), Stream(ms[1..]);
      if n < |w| {
        CutHeader(ms[0], n);
        assert Stream(ms)[..n] == w[..n];
        assert Stream(ms[..1]) == w + Stream([]);
      } else {
        k := CutStream(ms[1..], n - |w|);
        assert Stream(ms)[..n] == w + rest[..n - |w|];
        FramesAfterFirst(ms[0], rest[..n - |w|]);
        StreamPrefix(ms, k + 1);
        if k + 1 < |ms| {
          StreamPrefix(ms, k + 2);
        }
        assert ms[..k + 1] == [ms[0]] + ms[1..][..k];
        k := k + 1;
      }
    }
  }

  lemma NothingArrived()
    ensures Frames([]) == ([], [])
  {}

  lemma StreamPrefix(ms: seq<Message>, k: nat)
    requires 1 <= k <= |ms|
    ensures Stream(ms[..k]) == Wire(ms[0]) + Stream(ms[1..][..k - 1])
  {
    assert ms[..k][1..] == ms[1..][..k - 1];
  }

  lemma CutHeader(m: Message, n: nat)
    requires Framed(m) && n < |Wire(m)|
    ensures !Complete(Wire(m)[..n])
  {
    if n >= HEADER_SIZE {
      assert Wire(m)[..n][..HEADER_SIZE] == m.header;
    }
  }

  // ------------------------------------------------------------- the size check

  /** A decrypted body always has the size that the header implies, so the check for that size
      rejects nothing. */
  lemma RealSizeAlwaysMatches(f: C.RoundFunction, keys: C.Subkeys, m: Message)
    requires keys.Valid() && Framed(m) && Parse(m.header).bodyFiller <= |m.body| < TWO_64
    ensures var r := C.DecryptBytes(f, keys, m.body, Parse(m.header).bodyFiller);
            r.Ok? ==> |r.value| == Parse(m.header).RealSize()
  {
    hide C.Ecb, Parse, LeNat;
    var size := |m.body| - Parse(m.header).bodyFiller;
    assert 0 <= size < TWO_64;
  }

  /** What one side encrypts and frames the other side opens to the same payload. */
  lemma PayloadRoundTrip(f: C.RoundFunction, keys: C.Subkeys, messageType: byte, payload: seq<byte>, opponentId: nat,
                         padding: seq<byte>)
    requires keys.Valid() && |padding| == 2 && |payload| + 16 < TWO_64 && opponentId < 65536
    ensures var cipher := C.EncryptBytes(f, keys, payload);
            var m := CreateMessage(messageType, ENCRYPTION_SYMMETRIC, cipher, opponentId, C.Fill(|payload|), padding);
            && Framed(m) && Parse(m.header).bodyFiller <= |m.body|
            && Parse(m.header).RealSize() == |payload|
            && C.DecryptBytes(f, keys, m.body, Parse(m.header).bodyFiller) == Ok(payload)
  {
    hide C.Ecb, Raw, Parse, C.EncryptBytes, C.DecryptBytes;
    C.BytesRoundTrip(f, keys, payload);
    CreatedIsFramed(messageType, ENCRYPTION_SYMMETRIC, C.EncryptBytes(f, keys, payload), opponentId,
        C.Fill(|payload|), padding);
  }
}
