/** The packet path from one builder to the other side's reader, put together. */
module WireStack {
  import opened Bytes
  import opened PacketCodec
  import PacketCipher
  import opened Deframer
  import Upload

  datatype Message = Message(id: uint16, fields: seq<Field>)

  function Packet(msg: Message): (p: seq<byte>)
    ensures |p| >= 4
  {
    PacketBytes(msg.id, FieldsBytes(msg.fields), 0)
  }

  /** Two digits hold the length, and the cipher does not trip over the packet. */
  ghost predicate Deliverable(msg: Message, m: byte)
  {
    var p := Packet(msg);
    |p| - 2 < MAX2 && PacketCipher.Survives(p, m)
  }

  ghost predicate AllDeliverable(msgs: seq<Message>, m: byte)
  {
    forall i | 0 <= i < |msgs| :: Deliverable(msgs[i], m)
  }

  ghost function OnWire(msg: Message, m: byte): (f: Frame)
  {
    var e := PacketCipher.Encoded(Packet(msg), m);
    Frame(e[0], e[1], e[2..])
  }

  ghost function AllOnWire(msgs: seq<Message>, m: byte): (fs: seq<Frame>)
    ensures |fs| == |msgs|
  {
    seq(|msgs|, i requires 0 <= i < |msgs| => OnWire(msgs[i], m))
  }

  /** For every message and every key: its length is announced as it is, reaches the wire as announced, and the body is
      read back, exactly if the message is deliverable. */
  lemma DeliverableExactly(msg: Message, m: byte)
    ensures var p := Packet(msg);
            var e := PacketCipher.Encoded(p, m);
            Deliverable(msg, m) <==> Number(p[0], p[1]) == |p| - 2 && e[..2] == p[..2]
                                     && PacketCipher.Decoded(e[2..], m) == p[2..]
  {
    var p := Packet(msg);
    hide FieldsBytes, PacketCipher.Encoded, PacketCipher.Decoded, PacketCipher.Survives, DigitByte;
    if |p| - 2 < 0x1_0000_0000 {
      LengthHeader(msg.id, FieldsBytes(msg.fields));
    }
    PacketCipher.SurvivesExactly(p, m);
  }

  /** Of the keys 6 to 12 that the server draws, none gets hold of the header of a packet below 1265 framed bytes. */
  lemma ShortMessages(msg: Message, m: byte)
    requires 6 <= m <= 12 && |Packet(msg)| - 2 < 1265
    ensures Deliverable(msg, m) <==>
            PacketCipher.IsInitPacket(Packet(msg)) || PacketCipher.CleanBody(PacketCipher.Wound(Packet(msg)[2..], m))
  {
    hide FieldsBytes, PacketCipher.CleanBody, PacketCipher.Wound, DigitByte;
    LengthByteOutOfRuns(msg.id, FieldsBytes(msg.fields), m);
  }

  lemma OnWireDecodes(msg: Message, m: byte)
    requires Deliverable(msg, m)
    ensures WellFormed(OnWire(msg, m))
    ensures FrameBytes(OnWire(msg, m)) == PacketCipher.Encoded(Packet(msg), m)
    ensures |OnWire(msg, m).body| >= 2
    ensures PacketCipher.Decoded(OnWire(msg, m).body, m) == Packet(msg)[2..]
  {
    var p := Packet(msg);
    DeliverableExactly(msg, m);
    hide PacketCipher.Survives, PacketCipher.Encoded, PacketCipher.Decoded, PacketBytes, Deliverable;
    HeaderAndBody(PacketCipher.Encoded(p, m), p);
  }

  lemma HeaderAndBody(e: seq<byte>, p: seq<byte>)
    requires |e| == |p| >= 2 && e[..2] == p[..2]
    ensures e[0] == p[0] && e[1] == p[1] && e == [e[0], e[1]] + e[2..]
  {
    assert e[..2][0] == p[..2][0] && e[..2][1] == p[..2][1];
  }

  lemma PacketReads(msg: Message)
    ensures ReadFields(Kinds(msg.fields), Packet(msg)[2..], 2) == (AllReceived(msg.fields), |Packet(msg)| - 2)
  {
    var p, data := Packet(msg), FieldsBytes(msg.fields);
    var head := [p[2], p[3]];
    assert p[2..] == head + data + [];
    FieldsReadBack(msg.fields, head, []);
  }

  /** Whatever the chunks and the ticks in between: the packets the receiver has executed are the first ones sent,
      and decoding and reading each of them gives back the fields that were written. When every byte has arrived
      and the ring has drained, that is all of them. */
  lemma EndToEnd(msgs: seq<Message>, m: byte, history: seq<byte>, executed: seq<Frame>, state: PacketState,
                 raw0: byte, raw1: byte, length: nat, data: seq<byte>, queued: seq<byte>)
    requires AllDeliverable(msgs, m)
    requires Consistent(history, executed, state, raw0, raw1, length, data, queued)
    requires history <= Stream(AllOnWire(msgs, m))
    ensures |executed| <= |msgs|
    ensures forall i | 0 <= i < |executed| ::
              |executed[i].body| >= 2 &&
              ReadFields(Kinds(msgs[i].fields), PacketCipher.Decoded(executed[i].body, m), 2).0
              == AllReceived(msgs[i].fields)
    ensures history == Stream(AllOnWire(msgs, m)) && queued == [] ==> |executed| == |msgs|
  {
    hide Deliverable, OnWire, Packet, ReadFields, Kinds, AllReceived, Stream, Consistent, Partial;
    var fs := AllOnWire(msgs, m);
    forall i | 0 <= i < |fs|
      ensures WellFormed(fs[i])
    {
      OnWireDecodes(msgs[i], m);
    }
    FramesDelivered(fs, history, executed, state, raw0, raw1, length, data, queued);
    CaughtUp(fs, history, executed, state, raw0, raw1, length, data, queued);
    forall i | 0 <= i < |executed|
      ensures |executed[i].body| >= 2
      ensures ReadFields(Kinds(msgs[i].fields), PacketCipher.Decoded(executed[i].body, m), 2).0
              == AllReceived(msgs[i].fields)
    {
      assert executed[i] == fs[i];
      OnWireDecodes(msgs[i], m);
      PacketReads(msgs[i]);
    }
    if |executed| < |fs| && history == Stream(fs) {
      SomeAreLonger(fs, |executed| + 1);
    }
  }

  lemma SomeAreLonger(fs: seq<Frame>, k: nat)
    requires k <= |fs|
    ensures |Stream(fs[..k])| <= |Stream(fs)|
  {
    StreamAppend(fs[..k], fs[k..]);
    assert fs == fs[..k] + fs[k..];
  }

  /** A board post (family 43, action 8: the post's id and its text) of 1272 characters is 1276 framed bytes long.
      With key 6 its length header is exchanged, and the peer waits for 2788 bytes. */
  lemma LongPostLosesItsHeader(post: uint16, text: seq<byte>)
    requires |text| == 1272
    ensures var p := PacketBytes(8 * 256 + 43, FieldBytes(FShort(post)) + text, 0);
            Number(p[0], p[1]) == |p| - 2 == 1276 &&
            var e := PacketCipher.Encoded(p, 6);
            Number(e[0], e[1]) == 2788
  {
    var data := FieldBytes(FShort(post)) + text;
    var p := PacketBytes(8 * 256 + 43, data, 0);
    assert p[..2] == [12, 6];
    LengthHeader(8 * 256 + 43, data);
    PacketCipher.LongPacketLosesItsHeader(p);
    var e := PacketCipher.Encoded(p, 6);
    assert e[0] == e[..2][0] && e[1] == e[..2][1];
  }

  // ---------------------------------------------------------------- an upload among the packets

  /** The length in an upload's header tells the peer how much follows exactly if header and file are short enough. */
  lemma UploadHeaderReads(initReply: uint8, isMap: bool, file: seq<byte>)
    requires |file| + 4 < 0x1_0000_0000
    ensures var h := Upload.Header(initReply, isMap, |file|);
            Number(h[0], h[1]) == |h| - 2 + |file| <==> |h| - 2 + |file| < MAX2
  {
    var h := Upload.Header(initReply, isMap, |file|);
    var n: uint32 := |h| - 2 + |file|;
    HeaderLength(initReply, isMap, |file|);
    hide *;
    TwoDigits(n);
    BelowTwoDigits(n);
  }

  /** Behind its length an upload's header is an INIT packet, whose fields the peer's reader gets back: the reply code
      and, for anything but a map, a 1. */
  lemma HeaderReads(initReply: uint8, isMap: bool, file: seq<byte>)
    requires initReply < 253
    ensures var body := (Upload.Header(initReply, isMap, |file|) + file)[2..];
            && body[0] == 255 && body[1] == 255
            && ReadFields(if isMap then [KChar] else [KChar, KChar], body, 2)
               == (if isMap then [FChar(initReply)] else [FChar(initReply), FChar(1)], if isMap then 3 else 4)
  {
    var fields := if isMap then [FChar(initReply)] else [FChar(initReply), FChar(1)];
    var h := Upload.Header(initReply, isMap, |file|);
    FieldsOf(initReply, isMap);
    hide Digits, FieldsBytes, ReadFields, DigitByte, FieldBytes, Joined;
    assert FieldsBytes(fields) == h[4..];
    assert (h + file)[2..] == [255, 255] + FieldsBytes(fields) + file;
    FieldsReadBack(fields, [255, 255], file);
    assert Kinds(fields) == if isMap then [KChar] else [KChar, KChar];
    assert AllReceived(fields) == fields;
  }

  lemma OneByte(n: uint8)
    ensures Digits(n)[..1] == [DigitByte(n, 0)]
  {
  }

  lemma FieldsOf(initReply: uint8, isMap: bool)
    ensures FieldsBytes(if isMap then [FChar(initReply)] else [FChar(initReply), FChar(1)]) ==
            [DigitByte(initReply, 0)] + if isMap then [] else [DigitByte(1, 0)]
  {
    OneByte(initReply);
    OneByte(1);
    hide Digits, DigitByte;
    var first, second := FieldBytes(FChar(initReply)), FieldBytes(FChar(1));
    var fields := if isMap then [FChar(initReply)] else [FChar(initReply), FChar(1)];
    JoinedTwo(first, second);
    assert seq(|fields|, i requires 0 <= i < |fields| => FieldBytes(fields[i]))
        == if isMap then [first] else [first, second];
  }

  lemma JoinedTwo(a: seq<byte>, b: seq<byte>)
    ensures Joined([a]) == a && Joined([a, b]) == a + b
  {
    assert [a][1..] == [] && [b][1..] == [] && [a, b][1..] == [b];
    assert Joined([b]) == b;
  }

  lemma HeaderLength(initReply: uint8, isMap: bool, size: nat)
    requires size + 4 < 0x1_0000_0000
    ensures var h := Upload.Header(initReply, isMap, size);
            h[0] == DigitByte(|h| - 2 + size, 0) && h[1] == DigitByte(|h| - 2 + size, 1)
  {
    hide Number, DigitByte, Digit;
  }

  lemma StreamCut(fs: seq<Frame>, k: nat)
    requires k <= |fs|
    ensures Stream(fs) == Stream(fs[..k]) + Stream(fs[k..])
  {
    assert fs == fs[..k] + fs[k..];
    hide Stream;
    StreamAppend(fs[..k], fs[k..]);
  }

  /** An upload that starts when only whole frames have been sent is one more frame among them. */
  lemma UploadBetweenFrames(fs: seq<Frame>, k: nat, upload: Frame, wire: seq<byte>, pending: seq<byte>)
    requires k <= |fs| && wire == Stream(fs[..k]) && wire + pending == Stream(fs)
    ensures wire + FrameBytes(upload) + pending == Stream(fs[..k] + [upload] + fs[k..])
  {
    hide Stream, FrameBytes;
    StreamCut(fs, k);
    assert pending == Stream(fs)[|wire|..] == Stream(fs[k..]);
    StreamSnoc(fs[..k], upload);
    StreamAppend(fs[..k] + [upload], fs[k..]);
  }

  /** A file as the peer should see it: the header of the upload, and the file as it is sent, in one frame. */
  ghost function UploadFrame(initReply: uint8, isMap: bool, content: seq<byte>, patch: bool): (f: Frame)
  {
    var h := Upload.Header(initReply, isMap, |content|);
    Frame(h[0], h[1], h[2..] + Upload.Patched(content, patch))
  }

  /** The peer can read `bytes` so that `upload` is a frame of its own and begins where `wire` ends. */
  ghost predicate ReadsUpload(gs: seq<Frame>, j: int, upload: Frame, wire: seq<byte>, bytes: seq<byte>)
  {
    && AllWellFormed(gs) && 0 <= j < |gs| && gs[j] == upload
    && Stream(gs[..j]) == wire && Stream(gs) <= bytes
  }

  lemma ReadAtBoundary(fs: seq<Frame>, gs: seq<Frame>, j: int, upload: Frame, wire: seq<byte>, pending: seq<byte>,
                       bytes: seq<byte>)
    requires AllWellFormed(fs) && wire + pending == Stream(fs) && ReadsUpload(gs, j, upload, wire, bytes)
    ensures WellFormed(upload) && 0 <= j <= |fs| && wire == Stream(fs[..j])
  {
    hide Stream, WellFormed;
    UniqueReading(gs[..j], pending, fs);
    assert gs[..j] == fs[..j];
  }

  lemma BoundaryReads(fs: seq<Frame>, k: int, upload: Frame, wire: seq<byte>, pending: seq<byte>)
    requires AllWellFormed(fs) && wire + pending == Stream(fs) && 0 <= k <= |fs| && wire == Stream(fs[..k])
    requires WellFormed(upload)
    ensures exists gs, j :: ReadsUpload(gs, j, upload, wire, wire + FrameBytes(upload) + pending)
  {
    hide Stream, WellFormed, FrameBytes;
    UploadBetweenFrames(fs, k, upload, wire, pending);
    var gs := fs[..k] + [upload] + fs[k..];
    assert gs[..k] == fs[..k];
    assert ReadsUpload(gs, k, upload, wire, wire + FrameBytes(upload) + pending);
  }

  lemma UploadFrameBytes(initReply: uint8, isMap: bool, content: seq<byte>, patch: bool)
    requires |content| + 4 < 0x1_0000_0000
    ensures var upload, h := UploadFrame(initReply, isMap, content, patch), Upload.Header(initReply, isMap, |content|);
            && FrameBytes(upload) == h + Upload.Patched(content, patch)
            && (WellFormed(upload) <==> |h| - 2 + |content| < MAX2)
  {
    hide Upload.Header, Number, Upload.Patched;
    UploadHeaderReads(initReply, isMap, content);
  }

  /** The order of bytes in which `Upload.Sender.StartUpload` leaves things, `pending` being what waited in the ring:
      the peer can read the file exactly if two digits hold its length and `wire`, what had been sent, ends with
      a frame. */
  lemma UploadReadExactly(fs: seq<Frame>, initReply: uint8, isMap: bool, content: seq<byte>, patch: bool,
                          wire: seq<byte>, pending: seq<byte>)
    requires |content| + 4 < 0x1_0000_0000 && AllWellFormed(fs) && wire + pending == Stream(fs)
    ensures var upload, h := UploadFrame(initReply, isMap, content, patch), Upload.Header(initReply, isMap, |content|);
            var bytes := wire + h + Upload.Patched(content, patch) + pending;
            (exists gs, j :: ReadsUpload(gs, j, upload, wire, bytes)) <==>
            |h| - 2 + |content| < MAX2 && exists k :: 0 <= k <= |fs| && wire == Stream(fs[..k])
  {
    hide *;
    var upload, h := UploadFrame(initReply, isMap, content, patch), Upload.Header(initReply, isMap, |content|);
    var body := Upload.Patched(content, patch);
    var bytes := wire + h + body + pending;
    UploadFrameBytes(initReply, isMap, content, patch);
    assert bytes == wire + (h + body) + pending == wire + FrameBytes(upload) + pending;
    if gs, j :| ReadsUpload(gs, j, upload, wire, bytes) {
      ReadAtBoundary(fs, gs, j, upload, wire, pending, bytes);
    }
    if k :| |h| - 2 + |content| < MAX2 && 0 <= k <= |fs| && wire == Stream(fs[..k]) {
      BoundaryReads(fs, k, upload, wire, pending);
    }
  }

  /** What becomes of a frame that has been sent in part, its length included: the peer fills it up with the first bytes
      of whatever follows. It gets the frame intact exactly if those are the bytes that were missing. */
  lemma CutFrameSwallows(fs: seq<Frame>, k: nat, sent: nat, upload: seq<byte>, wire: seq<byte>, pending: seq<byte>)
    requires AllWellFormed(fs) && k < |fs| && sent < |fs[k].body|
    requires wire == Stream(fs[..k]) + ([fs[k].len0, fs[k].len1] + fs[k].body[..sent])
    requires pending == fs[k].body[sent..] + Stream(fs[k + 1..])
    ensures wire + pending == Stream(fs)
    ensures var missing := fs[k].body[sent..];
            var got := (upload + pending)[..|missing|];
            var cut := Frame(fs[k].len0, fs[k].len1, fs[k].body[..sent] + got);
            && WellFormed(cut) && Stream(fs[..k] + [cut]) == wire + got <= wire + upload + pending
            && (cut == fs[k] <==> missing <= upload + pending)
  {
    hide Stream;
    var f, head, tail := fs[k], Stream(fs[..k]), Stream(fs[k + 1..]);
    StreamCut(fs, k);
    StreamSplit(fs, k);
    var got := (upload + pending)[..|f.body| - sent];
    StreamSnoc(fs[..k], Frame(f.len0, f.len1, f.body[..sent] + got));
    FilledUp(head, f, sent, got);
    FilledUp(head, f, sent, f.body[sent..]);
    PutTogether(head, f, sent, wire, pending, tail);
    assert wire + upload + pending == wire + got + (upload + pending)[|got|..];
  }

  lemma FilledUp(head: seq<byte>, f: Frame, sent: nat, got: seq<byte>)
    requires sent <= |f.body|
    ensures head + ([f.len0, f.len1] + f.body[..sent]) + got ==
            head + FrameBytes(Frame(f.len0, f.len1, f.body[..sent] + got))
    ensures f.body[..sent] + got == f.body <==> got == f.body[sent..]
  {
    if f.body[..sent] + got == f.body {
      assert got == (f.body[..sent] + got)[sent..];
    }
  }

  lemma PutTogether(head: seq<byte>, f: Frame, sent: nat, wire: seq<byte>, pending: seq<byte>, tail: seq<byte>)
    requires sent <= |f.body| && wire == head + ([f.len0, f.len1] + f.body[..sent]) && pending == f.body[sent..] + tail
    ensures wire + pending == head + (FrameBytes(f) + tail)
  {
  }
}
