/** The sending half of an EOClient (src/eoclient.cpp): ordinary sends, and file uploads that
    push everything sent meanwhile into a second buffer. */
module Upload {
  import opened Bytes
  import opened Rings
  import PacketCodec

  /** `init_reply` and, except for maps, a constant 1 follow the INIT packet id;
      the announced length counts the file as well. */
  function Header(initReply: PacketCodec.uint8, isMap: bool, size: nat): (h: seq<byte>)
    ensures |h| == if isMap then 5 else 6
  {
    var first := [PacketCodec.DigitByte(initReply, 0)];
    PacketCodec.PacketBytes(0xFFFF, if isMap then first else first + [PacketCodec.DigitByte(1, 0)], size)
  }

  /** The file as it is sent: with player killing forced on, three bytes of a map are overwritten. */
  function Patched(file: seq<byte>, pk: bool): (r: seq<byte>)
    ensures |r| == |file|
  {
    seq(|file|, i requires 0 <= i < |file| =>
      if pk && i == 0x03 then 0xFF else if pk && i == 0x04 then 0x01 else if pk && i == 0x1F then 0x04 else file[i])
  }

  /** What one read puts into the buffer. The byte behind the first changed one is only changed together with it. */
  function Piece(file: seq<byte>, pk: bool, pos: nat, got: nat): (r: seq<byte>)
    requires pos + got <= |file|
    ensures |r| == got
  {
    seq(got, i requires 0 <= i < got =>
      if pk && pos + i == 0x03 then 0xFF
      else if pk && pos + i == 0x04 && pos <= 0x03 then 0x01
      else if pk && pos + i == 0x1F then 0x04
      else file[pos + i])
  }

  /** A read splits the changes exactly if it starts between the first two. */
  predicate Splits(pk: bool, pos: nat, got: nat)
  {
    pk && pos == 0x04 && got > 0
  }

  lemma PieceIsPatched(file: seq<byte>, pk: bool, pos: nat, got: nat)
    requires pos + got <= |file|
    ensures var whole := Patched(file, pk)[pos..pos + got];
            Piece(file, pk, pos, got) == if Splits(pk, pos, got) then whole[0 := file[pos]] else whole
  {
  }

  /** The bytes that make a map one where everybody may fight: 255 and 1 at 3 and 4, and a 4 at 31. Nothing else is
      touched, and no other file. */
  lemma PatchChanges(file: seq<byte>, pk: bool, i: nat)
    requires i < |file|
    ensures Patched(file, false) == file
    ensures i !in {3, 4, 31} ==> Patched(file, pk)[i] == file[i]
    ensures |file| > 31 ==> Patched(file, true)[3..5] == [255, 1] && Patched(file, true)[31] == 4
  {
  }

  /** Read in one piece the fifth byte of a map is changed; in a read that starts with it, it is not. */
  lemma FifthByteMissed(file: seq<byte>)
    requires |file| >= 5 && file[4] != 1
    ensures Piece(file, true, 0, 5)[4] == Patched(file, true)[4] == 1
    ensures Piece(file, true, 4, 1)[0] == file[4] != Patched(file, true)[4]
  {
  }

  /** The buffer a file gets: the current size doubled until it holds the file and six bytes more. */
  method BufferSize(current: nat, size: nat) returns (temp: nat)
    requires PowerOfTwo(current)
    ensures PowerOfTwo(temp) && temp >= size + 6
    ensures temp == current || temp / 2 < size + 6
    ensures temp == size + 6 <==> PowerOfTwo(size + 6) && size + 6 >= current
  {
    temp := current;
    while temp < size + 6
      invariant PowerOfTwo(temp) && temp >= current
      invariant temp == current || temp / 2 < size + 6
      decreases size + 6 - temp
    {
      temp := temp * 2;
    }
    if PowerOfTwo(size + 6) && size + 6 >= current && temp != current {
      PowersApart(temp, size + 6);
    }
  }

  lemma {:induction false} PowersApart(a: nat, b: nat)
    requires PowerOfTwo(a) && PowerOfTwo(b) && a / 2 < b <= a
    ensures a == b
  {
    if b > 1 {
      PowersApart(a / 2, b / 2);
    }
  }

  /** Header and file fill the upload's buffer exactly. */
  ghost predicate Tight(current: nat, isMap: bool, size: nat)
  {
    !isMap && size + 6 >= current && PowerOfTwo(size + 6)
  }

  /** The order in which bytes go out during an upload: the live ring, the rest of the file, the second ring. */
  ghost function Order(wire: seq<byte>, live: seq<byte>, rest: seq<byte>, behind: seq<byte>): (r: seq<byte>)
    ensures |r| == |wire| + |live| + |rest| + |behind|
  {
    wire + (live + (rest + behind))
  }

  /** In the buffer of 32 kilobytes that a client starts with, a file that is no map and six bytes shorter. */
  lemma SixBytesShorter()
    ensures Tight(32768, false, 32762)
  {
    assert PowerOfTwo(4) && PowerOfTwo(64) && PowerOfTwo(1024);
    assert PowerOfTwo(16384);
  }

  datatype Start = Started | CannotOpen | AlreadyUploading

  class Sender {
    var live: Ring
    var lane2: Ring?
    var uploading: bool
    var upload_pos: nat
    var upload_size: nat
    var file: seq<byte>
    var pk: bool
    var closed: bool

    /** Every byte put on the wire, and the order in which all accepted bytes must reach it. */
    ghost var wire: seq<byte>
    ghost var stream: seq<byte>
    ghost var lead: nat

    ghost predicate Valid()
      reads this, live, live.buf, lane2, if lane2 == null then {} else {lane2.buf}
    {
      && InPlace()
      && stream == if uploading
                   then Order(wire, live.Contents(), Patched(file, pk)[upload_pos..], lane2.Contents())
                   else wire + live.Contents()
    }

    /** How the two buffers and the file fit together. */
    ghost predicate InPlace()
      reads this, live, live.buf, lane2, if lane2 == null then {} else {lane2.buf}
    {
      && live.Valid()
      && (uploading ==>
            && lane2 != null && lane2 != live && lane2.buf != live.buf && lane2.Valid()
            && upload_size == |file|
            && upload_pos <= upload_size
            && live.ppos == live.gpos + live.used == lead + upload_pos
            && 0 < lead && lead + upload_size <= live.buf.Length
            && (lead + upload_size == live.buf.Length ==> live.buf[0] == 0 && !pk))
    }

    /** The upload buffer is strictly larger than header and file, so the unmasked file read stays inside it. */
    ghost predicate Roomy()
      reads this, live, live.buf
    {
      uploading ==> lead + upload_size < live.buf.Length
    }

    constructor (size: nat)
      requires PowerOfTwo(size)
      ensures Valid() && !uploading && !closed && wire == [] && stream == [] && upload_pos == 0 && upload_size == 0
      ensures fresh(live) && fresh(live.buf)
    {
      live := new Ring(size);
      lane2, uploading, upload_pos, upload_size, file, pk, closed := null, false, 0, 0, [], false, false;
      wire, stream, lead := [], [], 0;
    }

    /** Queues a packet, or closes the connection when it does not fit: never a part of it. */
    method Send(data: seq<byte>)
      requires Valid()
      modifies this`closed, this`stream, live, live.buf, lane2, if lane2 == null then {} else {lane2.buf}
      ensures Valid() && live.buf == old(live.buf) && (lane2 != null ==> lane2.buf == old(lane2.buf))
      ensures if |data| <= (if uploading then old(lane2.Remaining()) else old(live.Remaining()))
              then stream == old(stream) + data && closed == old(closed)
              else closed && stream == old(stream)
      ensures old(Roomy()) ==> Roomy()
    {
      if uploading {
        SendBehindFile(data);
      } else if |data| > live.Remaining() {
        closed := true;
      } else {
        live.Append(data);
        stream := stream + data;
      }
    }

    /** During an upload, packets wait in the second buffer. */
    method SendBehindFile(data: seq<byte>)
      requires Valid() && uploading
      modifies this`closed, this`stream, lane2, lane2.buf
      ensures Valid() && lane2.buf == old(lane2.buf)
      ensures if |data| <= old(lane2.Remaining()) then stream == old(stream) + data && closed == old(closed)
              else closed && stream == old(stream)
    {
      if |data| > lane2.Remaining() {
        closed := true;
      } else {
        QueuedLast(wire, live.Contents(), Patched(file, pk)[upload_pos..], lane2.Contents(), data);
        lane2.Append(data);
        stream := stream + data;
      }
    }

    /** One round of the socket: up to 8192 bytes of the live buffer go out. An error closes the connection. */
    method DoSend(written: int) returns (ghost sent: seq<byte>)
      requires Valid() && written <= |live.Contents()| && written <= CHUNK
      modifies this`wire, this`closed, live`gpos, live`used
      ensures stream == old(stream) && wire == old(wire) + sent
      ensures if written >= 0 then Valid() && |sent| == written && closed == old(closed)
              else closed && sent == []
      ensures old(Roomy()) ==> Roomy()
    {
      var ok;
      ok, sent := live.DoSend(written);
      wire := wire + sent;
      if ok {
        SentFirst(old(wire), sent, live.Contents(),
                  if uploading then Patched(file, pk)[upload_pos..] + lane2.Contents() else []);
        assert !uploading ==> live.Contents() + [] == live.Contents();
      } else {
        closed := true;
      }
    }

    /** Starts an upload: whatever was pending moves behind the file. */
    method StartUpload(initReply: PacketCodec.uint8, found: bool, content: seq<byte>, isMap: bool, patch: bool)
      returns (result: Start)
      requires Valid()
      modifies this`live, this`lane2, this`uploading, this`upload_pos, this`upload_size, this`file, this`pk,
               this`stream, this`lead
      ensures Valid()
      ensures old(uploading) ==> result == AlreadyUploading && stream == old(stream)
      ensures !old(uploading) && !found ==> result == CannotOpen && stream == old(stream) && !uploading
      ensures !old(uploading) && found ==>
                && result == Started && uploading && upload_pos == 0 && file == content && pk == (isMap && patch)
                && fresh(live) && fresh(live.buf) && lane2 == old(live)
                && stream == wire + Header(initReply, isMap, |content|) + Patched(content, isMap && patch)
                             + old(live.Contents())
                && (Roomy() <==> !Tight(old(live.buf.Length), isMap, |content|))
    {
      hide Patched, Header, Queue;
      if uploading {
        return AlreadyUploading;
      }
      if !found {
        return CannotOpen;
      }
      file, pk := content, isMap && patch;
      upload_pos, upload_size := 0, |content|;
      ExchangeBuffers(Header(initReply, isMap, upload_size));
      result := Started;
    }

    /** The new buffer becomes the live one, starting with the upload header. */
    method ExchangeBuffers(header: seq<byte>)
      requires Valid() && !uploading && upload_pos == 0 && upload_size == |file|
      requires |header| == 5 || (|header| == 6 && !pk)
      modifies this`live, this`lane2, this`uploading, this`stream, this`lead
      ensures Valid() && uploading && fresh(live) && fresh(live.buf) && lane2 == old(live)
      ensures stream == wire + header + Patched(file, pk) + old(live.Contents())
      ensures Roomy() <==> !Tight(old(live.buf.Length), |header| == 5, upload_size)
    {
      hide Patched, Queue, Order, PowerOfTwo, Tight;
      var old_live := live;
      var upload_buffer := NewBuffer(live.buf.Length, header, upload_size);
      lane2 := old_live;
      live := upload_buffer;
      uploading := true;
      lead := |header|;
      ghost var body := Patched(file, pk);
      stream := wire + header + body + old_live.Contents();
      OrderStarts(wire, header, body, old_live.Contents());
    }

    static method NewBuffer(current: nat, header: seq<byte>, size: nat) returns (ring: Ring)
      requires PowerOfTwo(current) && 5 <= |header| <= 6
      ensures fresh(ring) && fresh(ring.buf) && ring.Valid() && ring.Contents() == header
      ensures ring.gpos == 0 && ring.ppos == |header|
      ensures ring.buf[0] == 0 && |header| + size <= ring.buf.Length - if |header| == 5 then 1 else 0
      ensures |header| + size < ring.buf.Length <==> !Tight(current, |header| == 5, size)
    {
      var temp := BufferSize(current, size);
      ring := new Ring(temp);
      ring.Append(header);
    }

    method PatchPiece(buf: array<byte>, at: nat, got: nat)
      requires upload_pos + got <= |file| && at + got <= buf.Length
      requires buf[at..at + got] == file[upload_pos..upload_pos + got]
      modifies buf
      ensures buf[..at] == old(buf[..at])
      ensures forall i | 0 <= i < got :: buf[at + i] == Piece(file, pk, upload_pos, got)[i]
    {
      ghost var piece := file[upload_pos..upload_pos + got];
      assert forall i | 0 <= i < got :: buf[at + i] == buf[at..at + got][i] == piece[i] == file[upload_pos + i];
      if pk {
        if upload_pos <= 0x03 && upload_pos + got > 0x03 {
          buf[at + 0x03 - upload_pos] := 0xFF;
        }
        if upload_pos <= 0x03 && upload_pos + got > 0x04 {
          buf[at + 0x04 - upload_pos] := 0x01;
        }
        if upload_pos <= 0x1F && upload_pos + got > 0x1F {
          buf[at + 0x1F - upload_pos] := 0x04;
        }
      }
    }

    /** The read itself and the changes to a piece of a map; a byte behind the buffer is no part of what is stored. */
    method StorePiece(buf: array<byte>, at: nat, got: nat)
      requires upload_pos + got <= |file| && 0 < at <= buf.Length && at + got <= buf.Length + 1
      requires at + got == buf.Length + 1 && got > 0 ==> !pk
      modifies buf
      ensures buf[..at] == old(buf[..at]) && buf[0] == old(buf[0])
      ensures var fits := if at + got > buf.Length then buf.Length - at else got;
              buf[at..at + fits] == Piece(file, pk, upload_pos, fits)
    {
      hide Piece;
      ghost var before := buf[..];
      forall i | 0 <= i < got && at + i < buf.Length {
        buf[at + i] := file[upload_pos + i];
      }
      var fits := if at + got > buf.Length then buf.Length - at else got;
      assert buf[at..at + fits] == file[upload_pos..upload_pos + fits];
      assert buf[..at] == before[..at];
      PatchPiece(buf, at, fits);
      assert buf[0] == buf[..at][0] == before[0];
    }

    /** `fread` straight into the buffer behind the write position, without masking; then the map bytes
        that fall into this piece are overwritten in place. `got` is how much the read delivers. In a tight buffer the
        last byte of the file falls behind the buffer: what is sent in its place is the 0 at the buffer's start. */
    method ReadFile(got: nat) returns (overrun: bool)
      requires InPlace() && uploading && upload_pos + got <= upload_size
      modifies this`upload_pos, live, live.buf
      ensures overrun <==> !old(Roomy()) && got > 0 && upload_pos == upload_size
      ensures upload_pos == old(upload_pos) + got && live.used == old(live.used) + got
      ensures live.buf == old(live.buf) && live.buf[0] == old(live.buf[0]) && live.gpos == old(live.gpos)
      ensures live.ppos == live.gpos + live.used == lead + upload_pos
      ensures !overrun ==> InPlace()
                           && live.Contents() == old(live.Contents()) + Piece(file, pk, old(upload_pos), got)
      ensures overrun ==> live.ppos == live.buf.Length && live.gpos < live.buf.Length && live.used <= live.buf.Length
                          && Queue(live.buf[..], live.gpos, live.used)
                             == old(live.Contents()) + Piece(file, pk, old(upload_pos), got - 1) + [0]
    {
      hide Patched, Piece, Queue, PowerOfTwo;
      var buf, at := live.buf, live.ppos + 1;
      overrun := at + got > buf.Length;
      ghost var before := buf[..];
      assert at == live.gpos + live.used + 1;
      StorePiece(buf, at, got);
      ghost var stored := if overrun then got - 1 else got;
      QueueRead(before, buf[..], live.gpos, live.used, got, Piece(file, pk, upload_pos, stored));
      upload_pos := upload_pos + got;
      live.ppos := live.ppos + got;
      live.used := live.used + got;
    }

    /** A read keeps the one order of all bytes, but for a byte it fails to change - and for one that falls behind
        a tight buffer, after which only the order is accounted for. */
    method ReadAhead(got: nat) returns (overrun: bool)
      requires Valid() && uploading && upload_pos + got <= upload_size
      modifies this`upload_pos, this`stream, live, live.buf
      ensures overrun <==> !old(Roomy()) && got > 0 && upload_pos == upload_size
      ensures upload_pos == old(upload_pos) + got && live.buf == old(live.buf)
      ensures !overrun ==>
                Valid() && stream == if old(Splits(pk, upload_pos, got))
                                     then old(stream[|wire| + |live.Contents()| := file[upload_pos]])
                                     else old(stream)
      ensures overrun ==> AfterOverrun() && stream == old(stream[|wire| + |live.Contents()| + (got - 1) := 0])
    {
      hide Patched, Queue, Piece, PowerOfTwo, Wrap, Order, Splits;
      ghost var behind, was := lane2.Contents(), live.Contents();
      ghost var pos := upload_pos;
      overrun := ReadFile(got);
      ReadPiece(wire, was, file, pk, pos, got, behind);
      assert lane2.Contents() == behind;
      stream := if overrun then Order(wire, Queue(live.buf[..], live.gpos, live.used), [], behind)
                else Order(wire, live.Contents(), Patched(file, pk)[upload_pos..], behind);
    }

    /** The whole file is read, with its last byte behind the buffer. */
    ghost predicate AfterOverrun()
      reads this, live, live.buf, lane2, if lane2 == null then {} else {lane2.buf}
    {
      && uploading && upload_pos == upload_size && lane2 != null && lane2.Valid()
      && live.ppos == live.buf.Length && live.gpos < live.buf.Length && live.used <= live.buf.Length
      && stream == Order(wire, Queue(live.buf[..], live.gpos, live.used), [], lane2.Contents())
    }

    /** One tick of an upload: reads what the buffer has room for, as far as the file delivers it, or swaps the buffers
        back once file and buffer are exhausted. */
    method Tick(delivered: nat) returns (overrun: bool)
      requires Valid() && uploading && delivered <= upload_size - upload_pos
      modifies this`live, this`lane2, this`uploading, this`upload_pos, this`upload_size, this`stream, live, live.buf
      ensures wire == old(wire)
      ensures overrun <==> !old(Roomy()) && delivered > 0 && upload_pos == upload_size
      ensures !overrun ==>
                && Valid() && (old(Roomy()) ==> Roomy())
                && stream == if old(Splits(pk, upload_pos, delivered))
                             then old(stream[|wire| + |live.Contents()| := file[upload_pos]])
                             else old(stream)
      ensures overrun ==> AfterOverrun() && stream == old(stream[|wire| + |live.Contents()| + (delivered - 1) := 0])
      ensures uploading <==> old(upload_pos) < old(upload_size) || |old(live.Contents())| > 0
      ensures uploading ==> upload_pos == old(upload_pos) + delivered && live == old(live) && lane2 == old(lane2)
      ensures !uploading ==> live == old(lane2) && live.Contents() == old(lane2.Contents())
      ensures !uploading ==> lane2 == null && upload_pos == 0 && upload_size == 0
    {
      hide Patched, Queue;
      overrun := false;
      var room := live.buf.Length - live.used;
      var available := if upload_size - upload_pos <= room then upload_size - upload_pos else room;
      if available != 0 {
        overrun := ReadAhead(delivered);
      } else if upload_pos == upload_size && room == live.buf.Length {
        uploading, upload_pos, upload_size := false, 0, 0;
        live, lane2 := lane2, null;
      }
    }
  }

  /** The one order after a read: as it was, or with one byte unchanged, or with a 0 for the last byte read. */
  lemma ReadPiece(wire: seq<byte>, live: seq<byte>, file: seq<byte>, pk: bool, pos: nat, got: nat, behind: seq<byte>)
    requires pos + got <= |file|
    ensures var was := Order(wire, live, Patched(file, pk)[pos..], behind);
            && Order(wire, live + Piece(file, pk, pos, got), Patched(file, pk)[pos + got..], behind) ==
               (if Splits(pk, pos, got) then was[|wire| + |live| := file[pos]] else was)
            && (got > 0 && pos + got == |file| && !pk ==>
                  Order(wire, live + Piece(file, pk, pos, got - 1) + [0], [], behind)
                  == was[|wire| + |live| + (got - 1) := 0])
  {
    hide Patched, Piece, Order;
    var body, rest := Patched(file, pk), Patched(file, pk)[pos + got..];
    var piece := body[pos..pos + got];
    PieceIsPatched(file, pk, pos, got);
    assert body[pos..] == piece + rest;
    MovedUp(wire, live, piece, rest, behind);
    if got > 0 {
      PieceIsPatched(file, pk, pos, got - 1);
      assert piece[..got - 1] == body[pos..pos + got - 1];
      FirstByteChanged(wire, live, piece, rest, behind, file[pos]);
      LastByteChanged(wire, live, piece, rest, behind, 0);
    }
  }

  lemma MovedUp(wire: seq<byte>, live: seq<byte>, piece: seq<byte>, rest: seq<byte>, behind: seq<byte>)
    ensures Order(wire, live + piece, rest, behind) == Order(wire, live, piece + rest, behind)
  {
    assert live + piece + (rest + behind) == live + (piece + rest + behind);
  }

  lemma FirstByteChanged(wire: seq<byte>, live: seq<byte>, piece: seq<byte>, rest: seq<byte>, behind: seq<byte>,
                         b: byte)
    requires piece != []
    ensures Order(wire, live + piece[0 := b], rest, behind)
         == Order(wire, live, piece + rest, behind)[|wire| + |live| := b]
  {
    MovedUp(wire, live, piece[0 := b], rest, behind);
    assert piece[0 := b] + rest == (piece + rest)[0 := b];
  }

  lemma LastByteChanged(wire: seq<byte>, live: seq<byte>, piece: seq<byte>, rest: seq<byte>, behind: seq<byte>, b: byte)
    requires piece != []
    ensures Order(wire, live + piece[..|piece| - 1] + [b], rest, behind)
         == Order(wire, live, piece + rest, behind)[|wire| + |live| + (|piece| - 1) := b]
  {
    var k := |piece| - 1;
    assert live + piece[..k] + [b] == live + piece[k := b];
    MovedUp(wire, live, piece[k := b], rest, behind);
    assert piece[k := b] + rest == (piece + rest)[k := b];
  }

  /** The queue runs on from the buffer's end to its start. */
  lemma QueueOntoStart(buf: seq<byte>, gpos: nat, used: nat)
    requires gpos < |buf| && gpos + used + 1 == |buf|
    ensures Queue(buf, gpos, used + 1) == Queue(buf, gpos, used) + [buf[0]]
  {
    forall i: nat | i < used
      ensures Queue(buf, gpos, used + 1)[i] == Queue(buf, gpos, used)[i]
    {
      QueueAt(buf, gpos, used + 1, i);
      QueueAt(buf, gpos, used, i);
    }
    QueueAt(buf, gpos, used + 1, used);
  }

  lemma QueuedLast(wire: seq<byte>, live: seq<byte>, rest: seq<byte>, waiting: seq<byte>, data: seq<byte>)
    ensures wire + (live + (rest + (waiting + data))) == wire + (live + (rest + waiting)) + data
  {
  }

  lemma SentFirst(wire: seq<byte>, sent: seq<byte>, live: seq<byte>, behind: seq<byte>)
    ensures wire + (sent + live + behind) == wire + sent + (live + behind)
  {
  }

  lemma OrderStarts(wire: seq<byte>, header: seq<byte>, body: seq<byte>, behind: seq<byte>)
    ensures Order(wire, header, body[0..], behind) == wire + header + body + behind
  {
    assert body[0..] == body;
  }

  /** A piece stored behind the write position extends the queue; its last byte behind the buffer is not in it. */
  lemma QueueRead(before: seq<byte>, after: seq<byte>, gpos: nat, used: nat, got: nat, piece: seq<byte>)
    requires |before| == |after| && gpos + used + |piece| < |before| && used + got <= |before|
    requires after[..gpos + used + 1] == before[..gpos + used + 1]
    requires after[gpos + used + 1..gpos + used + 1 + |piece|] == piece
    ensures |piece| == got ==> Queue(after, gpos, used + got) == Queue(before, gpos, used) + piece
    ensures |piece| + 1 == got && gpos + used + got == |before| ==>
              Queue(after, gpos, used + got) == Queue(before, gpos, used) + piece + [after[0]]
  {
    hide Queue;
    QueueExtended(before, after, gpos, used, piece);
    if gpos + used + |piece| + 1 == |before| {
      QueueOntoStart(after, gpos, used + |piece|);
    }
  }

  lemma QueueExtended(before: seq<byte>, after: seq<byte>, gpos: nat, used: nat, chunk: seq<byte>)
    requires |before| == |after| && gpos + used + |chunk| < |before|
    requires after[..gpos + used + 1] == before[..gpos + used + 1]
    requires after[gpos + used + 1..gpos + used + 1 + |chunk|] == chunk
    ensures Queue(after, gpos, used + |chunk|) == Queue(before, gpos, used) + chunk
  {
    var q, r := Queue(after, gpos, used + |chunk|), Queue(before, gpos, used) + chunk;
    forall i: nat | i < used
      ensures q[i] == r[i]
    {
      QueueAt(after, gpos, used + |chunk|, i);
      QueueAt(before, gpos, used, i);
      assert after[gpos + 1 + i] == after[..gpos + used + 1][gpos + 1 + i];
      assert before[gpos + 1 + i] == before[..gpos + used + 1][gpos + 1 + i];
    }
    forall i: nat | used <= i < used + |chunk|
      ensures q[i] == r[i]
    {
      QueueAt(after, gpos, used + |chunk|, i);
      assert after[gpos + used + 1..gpos + used + 1 + |chunk|][i - used] == chunk[i - used];
    }
  }
}
