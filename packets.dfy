/**
 * The wire-level Packet and the application-level Message shared by the
 * simulator and every endpoint (hw4/util.py).
 */
module Packets {
  import opened Common

  /** The endpoint a link hands a packet to (the `_hidden_destination` stamp). */
  datatype Endpoint = SenderOf(connection: string) | ReceiverOf(connection: string)

  /**
   * A packet. Every field is optional except `isEnd` and `label`, as in the
   * source's dataclass; `destination` is the link's hidden stamp.
   */
  datatype Packet = Packet(
    data: Option<Bytes>,
    isEnd: bool,
    seqNum: Option<int>,
    ackNum: Option<int>,
    timestamp: Option<real>,
    connection: string,
    destination: Option<Endpoint>)

  /** An application message; `data` is whatever payload the packet carried. */
  datatype Message = Message(data: Option<Bytes>, isEnd: bool)

  /** Bytes a packet adds to its payload on the wire. */
  const HeaderBytes := 8

  /** The label a packet has before a connection stamps it. */
  const UnsetLabel := "(unset)"

  /** `Packet()`: every field at its default. */
  function NewPacket(): (p: Packet)
    ensures p.data == None && !p.isEnd
    ensures p.seqNum == None && p.ackNum == None && p.timestamp == None
    ensures p.connection == UnsetLabel && p.destination == None
  {
    Packet(None, false, None, None, None, UnsetLabel, None)
  }

  /** `Message(data)`: a message is not the end of a stream unless said so. */
  function NewMessage(data: Bytes): (m: Message)
    ensures m.data == Some(data) && !m.isEnd
  {
    Message(Some(data), false)
  }

  /**
   * `Packet.size`: payload length plus the fixed header. The source computes
   * `len(data)`, which raises on a packet without data.
   */
  function Size(p: Packet): (n: nat)
    requires p.data.Some?
    ensures n >= HeaderBytes && n - HeaderBytes == |p.data.value|
  {
    |p.data.value| + HeaderBytes
  }

  /** A fresh packet carrying a message's payload and end mark, numbered `num`. */
  function DataPacket(m: Message, num: int): (p: Packet)
    ensures p.data == m.data && p.isEnd == m.isEnd && p.seqNum == Some(num)
    ensures p.ackNum == None && p.timestamp == None && p.connection == UnsetLabel
  {
    NewPacket().(data := m.data, isEnd := m.isEnd, seqNum := Some(num))
  }

  /** The message a receiver rebuilds from a packet. */
  function MessageOf(p: Packet): (m: Message)
    ensures m.data == p.data && m.isEnd == p.isEnd
  {
    Message(p.data, p.isEnd)
  }

  /** Rebuilding the message of a data packet gives back the message. */
  lemma MessageOfDataPacket(m: Message, num: int)
    ensures MessageOf(DataPacket(m, num)) == m
  {
  }
}
