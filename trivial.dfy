/**
 * The stateless baseline endpoints of hw4/trivial_ends.py: the sender wraps
 * every message in one packet numbered 0 and always accepts; the receiver
 * unwraps every packet into one message. Neither keeps any state, so each
 * call is a function of its argument.
 */
module Trivial {
  import opened Common
  import opened Packets

  /** What one call of `TrivialSender.from_application` does: the packet handed to the network, and the answer. */
  datatype SendStep = SendStep(packet: Packet, accepted: bool)

  /** `TrivialSender.from_application`: one packet carrying the message, numbered 0; always accepted. */
  function SenderFromApplication(m: Message): (r: SendStep)
    ensures r.accepted
    ensures r.packet.data == m.data && r.packet.isEnd == m.isEnd && r.packet.seqNum == Some(0)
    ensures r.packet.ackNum == None && r.packet.timestamp == None
  {
    SendStep(DataPacket(m, 0), true)
  }

  /** `TrivialReceiver.from_network`: the one message delivered for a packet. */
  function ReceiverFromNetwork(p: Packet): (m: Message)
    ensures m.data == p.data && m.isEnd == p.isEnd
  {
    MessageOf(p)
  }

  /** The packets the sender emits for a run of messages, one per message, in order. */
  function SendAll(ms: seq<Message>): (ps: seq<Packet>)
    ensures |ps| == |ms|
    ensures forall i :: 0 <= i < |ms| ==> ps[i] == SenderFromApplication(ms[i]).packet
  {
    if ms == [] then [] else [SenderFromApplication(ms[0]).packet] + SendAll(ms[1..])
  }

  /** The messages the receiver delivers for a run of packets, one per packet, in order. */
  function ReceiveAll(ps: seq<Packet>): (ms: seq<Message>)
    ensures |ms| == |ps|
    ensures forall i :: 0 <= i < |ps| ==> ms[i] == ReceiverFromNetwork(ps[i])
  {
    if ps == [] then [] else [ReceiverFromNetwork(ps[0])] + ReceiveAll(ps[1..])
  }

  /** Over a network that loses and reorders nothing, the pair delivers exactly the messages sent. */
  lemma {:induction false} LosslessRoundTrip(ms: seq<Message>)
    ensures ReceiveAll(SendAll(ms)) == ms
  {
    var got := ReceiveAll(SendAll(ms));
    forall i | 0 <= i < |ms|
      ensures got[i] == ms[i]
    {
      MessageOfDataPacket(ms[i], 0);
    }
  }
}
