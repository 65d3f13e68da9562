/** The drop-tail FIFO a link queues packets in (hw2/buffer.py). */
module Buffer {
  import opened Common
  import opened Packets

  class DropTailBuffer {
    var queue: seq<Packet>   // oldest first
    const capacity: nat
    const bandwidth: real    // accepted and unused, as in the source
    const name: string
    var dropCount: nat

    /** Occupancy never exceeds the capacity. */
    ghost predicate Valid()
      reads this
    {
      |queue| <= capacity
    }

    constructor (capacity: nat, bandwidth: real, name: string)
      ensures Valid()
      ensures queue == [] && dropCount == 0
      ensures this.capacity == capacity && this.bandwidth == bandwidth && this.name == name
    {
      queue := [];
      this.capacity := capacity;
      this.bandwidth := bandwidth;
      this.name := name;
      dropCount := 0;
    }

    /** `enqueue`: appends when there is room, otherwise counts a drop; never both. */
    method Enqueue(packet: Packet)
      requires Valid()
      modifies this
      ensures Valid()
      ensures old(|queue|) < capacity ==> queue == old(queue) + [packet] && dropCount == old(dropCount)
      ensures old(|queue|) >= capacity ==> queue == old(queue) && dropCount == old(dropCount) + 1
    {
      if |queue| < capacity {
        queue := queue + [packet];
      } else {
        dropCount := dropCount + 1;
      }
    }

    /** `dequeue`: None on an empty buffer, else removes and returns the oldest packet. */
    method Dequeue() returns (packet: Option<Packet>)
      requires Valid()
      modifies this
      ensures Valid() && dropCount == old(dropCount)
      ensures old(queue) == [] ==> packet == None && queue == []
      ensures old(queue) != [] ==> packet == Some(old(queue)[0]) && queue == old(queue)[1..]
    {
      if |queue| == 0 {
        packet := None;
      } else {
        packet := Some(queue[0]);
        queue := queue[1..];
      }
    }

    /** `get_current_used_count`: the number of buffered packets, at most the capacity. */
    method UsedCount() returns (n: nat)
      requires Valid()
      ensures n == |queue| && n <= capacity
    {
      n := |queue|;
    }
  }
}
