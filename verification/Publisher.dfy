/** A lone publisher on board A: the read callback numbers its packets and stops the process at the last one. */
module Publisher {
  import opened Words

  datatype Packet = Packet(sequence: u64, txTime: u64)

  /** The numbers from `first` up to and including `last`; none if `first` is larger. */
  function Upto(first: int, last: int): (s: seq<int>)
    ensures |s| == (if first <= last then last - first + 1 else 0)
    ensures forall i | 0 <= i < |s| :: s[i] == first + i
  {
    seq(if first <= last then last - first + 1 else 0, i => first + i)
  }

  class Process {
    const packetCount: u64
    var running: bool
    var txSequence: int
    ghost var readCount: nat

    /** The flag falls at the read that reaches the packet count and never rises again. */
    ghost predicate Valid()
      reads this
    {
      && txSequence == readCount - 2
      && (running <==> txSequence < packetCount)
    }

    constructor (packetCount: u64)
      requires packetCount >= 1
      ensures Valid() && this.packetCount == packetCount && readCount == 0
    {
      this.packetCount, running, txSequence, readCount := packetCount, true, -2, 0;
    }

    /** `pubGetDataToTransmit`. */
    method GetDataToTransmit(now: u64) returns (data: Packet)
      requires Valid()
      modifies this
      ensures Valid() && readCount == old(readCount) + 1
      ensures data == Packet(ToU64(txSequence), now)
    {
      txSequence := txSequence + 1;
      readCount := readCount + 1;
      data := Packet(ToU64(txSequence), now);
      if txSequence == packetCount {
        running := false;
      }
    }

    /**
     The library reads the value `setup` times while it is being configured, then the publisher thread reads
     it once a turn while the process runs. For every `setup`, the thread sends exactly the numbers
     `setup - 1, ..., packetCount`, each once and in order, and stops.
     */
    method SetupAndPublish(setup: nat, clock: seq<u64>) returns (published: seq<Packet>)
      requires Valid() && readCount == 0 && packetCount >= 1
      requires |clock| >= setup + packetCount + 2
      modifies this
      ensures !running
      ensures |published| == |Upto(setup - 1, packetCount)|
      ensures forall i | 0 <= i < |published| ::
                published[i] == Packet(ToU64(Upto(setup - 1, packetCount)[i]), clock[setup + i])
    {
      var i := 0;
      while i < setup
        invariant 0 <= i <= setup && Valid() && readCount == i
      {
        var ignored := GetDataToTransmit(clock[i]);
        i := i + 1;
      }
      published := [];
      while running
        invariant Valid() && readCount == setup + |published|
        invariant setup <= packetCount + 1 ==> txSequence <= packetCount
        invariant setup > packetCount + 1 ==> published == []
        invariant forall i | 0 <= i < |published| :: published[i] == Packet(ToU64(setup - 1 + i), clock[setup + i])
        decreases packetCount - txSequence
      {
        var data := GetDataToTransmit(clock[setup + |published|]);
        published := published + [data];
      }
    }
  }
}
