/** One I2S session over a double buffer. The application's calls run with interrupts off,
    so they and the completion interrupt are atomic steps; each of them keeps the invariant
    that no byte is lost, repeated or reordered, and that the slot of DMA is not written. */
module I2S {
  import opened Bits
  import opened DoubleBuffer

  datatype Direction = Idle | Sending | Receiving

  datatype Sample = NoSample | Sample(bytes: seq<Byte>)

  const PIN_COUNT: nat := 48

  /** Which instance owns each of the three devices; 0 for none. */
  predicate IsOwners(owners: seq<nat>) {
    |owners| == 3
  }

  predicate Configured(device: nat, sampleRate: int, bitsPerSample: int, knownMode: bool, sd: nat, sck: nat, fs: nat) {
    && device < 3 && 0 < sampleRate <= 192000 && (bitsPerSample == 16 || bitsPerSample == 32) && knownMode
    && sd < PIN_COUNT && sck < PIN_COUNT && fs < PIN_COUNT && sd != sck && sd != fs && sck != fs
  }

  class I2SClass {
    const id: nat
    const device: nat
    var ready: bool
    var direction: Direction
    var bits: int
    var busy: bool
    var received: bool
    const buffer: I2SDoubleBuffer
    /** Bytes taken from the application, with padding, and bytes handed to DMA. */
    ghost var accepted: seq<Byte>
    ghost var sent: seq<Byte>
    /** What DMA is sending now. */
    ghost var inflight: seq<Byte>
    /** Bytes that DMA has delivered, and bytes that the application has read or dropped. */
    ghost var delivered: seq<Byte>
    ghost var taken: seq<Byte>

    /** Everything accepted has been handed to DMA, in whole words, or waits in the application
        slot, in order, and what DMA is sending stays in its slot. */
    ghost predicate Sends()
      reads this, buffer
    {
      && buffer.consumed == 0 && !received && sent + buffer.unread == accepted && |sent| % 4 == 0
      && (busy ==> |inflight| <= |buffer.slot| && inflight == buffer.slot[..|inflight|])
    }

    /** Everything delivered has been taken, waits in the application slot, or fills the DMA
        slot, in order. */
    ghost predicate Receives()
      reads this, buffer
    {
      && !(busy && received)
      && taken + (buffer.unread + Landed()) == delivered
    }

    /** A completed slot that the application has not got yet. */
    ghost function Landed(): seq<Byte>
      reads this, buffer
    {
      if received then buffer.slot else []
    }

    ghost predicate Valid()
      reads this, buffer, buffer.storage
    {
      && buffer.Valid()
      && ready == (buffer.storage != null) && (ready ==> bits == 16 || bits == 32)
      && match direction
         case Idle => !busy && !received && buffer.used == 0
         case Sending => ready && Sends()
         case Receiving => ready && Receives()
    }

    constructor (id: nat, device: nat)
      ensures Valid() && !ready && this.id == id && this.device == device && fresh(buffer)
    {
      this.id, this.device := id, device;
      buffer := new I2SDoubleBuffer();
      ready, direction, bits, busy, received := false, Idle, 0, false, false;
      accepted, sent, inflight, delivered, taken := [], [], [], [], [];
    }

    /** Starts a session. It succeeds exactly when the configuration is valid, no instance
        owns the device, and memory and a DMA channel can be had; then this instance owns the
        device, and otherwise nothing is owned that was not before. */
    method Begin(owners: seq<nat>, sampleRate: int, bitsPerSample: int, knownMode: bool,
                 sd: nat, sck: nat, fs: nat, memory: bool, channel: bool)
      returns (result: int, owners': seq<nat>)
      requires Valid() && IsOwners(owners) && id != 0
      modifies this, buffer
      ensures Valid() && IsOwners(owners')
      ensures result == 0 <==>
        && !old(ready) && device < 3 && 1 <= sampleRate <= 192000 && bitsPerSample in {16, 32} && knownMode
        && sd < 48 && sck < 48 && fs < 48 && sd != sck && sd != fs && sck != fs
        && owners[device] == 0 && memory && channel
      ensures result == 0 ==> ready && direction == Idle && owners' == owners[device := id]
      ensures result != 0 ==> result == -1 && owners' == owners && ready == old(ready)
    {
      result, owners' := -1, owners;
      if ready || !Configured(device, sampleRate, bitsPerSample, knownMode, sd, sck, fs) {
        return;
      }
      if owners[device] != 0 {
        return;
      }
      owners' := owners[device := id];
      direction := Idle;
      buffer.Reset(memory);
      if buffer.storage == null || !channel {
        buffer.End();
        owners' := owners'[device := 0];
        busy, received := false, false;
        return;
      }
      bits := bitsPerSample;
      busy, received := false, false;
      ready := true;
      accepted, sent, inflight, delivered, taken := [], [], [], [], [];
      result := 0;
    }

    /** How many bytes can be read at once: those unread, or a completed slot behind none. */
    ghost function Readable(): nat
      reads this, buffer
    {
      |buffer.unread| + if !busy && buffer.unread == [] then |Landed()| else 0
    }

    /** Claims the session for one direction. */
    method Select(d: Direction) returns (ok: bool)
      requires Valid() && d != Idle
      modifies `direction, `accepted, `sent, `delivered, `taken
      ensures Valid() && ok == (ready && (old(direction) == Idle || old(direction) == d))
      ensures if ok then direction == d else direction == old(direction)
      ensures old(direction) == d || !ok ==>
        accepted == old(accepted) && sent == old(sent) && delivered == old(delivered) && taken == old(taken)
      ensures ok && old(direction) == Idle ==> accepted == sent == delivered == taken == []
    {
      if !ready || (direction != Idle && direction != d) {
        return false;
      }
      if direction == d {
        return true;
      }
      direction := d;
      accepted, sent, delivered, taken := [], [], [], [];
      ok := true;
    }

    /** Starts the next transfer if DMA is idle and can go on. Sending hands over the
        application slot when it holds whole words. Receiving first passes on a completed
        slot, once all earlier bytes have been read. */
    method Service()
      requires Valid()
      modifies `busy, `received, `sent, `inflight, buffer`application, buffer`used, buffer`consumed, buffer`unread, buffer`slot
      ensures Valid() && buffer.storage == old(buffer.storage)
      ensures old(busy) ==>
        && buffer.unread == old(buffer.unread) && busy && received == old(received)
        && sent == old(sent) && inflight == old(inflight)
      ensures direction == Sending && !old(busy) ==>
        (var n := |old(buffer.unread)|;
         if n > 0 && n % 4 == 0 then
           busy && inflight == old(buffer.unread) && sent == old(sent) + inflight && buffer.unread == []
         else !busy && buffer.unread == old(buffer.unread) && sent == old(sent))
      ensures direction == Receiving ==> old(buffer.unread) <= buffer.unread
      ensures direction == Receiving && !old(busy) ==>
        if old(received) && old(buffer.unread) != [] then
          !busy && received && buffer.unread == old(buffer.unread)
        else
          busy && !received && buffer.unread == old(buffer.unread) + old(Landed())
      ensures direction == Idle ==> buffer.unread == old(buffer.unread)
    {
      if !ready || busy || direction == Idle {
        return;
      }
      if direction == Sending {
        SendNext();
      } else {
        ReceiveNext();
      }
    }

    method SendNext()
      requires Valid() && direction == Sending && !busy
      modifies `busy, `sent, `inflight, buffer`application, buffer`used, buffer`consumed, buffer`unread, buffer`slot
      ensures Valid() && buffer.storage == old(buffer.storage)
      ensures var n := |old(buffer.unread)|;
        if n > 0 && n % 4 == 0 then
          busy && inflight == old(buffer.unread) && sent == old(sent) + inflight && buffer.unread == []
        else !busy && buffer.unread == old(buffer.unread) && sent == old(sent)
    {
      var count := buffer.Available();
      assert count == |buffer.unread|;
      if count == 0 || count % 4 != 0 {
        return;
      }
      HandOver();
    }

    method HandOver()
      requires Valid() && direction == Sending && !busy && |buffer.unread| % 4 == 0
      modifies `busy, `sent, `inflight, buffer`application, buffer`used, buffer`consumed, buffer`unread, buffer`slot
      ensures Valid() && buffer.storage == old(buffer.storage)
      ensures busy && inflight == old(buffer.unread) && sent == old(sent) + inflight && buffer.unread == []
    {
      ghost var waiting, all := buffer.unread, accepted;
      buffer.Swap(0);
      inflight, sent, busy := waiting, all, true;
      NoneAfter(all);
      assert Sends();
    }

    method ReceiveNext()
      requires Valid() && direction == Receiving && !busy
      modifies `busy, `received, buffer`application, buffer`used, buffer`consumed, buffer`unread, buffer`slot
      ensures Valid() && buffer.storage == old(buffer.storage)
      ensures if old(received) && old(buffer.unread) != [] then
                !busy && received && buffer.unread == old(buffer.unread)
              else
                busy && !received && buffer.unread == old(buffer.unread) + old(Landed())
    {
      ghost var unread, landed := buffer.unread, Landed();
      if received {
        assert buffer.Available() == |buffer.unread|;
        if buffer.Available() != 0 {
          return;
        }
        buffer.Swap(buffer.capacity);
        received := false;
      }
      assert buffer.unread == unread + landed;
      busy := true;
      assert buffer.unread + [] == unread + landed;
    }

    /** The completion interrupt. When receiving, data is what DMA has put into its slot. */
    method TransferComplete(data: seq<Byte>)
      requires Valid() && busy && (direction == Receiving ==> |data| == buffer.capacity)
      modifies this, buffer`application, buffer`used, buffer`consumed, buffer`unread, buffer`slot, buffer.storage
      ensures Valid() && buffer.storage == old(buffer.storage) && direction == old(direction) && bits == old(bits) && ready
      ensures direction == Sending ==>
        (var n := |old(buffer.unread)|;
         && accepted == old(accepted) && sent + buffer.unread == old(sent) + old(buffer.unread)
         && busy == (n > 0 && n % 4 == 0) && buffer.unread == if busy then [] else old(buffer.unread))
      ensures direction == Receiving ==>
        && delivered == old(delivered) + data && taken == old(taken)
        && busy == (old(buffer.unread) == []) && received == !busy
        && buffer.unread == if busy then data else old(buffer.unread)
    {
      if direction == Receiving {
        Land(data);
      } else {
        busy, received := false, false;
      }
      Service();
    }

    /** DMA has filled its slot. */
    method Land(data: seq<Byte>)
      requires Valid() && busy && direction == Receiving && |data| == buffer.capacity
      modifies `busy, `received, `delivered, buffer`slot, buffer.storage
      ensures Valid() && !busy && received && delivered == old(delivered) + data && buffer.unread == old(buffer.unread)
      ensures buffer.slot == data
    {
      ghost var before, unread := delivered, buffer.unread;
      buffer.Fill(data);
      Regroup(taken, unread, data);
      busy, received := false, true;
      delivered := before + data;
    }

    /** The number of bytes that can be read now. */
    method Available() returns (n: nat)
      requires Valid()
      modifies this, buffer`application, buffer`used, buffer`consumed, buffer`unread, buffer`slot
      ensures Valid() && buffer.storage == old(buffer.storage) && bits == old(bits) && ready == old(ready)
      ensures n > 0 ==> direction == Receiving && ready
      ensures direction == Receiving ==> n == |buffer.unread| && (busy || (received && buffer.unread != []))
      ensures old(direction) == Receiving ==> old(buffer.unread) <= buffer.unread && n == old(Readable())
      ensures old(direction) == Receiving ==> direction == Receiving && delivered == old(delivered) && taken == old(taken)
      ensures old(direction) == Sending ==> n == 0 && direction == Sending && accepted == old(accepted) && sent == old(sent)
      ensures old(direction) == Idle ==> n == 0 && if ready then direction == Receiving && delivered == taken == [] else direction == Idle
    {
      var ok := Select(Receiving);
      if !ok {
        return 0;
      }
      Service();
      n := buffer.Available();
    }

    method AvailableForWrite() returns (n: nat)
      requires Valid()
      modifies `direction, `accepted, `sent, `delivered, `taken
      ensures Valid() && n == if direction == Sending then buffer.AvailableForWrite() else 0
      ensures old(direction) == Sending ==> direction == Sending && accepted == old(accepted) && sent == old(sent)
      ensures old(direction) == Receiving ==> direction == Receiving && delivered == old(delivered) && taken == old(taken)
      ensures old(direction) == Idle ==> if ready then direction == Sending && accepted == sent == [] else direction == Idle
    {
      var ok := Select(Sending);
      if !ok {
        return 0;
      }
      n := buffer.AvailableForWrite();
    }

    /** Reads up to size bytes: the next ones delivered. */
    method Read(size: nat) returns (data: seq<Byte>)
      requires Valid()
      modifies this, buffer`application, buffer`used, buffer`consumed, buffer`unread, buffer`slot
      ensures Valid() && buffer.storage == old(buffer.storage) && bits == old(bits) && |data| <= size
      ensures old(direction) == Receiving ==>
        && direction == Receiving && delivered == old(delivered) && taken == old(taken) + data
        && |data| == Min(size, old(Readable()))
      ensures direction == Receiving ==> busy || (received && buffer.unread != [])
      ensures old(direction) == Sending ==> data == [] && direction == Sending && accepted == old(accepted) && sent == old(sent)
      ensures old(direction) == Idle ==> data == [] && if ready then direction == Receiving && delivered == taken == [] else direction == Idle
      ensures ready == old(ready)
    {
      data := [];
      var ok := Select(Receiving);
      if !ok {
        return;
      }
      NoneBefore(data);
      data := Receive(size);
    }

    /** Takes what can be read, and starts DMA again when it can go on. */
    method Receive(size: nat) returns (data: seq<Byte>)
      requires Valid() && direction == Receiving
      modifies `busy, `received, `sent, `inflight, `taken
      modifies buffer`application, buffer`used, buffer`consumed, buffer`unread, buffer`slot
      ensures Valid() && buffer.storage == old(buffer.storage) && taken == old(taken) + data
      ensures |data| == Min(size, old(Readable())) <= size
      ensures busy || (received && buffer.unread != [])
    {
      data := ReceiveBytes(size);
      Service();
    }

    method ReceiveBytes(size: nat) returns (data: seq<Byte>)
      requires Valid() && direction == Receiving
      modifies `busy, `received, `sent, `inflight, `taken
      modifies buffer`application, buffer`used, buffer`consumed, buffer`unread, buffer`slot
      ensures Valid() && buffer.storage == old(buffer.storage) && taken == old(taken) + data
      ensures |data| == Min(size, old(Readable()))
    {
      Service();
      data := TakeBytes(size);
    }

    method TakeBytes(size: nat) returns (data: seq<Byte>)
      requires Valid() && direction == Receiving
      modifies `taken, buffer`consumed, buffer`unread
      ensures Valid() && taken == old(taken) + data && |data| == Min(size, |old(buffer.unread)|)
    {
      ghost var before, unread, landed := taken, buffer.unread, Landed();
      data := buffer.Read(size);
      assert Landed() == landed;
      Taken(before, unread, data, buffer.unread, landed);
      taken := taken + data;
    }

    /** Reads one sample. Completion interrupts may come between asking how much there is and
        reading it; the sample is still there, so only too few bytes make it fail. Only the first
        of them finds DMA busy, because unread bytes keep the next transfer from starting. */
    method ReadSample(between: seq<seq<Byte>>) returns (sample: Sample, ghost came: seq<Byte>)
      requires Valid() && forall i :: 0 <= i < |between| ==> |between[i]| == buffer.capacity
      modifies this, buffer`application, buffer`used, buffer`consumed, buffer`unread, buffer`slot, buffer.storage
      ensures Valid() && buffer.storage == old(buffer.storage)
      ensures sample.Sample? ==> |sample.bytes| == if bits == 16 then 2 else 4
      ensures came == [] || (between != [] && came == between[0])
      ensures old(direction) == Receiving ==>
        && direction == Receiving && taken == old(taken) + Bytes(sample) && delivered == old(delivered) + came
        && (|old(buffer.unread)| >= (if bits == 16 then 2 else 4) ==> sample.Sample?)
      ensures old(direction) != Receiving ==> sample == NoSample && came == []
      ensures old(direction) == Sending ==> direction == Sending && accepted == old(accepted) && sent == old(sent)
      ensures old(direction) == Idle ==> if ready then direction == Receiving && delivered == taken == [] else direction == Idle
    {
      var width := if bits == 16 then 2 else 4;
      var n := Available();
      came := [];
      NoneAfter(delivered);
      NoneAfter(taken);
      if n < width {
        return NoSample, came;
      }
      came := Interrupted(between, width);
      var data := Read(width);
      if |data| != width {
        assert false;  // the second error return of the source cannot be reached
      }
      sample := Sample(data);
    }

    /** Completion interrupts while unread bytes wait. */
    method Interrupted(between: seq<seq<Byte>>, width: nat) returns (ghost came: seq<Byte>)
      requires Valid() && direction == Receiving && 0 < width <= |buffer.unread|
      requires forall i :: 0 <= i < |between| ==> |between[i]| == buffer.capacity
      modifies this, buffer`application, buffer`used, buffer`consumed, buffer`unread, buffer`slot, buffer.storage
      ensures Valid() && direction == Receiving && ready && buffer.storage == old(buffer.storage) && bits == old(bits)
      ensures width <= |buffer.unread| && taken == old(taken) && delivered == old(delivered) + came
      ensures came == [] || (between != [] && came == between[0])
    {
      came := [];
      NoneAfter(delivered);
      var i := 0;
      while i < |between|
        invariant Valid() && direction == Receiving && ready && buffer.storage == old(buffer.storage) && bits == old(bits)
        invariant width <= |buffer.unread| && buffer.capacity == old(buffer.capacity)
        invariant taken == old(taken) && delivered == old(delivered) + came
        invariant 0 <= i <= |between| && if i > 0 && old(busy) then !busy && came == between[0] else came == [] && busy == old(busy)
      {
        if busy {
          TransferComplete(between[i]);
          came := between[i];
        }
        i := i + 1;
      }
    }

    /** The next sample without taking it. */
    method PeekSample() returns (sample: Sample)
      requires Valid()
      modifies this, buffer`application, buffer`used, buffer`consumed, buffer`unread, buffer`slot
      ensures Valid() && buffer.storage == old(buffer.storage)
      ensures old(direction) == Receiving ==> direction == Receiving && delivered == old(delivered) && taken == old(taken)
      ensures old(direction) == Sending ==> direction == Sending && accepted == old(accepted) && sent == old(sent)
      ensures old(direction) == Idle ==> if ready then direction == Receiving && delivered == taken == [] else direction == Idle
      ensures var width := if bits == 16 then 2 else 4;
        && (sample.Sample? ==> direction == Receiving && |sample.bytes| == width && sample.bytes <= buffer.unread)
        && (direction == Receiving && ready && |buffer.unread| >= width ==> sample.Sample?)
    {
      var n := Available();
      var width := if bits == 16 then 2 else 4;
      if n < width {
        return NoSample;
      }
      var data := buffer.Peek(width);
      sample := Sample(data);
    }

    /** Accepts as many bytes as fit, and starts DMA if it is idle. */
    method Write(input: seq<Byte>) returns (count: nat)
      requires Valid()
      modifies this, buffer`application, buffer`used, buffer`consumed, buffer`unread, buffer`slot, buffer.storage
      ensures Valid() && buffer.storage == old(buffer.storage) && count <= |input|
      ensures old(direction) == Sending ==>
        && direction == Sending && accepted == old(accepted) + input[..count]
        && count == Min(|input|, old(buffer.AvailableForWrite()))
        && (old(busy) ==> busy && sent == old(sent) && inflight == old(inflight))
      ensures old(direction) == Idle && ready && input != [] ==>
        direction == Sending && accepted == input[..count] && count == Min(|input|, old(buffer.AvailableForWrite()))
      ensures direction == Sending && input != [] ==> busy || buffer.unread == [] || |buffer.unread| % 4 != 0
      ensures old(direction) == Idle && (!ready || input == []) ==> direction == Idle && count == 0
      ensures old(direction) == Receiving ==> direction == Receiving && count == 0 && delivered == old(delivered) && taken == old(taken)
      ensures ready == old(ready)
    {
      if input == [] {
        NoneAfter(accepted);
        return 0;
      }
      var ok := Select(Sending);
      if !ok {
        return 0;
      }
      NoneBefore(input);
      count := Send(input);
    }

    method Send(input: seq<Byte>) returns (count: nat)
      requires Valid() && direction == Sending
      modifies `busy, `received, `accepted, `sent, `inflight
      modifies buffer`application, buffer`used, buffer`consumed, buffer`unread, buffer`slot, buffer.storage
      ensures Valid() && buffer.storage == old(buffer.storage)
      ensures count == Min(|input|, old(buffer.AvailableForWrite())) && accepted == old(accepted) + input[..count]
      ensures old(busy) ==> busy && sent == old(sent) && inflight == old(inflight)
      ensures busy || buffer.unread == [] || |buffer.unread| % 4 != 0
    {
      count := Accept(input);
      Service();
    }

    method Accept(input: seq<Byte>) returns (count: nat)
      requires Valid() && direction == Sending
      modifies `accepted, buffer`used, buffer`unread, buffer.storage
      ensures Valid() && buffer.storage == old(buffer.storage)
      ensures count == Min(|input|, old(buffer.AvailableForWrite())) && accepted == old(accepted) + input[..count]
      ensures buffer.unread == old(buffer.unread) + input[..count]
    {
      ghost var before, unread := sent, buffer.unread;
      count := buffer.Write(input);
      accepted := accepted + input[..count];
      assert (before + unread) + input[..count] == before + (unread + input[..count]);
    }

    /** Fills up the last word with zeros, for which there is always room. */
    method Pad()
      requires Valid() && direction == Sending
      modifies `accepted, buffer`used, buffer`unread, buffer.storage
      ensures Valid() && buffer.storage == old(buffer.storage)
      ensures accepted == old(accepted) + Padding(|old(buffer.unread)|)
      ensures |buffer.unread| % 4 == 0
    {
      ghost var n := |buffer.unread|;
      var remainder := buffer.Available() % 4;
      assert buffer.Available() == n == buffer.used;
      if remainder == 0 {
        NoPadding(accepted, n);
        return;
      }
      var zero := seq(4 - remainder, _ => 0);
      PaddingFits(n, buffer.capacity, zero);
      var count := Accept(zero);
      assert zero[..count] == zero;
    }

    /** One turn of flushing: pads the last word with zeros, for which there is always room,
        starts DMA if it is idle, and tells whether all bytes have been sent. */
    method FlushTurn() returns (done: bool)
      requires Valid() && direction == Sending
      modifies this, buffer`application, buffer`used, buffer`consumed, buffer`unread, buffer`slot, buffer.storage
      ensures Valid() && direction == Sending && buffer.storage == old(buffer.storage) && bits == old(bits)
      ensures accepted == old(accepted) + Padding(|old(buffer.unread)|)
      ensures done <==> !busy && buffer.unread == []
      ensures done ==> sent == accepted
      ensures |buffer.unread| % 4 == 0 && (!done ==> busy)
    {
      Pad();
      Service();
      done := !busy && buffer.Available() == 0;
      assert done ==> sent + [] == accepted;
    }

    /** Sends what is waiting, while turns last: on success everything accepted has been handed
        to DMA and DMA is done. When receiving, drops the bytes of the application slot. */
    method Flush(turns: nat) returns (error: bool)
      requires Valid()
      modifies this, buffer`application, buffer`used, buffer`consumed, buffer`unread, buffer`slot, buffer.storage
      ensures Valid() && buffer.storage == old(buffer.storage) && direction == old(direction)
      ensures direction == Sending && !error ==> !busy && buffer.unread == [] && sent == accepted
      ensures error ==> direction == Sending && busy
      ensures direction == Receiving ==> busy && buffer.unread == if old(busy) then [] else old(Landed())
      ensures direction == Sending ==> accepted == old(accepted) + Padding(|old(buffer.unread)|)
      ensures direction == Receiving ==> !error && delivered == old(delivered) && taken == old(taken) + old(buffer.unread)
    {
      error := false;
      if !ready {
        return;
      }
      if direction == Receiving {
        DropUnread();
        Service();
        return;
      }
      if direction == Idle {
        return;
      }
      var left := turns;
      while true
        invariant Valid() && direction == Sending && buffer.storage == old(buffer.storage)
        invariant accepted + Padding(|buffer.unread|) == old(accepted) + Padding(|old(buffer.unread)|)
        decreases left
      {
        var done := FlushTurn();
        NoPadding(accepted, |buffer.unread|);
        if done {
          return;
        }
        if left == 0 {
          return true;
        }
        left := left - 1;
        if * {
          TransferComplete([]);
          NoPadding(accepted, |buffer.unread|);
        }
      }
    }

    method DropUnread()
      requires Valid() && direction == Receiving
      modifies `taken, buffer`used, buffer`consumed, buffer`unread
      ensures Valid() && taken == old(taken) + old(buffer.unread) && buffer.unread == []
    {
      ghost var before, unread, landed := taken, buffer.unread, Landed();
      buffer.Flush();
      Taken(before, unread, unread, [], landed);
      taken := taken + unread;
    }

    /** Ends the session and gives the device up. */
    method End(owners: seq<nat>, turns: nat) returns (owners': seq<nat>)
      requires Valid() && IsOwners(owners) && device < 3 && (ready ==> owners[device] == id)
      modifies this, buffer, buffer.storage
      ensures Valid() && !ready && direction == Idle && !busy && buffer.storage == null
      ensures owners' == if old(ready) then owners[device := 0] else owners
      ensures old(direction) == Sending && old(ready) ==> accepted == old(accepted) + Padding(|old(buffer.unread)|)
    {
      owners' := owners;
      if !ready {
        return;
      }
      if direction == Sending {
        var error := Flush(turns);
      }
      Stop();
      owners' := owners[device := 0];
    }

    method Stop()
      requires buffer.Valid()
      modifies `ready, `busy, `received, `direction, buffer
      ensures Valid() && !ready && direction == Idle && !busy && buffer.storage == null
    {
      ready := false;
      busy, received := false, false;
      direction := Idle;
      buffer.End();
    }

    // ---------- any interleaving ----------

    /** The bytes that went in and out in some events are those of the session. */
    ghost predicate Logged(events: seq<Event>)
      reads `direction, `accepted, `taken, `delivered
    {
      Holds(Given(events), Got(events), Arrived(events))
    }

    ghost predicate Holds(given: seq<Byte>, got: seq<Byte>, arrived: seq<Byte>)
      reads `direction, `accepted, `taken, `delivered
    {
      match direction
      case Idle => given == got == arrived == []
      case Sending => given == accepted && got == arrived == []
      case Receiving => given == [] && got == taken && arrived == delivered
    }

    /** The same with one more event. */
    ghost predicate Follows(events: seq<Event>, event: Event)
      reads `direction, `accepted, `taken, `delivered
    {
      Holds(Given(events) + event.gave, Got(events) + event.took, Arrived(events) + event.came)
    }

    /** One call of the application or one completion interrupt. An interrupt that cannot come,
        because DMA is not busy or fills other than a whole slot, is left out. */
    method Act(action: Action, ghost events: seq<Event>) returns (ghost event: Event)
      requires Valid() && Logged(events)
      modifies this, buffer`application, buffer`used, buffer`consumed, buffer`unread, buffer`slot, buffer.storage
      ensures Valid() && buffer.storage == old(buffer.storage) && Logged(events + [event])
      ensures Fits(action, event, |Given(events)|)
    {
      NoneAfter(Given(events));
      NoneAfter(Got(events));
      NoneAfter(Arrived(events));
      match action {
        case Write(input) =>
          var count := Write(input);
          event := Event(input[..count], [], []);
        case Flush(turns) => event := ActFlush(turns, events);
        case Complete(data) =>
          event := Event([], [], if busy && direction == Receiving && |data| == buffer.capacity then data else []);
          if busy && (direction == Receiving ==> |data| == buffer.capacity) {
            TransferComplete(data);
          }
        case _ => event := Ask(action, events);
      }
      LogNext(events, event);
    }

    /** The calls that read or only ask. */
    method Ask(action: Action, ghost events: seq<Event>) returns (ghost event: Event)
      requires Valid() && Logged(events) && !action.Write? && !action.Flush? && !action.Complete?
      modifies this, buffer`application, buffer`used, buffer`consumed, buffer`unread, buffer`slot, buffer.storage
      ensures Valid() && buffer.storage == old(buffer.storage) && Follows(events, event)
      ensures Fits(action, event, |Given(events)|)
    {
      event := Event([], [], []);
      NoneAfter(Given(events));
      NoneAfter(Got(events));
      NoneAfter(Arrived(events));
      match action {
        case Read(size) =>
          var data := Read(size);
          event := Event([], data, []);
        case ReadSample(between) =>
          if forall i :: 0 <= i < |between| ==> |between[i]| == buffer.capacity {
            var sample;
            ghost var came;
            sample, came := ReadSample(between);
            event := Event([], Bytes(sample), came);
          }
        case PeekSample => var sample := PeekSample();
        case Available => var n := Available();
        case AvailableForWrite => var n := AvailableForWrite();
        case _ =>
      }
    }

    method ActFlush(turns: nat, ghost events: seq<Event>) returns (ghost event: Event)
      requires Valid() && Logged(events)
      modifies this, buffer`application, buffer`used, buffer`consumed, buffer`unread, buffer`slot, buffer.storage
      ensures Valid() && buffer.storage == old(buffer.storage) && Follows(events, event)
      ensures Fits(Action.Flush(turns), event, |Given(events)|)
    {
      event := Event(Padding(|Given(events)|), if direction == Receiving then buffer.unread else [], []);
      NoneAfter(Given(events));
      NoneAfter(Got(events));
      NoneAfter(Arrived(events));
      NoPadding([], 0);
      if direction == Sending { PaddingSame(|Given(events)|, |buffer.unread|, |sent|); }
      var error := Flush(turns);
    }

    /** In any order of calls and interrupts no byte is lost, repeated or reordered: the bytes
        that the application gave, with padding, are those handed to DMA and then those
        waiting; the bytes that came from DMA are those the application took, then those it
        has not read, then a completed slot. */
    method Run(script: seq<Action>) returns (ghost events: seq<Event>)
      requires Valid() && direction == Idle
      modifies this, buffer`application, buffer`used, buffer`consumed, buffer`unread, buffer`slot, buffer.storage
      ensures Valid() && |events| == |script| && forall i :: 0 <= i < |script| ==> Fits(script[i], events[i], |Given(events[..i])|)
      ensures direction == Sending ==> sent + buffer.unread == Given(events)
      ensures direction == Receiving ==> Got(events) + (buffer.unread + Landed()) == Arrived(events)
    {
      events := [];
      var n := 0;
      while n < |script|
        invariant 0 <= n <= |script| && Valid() && buffer.storage == old(buffer.storage) && |events| == n && Logged(events)
        invariant forall i :: 0 <= i < n ==> Fits(script[i], events[i], |Given(events[..i])|)
      {
        ghost var event := Act(script[n], events);
        ghost var longer := events + [event];
        assert forall i :: 0 <= i <= n ==> longer[..i] == events[..i];
        assert events[..n] == events;
        events := longer;
        n := n + 1;
      }
    }
  }

  /** What a program and the hardware may do with a session. */
  datatype Action =
    | Write(input: seq<Byte>)
    | Read(size: nat)
    | ReadSample(between: seq<seq<Byte>>)
    | PeekSample
    | Available
    | AvailableForWrite
    | Flush(turns: nat)
    | Complete(data: seq<Byte>)

  /** The bytes that went from the application, to it, and came from DMA meanwhile. */
  datatype Event = Event(gave: seq<Byte>, took: seq<Byte>, came: seq<Byte>)

  /** What an action may do after so many bytes were given. A flush gives exactly what fills up
      the last word. */
  predicate Fits(action: Action, event: Event, given: nat) {
    match action
    case Write(input) => event.gave <= input && event.took == event.came == []
    case Read(size) => |event.took| <= size && event.gave == event.came == []
    case ReadSample(between) =>
      && event.gave == [] && |event.took| in {0, 2, 4}
      && (event.came == [] || (between != [] && event.came == between[0]))
    case Flush(_) => event.gave == Padding(given) && event.came == []
    case Complete(data) => event.gave == event.took == [] && (event.came == [] || event.came == data)
    case _ => event == Event([], [], [])
  }

  function Bytes(sample: Sample): seq<Byte> {
    if sample.Sample? then sample.bytes else []
  }

  function Given(events: seq<Event>): seq<Byte> {
    if events == [] then [] else Given(events[..|events| - 1]) + events[|events| - 1].gave
  }

  function Got(events: seq<Event>): seq<Byte> {
    if events == [] then [] else Got(events[..|events| - 1]) + events[|events| - 1].took
  }

  function Arrived(events: seq<Event>): seq<Byte> {
    if events == [] then [] else Arrived(events[..|events| - 1]) + events[|events| - 1].came
  }

  lemma LogNext(events: seq<Event>, event: Event)
    ensures Given(events + [event]) == Given(events) + event.gave
    ensures Got(events + [event]) == Got(events) + event.took
    ensures Arrived(events + [event]) == Arrived(events) + event.came
  {
    assert (events + [event])[..|events|] == events;
  }

  /** Whole words before do not change the padding. */
  lemma PaddingSame(n: nat, m: nat, words: nat)
    requires n == words + m && words % 4 == 0
    ensures Padding(n) == Padding(m)
  {
    assert n % 4 == m % 4;
  }

  /** The zeros that fill up the last word. */
  function Padding(n: nat): (zeros: seq<Byte>)
    ensures |zeros| < 4 && forall b <- zeros :: b == 0
  {
    seq(PadLength(n), _ => 0)
  }

  lemma PaddingFits(n: nat, capacity: nat, zero: seq<Byte>)
    requires n <= capacity && capacity % 4 == 0 && n % 4 != 0
    requires |zero| == 4 - n % 4 && forall b <- zero :: b == 0
    ensures zero == Padding(n) && n + |zero| <= capacity && (n + |zero|) % 4 == 0
  {
    forall i | 0 <= i < |zero| ensures zero[i] == Padding(n)[i] {
      assert zero[i] in zero;
    }
  }

  lemma NoPadding(bytes: seq<Byte>, n: nat)
    requires n % 4 == 0
    ensures bytes + Padding(n) == bytes
  {
  }

  /** How many zeros fill up the last word. */
  function PadLength(n: nat): (pad: nat)
    ensures pad < 4 && (n + pad) % 4 == 0
  {
    (4 - n % 4) % 4
  }

  lemma {:induction false} Regroup(a: seq<Byte>, b: seq<Byte>, c: seq<Byte>)
    ensures (a + (b + [])) + c == a + (b + c)
  {
    assert b + [] == b;
  }

  /** Bytes move from the unread ones to those taken. */
  lemma {:induction false} Taken(taken: seq<Byte>, unread: seq<Byte>, data: seq<Byte>, rest: seq<Byte>, landed: seq<Byte>)
    requires data <= unread && rest == unread[|data|..]
    ensures (taken + data) + (rest + landed) == taken + (unread + landed)
  {
    assert unread == data + rest;
  }
}
