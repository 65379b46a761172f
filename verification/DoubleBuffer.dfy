/** The two storage slots under I2S: the application reads or writes one while DMA uses the
    other. */
module DoubleBuffer {
  import opened Arrays

  /** A byte; only its identity matters here. */
  type Byte = int

  const INT_MAX: int := 0x7fff_ffff

  predicate IsCapacity(c: nat) {
    4 <= c && c % 4 == 0
  }

  function Min(a: nat, b: nat): nat {
    if a < b then a else b
  }

  /** The n bytes from lo on. */
  function Part(s: seq<Byte>, lo: nat, n: nat): seq<Byte> {
    if lo + n <= |s| then s[lo..lo + n] else []
  }

  /** Where a slot begins: at its number times the capacity. */
  function Start(slot: nat, capacity: nat): (at: nat)
    ensures slot == 0 ==> at == 0
    ensures slot == 1 ==> at == capacity
  {
    if slot == 0 then 0 else capacity
  }

  /** The storage holds the unread bytes in the application slot and the other slot beside it. */
  predicate Laid(memory: seq<Byte>, capacity: nat, application: nat, consumed: nat, used: nat,
                 unread: seq<Byte>, slot: seq<Byte>)
    requires consumed <= used && application <= 1
  {
    && unread == Part(memory, Start(application, capacity) + consumed, used - consumed)
    && slot == Part(memory, Start(1 - application, capacity), capacity)
  }

  /** Data copied behind the unread bytes extends them and leaves the other slot alone. */
  lemma {:induction false} LaidPut(was: seq<Byte>, now: seq<Byte>, c: nat, app: nat, consumed: nat, used: nat,
                                   unread: seq<Byte>, slot: seq<Byte>, data: seq<Byte>, used': nat)
    requires |was| == 2 * c && app <= 1 && consumed <= used && used' == used + |data| <= c
    requires Laid(was, c, app, consumed, used, unread, slot)
    requires now == was[..Start(app, c) + used] + data + was[Start(app, c) + used + |data|..]
    ensures Laid(now, c, app, consumed, used', unread + data, slot)
  {
    var lo, other := Start(app, c) + consumed, Start(1 - app, c);
    assert Part(now, other, c) == Part(was, other, c);
    assert Part(now, lo, used' - consumed) == Part(was, lo, used - consumed) + data;
  }

  /** A slot filled by DMA; the unread bytes stay. */
  lemma {:induction false} LaidFill(was: seq<Byte>, now: seq<Byte>, c: nat, app: nat, consumed: nat, used: nat,
                                    unread: seq<Byte>, slot: seq<Byte>, data: seq<Byte>)
    requires |was| == 2 * c && app <= 1 && consumed <= used <= c && |data| == c
    requires Laid(was, c, app, consumed, used, unread, slot)
    requires now == was[..Start(1 - app, c)] + data + was[Start(1 - app, c) + |data|..]
    ensures Laid(now, c, app, consumed, used, unread, data)
  {
    var lo, other := Start(app, c) + consumed, Start(1 - app, c);
    assert Part(now, other, c) == data;
    assert Part(now, lo, used - consumed) == Part(was, lo, used - consumed);
  }

  /** The slots change roles. */
  lemma {:induction false} LaidSwap(memory: seq<Byte>, c: nat, app: nat, consumed: nat, used: nat,
                                    unread: seq<Byte>, slot: seq<Byte>, length: nat)
    returns (unread': seq<Byte>, slot': seq<Byte>)
    requires |memory| == 2 * c && app <= 1 && consumed <= used <= c && length <= c
    requires Laid(memory, c, app, consumed, used, unread, slot)
    ensures Laid(memory, c, 1 - app, 0, length, unread', slot')
    ensures unread' == slot[..length] && |slot'| == c && (consumed == 0 ==> unread == slot'[..used])
  {
    unread' := Part(memory, Start(1 - app, c), length);
    slot' := Part(memory, Start(app, c), c);
  }

  lemma {:induction false} LaidTake(memory: seq<Byte>, c: nat, app: nat, consumed: nat, used: nat,
                                    unread: seq<Byte>, slot: seq<Byte>, n: nat, consumed': nat)
    requires |memory| == 2 * c && app <= 1 && consumed <= used <= c && consumed' == consumed + n <= used
    requires Laid(memory, c, app, consumed, used, unread, slot)
    ensures Laid(memory, c, app, consumed', used, unread[n..], slot)
    ensures unread[..n] == Part(memory, Start(app, c) + consumed, n)
  {
  }

  class I2SDoubleBuffer {
    var storage: array?<Byte>
    var capacity: nat
    var application: nat
    var used: nat
    var consumed: nat
    /** The bytes of the application slot that are still to be read or sent, and the bytes of
        the DMA slot. */
    ghost var unread: seq<Byte>
    ghost var slot: seq<Byte>

    ghost predicate Valid()
      reads this, storage
    {
      && IsCapacity(capacity) && application <= 1 && consumed <= used <= capacity && |unread| == used - consumed
      && (storage == null ==> used == 0)
      && (storage != null ==>
            && storage.Length == 2 * capacity && |slot| == capacity
            && Laid(storage[..], capacity, application, consumed, used, unread, slot))
    }

    constructor ()
      ensures Valid() && storage == null && capacity == 2048
    {
      storage, capacity, application, used, consumed, unread, slot := null, 2048, 0, 0, 0, [], [];
    }

    /** Sets the size of a slot in whole words, before the storage is allocated. */
    method SetSize(size: int)
      requires Valid()
      modifies `capacity
      ensures Valid()
      ensures capacity == if storage == null && 4 <= size <= INT_MAX / 2 then size - size % 4 else old(capacity)
    {
      if storage == null && size >= 4 && size <= INT_MAX / 2 {
        capacity := size - size % 4;
      }
    }

    /** Allocates the storage if there is none; succeeds tells whether that works. */
    method Reset(succeeds: bool)
      requires Valid()
      modifies this
      ensures Valid() && capacity == old(capacity) && used == consumed == application == 0
      ensures if old(storage) != null then storage == old(storage) else (storage != null) == succeeds
      ensures storage != old(storage) ==> fresh(storage)
    {
      if storage == null && succeeds {
        storage := new Byte[2 * capacity];
      }
      application := 0;
      used, consumed, unread := 0, 0, [];
      if storage != null {
        slot := Part(storage[..], capacity, capacity);
      }
    }

    method End()
      requires Valid()
      modifies this
      ensures Valid() && storage == null && capacity == old(capacity) && used == consumed == 0
    {
      storage := null;
      used, consumed, unread := 0, 0, [];
    }

    function AvailableForWrite(): nat
      requires used <= capacity
      reads this
    {
      if storage != null then capacity - used else 0
    }

    function Available(): nat
      requires consumed <= used
      reads this
    {
      if storage != null then used - consumed else 0
    }

    /** Appends as many bytes as fit; the DMA slot does not change. */
    method Write(buffer: seq<Byte>) returns (size: nat)
      requires Valid()
      modifies `used, `unread, storage
      ensures Valid() && size == Min(|buffer|, old(AvailableForWrite())) && used == old(used) + size
      ensures unread == old(unread) + buffer[..size]
    {
      size := |buffer|;
      if size > AvailableForWrite() {
        size := AvailableForWrite();
      }
      assert buffer[..0] == [];
      if size > 0 {
        Put(buffer[..size]);
      }
    }

    method Put(data: seq<Byte>)
      requires Valid() && storage != null && |data| <= capacity - used
      modifies `used, `unread, storage
      ensures Valid() && used == old(used) + |data| && unread == old(unread) + data
    {
      ghost var was, next := storage[..], used + |data|;
      CopyInto(storage, Start(application, capacity) + used, data);
      LaidPut(was, storage[..], capacity, application, consumed, used, unread, slot, data, next);
      used, unread := used + |data|, unread + data;
    }

    /** DMA fills its slot; what the application sees does not change. */
    method Fill(data: seq<Byte>)
      requires Valid() && storage != null && |data| == capacity
      modifies `slot, storage
      ensures Valid() && slot == data
    {
      ghost var was := storage[..];
      CopyInto(storage, Start(1 - application, capacity), data);
      LaidFill(was, storage[..], capacity, application, consumed, used, unread, slot, data);
      slot := data;
    }

    /** The next bytes to be read, without taking them. */
    method Peek(size0: nat) returns (data: seq<Byte>)
      requires Valid()
      ensures data == unread[..Min(size0, Available())]
    {
      var size := size0;
      if size > Available() {
        size := Available();
      }
      data := [];
      if size > 0 {
        var at := Start(application, capacity) + consumed;
        LaidTake(storage[..], capacity, application, consumed, used, unread, slot, size, consumed + size);
        data := storage[at..at + size];
      }
    }

    method Read(size: nat) returns (data: seq<Byte>)
      requires Valid()
      modifies `consumed, `unread
      ensures Valid() && data == old(unread)[..Min(size, old(Available()))] && unread == old(unread)[|data|..]
    {
      data := Peek(size);
      ghost var next := consumed + |data|;
      if storage != null {
        LaidTake(storage[..], capacity, application, consumed, used, unread, slot, |data|, next);
      }
      consumed, unread := consumed + |data|, unread[|data|..];
    }

    /** Hands the application slot to DMA and takes the other one, with length bytes in it. */
    method Swap(length: int)
      requires Valid()
      modifies `application, `consumed, `used, `unread, `slot
      ensures Valid()
      ensures if storage == null then application == old(application) && used == old(used) && consumed == old(consumed)
              else
                && application == 1 - old(application) && consumed == 0
                && unread == old(slot)[..if length <= 0 then 0 else Min(length, capacity)]
                && (old(consumed) == 0 ==> old(unread) == slot[..|old(unread)|])
    {
      if storage == null {
        return;
      }
      ghost var next := if length <= 0 then 0 else Min(length, capacity);
      ghost var unread', slot' := LaidSwap(storage[..], capacity, application, consumed, used, unread, slot, next);
      application := 1 - application;
      consumed := 0;
      used := if length > 0 then if length > capacity then capacity else length else 0;
      unread, slot := unread', slot';
    }

    method Flush()
      requires Valid()
      modifies `used, `consumed, `unread
      ensures Valid() && used == consumed == 0 && unread == []
    {
      used, consumed, unread := 0, 0, [];
    }
  }
}
