/** The String class: a small local buffer that grows into the heap, arguments that may point
    into the string's own storage, and allocations that may fail. */
module WString {
  import opened Arrays
  import opened Bits

  const UINT_MAX: nat := 0xffff_ffff
  const LOCAL_SIZE: nat := 24

  /** A pointer argument: null, to bytes elsewhere, or into the string's own text. */
  datatype Pointer = Null | External(bytes: seq<char>) | Internal(offset: nat)

  /** A pointer into the text points at a byte of it or at its terminator. */
  predicate IsPointer(text: Pointer, count: nat, size: nat) {
    && (text.External? ==> count <= |text.bytes|)
    && (text.Internal? ==> text.offset <= size)
  }

  /** The bytes that a pointer and a count stand for; a count past the own text is cut off. */
  function Meant(own: seq<char>, text: Pointer, count: nat): seq<char>
    requires IsPointer(text, count, |own|)
  {
    match text
    case Null => []
    case External(bytes) => bytes[..count]
    case Internal(offset) => own[offset..if count > |own| - offset then |own| else offset + count]
  }

  predicate OccursAt(text: seq<char>, part: seq<char>, i: nat) {
    i + |part| <= |text| && text[i..i + |part|] == part
  }

  /** The text with the leftmost occurrences replaced, none overlapping the one before. */
  function Replaced(text: seq<char>, before: seq<char>, after: seq<char>): seq<char>
    requires before != []
    decreases |text|
  {
    if text == [] then []
    else if OccursAt(text, before, 0) then after + Replaced(text[|before|..], before, after)
    else [text[0]] + Replaced(text[1..], before, after)
  }

  /** What replacing one part by another makes of a text; an empty part is never found. */
  function Substituted(text: seq<char>, before: seq<char>, after: seq<char>): seq<char> {
    if before == [] then text else Replaced(text, before, after)
  }

  /** Up to a place before which nothing occurs the text stays. */
  lemma {:induction false} NoneReplaced(text: seq<char>, before: seq<char>, after: seq<char>, r: nat)
    requires before != [] && r <= |text| && forall i :: 0 <= i < r ==> !OccursAt(text, before, i)
    ensures Replaced(text, before, after) == text[..r] + Replaced(text[r..], before, after)
  {
    NoneTo(text, before, after, r, Replaced(text, before, after), text[..r], text[r..]);
  }

  lemma {:induction false} NoneTo(text: seq<char>, before: seq<char>, after: seq<char>, r: nat,
                                  all: seq<char>, front: seq<char>, behind: seq<char>)
    requires before != [] && r <= |text| && forall i :: 0 <= i < r ==> !OccursAt(text, before, i)
    requires all == Replaced(text, before, after) && front == text[..r] && behind == text[r..]
    ensures all == front + Replaced(behind, before, after)
  {
    if r == 0 {
      assert front == [] && behind == text;
      NoneBefore(all);
    } else {
      var q := r - 1;
      NoneTo(text, before, after, q, all, text[..q], text[q..]);
      OneMore(text, before, after, q, all, front, behind);
    }
  }

  lemma OneMore(text: seq<char>, before: seq<char>, after: seq<char>, q: nat, all: seq<char>, front: seq<char>, behind: seq<char>)
    requires before != [] && q < |text| && !OccursAt(text, before, q)
    requires front == text[..q + 1] && behind == text[q + 1..] && all == text[..q] + Replaced(text[q..], before, after)
    ensures all == front + Replaced(behind, before, after)
  {
    ReplacedStep(text, before, after, q);
    assert text[..q] + [text[q]] == front;
    Regroup(all, text[..q], Replaced(text[q..], before, after), [text[q]], Replaced(behind, before, after), front);
  }

  lemma Regroup(all: seq<char>, front: seq<char>, rest: seq<char>, part: seq<char>, rest': seq<char>, front': seq<char>)
    requires all == front + rest && rest == part + rest' && front' == front + part
    ensures all == front' + rest'
  {
    Assoc(front, part, rest');
  }

  /** What replacing does at a place of the text. */
  lemma ReplacedStep(text: seq<char>, before: seq<char>, after: seq<char>, pos: nat)
    requires before != [] && pos < |text|
    ensures Replaced(text[pos..], before, after)
         == if OccursAt(text, before, pos) then after + Replaced(text[pos + |before|..], before, after)
            else [text[pos]] + Replaced(text[pos + 1..], before, after)
  {
    var rest := text[pos..];
    if pos + |before| <= |text| {
      assert rest[..|before|] == text[pos..pos + |before|];
      assert rest[|before|..] == text[pos + |before|..];
    }
    assert rest[1..] == text[pos + 1..];
  }

  /** What has been built and what is left to replace still make up the whole. */
  lemma ReplacedNext(text: seq<char>, before: seq<char>, after: seq<char>, pos: nat, next: nat, part: seq<char>,
                     done: seq<char>, all: seq<char>)
    requires before != [] && pos < |text| && done + Replaced(text[pos..], before, after) == all
    requires if OccursAt(text, before, pos) then next == pos + |before| && part == after
             else next == pos + 1 && part == [text[pos]]
    ensures next <= |text| && (done + part) + Replaced(text[next..], before, after) == all && |done| + |part| <= |all|
  {
    ReplacedStep(text, before, after, pos);
    Assoc(done, part, Replaced(text[next..], before, after));
  }

  /** Replacing goes from one leftmost occurrence to the next: it copies what is before, puts
      in the new part, and goes on behind the occurrence. */
  lemma ReplacesLeftmost(text: seq<char>, before: seq<char>, after: seq<char>, r: nat)
    requires before != [] && OccursAt(text, before, r) && forall i :: 0 <= i < r ==> !OccursAt(text, before, i)
    ensures Replaced(text, before, after) == text[..r] + (after + Replaced(text[r + |before|..], before, after))
  {
    NoneReplaced(text, before, after, r);
    ReplacedStep(text, before, after, r);
  }

  /** Where nothing occurs the text stays as it is. */
  lemma ReplacesNothing(text: seq<char>, before: seq<char>, after: seq<char>)
    requires before != [] && forall i :: 0 <= i < |text| ==> !OccursAt(text, before, i)
    ensures Replaced(text, before, after) == text
  {
    NoneReplaced(text, before, after, |text|);
  }

  /** The text without the bytes from first on, count of them or as many as there are. */
  function Removed(text: seq<char>, first: nat, count: nat): seq<char> {
    if first >= |text| then text
    else text[..first] + text[if count > |text| - first then |text| else first + count..]
  }

  /** Where each byte that stays comes from. */
  lemma RemovedIs(text: seq<char>, first: nat, count: nat, i: nat)
    requires i < |Removed(text, first, count)|
    ensures |Removed(text, first, count)| == if first + count <= |text| then |text| - count else if first < |text| then first else |text|
    ensures Removed(text, first, count)[i] == if i < first then text[i] else text[i + count]
  {
  }

  // ---------- what operations may do to a byte sequence ----------

  datatype State = State(text: seq<char>, valid: bool, capacity: nat)

  /** The text is set to some bytes; known is false for a null pointer. Without memory for
      more than there is room for, or without bytes, the string becomes empty and invalid. */
  predicate Sets(a: State, a': State, known: bool, bytes: seq<char>) {
    if known && |bytes| <= a.capacity then a' == State(bytes, true, a.capacity)
    else
      || a' == State([], false, a.capacity)
      || (known && a' == State(bytes, true, Max(|bytes|, Grown(a.capacity))))
  }

  /** Bytes are appended. Only more than there is room for may fail, and that changes nothing. */
  predicate Appends(a: State, a': State, bytes: seq<char>) {
    if |a.text| + |bytes| <= a.capacity then a' == State(a.text + bytes, true, a.capacity)
    else a' == a || a' == State(a.text + bytes, true, Max(|a.text| + |bytes|, Grown(a.capacity)))
  }

  /** Occurrences are replaced. Only a result that does not fit a local buffer may fail, and
      that changes nothing. */
  predicate Replaces(a: State, a': State, before: seq<char>, after: seq<char>) {
    var all := Substituted(a.text, before, after);
    if before == [] then a' == a
    else if |all| < LOCAL_SIZE then a' == State(all, true, LOCAL_SIZE - 1)
    else a' == a || (a'.text == all && a'.valid && a'.capacity >= |all|)
  }

  class String {
    const local: array<char>
    var data: array<char>
    var size: nat
    var capacity: nat
    var valid: bool
    /** How many bytes growing has copied. */
    ghost var copied: nat

    /** The text ends with a terminator inside the storage, which is the local buffer or a heap
        block of its own. */
    ghost predicate Valid()
      reads this, data, local
    {
      && local.Length == LOCAL_SIZE && data.Length == capacity + 1
      && LOCAL_SIZE - 1 <= capacity < UINT_MAX && size <= capacity
      && (data == local ==> capacity == LOCAL_SIZE - 1)
      && data[size] == '\0'
    }

    ghost function Text(): seq<char>
      requires size <= data.Length
      reads this, data
    {
      data[..size]
    }

    ghost function Now(): State
      requires size <= data.Length
      reads this, data
    {
      State(Text(), valid, capacity)
    }

    /** The strings do not share storage. */
    ghost predicate Apart(other: String)
      reads `data, other`data
    {
      this != other && data != other.data && data != other.local && local != other.data && local != other.local
    }

    constructor ()
      ensures Valid() && Text() == [] && valid && copied == 0 && data == local && fresh(local)
    {
      var buffer := new char[LOCAL_SIZE](_ => '\0');
      local, data := buffer, buffer;
      size, capacity, valid, copied := 0, LOCAL_SIZE - 1, true, 0;
    }

    method Clear()
      requires data.Length > 0
      modifies `size, data
      ensures size == 0 && data[0] == '\0'
    {
      size := 0;
      data[0] := '\0';
    }

    method ResetInvalid()
      requires Valid()
      modifies `size, `valid, data
      ensures Valid() && Text() == [] && !valid
    {
      Clear();
      valid := false;
    }

    /** Makes room for count bytes. Growing at least doubles the capacity, up to the clamp, and
        copies the text and its terminator; it fails when there is no memory. */
    method Reserve(count: nat) returns (ok: bool)
      requires Valid() && count <= UINT_MAX
      modifies `data, `capacity, `valid, `copied
      ensures Valid() && Text() == old(Text()) && (data == old(data) || fresh(data))
      ensures ok ==> valid && count <= capacity
      ensures !ok ==> valid == old(valid) && (count == UINT_MAX || count > old(capacity))
      ensures if ok && count > old(capacity) then
                && copied == old(copied) + size + 1 && fresh(data)
                && capacity == Max(count, if old(capacity) < 0x7fff_ffff then 2 * old(capacity) + 1 else 0xffff_fffe)
              else copied == old(copied) && capacity == old(capacity) && data == old(data)
    {
      if count == UINT_MAX {
        return false;
      }
      if count > capacity {
        var grown := if capacity <= (UINT_MAX - 2) / 2 then capacity * 2 + 1 else UINT_MAX - 1;
        var bigger := if count > grown then count else grown;
        if * {
          return false;  // no memory
        }
        Enlarge(bigger);
      }
      valid := true;
      ok := true;
    }

    /** Moves the text and its terminator to a larger heap block. */
    method Enlarge(bigger: nat)
      requires Valid() && capacity < bigger < UINT_MAX
      modifies `data, `capacity, `copied
      ensures Valid() && Text() == old(Text()) && fresh(data) && capacity == bigger && copied == old(copied) + size + 1
    {
      var next := new char[bigger + 1](_ => '\0');
      ghost var was := data[..size + 1];
      CopyInto(next, 0, data[..size + 1]);
      assert next[..size + 1] == was;
      assert next[..size + 1][size] == '\0' && next[..size + 1][..size] == data[..size];
      data, capacity, copied := next, bigger, copied + size + 1;
    }

    /** Sets the text to what the pointer meant before the call. Without memory, or for null,
        the string becomes empty and invalid. */
    method Assign(text: Pointer, count0: nat)
      requires Valid() && count0 <= UINT_MAX && IsPointer(text, count0, size)
      modifies this, data
      ensures Valid() && (data == old(data) || fresh(data))
      ensures if valid then Text() == Meant(old(Text()), text, count0) && !text.Null? else Text() == []
      ensures Sets(old(Now()), Now(), !text.Null?, Meant(old(Text()), text, count0))
    {
      if text == Null {
        ResetInvalid();
        return;
      }
      var count := count0;
      if text.Internal? && count > size - text.offset {
        count := size - text.offset;
      }
      ghost var meant := Meant(Text(), text, count0);
      var ok := Reserve(count);
      if !ok {
        ResetInvalid();
        return;
      }
      Fill(0, text, count, meant);
    }

    /** Copies count bytes of the pointer to a place and ends the text behind them. */
    method Fill(at: nat, text: Pointer, count: nat, ghost meant: seq<char>)
      requires Valid() && at <= size && at + count <= capacity && !text.Null?
      requires text.External? ==> count <= |text.bytes| && meant == text.bytes[..count]
      requires text.Internal? ==> text.offset + count <= size && meant == Text()[text.offset..text.offset + count]
      modifies `size, data
      ensures Valid() && Text() == old(Text())[..at] + meant
    {
      assert text.Internal? ==> Text()[text.offset..text.offset + count] == data[text.offset..text.offset + count];
      CopyInto(data, at, if text.Internal? then data[text.offset..text.offset + count] else text.bytes[..count]);
      size := at + count;
      assert data[..size] == old(data[..at]) + meant;
      data[size] := '\0';
      assert data[..size] == old(data[..at]) + meant;
    }

    /** Appends what the pointer meant before the call, or changes nothing. */
    method Concat(text: Pointer, count: nat) returns (ok: bool)
      requires Valid() && count <= UINT_MAX && IsPointer(text, count, size)
      modifies this, data
      ensures Valid() && (data == old(data) || fresh(data))
      ensures Text() == if ok then old(Text()) + Meant(old(Text()), text, count) else old(Text())
      ensures ok ==> valid && !text.Null? && |Meant(old(Text()), text, count)| == count
      ensures !ok ==> valid == old(valid) && capacity == old(capacity) && data == old(data) && copied == old(copied)
      ensures !ok ==> text.Null? || (text.Internal? && count > old(size) - text.offset) || old(size) + count > old(capacity)
      ensures ok ==>
        if old(size) + count > old(capacity) then
          copied == old(copied) + old(size) + 1 && capacity == Max(old(size) + count, Grown(old(capacity)))
        else copied == old(copied) && capacity == old(capacity)
      ensures !text.Null? && |Meant(old(Text()), text, count)| == count ==>
        Appends(old(Now()), Now(), Meant(old(Text()), text, count))
    {
      if text == Null || count > UINT_MAX - size - 1 {
        return false;
      }
      if text.Internal? && count > size - text.offset {
        return false;
      }
      ghost var meant := Meant(Text(), text, count);
      ok := Reserve(size + count);
      if !ok {
        return;
      }
      Fill(size, text, count, meant);
    }

    /** Moves the text of the other string here: its heap block changes hands, or its local
        buffer is copied. The storage this string had is given up. */
    method Take(other: String)
      requires other.Valid() && Apart(other) && local.Length == LOCAL_SIZE
      modifies this, local, other, other.local
      ensures Valid() && Text() == old(other.Text()) && valid == old(other.valid)
      ensures capacity == old(other.capacity) && other.capacity == LOCAL_SIZE - 1
      ensures other.Valid() && other.Text() == [] && other.valid && other.data == other.local
      ensures data == (if old(other.data) == other.local then local else old(other.data)) && Apart(other)
    {
      ghost var text := other.Text();
      if other.data == other.local {
        CopyInto(local, 0, other.local[..]);
        data := local;
        capacity := LOCAL_SIZE - 1;
      } else {
        data, capacity := other.data, other.capacity;
        other.data, other.capacity := other.local, LOCAL_SIZE - 1;
      }
      size, valid := other.size, other.valid;
      assert Text() == text;
      other.Clear();
      other.valid := true;
    }

    /** Move assignment; moving a string to itself changes nothing. */
    method Move(other: String)
      requires Valid() && other.Valid() && (other == this || Apart(other))
      modifies this, local, other, other.local
      ensures Valid() && other.Valid()
      ensures Text() == old(other.Text()) && valid == old(other.valid) && capacity == old(other.capacity)
      ensures other != this ==> other.capacity == LOCAL_SIZE - 1
      ensures if other == this then data == old(data) else other.Text() == [] && other.valid && other.data == other.local && Apart(other)
      ensures other != this ==> data == if old(other.data) == other.local then local else old(other.data)
    {
      if other != this {
        Take(other);
      }
    }

    /** Copy assignment. */
    method Copy(other: String)
      requires Valid() && other.Valid() && (other == this || Apart(other))
      modifies this, data
      ensures Valid() && (data == old(data) || fresh(data))
      ensures if other == this then Text() == old(Text()) && valid == old(valid)
              else Text() == (if valid then other.Text() else [])
      ensures if other == this then capacity == old(capacity) else Sets(old(Now()), Now(), true, other.Text())
    {
      if other != this {
        Assign(External(other.data[..other.size]), other.size);
      }
    }

    /** Appends another string, or this one to itself. */
    method Append(other: String) returns (ok: bool)
      requires Valid() && other.Valid() && (other == this || Apart(other))
      modifies this, data
      ensures Valid() && (data == old(data) || fresh(data))
      ensures Text() == if ok then old(Text()) + old(other.Text()) else old(Text())
      ensures ok ==> valid
      ensures !ok ==> valid == old(valid) && data == old(data) && capacity == old(capacity) && old(size) + old(other.size) > old(capacity)
      ensures Appends(old(Now()), Now(), old(other.Text()))
    {
      ok := Concat(if other == this then Internal(0) else External(other.data[..other.size]), other.size);
    }

    /** Takes bytes out of the middle. */
    method Remove(first: nat, count0: nat)
      requires Valid()
      modifies `size, data
      ensures Valid() && Text() == Removed(old(Text()), first, count0)
    {
      if first >= size {
        return;
      }
      var count := count0;
      if count > size - first {
        count := size - first;
      }
      CutOut(first, count, data[..], Removed(Text(), first, count0));
    }

    method CutOut(first: nat, count: nat, ghost was: seq<char>, ghost left: seq<char>)
      requires Valid() && first + count <= size && data[..] == was
      requires left == was[..size][..first] + was[..size][first + count..]
      modifies `size, data
      ensures Valid() && Text() == left
    {
      var tail := data[first + count..size + 1];
      CopyInto(data, first, tail);
      Shifted(was, data[..], first, count, size, tail);
      size := size - count;
    }

    predicate StartsWith(prefix: seq<char>, offset: nat)
      requires size <= data.Length
      reads this, data
      ensures StartsWith(prefix, offset) <==> OccursAt(Text(), prefix, offset)
    {
      offset <= size && |prefix| <= size - offset && data[offset..offset + |prefix|] == prefix
    }

    /** Replaces the leftmost occurrences: builds the result in a string of its own and moves
        that here. Without memory for it nothing changes; what fits the local buffer needs none. */
    method Replace(before: String, after: String)
      requires Valid() && before.Valid() && after.Valid()
      requires (before == this || Apart(before)) && (after == this || Apart(after))
      modifies this, local
      ensures Valid() && (data == old(data) || data == local || fresh(data))
      ensures var all := Substituted(old(Text()), old(before.Text()), old(after.Text()));
        && (Text() == all || (Text() == old(Text()) && valid == old(valid) && data == old(data)))
        && (|all| < LOCAL_SIZE ==> Text() == all)
      ensures Replaces(old(Now()), Now(), old(before.Text()), old(after.Text()))
    {
      if before.size == 0 {
        return;
      }
      var ok, result := BuildReplaced(before, after);
      if ok {
        Move(result);
      }
    }

    /** Builds the text with the occurrences replaced, in a new string. */
    method BuildReplaced(before: String, after: String) returns (ok: bool, result: String)
      requires Valid() && before.Valid() && after.Valid() && before.size > 0
      requires (before == this || Apart(before)) && (after == this || Apart(after))
      ensures fresh(result) && fresh(result.local) && fresh(result.data) && result.Valid()
      ensures var all := Replaced(Text(), before.Text(), after.Text());
        && (ok ==> result.Text() == all && result.valid && (|all| < LOCAL_SIZE ==> result.capacity == LOCAL_SIZE - 1))
        && (!ok ==> |all| >= LOCAL_SIZE)
    {
      result := new String();
      ghost var text, from, to := Text(), before.Text(), after.Text();
      ghost var all := Replaced(text, from, to);
      var pos := 0;
      ok := true;
      assert text[0..] == text;
      NoneBefore(all);
      ghost var firstData := result.data;
      label building:
      while pos < size
        invariant 0 <= pos <= size && result.Valid() && (result.data == firstData || fresh@building(result.data))
        invariant result.Text() + Replaced(text[pos..], from, to) == all
        invariant result.valid && (|all| < LOCAL_SIZE ==> result.capacity == LOCAL_SIZE - 1)
        decreases size - pos
        modifies result, result.data
      {
        ok, pos := ReplaceStep(result, before, after, pos, text, from, to, all);
        if !ok {
          return;
        }
      }
      ok := true;
      NoneAfter(result.Text());
    }

    /** One turn of replacing: appends the new part or the next byte to the result. */
    method ReplaceStep(result: String, before: String, after: String, pos: nat,
                       ghost text: seq<char>, ghost from: seq<char>, ghost to: seq<char>, ghost all: seq<char>)
      returns (ok: bool, next: nat)
      requires Valid() && before.Valid() && after.Valid() && result.Valid() && pos < size && before.size > 0
      requires text == Text() && from == before.Text() && to == after.Text()
      requires Apart(result) && before.Apart(result) && after.Apart(result)
      requires result.Text() + Replaced(text[pos..], from, to) == all
      modifies result, result.data
      ensures result.Valid() && (result.data == old(result.data) || fresh(result.data)) && pos < next
      ensures ok ==> next <= |text| && result.Text() + Replaced(text[next..], from, to) == all
      ensures ok ==> result.valid
      ensures |all| < LOCAL_SIZE && old(result.capacity) == LOCAL_SIZE - 1 ==> result.capacity == LOCAL_SIZE - 1
      ensures !ok ==> |all| >= LOCAL_SIZE
    {
      ghost var done := result.Text();
      if StartsWith(before.data[..before.size], pos) {
        next := pos + before.size;
        ReplacedNext(text, from, to, pos, next, to, done, all);
        ok := PutString(result, after, done, Replaced(text[next..], from, to), all);
      } else {
        next := pos + 1;
        ReplacedNext(text, from, to, pos, next, [data[pos]], done, all);
        ok := PutByte(result, data[pos], done, Replaced(text[next..], from, to), all);
      }
    }

    /** Appends a string to the result, of which left is still to come. */
    static method PutString(result: String, part: String, ghost done: seq<char>, ghost left: seq<char>, ghost all: seq<char>)
      returns (ok: bool)
      requires result.Valid() && part.Valid() && part.Apart(result) && result.Apart(part)
      requires result.Text() == done && (done + part.Text()) + left == all
      modifies result, result.data
      ensures result.Valid() && (result.data == old(result.data) || fresh(result.data))
      ensures ok ==> result.valid && result.Text() + left == all
      ensures |all| < LOCAL_SIZE && old(result.capacity) == LOCAL_SIZE - 1 ==> result.capacity == LOCAL_SIZE - 1
      ensures !ok ==> |all| >= LOCAL_SIZE
    {
      ok := result.Append(part);
    }

    /** Appends a byte to the result, of which left is still to come. */
    static method PutByte(result: String, byte: char, ghost done: seq<char>, ghost left: seq<char>, ghost all: seq<char>)
      returns (ok: bool)
      requires result.Valid() && result.Text() == done && (done + [byte]) + left == all
      modifies result, result.data
      ensures result.Valid() && (result.data == old(result.data) || fresh(result.data))
      ensures ok ==> result.valid && result.Text() + left == all
      ensures |all| < LOCAL_SIZE && old(result.capacity) == LOCAL_SIZE - 1 ==> result.capacity == LOCAL_SIZE - 1
      ensures !ok ==> |all| >= LOCAL_SIZE
    {
      ok := result.Concat(External([byte]), 1);
    }

    /** The least place from start on where the value occurs. */
    method IndexOf(value: seq<char>, start: nat) returns (r: int)
      requires Valid()
      ensures if r == -1 then forall i :: start <= i ==> !OccursAt(Text(), value, i)
              else start <= r && OccursAt(Text(), value, r) && forall i :: start <= i < r ==> !OccursAt(Text(), value, i)
    {
      if start > size || |value| > size - start {
        return -1;
      }
      var pos := start;
      while pos <= size - |value|
        invariant start <= pos
        invariant forall i :: start <= i < pos ==> !OccursAt(Text(), value, i)
      {
        if StartsWith(value, pos) {
          return pos;
        }
        pos := pos + 1;
      }
      r := -1;
    }

    /** The greatest place up to start where the value occurs. */
    method LastIndexOf(value: seq<char>, start: nat) returns (r: int)
      requires Valid()
      ensures if r == -1 then forall i :: 0 <= i <= start ==> !OccursAt(Text(), value, i)
              else 0 <= r <= start && OccursAt(Text(), value, r) && forall i :: r < i <= start ==> !OccursAt(Text(), value, i)
    {
      if |value| > size {
        return -1;
      }
      var pos := if start < size - |value| then start else size - |value|;
      while true
        invariant 0 <= pos <= start && pos + |value| <= size
        invariant forall i :: pos < i <= start ==> !OccursAt(Text(), value, i)
        decreases pos
      {
        if StartsWith(value, pos) {
          return pos;
        }
        if pos == 0 {
          return -1;
        }
        pos := pos - 1;
      }
    }
  }

  /** Moving the tail of the text with its terminator down cuts out what was between. */
  lemma Shifted(was: seq<char>, now: seq<char>, first: nat, count: nat, size: nat, tail: seq<char>)
    requires first + count <= size < |was| && was[size] == '\0' && tail == was[first + count..size + 1]
    requires now == was[..first] + tail + was[first + |tail|..]
    ensures |now| == |was| && now[size - count] == '\0'
    ensures now[..size - count] == was[..size][..first] + was[..size][first + count..]
  {
    var left := size - count;
    assert now[..first + |tail|] == was[..first] + tail;
    assert now[left] == tail[|tail| - 1];
    assert now[..left] == was[..first] + tail[..|tail| - 1];
    assert tail[..|tail| - 1] == was[..size][first + count..];
  }

  function Max(a: nat, b: nat): nat {
    if a > b then a else b
  }

  /** The capacity that growing aims at. */
  function Grown(capacity: nat): nat {
    if capacity <= (UINT_MAX - 2) / 2 then capacity * 2 + 1 else UINT_MAX - 1
  }

  // ---------- growth ----------

  /** Growing has copied at most twice the longest text so far. Below the clamp that is because
      doubling pays for it and the capacity is at most twice the text; the step onto the clamp
      is the last, and the text is then longer than half of it. */
  predicate Paid(copied: nat, capacity: nat, size: nat) {
    && copied <= 2 * size
    && (capacity < UINT_MAX - 1 ==> copied <= capacity - (LOCAL_SIZE - 1) <= 2 * size)
  }

  lemma GrowthPaid(copied: nat, capacity: nat, size: nat, count: nat)
    requires LOCAL_SIZE - 1 <= capacity < UINT_MAX && size <= capacity < size + count < UINT_MAX
    requires Paid(copied, capacity, size)
    ensures Paid(copied + size + 1, Max(size + count, Grown(capacity)), size + count)
  {
  }

  /** Appending chunk after chunk to a new string copies at most two bytes for each byte of the
      text; so n bytes appended one at a time cost at most 2 * n. */
  method AppendChunks(chunks: seq<seq<char>>) returns (s: String, ghost n: nat)
    requires forall chunk <- chunks :: |chunk| <= UINT_MAX
    ensures fresh(s) && s.Valid() && n <= |chunks|
    ensures s.copied <= 2 * |s.Text()|
    ensures (forall chunk <- chunks :: |chunk| == 1) ==> |s.Text()| == n
  {
    s := new String();
    n := 0;
    var i := 0;
    while i < |chunks|
      invariant 0 <= i <= |chunks| && n <= i && s.Valid() && fresh(s) && fresh(s.data)
      invariant Paid(s.copied, s.capacity, s.size)
      invariant (forall chunk <- chunks :: |chunk| == 1) ==> s.size == n
    {
      ghost var copied, capacity, size := s.copied, s.capacity, s.size;
      var ok := s.Concat(External(chunks[i]), |chunks[i]|);
      if ok {
        n := n + 1;
        if size + |chunks[i]| > capacity { GrowthPaid(copied, capacity, size, |chunks[i]|); }
      }
      assert chunks[i] in chunks;
      i := i + 1;
    }
  }

  // ---------- any sequence of operations ----------

  /** What a program may do with a string and another one; self picks the string itself as
      the argument. */
  datatype Op =
    | Assign(text: Pointer, count: nat)
    | Concat(text: Pointer, count: nat)
    | Append(self: bool)
    | Remove(first: nat, count: nat)
    | Replace(beforeSelf: bool, afterSelf: bool)
    | Copy(self: bool)
    | Move(self: bool)

  /** What an operation may make of the string and of the other one. An argument means what it
      was before; only failing allocations leave a choice. */
  predicate Step(op: Op, a: State, b: State, a': State, b': State) {
    match op
    case Assign(text, count) =>
      && b' == b
      && if !IsPointer(text, count, |a.text|) || count > UINT_MAX then a' == a
         else Sets(a, a', !text.Null?, Meant(a.text, text, count))
    case Concat(text, count) =>
      && b' == b
      && if !IsPointer(text, count, |a.text|) || count > UINT_MAX || text.Null? || |Meant(a.text, text, count)| != count then a' == a
         else Appends(a, a', Meant(a.text, text, count))
    case Append(self) => b' == b && Appends(a, a', if self then a.text else b.text)
    case Remove(first, count) => b' == b && a' == State(Removed(a.text, first, count), a.valid, a.capacity)
    case Replace(beforeSelf, afterSelf) =>
      b' == b && Replaces(a, a', if beforeSelf then a.text else b.text, if afterSelf then a.text else b.text)
    case Copy(self) => b' == b && if self then a' == a else Sets(a, a', true, b.text)
    case Move(self) => if self then a' == a && b' == b else a' == b && b' == State([], true, LOCAL_SIZE - 1)
  }

  /** Does one operation; one whose pointer is not one is left out. */
  method Act(a: String, b: String, op: Op)
    requires a.Valid() && b.Valid() && a.Apart(b)
    modifies a, a.data, a.local, b, b.local
    ensures a.Valid() && b.Valid() && a.Apart(b)
    ensures a.data in {old(a.data), a.local, old(b.data)} || fresh(a.data)
    ensures b.data in {old(b.data), b.local}
    ensures Step(op, old(a.Now()), old(b.Now()), a.Now(), b.Now())
  {
    match op {
      case Move(self) => a.Move(if self then a else b);
      case _ => ActAlone(a, b, op);
    }
  }

  /** The operations that leave the other string alone. */
  method ActAlone(a: String, b: String, op: Op)
    requires a.Valid() && b.Valid() && a.Apart(b) && !op.Move?
    modifies a, a.data, a.local
    ensures a.Valid() && (a.data in {old(a.data), a.local} || fresh(a.data))
    ensures Step(op, old(a.Now()), b.Now(), a.Now(), b.Now())
  {
    match op {
      case Assign(text, count) =>
        if count <= UINT_MAX && IsPointer(text, count, a.size) { a.Assign(text, count); }
      case Concat(text, count) =>
        if count <= UINT_MAX && IsPointer(text, count, a.size) { var ok := a.Concat(text, count); }
      case Append(self) => var ok := a.Append(if self then a else b);
      case Remove(first, count) => a.Remove(first, count);
      case Replace(beforeSelf, afterSelf) => a.Replace(if beforeSelf then a else b, if afterSelf then a else b);
      case Copy(self) => a.Copy(if self then a else b);
      case Move(_) =>
    }
  }

  datatype Pair = Pair(a: State, b: State)

  predicate Steps(swap: bool, op: Op, was: Pair, now: Pair) {
    if swap then Step(op, was.b, was.a, now.b, now.a) else Step(op, was.a, was.b, now.a, now.b)
  }

  /** Whatever a program does with two strings, in either role, their storage stays sound and
      apart, and their texts go through what the operations say about byte sequences. */
  method Run(a: String, b: String, script: seq<(bool, Op)>) returns (ghost history: seq<Pair>)
    requires a.Valid() && b.Valid() && a.Apart(b)
    modifies a, a.data, a.local, b, b.data, b.local
    ensures a.Valid() && b.Valid() && a.Apart(b) && |history| == |script| + 1
    ensures history[0] == Pair(old(a.Now()), old(b.Now())) && history[|script|] == Pair(a.Now(), b.Now())
    ensures forall i :: 0 <= i < |script| ==> Steps(script[i].0, script[i].1, history[i], history[i + 1])
  {
    history := [Pair(a.Now(), b.Now())];
    ghost var homes := {a.data, b.data, a.local, b.local};
    var n := 0;
    while n < |script|
      invariant 0 <= n <= |script| && a.Valid() && b.Valid() && a.Apart(b)
      invariant (a.data in homes || fresh(a.data)) && (b.data in homes || fresh(b.data))
      invariant |history| == n + 1 && history[0] == Pair(old(a.Now()), old(b.Now()))
      invariant history[n] == Pair(a.Now(), b.Now())
      invariant forall i :: 0 <= i < n ==> Steps(script[i].0, script[i].1, history[i], history[i + 1])
    {
      ghost var was := Pair(a.Now(), b.Now());
      if script[n].0 {
        Act(b, a, script[n].1);
      } else {
        Act(a, b, script[n].1);
      }
      ghost var now := Pair(a.Now(), b.Now());
      assert Steps(script[n].0, script[n].1, was, now);
      history := history + [now];
      n := n + 1;
    }
  }
}
