/** Reading an object from a device: two buffers take turns, one being filled while the other is handed to
    the caller. */
module MtpTransfer {
  import opened Basics
  import opened LittleEndian

  const CHUNK := 16384
  const HEADER := 12
  const WORD := 0x1_0000_0000

  /** 32-bit arithmetic as the code has it. */
  function Unsigned(n: int): (r: nat)
    ensures r < WORD && (0 <= n < WORD ==> r == n)
  {
    n % WORD
  }

  function Int32(n: int): (r: int)
    ensures 0 <= n < WORD / 2 ==> r == n
    ensures WORD / 2 <= n ==> r != n
  {
    var u := n % WORD;
    if u < WORD / 2 then u else u - WORD
  }

  /** How the device and the caller behave in one turn of the loop: whether the read can be queued, whether
      the caller takes the previous buffer, and what the read brings; None is a failed read. */
  datatype Turn = Turn(queued: bool, accepted: bool, data: Option<seq<Byte>>)

  datatype Delivery = Delivery(offset: int, bytes: seq<Byte>)

  datatype Transfer = Transfer(
    remaining: nat,
    offset: int,
    pending: Option<seq<Byte>>,
    received: seq<Byte>,
    delivered: seq<Delivery>,
    failed: bool)

  function Delivered(ds: seq<Delivery>): seq<Byte> {
    if ds == [] then [] else Delivered(ds[..|ds| - 1]) + ds[|ds| - 1].bytes
  }

  function Pending(t: Transfer): seq<Byte> {
    if t.pending.Some? then t.pending.value else []
  }

  /** A read never brings more than was asked for. */
  function Clip(data: seq<Byte>, n: nat): (r: seq<Byte>)
    ensures |r| <= n
  {
    if |data| <= n then data else data[..n]
  }

  function Wanted(remaining: nat): (n: nat)
    ensures n <= CHUNK && n <= remaining && (remaining > 0 ==> n > 0)
  {
    if remaining > CHUNK then CHUNK else remaining
  }

  function Deliver(t: Transfer, bytes: seq<Byte>): Transfer {
    t.(delivered := t.delivered + [Delivery(t.offset, bytes)], offset := Int32(t.offset + |bytes|), pending := None)
  }

  function Receive(t: Transfer, bytes: seq<Byte>): Transfer
    requires |bytes| <= t.remaining
  {
    if bytes == [] then t
    else t.(pending := Some(bytes), remaining := t.remaining - |bytes|, received := t.received + bytes)
  }

  function Step(t: Transfer, u: Turn): (r: Transfer)
    ensures r.remaining <= t.remaining
  {
    if t.remaining > 0 && !u.queued then t.(failed := true)
    else if t.pending.Some? && !u.accepted then t.(failed := true)
    else
      var d := if t.pending.Some? then Deliver(t, t.pending.value) else t;
      if t.remaining == 0 then d
      else if u.data.None? then d.(failed := true)
      else Receive(d, Clip(u.data.value, Wanted(t.remaining)))
  }

  predicate Busy(t: Transfer) {
    !t.failed && (t.remaining > 0 || t.pending.Some?)
  }

  /** The loop; a device that stops answering fails it. */
  function Loop(t: Transfer, turns: seq<Turn>): Transfer
    decreases |turns|
  {
    if !Busy(t) then t
    else if turns == [] then t.(failed := true)
    else Loop(Step(t, turns[0]), turns[1..])
  }

  /** What came with the header is delivered first; `remaining` is an unsigned difference. */
  function Begin(length: nat, initial: seq<Byte>, accepted: bool): Transfer {
    var t := Transfer(length, 0, None, initial, [], false);
    if initial == [] then t
    else if !accepted then t.(failed := true)
    else Deliver(t.(remaining := Unsigned(length - |initial|)), initial)
  }

  /** Delivered and pending bytes are those received, in order; each delivery is at the offset where the
      ones before it end, as far as 32 bits can tell; what remains is the length less what was received. */
  ghost predicate Sound(t: Transfer, length: nat) {
    && Delivered(t.delivered) + Pending(t) == t.received
    && t.offset == Int32(|Delivered(t.delivered)|)
    && Placed(t.delivered)
    && t.remaining == Unsigned(length - |t.received|)
  }

  ghost predicate Placed(ds: seq<Delivery>) {
    forall k :: 0 <= k < |ds| ==> ds[k].offset == Int32(|Delivered(ds[..k])|)
  }

  lemma DeliveredAppend(ds: seq<Delivery>, d: Delivery)
    ensures Delivered(ds + [d]) == Delivered(ds) + d.bytes
  {
    assert (ds + [d])[..|ds|] == ds;
  }

  lemma Int32Add(a: nat, b: nat)
    ensures Int32(Int32(a) + b) == Int32(a + b)
  {
    var k := if a % WORD < WORD / 2 then a / WORD else a / WORD + 1;
    assert Int32(a) == a - k * WORD;
    ModShift(a + b, k);
  }

  lemma ModShift(n: int, k: int)
    ensures (n - k * WORD) % WORD == n % WORD
  {
    var q := n / WORD - k;
    QuotientUnique(n - k * WORD, WORD, q, n % WORD);
  }

  lemma DeliverSound(t: Transfer, length: nat, bytes: seq<Byte>)
    requires Delivered(t.delivered) + bytes == t.received && t.offset == Int32(|Delivered(t.delivered)|)
    requires Placed(t.delivered) && t.remaining == Unsigned(length - |t.received|)
    ensures Sound(Deliver(t, bytes), length)
  {
    var d := Delivery(t.offset, bytes);
    DeliveredAppend(t.delivered, d);
    PlacedAppend(t.delivered, d);
    Delivering(t, d, t.delivered + [d], Delivered(t.delivered), length);
  }

  lemma Delivering(t: Transfer, d: Delivery, ds: seq<Delivery>, before: seq<Byte>, length: nat)
    requires ds == t.delivered + [d] && d.offset == t.offset == Int32(|before|) && Placed(ds)
    requires Delivered(ds) == before + d.bytes == t.received && t.remaining == Unsigned(length - |t.received|)
    ensures Sound(Deliver(t, d.bytes), length)
  {
    Int32Add(|before|, |d.bytes|);
  }

  lemma PlacedAppend(ds: seq<Delivery>, d: Delivery)
    requires Placed(ds) && d.offset == Int32(|Delivered(ds)|)
    ensures Placed(ds + [d])
  {
    forall k | 0 <= k <= |ds| ensures (ds + [d])[k].offset == Int32(|Delivered((ds + [d])[..k])|) {
      if k < |ds| {
        assert (ds + [d])[..k] == ds[..k];
      } else {
        assert (ds + [d])[..k] == ds;
      }
    }
  }

  lemma ReceiveSound(t: Transfer, length: nat, bytes: seq<Byte>)
    requires Sound(t, length) && t.pending.None? && |bytes| <= t.remaining
    ensures Sound(Receive(t, bytes), length)
  {
    if bytes != [] {
      UnsignedLess(length - |t.received|, |bytes|);
    }
  }

  lemma UnsignedLess(n: int, b: nat)
    requires b <= Unsigned(n)
    ensures Unsigned(n - b) == Unsigned(n) - b
  {
    var q := n / WORD;
    QuotientUnique(n - b, WORD, q, n % WORD - b);
  }

  lemma StepSound(t: Transfer, length: nat, u: Turn)
    requires Sound(t, length)
    ensures Sound(Step(t, u), length)
  {
    if (t.remaining == 0 || u.queued) && (t.pending.None? || u.accepted) {
      var d := if t.pending.Some? then Deliver(t, t.pending.value) else t;
      if t.pending.Some? { DeliverSound(t, length, t.pending.value); }
      if t.remaining > 0 && u.data.Some? {
        ReceiveSound(d, length, Clip(u.data.value, Wanted(t.remaining)));
      }
    }
  }

  lemma BeginSound(length: nat, initial: seq<Byte>)
    requires length < WORD
    ensures Sound(Begin(length, initial, true), length)
  {
    if initial != [] {
      DeliverSound(Transfer(Unsigned(length - |initial|), 0, None, initial, [], false), length, initial);
    }
  }

  lemma {:induction false} LoopSound(t: Transfer, length: nat, turns: seq<Turn>)
    requires Sound(t, length)
    ensures Sound(Loop(t, turns), length)
    decreases |turns|
  {
    if Busy(t) && turns != [] {
      StepSound(t, length, turns[0]);
      LoopSound(Step(t, turns[0]), length, turns[1..]);
    }
  }

  lemma {:induction false} LoopAddsRemaining(t: Transfer, turns: seq<Turn>)
    ensures var r := Loop(t, turns);
            && |r.received| == |t.received| + t.remaining - r.remaining && r.remaining <= t.remaining
            && (!r.failed ==> r.remaining == 0 && r.pending.None?)
    decreases |turns|
  {
    if Busy(t) && turns != [] {
      LoopAddsRemaining(Step(t, turns[0]), turns[1..]);
    }
  }

  /** At the end of a transfer that did not fail everything received has been delivered, in order, and it is
      as long as announced exactly when the first packet was not already longer; otherwise 4 GB longer. */
  lemma TransferDeliversAll(length: nat, initial: seq<Byte>, accepted: bool, turns: seq<Turn>)
    requires length < WORD && |initial| < WORD
    ensures var r := Loop(Begin(length, initial, accepted), turns);
            && (initial == [] || accepted ==> Delivered(r.delivered) + Pending(r) == r.received)
            && (!r.failed ==>
                  Delivered(r.delivered) == r.received
                  && |r.received| == length + (if |initial| <= length then 0 else WORD))
  {
    var t := Begin(length, initial, accepted);
    LoopAddsRemaining(t, turns);
    if initial == [] || accepted {
      BeginSound(length, initial);
      LoopSound(t, length, turns);
      if |initial| > length {
        QuotientUnique(length - |initial|, WORD, -1, length - |initial| + WORD);
      }
    } else {
      assert !Busy(t);
    }
  }

  /** Every delivery says its true offset exactly when fewer than 2 GB were delivered before it. */
  lemma OffsetsTrue(length: nat, initial: seq<Byte>, turns: seq<Turn>, k: nat)
    requires length < WORD && k < |Loop(Begin(length, initial, true), turns).delivered|
    ensures var ds := Loop(Begin(length, initial, true), turns).delivered;
            ds[k].offset == |Delivered(ds[..k])| <==> |Delivered(ds[..k])| < WORD / 2
  {
    BeginSound(length, initial);
    LoopSound(Begin(length, initial, true), length, turns);
  }

  /** A first packet of three bytes for an object of two: the loop goes on to read 4 GB less one. */
  lemma LongFirstPacketReadsOn()
    ensures Begin(2, [1, 2, 3], true).remaining == WORD - 1
  {
    QuotientUnique(-1, WORD, -1, WORD - 1);
  }

  // ---- What is delivered, from what comes in -----------------------------------------------------------

  /** The bytes the reads bring: each at most a buffer and no more than is still wanted. */
  function Incoming(wanted: nat, turns: seq<Turn>): seq<Byte>
    decreases |turns|
  {
    if wanted == 0 || turns == [] || turns[0].data.None? then []
    else
      var most := if wanted < 16384 then wanted else 16384;
      var bytes := if |turns[0].data.value| < most then turns[0].data.value else turns[0].data.value[..most];
      bytes + Incoming(wanted - |bytes|, turns[1..])
  }

  lemma {:induction false} LoopReceives(t: Transfer, turns: seq<Turn>)
    requires !Loop(t, turns).failed
    ensures Loop(t, turns).received == t.received + Incoming(t.remaining, turns)
    decreases |turns|
  {
    if Busy(t) && turns != [] {
      var s := Step(t, turns[0]);
      LoopReceives(s, turns[1..]);
      if t.remaining > 0 { StepReceives(t, turns[0], turns[1..]); }
    }
  }

  lemma StepReceives(t: Transfer, u: Turn, rest: seq<Turn>)
    requires Busy(t) && t.remaining > 0 && !Step(t, u).failed
    ensures var s := Step(t, u);
            s.received + Incoming(s.remaining, rest) == t.received + Incoming(t.remaining, [u] + rest)
  {
    assert ([u] + rest)[1..] == rest;
    var bytes := Clip(u.data.value, Wanted(t.remaining));
    ConcatThree(t.received, bytes, Incoming(t.remaining - |bytes|, rest));
    if bytes == [] { assert [] + Incoming(t.remaining, rest) == Incoming(t.remaining, rest); }
  }

  /** A transfer that succeeds has delivered exactly the first packet and then what the reads brought, in order. */
  lemma DeliversWhatComes(length: nat, initial: seq<Byte>, accepted: bool, turns: seq<Turn>)
    requires length < WORD && |initial| < WORD && !Loop(Begin(length, initial, accepted), turns).failed
    ensures var wanted := if |initial| <= length then length - |initial| else WORD + length - |initial|;
            Delivered(Loop(Begin(length, initial, accepted), turns).delivered) == initial + Incoming(wanted, turns)
  {
    var t := Begin(length, initial, accepted);
    TransferDeliversAll(length, initial, accepted, turns);
    LoopReceives(t, turns);
    if |initial| > length { QuotientUnique(length - |initial|, WORD, -1, length - |initial| + WORD); }
  }

  predicate Good(u: Turn) {
    u.queued && u.accepted && u.data.Some? && u.data.value != []
  }

  /** When all has been received only the caller's word for the last buffer is wanted: no read is queued. */
  lemma LastBufferNeedsNoRead(t: Transfer, turns: seq<Turn>)
    requires Busy(t) && t.remaining == 0
    ensures !Loop(t, turns).failed <==> turns != [] && turns[0].accepted
  {
    if turns != [] && turns[0].accepted { assert !Busy(Step(t, turns[0])); }
  }

  /** When every read brings something and nothing fails, the loop ends. */
  lemma {:induction false} LoopEnds(t: Transfer, turns: seq<Turn>)
    requires !t.failed && |turns| > t.remaining && forall k :: 0 <= k < |turns| ==> Good(turns[k])
    ensures !Loop(t, turns).failed
    decreases |turns|
  {
    if Busy(t) {
      var s := Step(t, turns[0]);
      assert Good(turns[0]);
      assert !s.failed;
      if t.remaining > 0 {
        assert s.remaining < t.remaining;
        forall k | 0 <= k < |turns[1..]| ensures Good(turns[1..][k]) { assert turns[1..][k] == turns[k + 1]; }
        LoopEnds(s, turns[1..]);
      } else {
        assert !Busy(s);
      }
    }
  }

  /** No delivery is longer than a buffer. */
  ghost predicate Chunked(t: Transfer) {
    |Pending(t)| <= CHUNK && forall k :: 0 <= k < |t.delivered| ==> |t.delivered[k].bytes| <= CHUNK
  }

  lemma {:induction false} LoopChunked(t: Transfer, turns: seq<Turn>)
    requires Chunked(t)
    ensures Chunked(Loop(t, turns))
    decreases |turns|
  {
    if Busy(t) && turns != [] {
      LoopChunked(Step(t, turns[0]), turns[1..]);
    }
  }

  /** However an object of at least 2 GB and a buffer arrives, the last delivery is announced at a wrong offset. */
  lemma LongObjectMissesOffset(length: nat, initial: seq<Byte>, turns: seq<Turn>)
    requires WORD / 2 + CHUNK <= length < WORD && |initial| <= CHUNK
    requires !Loop(Begin(length, initial, true), turns).failed
    ensures var ds := Loop(Begin(length, initial, true), turns).delivered;
            var last := |ds| - 1;
            last >= 0 && ds[last].offset != |Delivered(ds[..last])|
  {
    TransferDeliversAll(length, initial, true, turns);
    LoopChunked(Begin(length, initial, true), turns);
    var ds := Loop(Begin(length, initial, true), turns).delivered;
    assert |Delivered(ds)| == length;
    OffsetsTrue(length, initial, turns, |ds| - 1);
  }

  const FULL_READ := Turn(true, true, Some(seq(CHUNK, _ => 0)))

  /** Such an object, read in full buffers. */
  lemma FullReadsMissOffset(length: nat)
    requires WORD / 2 + CHUNK <= length < WORD
    ensures var r := Loop(Begin(length, [], true), seq(length + 1, _ => FULL_READ));
            var last := |r.delivered| - 1;
            !r.failed && last >= 0 && r.delivered[last].offset != |Delivered(r.delivered[..last])|
  {
    var turns := seq(length + 1, _ => FULL_READ);
    assert forall k :: 0 <= k < |turns| ==> Good(turns[k]);
    LoopEnds(Begin(length, [], true), turns);
    LongObjectMissesOffset(length, [], turns);
  }

  const EMPTY_READ := Turn(true, true, Some([]))

  lemma EmptyReadRetries(t: Transfer, u: Turn)
    requires u.queued && u.accepted
    ensures Step(t, EMPTY_READ) == if t.pending.Some? then Deliver(t, t.pending.value) else t
    ensures t.remaining > 0 ==> Step(Step(t, EMPTY_READ), u) == Step(t, u)
  {
    assert Clip([], Wanted(t.remaining)) == [];
  }

  /** An empty read before a turn in which the next one is queued and the buffer accepted does not show: the
      same bytes are delivered at the same offsets, and the loop ends or fails alike, whatever else happens. */
  lemma {:induction false} EmptyReadDoesNotShow(t: Transfer, before: seq<Turn>, after: seq<Turn>)
    requires after != [] && after[0].queued && after[0].accepted
    ensures Loop(t, before + [EMPTY_READ] + after) == Loop(t, before + after)
    decreases |before|
  {
    if Busy(t) {
      if before == [] {
        EmptyReadRetries(t, after[0]);
        assert ([EMPTY_READ] + after)[1..] == after;
        assert [] + [EMPTY_READ] + after == [EMPTY_READ] + after && [] + after == after;
        assert Loop(t, [EMPTY_READ] + after) == Loop(Step(t, EMPTY_READ), after);
        if t.remaining > 0 {
          assert Busy(Step(t, EMPTY_READ));
        } else {
          assert !Busy(Step(t, EMPTY_READ)) && Step(t, after[0]) == Step(t, EMPTY_READ);
        }
      } else {
        assert (before + [EMPTY_READ] + after)[1..] == before[1..] + [EMPTY_READ] + after;
        assert (before + after)[1..] == before[1..] + after;
        EmptyReadDoesNotShow(Step(t, before[0]), before[1..], after);
      }
    }
  }

  /** The device's side of the loop, with its buffers. */
  class ObjectReader {
    const buffer1: array<Byte>
    const buffer2: array<Byte>
    ghost var transfer: Transfer

    ghost predicate Valid() {
      buffer1 != buffer2 && buffer1.Length == CHUNK && buffer2.Length == CHUNK
    }

    constructor ()
      ensures Valid() && fresh(buffer1) && fresh(buffer2)
    {
      buffer1, buffer2 := new Byte[CHUNK], new Byte[CHUNK];
      transfer := Begin(0, [], true);
    }

    /** A queued read may write its buffer at any time until it is waited for; here it does so at once. */
    method QueueRead(buffer: array<Byte>, data: seq<Byte>)
      requires |data| <= buffer.Length
      modifies buffer
      ensures buffer[..|data|] == data
    {
      for i := 0 to |data|
        invariant forall k :: 0 <= k < i ==> buffer[k] == data[k]
        modifies buffer
      {
        buffer[i] := data[i];
      }
    }

    /** The write buffer holds the pending bytes and is not the one the next read goes to. */
    ghost predicate Holds(writeBuffer: array?<Byte>, writeLength: nat, req: array<Byte>)
      reads this, writeBuffer
    {
      && (writeBuffer == null <==> transfer.pending.None?)
      && (writeBuffer != null ==> writeBuffer != req && (writeBuffer == buffer1 || writeBuffer == buffer2)
                                  && writeLength <= writeBuffer.Length
                                  && writeBuffer[..writeLength] == transfer.pending.value)
    }

    /** One turn of the loop. */
    method TakeTurn(turn: Turn, remaining: nat, offset: int, writeBuffer: array?<Byte>, writeLength: nat,
          req: array<Byte>)
      returns (failed: bool, remaining': nat, offset': int, writeBuffer': array?<Byte>, writeLength': nat,
          req': array<Byte>)
      requires Valid() && (req == buffer1 || req == buffer2) && Holds(writeBuffer, writeLength, req)
      requires Busy(transfer) && remaining == transfer.remaining && offset == transfer.offset
      modifies this, buffer1, buffer2
      ensures Valid() && (req' == buffer1 || req' == buffer2)
      ensures transfer == Step(old(transfer), turn) && failed == transfer.failed
      ensures remaining' == transfer.remaining && offset' == transfer.offset
      ensures !failed ==> Holds(writeBuffer', writeLength', req')
    {
      failed, remaining', offset' := false, remaining, offset;
      writeBuffer', writeLength', req' := writeBuffer, writeLength, req;
      var length := if remaining > CHUNK then CHUNK else remaining;
      var data := if turn.data.Some? then Clip(turn.data.value, length) else [];
      if remaining > 0 {
        if !turn.queued {
          transfer := transfer.(failed := true);
          failed := true;
          return;
        }
        QueueRead(req, data);
      }
      if writeBuffer != null {
        if !turn.accepted {
          transfer := transfer.(failed := true);
          failed := true;
          return;
        }
        transfer := Deliver(transfer, writeBuffer[..writeLength]);
        offset' := Int32(offset + writeLength);
        writeBuffer' := null;
      }
      if remaining > 0 {
        if turn.data.None? {
          transfer := transfer.(failed := true);
          failed := true;
          return;
        }
        transfer := Receive(transfer, data);
        if |data| > 0 {
          writeBuffer' := req;
          writeLength' := |data|;
          remaining' := remaining - |data|;
          req' := if req == buffer1 then buffer2 else buffer1;
        } else {
          writeBuffer' := null;
        }
      }
    }

    /** The loop, after what came with the header has been delivered. */
    method ReadRest(left: nat, start: int, turns: seq<Turn>) returns (failed: bool)
      requires Valid() && left == transfer.remaining && start == transfer.offset && transfer.pending.None?
               && !transfer.failed
      modifies this, buffer1, buffer2
      ensures transfer == Loop(old(transfer), turns) && failed == transfer.failed
    {
      ghost var goal := Loop(transfer, turns);
      var remaining, offset, writeBuffer, writeLength, req, i := left, start, null, 0, buffer1, 0;
      failed := false;
      while remaining > 0 || writeBuffer != null
        invariant 0 <= i <= |turns| && Loop(transfer, turns[i..]) == goal
        invariant (req == buffer1 || req == buffer2) && Holds(writeBuffer, writeLength, req)
        invariant remaining == transfer.remaining && offset == transfer.offset && !transfer.failed
        decreases |turns| - i
      {
        if i == |turns| {
          transfer := transfer.(failed := true);
          return true;
        }
        assert turns[i..][0] == turns[i] && turns[i..][1..] == turns[i + 1..];
        failed, remaining, offset, writeBuffer, writeLength, req :=
          TakeTurn(turns[i], remaining, offset, writeBuffer, writeLength, req);
        i := i + 1;
        if failed {
          return;
        }
      }
    }

    /** The form with a callback: the object's size must be what the device announces. `responseOk` is the
        device's answer after the data. */
    method ReadObject(containerLength: nat, objectSize: nat, initial: seq<Byte>, accepted: bool, turns: seq<Turn>,
          responseOk: bool)
      returns (result: bool)
      requires Valid() && containerLength < WORD && |initial| < WORD
      modifies this, buffer1, buffer2
      ensures Unsigned(containerLength - HEADER) != objectSize ==> !result
      ensures Unsigned(containerLength - HEADER) == objectSize ==>
                transfer == Loop(Begin(objectSize, initial, accepted), turns)
                && result == (!transfer.failed && responseOk)
    {
      var length := Unsigned(containerLength - HEADER);
      if length != objectSize {
        return false;
      }
      transfer := Begin(length, initial, accepted);
      var remaining, offset := length, 0;
      if |initial| > 0 {
        if !accepted {
          return false;
        }
        remaining := Unsigned(remaining - |initial|);
        offset := Int32(offset + |initial|);
      }
      var failed := ReadRest(remaining, offset, turns);
      result := !failed && responseOk;
    }

    /** The form that writes to a file: it takes any length from the header's own up. */
    method ReadObjectToFile(containerLength: nat, initial: seq<Byte>, written: bool, turns: seq<Turn>, responseOk: bool)
      returns (result: bool)
      requires Valid() && containerLength < WORD && |initial| < WORD
      modifies this, buffer1, buffer2
      ensures containerLength < HEADER ==> !result
      ensures containerLength >= HEADER ==>
                transfer == Loop(Begin(containerLength - HEADER, initial, written), turns)
                && result == (!transfer.failed && responseOk)
    {
      if containerLength < HEADER {
        return false;
      }
      result := ReadObject(containerLength, containerLength - HEADER, initial, written, turns, responseOk);
    }
  }
}
