/**
 * The sending loops and the socket's reassembly state (edge/src/session-room.ts:806-884, 1328-1381), in the
 * form the code has: two passes over the updates, and batches filled in place.
 */
module FragmentRoom {
  import opened Options
  import opened Bytes
  import opened Fragments

  /** Closes the open frame, if it holds anything, under the next batch id. */
  method FlushBatch(messages: seq<Message>, batch: seq<Bytes>, nextId: nat)
      returns (messages': seq<Message>, nextId': nat)
    ensures batch == [] ==> messages' == messages && nextId' == nextId
    ensures batch != [] ==> messages' == messages + [DocUpdate(nextId, batch)] && nextId' == nextId + 1
  {
    if |batch| == 0 {
      return messages, nextId;
    }
    return messages + [DocUpdate(nextId, batch)], nextId + 1;
  }

  lemma OneJob(last: seq<Job>, id: nat)
    requires |last| == 1
    ensures Messages(last, id) == JobMessages(last[0], id)
  {
    MessagesOneMore(last, id);
    assert last[1..] == [];
    assert JobMessages(last[0], id) + [] == JobMessages(last[0], id);
  }

  lemma AddJob(jobs: seq<Job>, last: seq<Job>, all: seq<Job>, id: nat, burst: seq<Message>)
    requires |last| == 1 && all == jobs + last && id == |jobs| && burst == JobMessages(last[0], id)
    ensures Messages(all, 0) == Messages(jobs, 0) + burst
  {
    OneJob(last, id);
    MessagesConcat(jobs, last, 0);
  }

  /** `batches` grown by the open batch, the way FlushBatch grows the messages. */
  function Closed(batches: seq<seq<Bytes>>, batch: seq<Bytes>): seq<seq<Bytes>> {
    if batch == [] then batches else batches + [batch]
  }

  lemma CloseFrame(batches: seq<seq<Bytes>>, batch: seq<Bytes>, messages: seq<Message>, messages': seq<Message>)
    requires messages == Messages(FrameJobs(batches), 0)
    requires batch == [] ==> messages' == messages
    requires batch != [] ==> messages' == messages + [DocUpdate(|batches|, batch)]
    ensures messages' == Messages(FrameJobs(Closed(batches, batch)), 0)
  {
    if batch != [] {
      AddJob(FrameJobs(batches), [Frame(batch)], FrameJobs(batches + [batch]), |batches|,
          [DocUpdate(|batches|, batch)]);
    }
  }

  /** First pass: the small updates, in frames of at most FRAGMENT_BYTES. */
  method SendSmall(updates: seq<Bytes>) returns (messages: seq<Message>, nextId: nat)
    ensures messages == Messages(FrameJobs(SmallBatches(updates, [])), 0)
    ensures nextId == |SmallBatches(updates, [])|
  {
    messages, nextId := [], 0;
    var batch: seq<Bytes>, batchBytes := [], 0;
    ghost var batches: seq<seq<Bytes>> := [];
    var i := 0;
    while i < |updates|
      invariant 0 <= i <= |updates| && nextId == |batches|
      invariant batchBytes == TotalLength(batch)
      invariant messages == Messages(FrameJobs(batches), 0)
      invariant SmallBatches(updates, []) == batches + SmallBatches(updates[i..], batch)
    {
      var u := updates[i];
      assert updates[i..][1..] == updates[i + 1..];
      i := i + 1;
      if |u| > FRAGMENT_BYTES {
        continue;
      }
      if batchBytes + |u| > FRAGMENT_BYTES {
        ghost var before := messages;
        messages, nextId := FlushBatch(messages, batch, nextId);
        CloseFrame(batches, batch, before, messages);
        batches := Closed(batches, batch);
        batch, batchBytes := [], 0;
      }
      JoinSnoc(batch, u);
      assert [] + [u] == [u];
      batch, batchBytes := batch + [u], batchBytes + |u|;
    }
    assert updates[i..] == [];
    assert Closed(batches, batch) == batches + SmallBatches(updates[i..], batch);
    ghost var before := messages;
    messages, nextId := FlushBatch(messages, batch, nextId);
    CloseFrame(batches, batch, before, messages);
  }

  /** One large update: its header, then its fragments in order. */
  method SendLarge(update: Bytes, batchId: nat) returns (messages: seq<Message>)
    ensures messages == JobMessages(Large(update), batchId)
  {
    var fragmentCount := (|update| + FRAGMENT_BYTES - 1) / FRAGMENT_BYTES;
    messages := [FragmentHeader(batchId, fragmentCount, |update|)];
    var i := 0;
    while i < fragmentCount
      invariant 0 <= i <= fragmentCount == PieceCount(|update|, FRAGMENT_BYTES)
      invariant messages == [HeaderOf(update, batchId)] + FragmentsOf(update, batchId)[..i]
    {
      PieceBounds(|update|, FRAGMENT_BYTES, i);
      messages := messages
          + [Fragment(batchId, i, update[i * FRAGMENT_BYTES..Min((i + 1) * FRAGMENT_BYTES, |update|)])];
      assert FragmentsOf(update, batchId)[..i + 1] == FragmentsOf(update, batchId)[..i]
          + [FragmentOf(update, batchId, i)];
      i := i + 1;
    }
    assert FragmentsOf(update, batchId)[..i] == FragmentsOf(update, batchId);
  }

  lemma LargeStep(updates: seq<Bytes>, i: nat, larges: seq<Bytes>, sent: nat)
    requires i < |updates| && sent <= |larges| && larges[sent..] == Filter(updates[i..], false)
    ensures Small(updates[i]) ==> larges[sent..] == Filter(updates[i + 1..], false)
    ensures !Small(updates[i]) ==>
              && sent < |larges| && larges[sent] == updates[i] && larges[sent + 1..] == Filter(updates[i + 1..], false)
              && LargeJobs(larges[..sent + 1]) == LargeJobs(larges[..sent]) + [Large(updates[i])]
  {
    assert updates[i..][1..] == updates[i + 1..];
    if !Small(updates[i]) {
      assert larges[sent..][0] == updates[i] && larges[sent..][1..] == larges[sent + 1..];
    }
  }

  /** Both passes: the messages of every update, each batch under an id of its own. */
  method SendUpdates(updates: seq<Bytes>) returns (messages: seq<Message>)
    ensures messages == Messages(JobsOf(updates), 0)
  {
    var nextId: nat;
    messages, nextId := SendSmall(updates);
    ghost var jobs := FrameJobs(SmallBatches(updates, []));
    ghost var larges := Filter(updates, false);
    var i := 0;
    ghost var sent := 0;
    assert jobs + LargeJobs(larges[..0]) == jobs;
    while i < |updates|
      invariant 0 <= i <= |updates| && sent <= |larges| && nextId == |jobs| + sent
      invariant larges[sent..] == Filter(updates[i..], false)
      invariant messages == Messages(jobs + LargeJobs(larges[..sent]), 0)
    {
      var update := updates[i];
      LargeStep(updates, i, larges, sent);
      i := i + 1;
      if |update| <= FRAGMENT_BYTES {
        continue;
      }
      var burst := SendLarge(update, nextId);
      ghost var before, after := jobs + LargeJobs(larges[..sent]), jobs + LargeJobs(larges[..sent + 1]);
      assert after == before + [Large(update)];
      AddJob(before, [Large(update)], after, nextId, burst);
      messages, nextId := messages + burst, nextId + 1;
      sent := sent + 1;
    }
    assert larges[..sent] == larges;
  }

  lemma {:induction false} PrefixTotal(parts: seq<Bytes>, k: nat)
    requires k <= |parts|
    ensures TotalLength(parts[..k]) <= TotalLength(parts)
  {
    JoinConcat(parts[..k], parts[k..]);
    assert parts[..k] + parts[k..] == parts;
  }

  /** Copies the parts one after another into a zeroed buffer; stops, delivering nothing, at a hole or an overrun. */
  method CopyParts(parts: seq<Option<Bytes>>, totalSize: nat) returns (total: Option<Bytes>)
    ensures total == Assemble(parts, totalSize)
    ensures total.Some? <==> Present(parts) && TotalLength(Values(parts)) <= totalSize
    ensures total.Some? ==> |total.value| == totalSize && Join(Values(parts)) <= total.value
    ensures total.Some? ==> forall k :: TotalLength(Values(parts)) <= k < totalSize ==> total.value[k] == 0
  {
    var buffer := new byte[totalSize](_ => 0);
    var off, i := 0, 0;
    while i < |parts|
      invariant 0 <= i <= |parts| && off <= totalSize && Present(parts[..i])
      invariant off == TotalLength(Values(parts[..i]))
      invariant buffer[..off] == Join(Values(parts[..i]))
      invariant forall k :: off <= k < totalSize ==> buffer[k] == 0
    {
      if parts[i].None? {
        return None;
      }
      var part := parts[i].value;
      assert parts[..i + 1] == parts[..i] + [parts[i]];
      assert Values(parts[..i + 1]) == Values(parts[..i]) + [part];
      JoinSnoc(Values(parts[..i]), part);
      if off + |part| > totalSize {
        if Present(parts) {
          assert Values(parts)[..i + 1] == Values(parts[..i + 1]);
          PrefixTotal(Values(parts), i + 1);
        }
        return None;
      }
      CopyPart(buffer, off, part);
      off := off + |part|;
      i := i + 1;
    }
    assert parts[..i] == parts;
    JoinLength(Values(parts));
    assert buffer[..] == buffer[..off] + seq(totalSize - off, _ => 0);
    return Some(buffer[..]);
  }

  /** `total.set(part, off)`. */
  method CopyPart(buffer: array<byte>, off: nat, part: Bytes)
    requires off + |part| <= buffer.Length
    modifies buffer
    ensures buffer[..off + |part|] == old(buffer[..off]) + part
    ensures buffer[off + |part|..] == old(buffer[off + |part|..])
    ensures forall k :: off + |part| <= k < buffer.Length ==> buffer[k] == old(buffer[k])
  {
    forall k | 0 <= k < |part| {
      buffer[off + k] := part[k];
    }
    assert buffer[off..off + |part|] == part;
    assert buffer[..off + |part|] == buffer[..off] + buffer[off..off + |part|];
  }

  /** The slots with one more filled: as many as before or as it takes, holes in between. */
  function Filled(parts: seq<Option<Bytes>>, index: nat, fragment: Bytes): seq<Option<Bytes>> {
    seq(if index < |parts| then |parts| else index + 1,
        i => if i == index then Some(fragment) else if 0 <= i < |parts| then parts[i] else None)
  }

  lemma FilledIsSet(parts: seq<Option<Bytes>>, index: nat, fragment: Bytes)
    ensures Filled(parts, index, fragment) == SetPart(parts, index, fragment)
  {
  }

  /** The reassembly state of one socket; `delivered` is what has reached the apply path. */
  class Reassembler {
    var batches: map<nat, Batch>
    var delivered: seq<Bytes>

    ghost function State(): Receiver
      reads this
    {
      Receiver(batches, delivered)
    }

    constructor ()
      ensures State() == IDLE
    {
      batches, delivered := map[], [];
    }

    method HandleFragmentHeader(batchId: nat, fragmentCount: nat, totalSizeBytes: nat)
      modifies this
      ensures State() == OnHeader(old(State()), batchId, fragmentCount, totalSizeBytes)
      ensures delivered == old(delivered)
      ensures totalSizeBytes > 32 * 1024 * 1024 || fragmentCount > 4096 ==> batches == old(batches)
      ensures totalSizeBytes <= 32 * 1024 * 1024 && fragmentCount <= 4096 ==>
                batches == old(batches)[batchId := Batch(seq(fragmentCount, _ => Some([])), 0, totalSizeBytes)]
    {
      if totalSizeBytes > MAX_REASSEMBLED_BYTES || fragmentCount > MAX_FRAGMENT_COUNT {
        return;
      }
      batches := batches[batchId := Batch(seq(fragmentCount, _ => Some([])), 0, totalSizeBytes)];
    }

    /** A fragment of an open batch fills its slot, past the end leaving holes; the last to come closes the batch. */
    method HandleFragment(batchId: nat, index: nat, fragment: Bytes)
      modifies this
      ensures State() == OnFragment(old(State()), batchId, index, fragment)
      ensures batchId !in old(batches) ==> State() == old(State())
      ensures batchId in old(batches) ==>
                var b := old(batches)[batchId];
                var parts := Filled(b.parts, index, fragment);
                && (batchId in batches <==> b.received + 1 < |parts|)
                && (batchId in batches ==> batches[batchId] == Batch(parts, b.received + 1, b.totalSize))
                && (batchId in batches ==> delivered == old(delivered))
                && (batchId !in batches ==>
                      if Present(parts) && TotalLength(Values(parts)) <= b.totalSize
                      then exists total :: delivered == old(delivered) + [total] && Join(Values(parts)) <= total
                                           && |total| == b.totalSize
                      else delivered == old(delivered))
      ensures forall id :: id != batchId ==>
                (id in batches <==> id in old(batches)) && (id in batches ==> batches[id] == old(batches)[id])
    {
      if batchId !in batches {
        return;
      }
      var batch := batches[batchId];
      FilledIsSet(batch.parts, index, fragment);
      batch := batch.(parts := SetPart(batch.parts, index, fragment), received := batch.received + 1);
      batches := batches[batchId := batch];
      if batch.received < |batch.parts| {
        return;
      }
      batches := batches - {batchId};
      assert batches == old(batches) - {batchId};
      var total := CopyParts(batch.parts, batch.totalSize);
      if total.Some? {
        delivered := delivered + [total.value];
      }
    }

    method HandleMessage(m: Message)
      modifies this
      ensures State() == OnMessage(old(State()), m)
    {
      match m
      case DocUpdate(_, updates) => delivered := delivered + updates;
      case FragmentHeader(id, count, totalSize) => HandleFragmentHeader(id, count, totalSize);
      case Fragment(id, index, fragment) => HandleFragment(id, index, fragment);
    }
  }
}
