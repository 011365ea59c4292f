/** The virtio block driver of drivers/virtio/virtio_blk.c and its device, sharing one
    split virtqueue (section 2.6 of VIRTIO 1.1). Any number of readers, the interrupt
    handler and the device take atomic steps in any order. */
module VirtioBlk {
  import opened Common
  import opened Counting

  const RING: nat := 32       // VIRTQ_NUM
  const SLOTS: nat := 8       // BLK_REQ_MAX

  /** The 16-bit value of a counter. */
  function U16(n: nat): nat { n % 0x1_0000 }

  /** The ring entry a 16-bit index selects; 32 divides 2^16, so wrapping is harmless. */
  function RingPos(n: nat): (i: nat) ensures i < RING { n % 32 }

  lemma RingPosWraps(n: nat)
    ensures RingPos(U16(n)) == RingPos(n) && U16(U16(n) + 1) == U16(n + 1)
  {}

  /** Counters less than 32 apart select different entries and have different values. */
  lemma RingPosApart(a: nat, b: nat)
    requires a < b < a + 32
    ensures RingPos(a) != RingPos(b) && U16(a) != U16(b)
  {}

  /** What a descriptor points at: the request of a slot, a reader's buffer, the status
      byte of a slot. */
  datatype Address = Nowhere | ReqOf(slot: nat) | Buffer(buf: nat) | StatusOf(slot: nat)

  datatype Desc = Desc(addr: Address, len: nat, more: bool, write: bool, next: nat)

  datatype BlkSlot = BlkSlot(sector: nat, status: nat, inUse: bool, done: bool)

  /** A request the device has taken from the ring, as it read it. */
  datatype InFlight = InFlight(head: nat, sector: nat, buf: nat, statusSlot: nat)

  /** Where a caller of blk_read is. */
  datatype Reader = Idle | Acquired(slot: nat, sector: nat, buf: nat) | Filled(slot: nat, sector: nat, buf: nat)
                  | Waiting(slot: nat, sector: nat, buf: nat)

  type Sector = seq<bv8>

  /** blk_head_for_slot */
  function Head(slot: nat): nat { 3 * slot }

  /** The three descriptors of a slot ask for one sector into this buffer. */
  predicate ChainOk(desc: seq<Desc>, s: nat, buf: nat)
    requires |desc| == RING && s < SLOTS
  {
    && desc[Head(s)] == Desc(ReqOf(s), 16, true, false, Head(s) + 1)
    && desc[Head(s) + 1] == Desc(Buffer(buf), 512, true, true, Head(s) + 2)
    && desc[Head(s) + 2] == Desc(StatusOf(s), 1, false, true, 0)
  }

  ghost predicate Distinct(s: seq<nat>) {
    forall i, j | 0 <= i < j < |s| :: s[i] != s[j]
  }

  /** Where the one token of a slot's request is: nowhere, in the available ring, in the
      device, or in the used ring. */
  datatype Place = Away | Avail | Working | Used

  /** Driver, device and readers together. The last five fields are bookkeeping: where
      each token is, in which order, how many completions were ever harvested, and which
      reader holds a slot. */
  datatype State = State(
    desc: seq<Desc>, availIdx: nat, availRing: seq<nat>, usedRingIdx: nat, usedRing: seq<nat>, usedIdx: nat,
    slots: seq<BlkSlot>, devAvail: nat, held: seq<InFlight>, bufs: seq<Sector>, readers: seq<Reader>,
    place: seq<Place>, pending: seq<nat>, working: seq<nat>, completed: seq<nat>, harvested: nat, owner: seq<nat>)

  /** Queue q holds exactly the slots whose token is at p, each once. */
  ghost predicate QueueOk(q: seq<nat>, place: seq<Place>, p: Place) {
    && |place| == SLOTS && Distinct(q)
    && (forall i | 0 <= i < |q| :: q[i] < SLOTS && place[q[i]] == p)
    && (forall s | 0 <= s < SLOTS && place[s] == p :: s in q)
  }

  lemma FewTokens(q: seq<nat>, place: seq<Place>, p: Place)
    requires QueueOk(q, place, p)
    ensures |q| <= SLOTS
  {
    DistinctSize(q, UpTo(SLOTS));
  }

  /** Ring entries from counter n on name the slots of q, in order. */
  ghost predicate Ringed(ring: seq<nat>, n: nat, q: seq<nat>) {
    |ring| == RING && forall k | 0 <= k < |q| :: ring[RingPos(n + k)] == Head(q[k])
  }

  ghost predicate RingsOk(b: State) {
    var taken := b.harvested + |b.completed| + |b.working|;
    && b.usedIdx == U16(b.harvested) && b.usedRingIdx == U16(b.harvested + |b.completed|)
    && b.devAvail == U16(taken) && b.availIdx == U16(taken + |b.pending|)
    && Ringed(b.availRing, taken, b.pending) && Ringed(b.usedRing, b.harvested, b.completed)
  }

  /** Each published request has exactly one token. */
  ghost predicate TokensOk(b: State) {
    QueueOk(b.pending, b.place, Avail) && QueueOk(b.working, b.place, Working) && QueueOk(b.completed, b.place, Used)
  }

  /** A reader that holds slot s, and how far the slot is; good says that the buffer
      holds the reader's sector. */
  ghost predicate OwnedOk(slot: BlkSlot, r: Reader, s: nat, desc: seq<Desc>, place: Place, good: bool)
    requires |desc| == RING && s < SLOTS
  {
    && r != Idle && r.slot == s
    && (r.Waiting? || r.Filled? ==> slot.sector == r.sector)
    && (if r.Waiting? then ChainOk(desc, s, r.buf) && (place == Away <==> slot.done) else place == Away && !slot.done)
    && if place == Used || slot.done then slot.status != 0xff && (slot.status == 0 ==> good) else slot.status == 0xff
  }

  ghost predicate Good(r: Reader, bufs: seq<Sector>, disk: nat -> Sector) {
    r != Idle && r.buf < |bufs| && bufs[r.buf] == disk(r.sector)
  }

  ghost predicate Sized(b: State) {
    |b.desc| == RING && |b.slots| == SLOTS && |b.place| == SLOTS && |b.owner| == SLOTS
  }

  ghost predicate SlotOk(b: State, s: nat, disk: nat -> Sector)
    requires Sized(b) && s < SLOTS
  {
    if b.slots[s].inUse then
      && b.owner[s] < |b.readers|
      && OwnedOk(b.slots[s], b.readers[b.owner[s]], s, b.desc, b.place[s], Good(b.readers[b.owner[s]], b.bufs, disk))
    else !b.slots[s].done && b.place[s] == Away
  }

  /** An active reader holds its slot and has a buffer of its own. */
  ghost predicate ReaderOk(b: State, r: nat)
    requires Sized(b) && r < |b.readers|
  {
    b.readers[r] != Idle ==>
      b.readers[r].slot < SLOTS && b.slots[b.readers[r].slot].inUse && b.owner[b.readers[r].slot] == r
      && b.readers[r].buf < |b.bufs|
  }

  ghost predicate BuffersApart(readers: seq<Reader>) {
    forall i, j | 0 <= i < |readers| && 0 <= j < |readers| && i != j && readers[i] != Idle && readers[j] != Idle ::
      readers[i].buf != readers[j].buf
  }

  /** The device works on what the reader of the slot asked for. */
  ghost predicate HeldOk(b: State)
    requires Sized(b)
  {
    && |b.held| == |b.working|
    && forall k | 0 <= k < |b.held| :: b.working[k] < SLOTS && b.owner[b.working[k]] < |b.readers| && WorksFor(b, k)
  }

  ghost predicate WorksFor(b: State, k: nat)
    requires Sized(b) && k < |b.held| && k < |b.working| && b.working[k] < SLOTS && b.owner[b.working[k]] < |b.readers|
  {
    var r := b.readers[b.owner[b.working[k]]];
    r != Idle && b.held[k] == InFlight(Head(b.working[k]), r.sector, r.buf, b.working[k])
  }

  ghost predicate Inv(b: State, disk: nat -> Sector) {
    && Sized(b) && RingsOk(b) && TokensOk(b) && HeldOk(b) && BuffersApart(b.readers)
    && (forall s | 0 <= s < SLOTS :: SlotOk(b, s, disk))
    && (forall r | 0 <= r < |b.readers| :: ReaderOk(b, r))
  }

  // ---------------------------------------------------------------------
  // Queues and rings under one change.

  lemma PopFront(q: seq<nat>, place: seq<Place>, p: Place, to: Place)
    requires QueueOk(q, place, p) && |q| > 0 && to != p
    ensures q[0] < SLOTS && QueueOk(q[1..], place[q[0] := to], p)
  {
    var place' := place[q[0] := to];
    forall s | 0 <= s < SLOTS && place'[s] == p ensures s in q[1..] {
      var i :| 0 <= i < |q| && q[i] == s;
      assert q[1..][i - 1] == s;
    }
  }

  lemma PushBack(q: seq<nat>, place: seq<Place>, p: Place, s: nat)
    requires QueueOk(q, place, p) && s < SLOTS && place[s] != p
    ensures QueueOk(q + [s], place[s := p], p)
  {}

  lemma PlaceElsewhere(q: seq<nat>, place: seq<Place>, p: Place, s: nat, to: Place)
    requires QueueOk(q, place, p) && s < SLOTS && place[s] != p && to != p
    ensures QueueOk(q, place[s := to], p)
  {}

  lemma Pluck(q: seq<nat>, place: seq<Place>, p: Place, k: nat, to: Place)
    requires QueueOk(q, place, p) && k < |q| && to != p
    ensures q[k] < SLOTS && QueueOk(Removed(q, k), place[q[k] := to], p)
  {
    var q' := Removed(q, k);
    var place' := place[q[k] := to];
    assert forall i | 0 <= i < |q'| :: q'[i] == q[if i < k then i else i + 1];
    forall s | 0 <= s < SLOTS && place'[s] == p ensures s in q' {
      var i :| 0 <= i < |q| && q[i] == s;
      assert q'[if i < k then i else i - 1] == s;
    }
  }

  lemma RingPop(ring: seq<nat>, n: nat, q: seq<nat>)
    requires Ringed(ring, n, q) && |q| > 0
    ensures Ringed(ring, n + 1, q[1..])
  {
    forall k | 0 <= k < |q| - 1 ensures ring[RingPos(n + 1 + k)] == Head(q[1..][k]) {
      assert q[1..][k] == q[k + 1] && n + 1 + k == n + (k + 1);
    }
  }

  /** A new entry goes where no entry still to be read is. */
  lemma RingPush(ring: seq<nat>, n: nat, q: seq<nat>, s: nat)
    requires Ringed(ring, n, q) && |q| <= SLOTS
    ensures Ringed(ring[RingPos(n + |q|) := Head(s)], n, q + [s])
  {
    forall k | 0 <= k < |q| + 1 ensures ring[RingPos(n + |q|) := Head(s)][RingPos(n + k)] == Head((q + [s])[k]) {
      if k < |q| { RingPosApart(n + k, n + |q|); }
    }
  }

  // ---------------------------------------------------------------------
  // The steps, as functions of the state.

  /** The oldest completion is read: its slot is done. */
  function Harvest(b: State): State
    requires |b.completed| > 0 && b.completed[0] < |b.slots| && b.completed[0] < |b.place|
  {
    var s := b.completed[0];
    b.(usedIdx := U16(b.usedIdx + 1), slots := b.slots[s := b.slots[s].(done := true)],
       harvested := b.harvested + 1, completed := b.completed[1..], place := b.place[s := Away])
  }

  /** Reader r takes free slot s. */
  function Acquire(b: State, r: nat, s: nat, sector: nat, buf: nat): State
    requires r < |b.readers| && s < |b.slots| && s < |b.owner|
  {
    b.(slots := b.slots[s := BlkSlot(b.slots[s].sector, 0xff, true, false)],
       readers := b.readers[r := Acquired(s, sector, buf)], owner := b.owner[s := r])
  }

  function Fill(b: State, r: nat): State
    requires r < |b.readers| && b.readers[r].Acquired? && b.readers[r].slot < |b.slots|
  {
    var me := b.readers[r];
    b.(slots := b.slots[me.slot := b.slots[me.slot].(sector := me.sector)],
       readers := b.readers[r := Filled(me.slot, me.sector, me.buf)])
  }

  /** The three descriptors of slot s. */
  function Chain(desc: seq<Desc>, s: nat, buf: nat): seq<Desc>
    requires |desc| == RING && s < SLOTS
  {
    desc[Head(s) := Desc(ReqOf(s), 16, true, false, Head(s) + 1)]
        [Head(s) + 1 := Desc(Buffer(buf), 512, true, true, Head(s) + 2)]
        [Head(s) + 2 := Desc(StatusOf(s), 1, false, true, 0)]
  }

  function Publish(b: State, r: nat): State
    requires |b.desc| == RING && |b.availRing| == RING && r < |b.readers| && b.readers[r].Filled?
             && b.readers[r].slot < SLOTS
    requires |b.place| == SLOTS
  {
    var me := b.readers[r];
    b.(desc := Chain(b.desc, me.slot, me.buf), availRing := b.availRing[RingPos(b.availIdx) := Head(me.slot)],
       availIdx := U16(b.availIdx + 1), readers := b.readers[r := Waiting(me.slot, me.sector, me.buf)],
       pending := b.pending + [me.slot], place := b.place[me.slot := Avail])
  }

  function Release(b: State, r: nat): State
    requires r < |b.readers| && b.readers[r].Waiting? && b.readers[r].slot < |b.slots|
  {
    var s := b.readers[r].slot;
    b.(slots := b.slots[s := b.slots[s].(done := false, inUse := false)], readers := b.readers[r := Idle])
  }

  /** The device takes the next available request. */
  function Consume(b: State, f: InFlight): State
    requires |b.pending| > 0 && b.pending[0] < |b.place|
  {
    b.(devAvail := U16(b.devAvail + 1), held := b.held + [f], pending := b.pending[1..],
       working := b.working + [b.pending[0]], place := b.place[b.pending[0] := Working])
  }

  /** The device answers its k-th request with this status and these bytes. */
  function Complete(b: State, k: nat, status: nat, data: Sector): State
    requires k < |b.held| && k < |b.working| && b.held[k].buf < |b.bufs| && b.held[k].statusSlot < |b.slots|
    requires |b.usedRing| == RING && b.working[k] < |b.place|
  {
    var f := b.held[k];
    b.(bufs := b.bufs[f.buf := data], slots := b.slots[f.statusSlot := b.slots[f.statusSlot].(status := status)],
       usedRing := b.usedRing[RingPos(b.usedRingIdx) := f.head], usedRingIdx := U16(b.usedRingIdx + 1),
       held := Removed(b.held, k), working := Removed(b.working, k),
       completed := b.completed + [b.working[k]], place := b.place[b.working[k] := Used])
  }

  // ---------------------------------------------------------------------
  // Every step keeps the invariant.

  /** The slot at the head of the used ring. */
  lemma FirstCompleted(b: State, disk: nat -> Sector)
    requires Inv(b, disk) && |b.completed| > 0
    ensures var s := b.completed[0];
            && s < SLOTS && b.slots[s].inUse && b.place[s] == Used
            && b.usedRing[RingPos(b.usedIdx)] == Head(s) && Head(s) % 3 == 0 && Head(s) / 3 == s
  {
    RingPosWraps(b.harvested);
    assert SlotOk(b, b.completed[0], disk);
    assert b.usedRing[RingPos(b.harvested + 0)] == Head(b.completed[0]);
  }

  lemma HarvestKeeps(b: State, disk: nat -> Sector)
    requires Inv(b, disk) && |b.completed| > 0
    ensures b.completed[0] < SLOTS && Inv(Harvest(b), disk)
  {
    FirstCompleted(b, disk);
    var b', s := Harvest(b), b.completed[0];
    RingPosWraps(b.harvested);
    RingPop(b.usedRing, b.harvested, b.completed);
    PopFront(b.completed, b.place, Used, Away);
    PlaceElsewhere(b.pending, b.place, Avail, s, Away);
    PlaceElsewhere(b.working, b.place, Working, s, Away);
    forall t | 0 <= t < SLOTS ensures SlotOk(b', t, disk) { assert SlotOk(b, t, disk); }
    forall r | 0 <= r < |b.readers| ensures ReaderOk(b', r) { assert ReaderOk(b, r); }
    forall k | 0 <= k < |b.held| ensures WorksFor(b', k) { assert WorksFor(b, k); }
  }

  lemma AcquireKeeps(b: State, r: nat, s: nat, sector: nat, buf: nat, disk: nat -> Sector)
    requires Inv(b, disk) && r < |b.readers| && b.readers[r] == Idle && s < SLOTS && !b.slots[s].inUse && buf < |b.bufs|
    requires forall i | 0 <= i < |b.readers| && b.readers[i] != Idle :: b.readers[i].buf != buf
    ensures Inv(Acquire(b, r, s, sector, buf), disk)
  {
    var b' := Acquire(b, r, s, sector, buf);
    assert SlotOk(b, s, disk);
    forall t | 0 <= t < SLOTS ensures SlotOk(b', t, disk) {
      assert SlotOk(b, t, disk);
      if t != s && b.slots[t].inUse { assert b.owner[t] != r; }
    }
    forall q | 0 <= q < |b.readers| ensures ReaderOk(b', q) { assert ReaderOk(b, q); }
    forall k | 0 <= k < |b.held| ensures b'.owner[b.working[k]] < |b.readers| && WorksFor(b', k) {
      assert WorksFor(b, k) && b.place[b.working[k]] == Working;
    }
  }

  lemma FillKeeps(b: State, r: nat, disk: nat -> Sector)
    requires Inv(b, disk) && r < |b.readers| && b.readers[r].Acquired?
    ensures b.readers[r].slot < SLOTS && Inv(Fill(b, r), disk)
  {
    assert ReaderOk(b, r);
    var b' := Fill(b, r);
    var s := b.readers[r].slot;
    assert SlotOk(b, s, disk);
    forall t | 0 <= t < SLOTS ensures SlotOk(b', t, disk) {
      assert SlotOk(b, t, disk);
    }
    forall q | 0 <= q < |b.readers| ensures ReaderOk(b', q) { assert ReaderOk(b, q); }
    forall k | 0 <= k < |b.held| ensures WorksFor(b', k) {
      assert WorksFor(b, k) && b.place[b.working[k]] == Working;
    }
  }

  lemma PublishTokens(b: State, r: nat)
    requires Sized(b) && RingsOk(b) && TokensOk(b) && r < |b.readers| && b.readers[r].Filled?
    requires b.readers[r].slot < SLOTS && b.place[b.readers[r].slot] == Away
    ensures |b.availRing| == RING && RingsOk(Publish(b, r)) && TokensOk(Publish(b, r))
  {
    var s := b.readers[r].slot;
    var taken := b.harvested + |b.completed| + |b.working|;
    FewTokens(b.pending, b.place, Avail);
    RingPosWraps(taken + |b.pending|);
    RingPush(b.availRing, taken, b.pending, s);
    PushBack(b.pending, b.place, Avail, s);
    PlaceElsewhere(b.working, b.place, Working, s, Avail);
    PlaceElsewhere(b.completed, b.place, Used, s, Avail);
  }

  lemma PublishKeeps(b: State, r: nat, disk: nat -> Sector)
    requires Inv(b, disk) && r < |b.readers| && b.readers[r].Filled?
    ensures b.readers[r].slot < SLOTS && Inv(Publish(b, r), disk)
  {
    hide RingsOk, Ringed, Distinct;
    assert ReaderOk(b, r);
    var s := b.readers[r].slot;
    assert SlotOk(b, s, disk);
    PublishTokens(b, r);
    var b' := Publish(b, r);
    forall t | 0 <= t < SLOTS ensures SlotOk(b', t, disk) {
      assert SlotOk(b, t, disk);
      if t != s && b.slots[t].inUse { assert b.owner[t] != r; }
    }
    forall q | 0 <= q < |b.readers| ensures ReaderOk(b', q) { assert ReaderOk(b, q); }
    forall k | 0 <= k < |b.held| ensures WorksFor(b', k) {
      assert WorksFor(b, k) && b.place[b.working[k]] == Working;
    }
  }

  /** When blk_read sees its slot done, status 0 means that its buffer holds its sector. */
  lemma ReleaseKeeps(b: State, r: nat, disk: nat -> Sector)
    requires Inv(b, disk) && r < |b.readers| && b.readers[r].Waiting?
    ensures b.readers[r].slot < SLOTS && b.readers[r].buf < |b.bufs|
    ensures b.slots[b.readers[r].slot].done ==> Inv(Release(b, r), disk)
    ensures b.slots[b.readers[r].slot].done && b.slots[b.readers[r].slot].status == 0 ==>
              b.bufs[b.readers[r].buf] == disk(b.readers[r].sector)
  {
    assert ReaderOk(b, r);
    var s := b.readers[r].slot;
    assert SlotOk(b, s, disk);
    if b.slots[s].done {
      var b' := Release(b, r);
      assert b.owner[s] == r && b.place[s] == Away;
      forall t | 0 <= t < SLOTS ensures SlotOk(b', t, disk) {
        assert SlotOk(b, t, disk);
        if t != s && b.slots[t].inUse { assert b.owner[t] != r; }
      }
      forall q | 0 <= q < |b.readers| ensures ReaderOk(b', q) { assert ReaderOk(b, q); }
      forall k | 0 <= k < |b.held| ensures WorksFor(b', k) {
        assert WorksFor(b, k) && b.place[b.working[k]] == Working && SlotOk(b, b.working[k], disk);
      }
    }
  }

  /** What the device reads from the ring is a whole request of the reader of that slot. */
  lemma FirstPending(b: State, disk: nat -> Sector)
    requires Inv(b, disk) && |b.pending| > 0
    ensures var s := b.pending[0];
            && s < SLOTS && b.slots[s].inUse && b.owner[s] < |b.readers| && b.place[s] == Avail
            && b.availRing[RingPos(b.devAvail)] == Head(s)
            && var r := b.readers[b.owner[s]]; r.Waiting? && ChainOk(b.desc, s, r.buf) && b.slots[s].sector == r.sector
  {
    var taken := b.harvested + |b.completed| + |b.working|;
    RingPosWraps(taken);
    assert SlotOk(b, b.pending[0], disk);
    assert b.availRing[RingPos(taken + 0)] == Head(b.pending[0]);
  }

  lemma ConsumeTokens(b: State, f: InFlight)
    requires Sized(b) && RingsOk(b) && TokensOk(b) && |b.pending| > 0
    ensures RingsOk(Consume(b, f)) && TokensOk(Consume(b, f))
  {
    var s := b.pending[0];
    var taken := b.harvested + |b.completed| + |b.working|;
    RingPosWraps(taken);
    RingPop(b.availRing, taken, b.pending);
    PopFront(b.pending, b.place, Avail, Working);
    PushBack(b.working, b.place, Working, s);
    PlaceElsewhere(b.completed, b.place, Used, s, Working);
  }

  lemma ConsumeKeeps(b: State, f: InFlight, disk: nat -> Sector)
    requires Inv(b, disk) && |b.pending| > 0 && b.pending[0] < SLOTS && b.owner[b.pending[0]] < |b.readers|
    requires b.readers[b.owner[b.pending[0]]] != Idle
    requires f == InFlight(Head(b.pending[0]), b.readers[b.owner[b.pending[0]]].sector,
                           b.readers[b.owner[b.pending[0]]].buf, b.pending[0])
    ensures Inv(Consume(b, f), disk)
  {
    hide RingsOk, Ringed, Distinct;
    FirstPending(b, disk);
    var b', s := Consume(b, f), b.pending[0];
    ConsumeTokens(b, f);
    forall t | 0 <= t < SLOTS ensures SlotOk(b', t, disk) { assert SlotOk(b, t, disk); }
    forall q | 0 <= q < |b.readers| ensures ReaderOk(b', q) { assert ReaderOk(b, q); }
    forall k | 0 <= k < |b'.held|
      ensures b'.working[k] < SLOTS && b'.owner[b'.working[k]] < |b.readers| && WorksFor(b', k)
    {
      if k < |b.held| { assert WorksFor(b, k); }
    }
  }

  /** A published request has exactly one token, and none once its slot is done; so no
      completion can reach another slot or a later request. */
  lemma ExactlyOneToken(b: State, r: nat, disk: nat -> Sector)
    requires Inv(b, disk) && r < |b.readers| && b.readers[r].Waiting?
    ensures var s := b.readers[r].slot;
            && s < SLOTS && b.owner[s] == r
            && !(s in b.pending && s in b.working) && !(s in b.pending && s in b.completed)
            && !(s in b.working && s in b.completed)
            && (s in b.pending || s in b.working || s in b.completed <==> !b.slots[s].done)
  {
    assert ReaderOk(b, r);
    assert SlotOk(b, b.readers[r].slot, disk);
  }

  lemma WorkingFacts(b: State, k: nat, disk: nat -> Sector)
    requires Inv(b, disk) && k < |b.held|
    ensures k < |b.working| && b.working[k] < SLOTS && b.place[b.working[k]] == Working
    ensures var s := b.working[k];
            && b.held[k].statusSlot == s && b.held[k].head == Head(s) && b.held[k].buf < |b.bufs|
            && b.slots[s].inUse && b.owner[s] < |b.readers| && b.readers[b.owner[s]].Waiting?
            && b.held[k].buf == b.readers[b.owner[s]].buf && b.held[k].sector == b.readers[b.owner[s]].sector
  {
    var s := b.working[k];
    assert WorksFor(b, k);
    assert SlotOk(b, s, disk);
    assert ReaderOk(b, b.owner[s]);
  }

  lemma CompleteTokens(b: State, k: nat, status: nat, data: Sector, disk: nat -> Sector)
    requires Inv(b, disk) && k < |b.held| && k < |b.working| && b.working[k] < SLOTS
    requires b.held[k].buf < |b.bufs| && b.held[k].statusSlot < SLOTS
    ensures RingsOk(Complete(b, k, status, data)) && TokensOk(Complete(b, k, status, data))
  {
    hide QueueOk;
    var s := b.working[k];
    WorkingFacts(b, k, disk);
    FewTokens(b.completed, b.place, Used);
    RingPosWraps(b.harvested + |b.completed|);
    RingPush(b.usedRing, b.harvested, b.completed, s);
    Pluck(b.working, b.place, Working, k, Used);
    PushBack(b.completed, b.place, Used, s);
    PlaceElsewhere(b.pending, b.place, Avail, s, Used);
  }

  lemma CompleteHeld(b: State, k: nat, status: nat, data: Sector)
    requires Sized(b) && HeldOk(b) && k < |b.held| && |b.usedRing| == RING
    requires b.held[k].buf < |b.bufs| && b.held[k].statusSlot < SLOTS
    ensures b.working[k] < SLOTS && HeldOk(Complete(b, k, status, data))
  {
    var b' := Complete(b, k, status, data);
    forall j | 0 <= j < |b'.held|
      ensures b'.working[j] < SLOTS && b'.owner[b'.working[j]] < |b.readers| && WorksFor(b', j)
    {
      var i := if j < k then j else j + 1;
      assert b'.held[j] == b.held[i] && b'.working[j] == b.working[i] && WorksFor(b, i);
    }
  }

  lemma CompleteKeeps(b: State, k: nat, status: nat, data: Sector, disk: nat -> Sector)
    requires Inv(b, disk) && k < |b.held| && status != 0xff && (status == 0 ==> data == disk(b.held[k].sector))
    ensures k < |b.working| && b.held[k].buf < |b.bufs| && b.held[k].statusSlot < SLOTS && b.working[k] < SLOTS
    ensures Inv(Complete(b, k, status, data), disk)
  {
    hide RingsOk, TokensOk, HeldOk, SlotOk;
    WorkingFacts(b, k, disk);
    RingSize(b);
    var b' := Complete(b, k, status, data);
    CompleteTokens(b, k, status, data, disk);
    CompleteHeld(b, k, status, data);
    forall t | 0 <= t < SLOTS ensures SlotOk(b', t, disk) { CompleteSlot(b, b', k, status, data, disk, t); }
    forall q | 0 <= q < |b.readers| ensures ReaderOk(b', q) { assert ReaderOk(b, q); }
  }

  lemma RingSize(b: State)
    requires RingsOk(b)
    ensures |b.usedRing| == RING
  {}

  lemma CompleteSlot(b: State, b': State, k: nat, status: nat, data: Sector, disk: nat -> Sector, t: nat)
    requires Inv(b, disk) && k < |b.held| && t < SLOTS
    requires status != 0xff && (status == 0 ==> data == disk(b.held[k].sector))
    requires k < |b.working| && b.held[k].buf < |b.bufs| && b.held[k].statusSlot < SLOTS && b.working[k] < SLOTS
    requires b' == Complete(b, k, status, data)
    ensures SlotOk(b', t, disk)
  {
    WorkingFacts(b, k, disk);
    assert SlotOk(b, t, disk);
    if t != b.working[k] && b.slots[t].inUse {
      assert SlotOk(b, b.working[k], disk);
      assert b.owner[t] != b.owner[b.working[k]];
    }
  }

  // ---------------------------------------------------------------------
  // The driver and the device.

  class Blk {
    const disk: nat -> Sector
    var desc: seq<Desc>
    var availIdx: nat
    var availRing: seq<nat>
    var usedRingIdx: nat            // used.idx
    var usedRing: seq<nat>
    var usedIdx: nat                // used_idx: how far the driver has read
    var slots: seq<BlkSlot>
    var devAvail: nat               // how far the device has read
    var held: seq<InFlight>         // what the device is working on
    var bufs: seq<Sector>
    var readers: seq<Reader>
    ghost var place: seq<Place>
    ghost var pending: seq<nat>
    ghost var working: seq<nat>
    ghost var completed: seq<nat>
    ghost var harvested: nat
    ghost var owner: seq<nat>

    ghost function Now(): State
      reads this
    {
      State(desc, availIdx, availRing, usedRingIdx, usedRing, usedIdx, slots, devAvail, held, bufs, readers,
            place, pending, working, completed, harvested, owner)
    }

    ghost predicate Valid()
      reads this
    {
      Inv(Now(), disk)
    }

    /** blk_init: empty rings and free slots; n readers may come. */
    constructor (disk: nat -> Sector, n: nat, buffers: seq<Sector>)
      ensures Valid() && this.disk == disk && bufs == buffers && readers == seq(n, _ => Idle)
    {
      this.disk := disk;
      desc := seq(RING, _ => Desc(Nowhere, 0, false, false, 0));
      availIdx, usedRingIdx, usedIdx, devAvail := 0, 0, 0, 0;
      availRing, usedRing := seq(RING, _ => 0), seq(RING, _ => 0);
      slots := seq(SLOTS, _ => BlkSlot(0, 0, false, false));
      held, bufs := [], buffers;
      readers := seq(n, _ => Idle);
      harvested := 0;
      pending, working, completed := [], [], [];
      place := seq(SLOTS, _ => Away);
      owner := seq(SLOTS, _ => 0);
    }

    /** blk_process_used_locked: every slot the device has answered becomes done. By the
        invariant no entry is ever skipped by its checks. */
    method ProcessUsed()
      requires Valid()
      modifies this`usedIdx, this`slots, this`harvested, this`completed, this`place
      ensures Valid() && usedIdx == usedRingIdx && completed == []
      ensures |slots| == |old(slots)| && forall s | 0 <= s < |slots| ::
                slots[s] == if s in old(completed) then old(slots)[s].(done := true) else old(slots)[s]
    {
      hide Inv;
      IndexTellsEmpty();
      while usedIdx != usedRingIdx
        invariant Valid() && (usedIdx == usedRingIdx <==> completed == [])
        invariant |slots| == |old(slots)|
        invariant forall s | 0 <= s < |slots| && s in completed :: slots[s] == old(slots)[s] && s in old(completed)
        invariant forall s | 0 <= s < |slots| && s !in completed ::
                    slots[s] == if s in old(completed) then old(slots)[s].(done := true) else old(slots)[s]
        decreases |completed|
      {
        FirstNotAgain();
        HarvestOne();
        IndexTellsEmpty();
      }
    }

    /** What the head of the used ring is, and that harvesting it keeps the invariant. */
    lemma OldestCompletion()
      requires Valid() && usedIdx != usedRingIdx
      ensures |slots| == SLOTS && |usedRing| == RING && |place| == SLOTS && completed != [] && completed[0] < SLOTS
      ensures slots[completed[0]].inUse && usedRing[RingPos(usedIdx)] == Head(completed[0])
      ensures Inv(Harvest(Now()), disk)
    {
      hide Inv;
      IndexTellsEmpty();
      FirstCompleted(Now(), disk);
      HarvestKeeps(Now(), disk);
    }

    /** One entry of the used ring. */
    method HarvestOne()
      requires Valid() && usedIdx != usedRingIdx
      modifies this`usedIdx, this`slots, this`harvested, this`completed, this`place
      ensures Valid() && |slots| == |old(slots)|
      ensures old(completed) != [] && completed == old(completed)[1..] && old(completed)[0] < |slots|
      ensures slots == old(slots)[old(completed)[0] := old(slots)[old(completed)[0]].(done := true)]
    {
      hide Inv;
      OldestCompletion();
      var head := usedRing[RingPos(usedIdx)];
      ghost var b := Harvest(Now());
      usedIdx := U16(usedIdx + 1);
      harvested, completed, place := b.harvested, b.completed, b.place;
      if head % 3 != 0 {
        assert false;
      }
      var slot := head / 3;
      if slot >= SLOTS {
        assert false;
      }
      if !slots[slot].inUse {
        assert false;
      }
      slots := slots[slot := slots[slot].(done := true)];
      assert Now() == b;
    }

    lemma IndexTellsEmpty()
      requires Valid()
      ensures |slots| == SLOTS && |usedRing| == RING && |place| == SLOTS
      ensures usedIdx == usedRingIdx <==> completed == []
    {
      FewTokens(completed, place, Used);
      if completed != [] { RingPosApart(harvested, harvested + |completed|); }
    }

    lemma FirstNotAgain()
      requires Valid() && completed != []
      ensures completed[0] !in completed[1..] && forall s ::
                s in completed <==> s == completed[0] || s in completed[1..]
    {}

    /** blk_read, until it has a slot; false when it has to sleep and try again. */
    method TryAcquire(r: nat, sector: nat, buf: nat) returns (ok: bool)
      requires Valid() && r < |readers| && readers[r] == Idle && buf < |bufs|
      requires forall i | 0 <= i < |readers| && readers[i] != Idle :: readers[i].buf != buf
      modifies this`usedIdx, this`slots, this`harvested, this`completed, this`place, this`readers, this`owner
      ensures Valid()
      ensures ok <==> exists s :: 0 <= s < |old(slots)| && !old(slots)[s].inUse
      ensures |readers| == |old(readers)|
      ensures if ok then readers == old(readers)[r := readers[r]] && readers[r].Acquired? && readers[r].sector == sector
                         && readers[r].buf == buf && readers[r].slot < |old(slots)|
                         && !old(slots)[readers[r].slot].inUse
              else readers == old(readers)
    {
      hide Inv;
      ProcessUsed();
      IndexTellsEmpty();
      var i := 0;
      while i < SLOTS
        invariant 0 <= i <= SLOTS && Valid() && |slots| == SLOTS && readers == old(readers)
        invariant forall s | 0 <= s < SLOTS :: slots[s].inUse == old(slots)[s].inUse
        invariant forall s | 0 <= s < i :: slots[s].inUse
      {
        if !slots[i].inUse {
          AcquireKeeps(Now(), r, i, sector, buf, disk);
          OwnerSize();
          ghost var b := Now();
          slots := slots[i := BlkSlot(slots[i].sector, 0xff, true, false)];
          readers := readers[r := Acquired(i, sector, buf)];
          owner := owner[i := r];
          assert Now() == Acquire(b, r, i, sector, buf);
          return true;
        }
        i := i + 1;
      }
      return false;
    }

    lemma OwnerSize()
      requires Valid()
      ensures |owner| == SLOTS && |slots| == SLOTS && |desc| == RING && |place| == SLOTS && |availRing| == RING
              && |usedRing| == RING
    {}

    /** blk_read fills in its slot's request, outside the lock. */
    method FillRequest(r: nat)
      requires Valid() && r < |readers| && readers[r].Acquired?
      modifies this`slots, this`readers
      ensures Valid()
      ensures readers == old(readers)[r := Filled(old(readers)[r].slot, old(readers)[r].sector, old(readers)[r].buf)]
    {
      hide Inv;
      FillKeeps(Now(), r, disk);
      OwnerSize();
      ghost var b := Now();
      var me := readers[r];
      slots := slots[me.slot := slots[me.slot].(sector := me.sector)];
      readers := readers[r := Filled(me.slot, me.sector, me.buf)];
      assert Now() == Fill(b, r);
    }

    /** blk_read builds the descriptor chain and publishes it. The ring entry it writes
        holds no request the device has yet to read. */
    method PublishRequest(r: nat)
      requires Valid() && r < |readers| && readers[r].Filled?
      modifies this`desc, this`availRing, this`availIdx, this`readers, this`pending, this`place
      ensures Valid() && pending == old(pending) + [old(readers)[r].slot]
      ensures readers == old(readers)[r := Waiting(old(readers)[r].slot, old(readers)[r].sector, old(readers)[r].buf)]
    {
      hide Inv;
      PublishKeeps(Now(), r, disk);
      OwnerSize();
      ghost var b := Now();
      var me := readers[r];
      var head := Head(me.slot);
      desc := desc[head := Desc(ReqOf(me.slot), 16, true, false, head + 1)];
      desc := desc[head + 1 := Desc(Buffer(me.buf), 512, true, true, head + 2)];
      desc := desc[head + 2 := Desc(StatusOf(me.slot), 1, false, true, 0)];
      availRing := availRing[RingPos(availIdx) := head];
      availIdx := U16(availIdx + 1);
      readers := readers[r := Waiting(me.slot, me.sector, me.buf)];
      pending, place := pending + [me.slot], place[me.slot := Avail];
      assert Now() == Publish(b, r);
    }

    /** One round of the waiting loop of blk_read: it returns as soon as the device has
        answered this very request, and 0 only with its own sector in its buffer. */
    method Poll(r: nat) returns (finished: bool, rc: int)
      requires Valid() && r < |readers| && readers[r].Waiting?
      modifies this`usedIdx, this`slots, this`harvested, this`completed, this`place, this`readers
      ensures Valid() && |old(slots)| == SLOTS && old(readers)[r].slot < SLOTS && old(readers)[r].buf < |bufs|
      ensures finished <==> old(readers)[r].slot in old(completed) || old(slots)[old(readers)[r].slot].done
      ensures finished ==> readers == old(readers)[r := Idle] && !slots[old(readers)[r].slot].inUse
      ensures finished ==> rc == if old(slots)[old(readers)[r].slot].status == 0 then 0 else -1
      ensures finished && rc == 0 ==> bufs[old(readers)[r].buf] == disk(old(readers)[r].sector)
      ensures !finished ==> readers == old(readers)
    {
      hide Inv;
      OwnerSize();
      ReleaseKeeps(Now(), r, disk);
      ProcessUsed();
      OwnerSize();
      ReleaseKeeps(Now(), r, disk);
      finished, rc := false, 0;
      var s := readers[r].slot;
      if slots[s].done {
        ghost var b := Now();
        rc := if slots[s].status == 0 then 0 else -1;
        slots := slots[s := slots[s].(done := false)];
        slots := slots[s := slots[s].(inUse := false)];
        readers := readers[r := Idle];
        finished := true;
        assert Now() == Release(b, r);
      }
    }

    /** blk_handle_irq; interrupt says whether the device raised one. */
    method HandleIrq(interrupt: bool)
      requires Valid()
      modifies this`usedIdx, this`slots, this`harvested, this`completed, this`place
      ensures Valid() && (interrupt ==> completed == []) && (!interrupt ==> Now() == old(Now()))
    {
      hide Inv;
      if !interrupt {
        return;
      }
      ProcessUsed();
    }

    /** The device takes the next request from the available ring and reads its chain. */
    method DeviceTake() returns (took: bool)
      requires Valid()
      modifies this`devAvail, this`held, this`pending, this`working, this`place
      ensures Valid() && (took <==> old(pending) != [])
      ensures took ==> pending == old(pending)[1..] && working == old(working) + [old(pending)[0]]
      ensures !took ==> Now() == old(Now())
    {
      hide Inv;
      AvailTellsEmpty();
      if devAvail == availIdx {
        return false;
      }
      FirstPending(Now(), disk);
      OwnerSize();
      var head := availRing[RingPos(devAvail)];
      var d0 := desc[head];
      var d1 := desc[d0.next];
      var d2 := desc[d1.next];
      var f := InFlight(head, slots[d0.addr.slot].sector, d1.addr.buf, d2.addr.slot);
      ConsumeKeeps(Now(), f, disk);
      ghost var b := Now();
      devAvail := U16(devAvail + 1);
      held := held + [f];
      ghost var s := pending[0];
      pending, working, place := pending[1..], working + [s], place[s := Working];
      assert Now() == Consume(b, f);
      took := true;
    }

    lemma AvailTellsEmpty()
      requires Valid()
      ensures devAvail == availIdx <==> pending == []
    {
      FewTokens(pending, place, Avail);
      var taken := harvested + |completed| + |working|;
      if pending != [] { RingPosApart(taken, taken + |pending|); }
    }

    /** The device answers any request it works on, in any order: with status 0 and the
        sector, or with an error and any bytes. */
    method DeviceAnswer(k: nat, error: nat, junk: Sector)
      requires Valid() && k < |held| && error < 0xff
      modifies this`bufs, this`slots, this`usedRing, this`usedRingIdx, this`held, this`working, this`completed
      modifies this`place
      ensures Valid() && |old(working)| == |old(held)|
      ensures completed == old(completed) + [old(working)[k]] && held == Removed(old(held), k)
      ensures var f := old(held)[k];
              && f.buf < |old(bufs)| && bufs == old(bufs)[f.buf := if error == 0 then disk(f.sector) else junk]
              && f.statusSlot < |old(slots)|
              && slots == old(slots)[f.statusSlot := old(slots)[f.statusSlot].(status := error)]
    {
      hide Inv, Removed, U16, RingPos;
      var f := held[k];
      var data := if error == 0 then disk(f.sector) else junk;
      ghost var b := AnswerFits(k, error, data);
      WriteAnswer(f, error, data);
      Finish(k, b);
    }

    /** What the device writes to memory: the sector, the status, the used ring. */
    method WriteAnswer(f: InFlight, status: nat, data: Sector)
      requires f.buf < |bufs| && f.statusSlot < |slots| && |usedRing| == RING
      modifies this`bufs, this`slots, this`usedRing, this`usedRingIdx
      ensures Now() == old(Now()).(bufs := old(bufs)[f.buf := data],
                                   slots := old(slots)[f.statusSlot := old(slots)[f.statusSlot].(status := status)],
                                   usedRing := old(usedRing)[RingPos(old(usedRingIdx)) := f.head],
                                   usedRingIdx := U16(old(usedRingIdx) + 1))
    {
      hide U16, RingPos;
      bufs := bufs[f.buf := data];
      slots := slots[f.statusSlot := slots[f.statusSlot].(status := status)];
      usedRing := usedRing[RingPos(usedRingIdx) := f.head];
      usedRingIdx := U16(usedRingIdx + 1);
    }

    /** The request leaves the device's own queue. */
    method Finish(k: nat, ghost b: State)
      requires k < |held|
      requires b == Now().(held := Removed(held, k), working := b.working, completed := b.completed, place := b.place)
      modifies this`held, this`working, this`completed, this`place
      ensures Now() == b
    {
      hide Removed;
      held := Removed(held, k);
      working, completed, place := b.working, b.completed, b.place;
    }

    lemma AnswerFits(k: nat, status: nat, data: Sector) returns (b: State)
      requires Valid() && k < |held| && status != 0xff && (status == 0 ==> data == disk(held[k].sector))
      ensures |held| == |working| && held[k].buf < |bufs| && held[k].statusSlot < |slots| && |usedRing| == RING
      ensures b == Now().(bufs := bufs[held[k].buf := data],
                          slots := slots[held[k].statusSlot := slots[held[k].statusSlot].(status := status)],
                          usedRing := usedRing[RingPos(usedRingIdx) := held[k].head],
                          usedRingIdx := U16(usedRingIdx + 1),
                          held := Removed(held, k), working := b.working, completed := b.completed, place := b.place)
      ensures b.completed == completed + [working[k]] && Inv(b, disk)
    {
      WorkingFacts(Now(), k, disk);
      CompleteKeeps(Now(), k, status, data, disk);
      b := Complete(Now(), k, status, data);
    }
  }

  /** What one party does next. */
  datatype Step = Begin(r: nat, sector: nat, buf: nat) | Prepare(r: nat) | Submit(r: nat) | Look(r: nat)
                | Interrupt(raised: bool) | Take | Answer(k: nat, error: nat, junk: Sector)

  /** A return from blk_read: what was asked for, what it returned, what the buffer held. */
  datatype Return = Return(sector: nat, rc: int, data: Sector)

  /** Over every interleaving each blk_read that returns 0 has its own sector in its
      buffer. Steps that are not possible do nothing. */
  method Run(q: Blk, steps: seq<Step>) returns (log: seq<Return>)
    requires q.Valid()
    modifies q
    ensures q.Valid() && forall i | 0 <= i < |log| :: log[i].rc == 0 ==> log[i].data == q.disk(log[i].sector)
  {
    hide Inv;
    log := [];
    var i := 0;
    while i < |steps|
      invariant 0 <= i <= |steps| && q.Valid()
      invariant forall i | 0 <= i < |log| :: log[i].rc == 0 ==> log[i].data == q.disk(log[i].sector)
    {
      var more := Perform(q, steps[i]);
      log := log + more;
      i := i + 1;
    }
  }

  method Perform(q: Blk, step: Step) returns (log: seq<Return>)
    requires q.Valid()
    modifies q
    ensures q.Valid() && forall i | 0 <= i < |log| :: log[i].rc == 0 ==> log[i].data == q.disk(log[i].sector)
  {
    hide Inv;
    log := [];
    match step
    case Begin(r, sector, buf) =>
      if r < |q.readers| && q.readers[r] == Idle && buf < |q.bufs|
         && forall i | 0 <= i < |q.readers| && q.readers[i] != Idle :: q.readers[i].buf != buf {
        var ok := q.TryAcquire(r, sector, buf);
      }
    case Prepare(r) =>
      if r < |q.readers| && q.readers[r].Acquired? {
        q.FillRequest(r);
      }
    case Submit(r) =>
      if r < |q.readers| && q.readers[r].Filled? {
        q.PublishRequest(r);
      }
    case Look(r) =>
      if r < |q.readers| && q.readers[r].Waiting? {
        var me := q.readers[r];
        var finished, rc := q.Poll(r);
        if finished {
          log := [Return(me.sector, rc, q.bufs[me.buf])];
        }
      }
    case Interrupt(raised) => q.HandleIrq(raised);
    case Take => var took := q.DeviceTake();
    case Answer(k, error, junk) =>
      if k < |q.held| && error < 0xff {
        q.DeviceAnswer(k, error, junk);
      }
  }
}
