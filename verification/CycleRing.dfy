/**
 * The transfer-request rings of drivers/xhci.c: a producer and a consumer that share
 * nothing but a segment of records and the cycle bit in each. Both sides move one memory
 * access at a time, in any interleaving; the ring is shown to be a queue all the same.
 */
module CycleRing {
  import opened Common

  const POLL_MAX_EVENTS := 16

  // ---- Records -----------------------------------------------------------------------

  /** A record as it lies in memory. `body` is the control word without its cycle bit. */
  datatype Trb = Trb(lo: nat, hi: nat, status: nat, body: nat, cycle: bool)

  /** A record as its producer means it, before a cycle bit is stamped on it. */
  datatype Msg = Msg(lo: nat, hi: nat, status: nat, body: nat)

  const LINK_TYPE := 6
  /** Type Link with the toggle bit, as the control word without its cycle bit. */
  const LINK_BODY := 3073

  predicate IsLink(body: nat) { body / 512 % 64 == LINK_TYPE }

  predicate Toggles(body: nat) { body % 2 == 1 }

  function Stamp(m: Msg, cycle: bool): Trb { Trb(m.lo, m.hi, m.status, m.body, cycle) }

  // ---- The two sides -------------------------------------------------------------------

  /** The store the producer is about to make. */
  datatype At = Idle | LinkLo | LinkControl | Lo | Hi | Status | Control

  /** The reader's copy of the record it is working on, word by word. */
  datatype Fetch =
    | Resting
    | Fetching(body: nat, lo: Option<nat>, hi: Option<nat>, status: Option<nat>)

  /**
   * A ring of `n` usable records. A linked ring has one more, a Link back to its start; the
   * event ring has none and both sides wrap on their own. `floor` and `turn` are the
   * numbers of the first record of the producer's and of the consumer's current lap, `sent`
   * and `got` everything ever completed and delivered.
   */
  datatype Ring = Ring(
    n: nat, linked: bool, rewrites: bool, base: nat,
    slots: seq<Trb>, enq: nat, pcs: bool, at: At, cur: Msg, floor: nat, sent: seq<Msg>,
    deq: nat, ccs: bool, fetch: Fetch, turn: nat, got: seq<Msg>)

  /** The segment as it is set up: zeroes, and a Link that already carries a one. */
  function Fresh(n: nat, linked: bool, rewrites: bool, base: nat, cur: Msg): Ring {
    var empty := seq(n, k => Trb(0, 0, 0, 0, false));
    Ring(n, linked, rewrites, base, if linked then empty + [Trb(base, 0, 0, LINK_BODY, true)] else empty,
         0, true, Idle, cur, 0, [], 0, true, Resting, 0, [])
  }

  function Pending(r: Ring): int { |r.sent| - |r.got| }

  /** The producer takes up a record, at the Link first when it stands there. */
  function Begin(r: Ring, m: Msg): Ring {
    if r.at != Idle then r
    else r.(cur := m, at := if r.enq < r.n then Lo else if r.rewrites then LinkLo else LinkControl)
  }

  /** The producer's next store. */
  function Store(r: Ring): Ring
    requires Bounds(r)
  {
    match r.at
    case Idle => r
    case LinkLo => r.(slots := r.slots[r.n := r.slots[r.n].(lo := r.base)], at := LinkControl)
    case LinkControl =>
      r.(slots := r.slots[r.n := r.slots[r.n].(cycle := r.pcs)], enq := 0, pcs := !r.pcs, floor := r.floor + r.n, at := Lo)
    case Lo => r.(slots := r.slots[r.enq := r.slots[r.enq].(lo := r.cur.lo)], at := Hi)
    case Hi => r.(slots := r.slots[r.enq := r.slots[r.enq].(hi := r.cur.hi)], at := Status)
    case Status => r.(slots := r.slots[r.enq := r.slots[r.enq].(status := r.cur.status)], at := Control)
    case Control =>
      var wraps := !r.linked && r.enq + 1 == r.n;
      r.(slots := r.slots[r.enq := r.slots[r.enq].(body := r.cur.body, cycle := r.pcs)],
         enq := if wraps then 0 else r.enq + 1, pcs := r.pcs != wraps,
         floor := if wraps then r.floor + r.n else r.floor, at := Idle, sent := r.sent + [r.cur])
  }

  /** The consumer looks at the control word it stands at: nothing new, a Link to follow, or a record to fetch. */
  function Poll(r: Ring): Ring
    requires Bounds(r)
  {
    var t := r.slots[r.deq];
    if r.fetch != Resting || t.cycle != r.ccs then r
    else if r.linked && IsLink(t.body) then
      r.(deq := if t.lo < r.base then r.deq else (t.lo - r.base) / 16, ccs := r.ccs != Toggles(t.body), turn := r.turn + r.n)
    else r.(fetch := Fetching(t.body, None, None, None))
  }

  function ReadLo(r: Ring): Ring
    requires Bounds(r)
  {
    if r.fetch.Fetching? then r.(fetch := r.fetch.(lo := Some(r.slots[r.deq].lo))) else r
  }

  function ReadHi(r: Ring): Ring
    requires Bounds(r)
  {
    if r.fetch.Fetching? then r.(fetch := r.fetch.(hi := Some(r.slots[r.deq].hi))) else r
  }

  function ReadStatus(r: Ring): Ring
    requires Bounds(r)
  {
    if r.fetch.Fetching? then r.(fetch := r.fetch.(status := Some(r.slots[r.deq].status))) else r
  }

  /** A record read in full is delivered and stepped past. */
  function Deliver(r: Ring): Ring {
    if r.fetch.Fetching? && r.fetch.lo.Some? && r.fetch.hi.Some? && r.fetch.status.Some? then
      var wraps := !r.linked && r.deq + 1 == r.n;
      r.(got := r.got + [Msg(r.fetch.lo.value, r.fetch.hi.value, r.fetch.status.value, r.fetch.body)],
         deq := if wraps then 0 else r.deq + 1, ccs := r.ccs != wraps,
         turn := if wraps then r.turn + r.n else r.turn, fetch := Resting)
    else r
  }

  /** One memory access of either side, or the producer's decision to send. */
  datatype Step = DoBegin(m: Msg) | DoStore | DoPoll | DoReadLo | DoReadHi | DoReadStatus | DoDeliver

  function Apply(r: Ring, step: Step): Ring
    requires Bounds(r)
  {
    match step
    case DoBegin(m) => Begin(r, m)
    case DoStore => Store(r)
    case DoPoll => Poll(r)
    case DoReadLo => ReadLo(r)
    case DoReadHi => ReadHi(r)
    case DoReadStatus => ReadStatus(r)
    case DoDeliver => Deliver(r)
  }

  /** What the producer must see to: no record that looks like a Link, and never a lap ahead. */
  predicate Allowed(r: Ring, step: Step) {
    step.DoBegin? ==> !IsLink(step.m.body) && Pending(r) < r.n
  }

  // ---- What every interleaving keeps -----------------------------------------------------

  predicate Bounds(r: Ring) {
    && r.n > 0 && |r.slots| == r.n + (if r.linked then 1 else 0)
    && r.enq <= r.n && (!r.linked ==> r.enq < r.n) && r.deq <= r.n && (!r.linked ==> r.deq < r.n)
    && ((r.at.LinkLo? || r.at.LinkControl?) ==> r.enq == r.n)
    && ((r.at.Lo? || r.at.Hi? || r.at.Status? || r.at.Control?) ==> r.enq < r.n)
  }

  /** Both sides know which lap they are on, and are never more than one apart. */
  predicate Laps(r: Ring) {
    && |r.sent| == r.floor + r.enq && |r.got| == r.turn + r.deq
    && 0 <= Pending(r) <= r.n && (r.at != Idle ==> Pending(r) < r.n)
    && (|| (r.turn == r.floor && r.ccs == r.pcs)
        || (r.turn == r.floor - r.n && r.ccs != r.pcs)
        || (r.linked && r.floor == 0 && r.enq == r.n == r.turn && r.deq == 0 && r.ccs != r.pcs))
    && (r.floor == 0 ==> r.pcs)
  }

  /** The cycle bits say which records are from this lap. */
  ghost predicate Cycles(slots: seq<Trb>, n: nat, enq: nat, pcs: bool)
    requires n <= |slots|
  {
    forall j :: 0 <= j < n ==> slots[j].cycle == (pcs == (j < enq))
  }

  predicate LinkOk(r: Ring)
    requires Bounds(r)
  {
    r.linked ==> r.slots[r.n] == Trb(r.base, 0, 0, LINK_BODY, r.floor == 0 || !r.pcs)
  }

  /** The number of the record last stored in a slot. */
  function Number(j: nat, n: nat, enq: nat, floor: nat): int { if j < enq then floor + j else floor - n + j }

  /** Every record sent and not yet delivered lies whole in its slot. */
  ghost predicate Contents(slots: seq<Trb>, n: nat, enq: nat, floor: nat, sent: seq<Msg>, done: nat)
    requires n <= |slots| && |sent| == floor + enq
  {
    forall j {:trigger slots[j]} :: 0 <= j < n && done <= Number(j, n, enq, floor) < |sent| ==>
      slots[j] == Stamp(sent[Number(j, n, enq, floor)], slots[j].cycle)
  }

  /** The words stored so far are the ones meant. */
  predicate HalfWritten(r: Ring)
    requires Bounds(r)
  {
    && ((r.at.Hi? || r.at.Status? || r.at.Control?) ==> r.slots[r.enq].lo == r.cur.lo)
    && ((r.at.Status? || r.at.Control?) ==> r.slots[r.enq].hi == r.cur.hi)
    && (r.at == Control ==> r.slots[r.enq].status == r.cur.status)
  }

  /** The words read so far are the ones sent. */
  predicate HalfRead(r: Ring) {
    r.fetch.Fetching? ==>
      && r.deq < r.n && |r.got| < |r.sent|
      && var m := r.sent[|r.got|];
         && r.fetch.body == m.body
         && (r.fetch.lo.Some? ==> r.fetch.lo.value == m.lo)
         && (r.fetch.hi.Some? ==> r.fetch.hi.value == m.hi)
         && (r.fetch.status.Some? ==> r.fetch.status.value == m.status)
  }

  ghost predicate NoLinks(sent: seq<Msg>) { forall k :: 0 <= k < |sent| ==> !IsLink(sent[k].body) }

  ghost predicate Inv(r: Ring) {
    && Bounds(r) && Laps(r)
    && Cycles(r.slots, r.n, r.enq, r.pcs) && LinkOk(r)
    && Contents(r.slots, r.n, r.enq, r.floor, r.sent, |r.got|)
    && HalfWritten(r) && HalfRead(r)
    && !IsLink(r.cur.body) && NoLinks(r.sent)
    && r.got <= r.sent
  }

  lemma FreshKeeps(n: nat, linked: bool, rewrites: bool, base: nat, cur: Msg)
    requires n > 0 && !IsLink(cur.body)
    ensures Inv(Fresh(n, linked, rewrites, base, cur))
  {
  }

  lemma BeginKeeps(r: Ring, m: Msg)
    requires Inv(r) && !IsLink(m.body) && Pending(r) < r.n
    ensures Inv(Begin(r, m))
  {
    hide Cycles, Contents, NoLinks, IsLink;
  }

  /** What the consumer stands at: a record of this lap exactly when one is pending, and then the next one. */
  lemma Front(r: Ring)
    requires Inv(r) && r.deq < r.n
    ensures r.slots[r.deq].cycle == r.ccs <==> |r.got| < |r.sent|
    ensures |r.got| < |r.sent| ==> r.slots[r.deq] == Stamp(r.sent[|r.got|], r.ccs) && !IsLink(r.slots[r.deq].body)
  {
    hide IsLink;
    assert |r.got| < |r.sent| ==> Number(r.deq, r.n, r.enq, r.floor) == |r.got|;
  }

  lemma CyclesWrap(slots: seq<Trb>, n: nat, pcs: bool)
    requires n <= |slots| && Cycles(slots, n, n, pcs)
    ensures Cycles(slots, n, 0, !pcs)
  {
  }

  lemma ContentsWrap(slots: seq<Trb>, n: nat, floor: nat, sent: seq<Msg>, done: nat)
    requires n <= |slots| && |sent| == floor + n && Contents(slots, n, n, floor, sent, done)
    ensures Contents(slots, n, 0, floor + n, sent, done)
  {
  }

  /** Stores that leave the ring's own records alone, or touch only the slot being written. */
  lemma StoreElsewhere(slots: seq<Trb>, slots': seq<Trb>, n: nat, enq: nat, pcs: bool, floor: nat, sent: seq<Msg>, done: nat)
    requires n <= |slots| == |slots'| && |sent| == floor + enq
    requires forall j :: 0 <= j < n && j != enq ==> slots'[j] == slots[j]
    requires enq < n ==> slots'[enq].cycle == slots[enq].cycle && floor - n + enq < done
    ensures Cycles(slots, n, enq, pcs) ==> Cycles(slots', n, enq, pcs)
    ensures Contents(slots, n, enq, floor, sent, done) ==> Contents(slots', n, enq, floor, sent, done)
  {
  }

  /** The store of the control word completes the record. */
  lemma StoreCompletes(slots: seq<Trb>, n: nat, enq: nat, pcs: bool, floor: nat, sent: seq<Msg>, done: nat, m: Msg)
    requires n <= |slots| && |sent| == floor + enq && enq < n && floor - n + enq < done
    requires Cycles(slots, n, enq, pcs) && Contents(slots, n, enq, floor, sent, done)
    ensures Cycles(slots[enq := Stamp(m, pcs)], n, enq + 1, pcs)
    ensures Contents(slots[enq := Stamp(m, pcs)], n, enq + 1, floor, sent + [m], done)
  {
  }

  lemma StoreKeeps(r: Ring)
    requires Inv(r)
    ensures Inv(Store(r))
  {
    hide Inv;
    match r.at
    case Idle =>
    case LinkControl => TurnKeeps(r);
    case Control => CompleteKeeps(r);
    case LinkLo => RelinkKeeps(r);
    case _ => WordKeeps(r);
  }

  lemma RelinkKeeps(r: Ring)
    requires Inv(r) && r.at == LinkLo
    ensures Inv(Store(r))
  {
    hide Cycles, Contents, NoLinks, IsLink;
    StoreElsewhere(r.slots, Store(r).slots, r.n, r.enq, r.pcs, r.floor, r.sent, |r.got|);
  }

  lemma WordKeeps(r: Ring)
    requires Inv(r) && (r.at.Lo? || r.at.Hi? || r.at.Status?)
    ensures Inv(Store(r))
  {
    hide Cycles, Contents, NoLinks, IsLink;
    StoreElsewhere(r.slots, Store(r).slots, r.n, r.enq, r.pcs, r.floor, r.sent, |r.got|);
  }

  /** Turning the Link over starts a lap in which every record is still the old one. */
  lemma TurnKeeps(r: Ring)
    requires Inv(r) && r.at == LinkControl
    ensures Inv(Store(r))
  {
    hide Cycles, Contents, NoLinks, IsLink;
    StoreElsewhere(r.slots, Store(r).slots, r.n, r.enq, r.pcs, r.floor, r.sent, |r.got|);
    CyclesWrap(Store(r).slots, r.n, r.pcs);
    ContentsWrap(Store(r).slots, r.n, r.floor, r.sent, |r.got|);
  }

  lemma CompleteKeeps(r: Ring)
    requires Inv(r) && r.at == Control
    ensures Inv(Store(r))
  {
    hide Cycles, Contents, NoLinks, IsLink;
    StoreCompletes(r.slots, r.n, r.enq, r.pcs, r.floor, r.sent, |r.got|, r.cur);
    var slots := r.slots[r.enq := Stamp(r.cur, r.pcs)];
    assert Store(r).slots == slots;
    if !r.linked && r.enq + 1 == r.n {
      CyclesWrap(slots, r.n, r.pcs);
      ContentsWrap(slots, r.n, r.floor, r.sent + [r.cur], |r.got|);
    }
    NoLinksAppend(r.sent, r.cur);
  }

  lemma NoLinksAppend(sent: seq<Msg>, m: Msg)
    requires NoLinks(sent) && !IsLink(m.body)
    ensures NoLinks(sent + [m])
  {
  }

  lemma PollKeeps(r: Ring)
    requires Inv(r)
    ensures Inv(Poll(r))
  {
    assert IsLink(LINK_BODY) && Toggles(LINK_BODY);
    hide Cycles, Contents, NoLinks, IsLink;
    if r.deq < r.n {
      Front(r);
    }
  }

  lemma ReadKeeps(r: Ring)
    requires Inv(r)
    ensures Inv(ReadLo(r)) && Inv(ReadHi(r)) && Inv(ReadStatus(r))
  {
    hide Cycles, Contents, NoLinks, IsLink;
    if r.fetch.Fetching? {
      Front(r);
    }
  }

  lemma DeliverKeeps(r: Ring)
    requires Inv(r)
    ensures Inv(Deliver(r))
  {
    ContentsLater(r.slots, r.n, r.enq, r.floor, r.sent, |r.got|);
    hide Cycles, Contents, NoLinks, IsLink;
  }

  lemma ContentsLater(slots: seq<Trb>, n: nat, enq: nat, floor: nat, sent: seq<Msg>, done: nat)
    requires n <= |slots| && |sent| == floor + enq && Contents(slots, n, enq, floor, sent, done)
    ensures Contents(slots, n, enq, floor, sent, done + 1)
  {
  }

  // ---- Whole runs ------------------------------------------------------------------------

  lemma ApplyKeeps(r: Ring, step: Step)
    requires Inv(r) && Allowed(r, step)
    ensures Inv(Apply(r, step))
  {
    hide Inv, IsLink;
    match step
    case DoBegin(m) => BeginKeeps(r, m);
    case DoStore => StoreKeeps(r);
    case DoPoll => PollKeeps(r);
    case DoReadLo => ReadKeeps(r);
    case DoReadHi => ReadKeeps(r);
    case DoReadStatus => ReadKeeps(r);
    case DoDeliver => DeliverKeeps(r);
  }

  /** The states a ring can be in, however the two sides interleave. */
  ghost predicate Reaches(r: Ring, steps: seq<Step>, r': Ring)
    decreases steps
  {
    if steps == [] then r == r'
    else Bounds(r) && Allowed(r, steps[0]) && Reaches(Apply(r, steps[0]), steps[1..], r')
  }

  lemma {:induction false} RunKeeps(r: Ring, steps: seq<Step>, r': Ring)
    requires Inv(r) && Reaches(r, steps, r')
    ensures Inv(r')
    decreases steps
  {
    hide Inv;
    if steps != [] {
      ApplyKeeps(r, steps[0]);
      RunKeeps(Apply(r, steps[0]), steps[1..], r');
    }
  }

  /**
   * The ring is a queue: through any number of laps, what has been delivered is what was sent,
   * each record once, whole and in order; and the consumer that finds nothing new has it all.
   */
  lemma RingIsQueue(n: nat, linked: bool, rewrites: bool, base: nat, cur: Msg, steps: seq<Step>, r: Ring)
    requires n > 0 && !IsLink(cur.body) && Reaches(Fresh(n, linked, rewrites, base, cur), steps, r)
    ensures r.got <= r.sent && |r.sent| <= |r.got| + n
    ensures Bounds(r) && (r.fetch == Resting && Poll(r) == r ==> r.got == r.sent)
  {
    hide Inv, IsLink;
    FreshKeeps(n, linked, rewrites, base, cur);
    RunKeeps(Fresh(n, linked, rewrites, base, cur), steps, r);
    InvMeans(r);
    ConfiguredOnce(Fresh(n, linked, rewrites, base, cur), steps, r);
  }

  lemma {:induction false} ConfiguredOnce(r: Ring, steps: seq<Step>, r': Ring)
    requires Reaches(r, steps, r')
    ensures r'.n == r.n
    decreases steps
  {
    if steps != [] {
      ConfiguredOnce(Apply(r, steps[0]), steps[1..], r');
    }
  }

  lemma InvMeans(r: Ring)
    requires Inv(r)
    ensures Bounds(r) && r.got <= r.sent && |r.sent| <= |r.got| + r.n
    ensures r.fetch == Resting && Poll(r) == r ==> r.got == r.sent
  {
    assert IsLink(LINK_BODY) && Toggles(LINK_BODY);
    hide Cycles, Contents, NoLinks, IsLink;
    if r.deq < r.n {
      Front(r);
    }
  }

  // ---- The consumer on its own -------------------------------------------------------------

  /** One look at the ring with nobody interfering: a record, a Link followed, or nothing. */
  function Take(r: Ring): Ring
    requires Bounds(r)
  {
    var a := Poll(r);
    if !Bounds(a) then a else Deliver(ReadStatus(ReadHi(ReadLo(a))))
  }

  lemma TakeKeeps(r: Ring)
    requires Inv(r)
    ensures Bounds(r) && Inv(Take(r))
  {
    hide Cycles, Contents, NoLinks, IsLink, HalfRead, HalfWritten, LinkOk;
    PollKeeps(r);
    ReadKeeps(Poll(r));
    ReadKeeps(ReadLo(Poll(r)));
    ReadKeeps(ReadHi(ReadLo(Poll(r))));
    DeliverKeeps(ReadStatus(ReadHi(ReadLo(Poll(r)))));
  }

  lemma TakeRecord(r: Ring)
    requires Inv(r) && r.fetch == Resting && r.deq < r.n && |r.got| < |r.sent|
    ensures Take(r).fetch == Resting && Take(r).sent == r.sent && Take(r).n == r.n
    ensures Take(r).got == r.got + [r.sent[|r.got|]]
    ensures Take(r).slots == r.slots && Take(r).linked == r.linked
    ensures !r.linked ==> Take(r).deq == (if r.deq + 1 == r.n then 0 else r.deq + 1)
    ensures !r.linked ==> Take(r).ccs == (r.ccs != (r.deq + 1 == r.n))
  {
    Front(r);
    hide Inv, IsLink;
  }

  lemma TakeLink(r: Ring)
    requires Inv(r) && r.fetch == Resting && r.deq == r.n && |r.got| < |r.sent|
    ensures Take(r).fetch == Resting && Take(r).sent == r.sent && Take(r).n == r.n
    ensures Take(r).got == r.got && Take(r).deq < r.n
  {
    assert IsLink(LINK_BODY);
    hide Cycles, Contents, NoLinks, IsLink, HalfRead, HalfWritten;
  }

  ghost predicate Drains(r: Ring, r': Ring, looks: nat)
    decreases looks
  {
    if looks == 0 then r == r' else Bounds(r) && Drains(Take(r), r', looks - 1)
  }

  /** Left alone, the consumer gets everything that was sent within two looks a record. */
  lemma {:induction false} EverythingArrives(r: Ring) returns (r': Ring, looks: nat)
    requires Inv(r) && r.fetch == Resting
    ensures Drains(r, r', looks) && r'.got == r'.sent == r.sent
    ensures looks <= 2 * Pending(r) - if r.deq < r.n && Pending(r) > 0 then 1 else 0
    decreases Pending(r), r.deq == r.n
  {
    InvMeans(r);
    hide Inv, Take;
    if |r.got| == |r.sent| {
      r', looks := r, 0;
    } else {
      TakeKeeps(r);
      InvMeans(Take(r));
      if r.deq < r.n {
        TakeRecord(r);
      } else {
        TakeLink(r);
      }
      r', looks := EverythingArrives(Take(r));
      looks := looks + 1;
    }
  }

  // ---- The guard is exact ----------------------------------------------------------------

  /** The stores up to the first one into the record itself. */
  function PastLink(r: Ring): Ring
    requires Bounds(r)
  {
    if r.at == LinkLo then
      var a := Store(r);
      if Bounds(a) then Store(a) else a
    else if r.at == LinkControl then Store(r)
    else r
  }

  /**
   * A producer that starts another record while a whole lap is pending spoils the oldest of
   * them: after its first store the consumer delivers the old record with the new one's first word.
   */
  lemma FullRingBreaks(r: Ring, m: Msg)
    requires Inv(r) && r.at == Idle && r.fetch == Resting && r.deq < r.n && Pending(r) == r.n
    ensures Bounds(Begin(r, m)) && Bounds(PastLink(Begin(r, m))) && Bounds(Store(PastLink(Begin(r, m))))
    ensures Take(Store(PastLink(Begin(r, m)))).got == r.got + [r.sent[|r.got|].(lo := m.lo)]
  {
    Front(r);
    var a := PastLink(Begin(r, m));
    assert a.enq == r.deq && a.slots[a.enq] == r.slots[r.deq] && a.at == Lo;
    hide Cycles, Contents, NoLinks, IsLink, HalfRead, HalfWritten, PastLink, LinkOk, Laps;
    SpoiledTake(Store(a), r.sent[|r.got|], m.lo);
  }

  lemma SpoiledTake(r: Ring, m: Msg, lo: nat)
    requires Bounds(r) && r.fetch == Resting && r.deq < r.n && !IsLink(m.body)
    requires r.slots[r.deq] == Stamp(m, r.ccs).(lo := lo)
    ensures Take(r).got == r.got + [m.(lo := lo)]
  {
    hide IsLink;
  }

  // ---- The driver's side of both kinds of ring -----------------------------------------------

  function Rank(at: At): nat {
    match at
    case Idle => 0
    case Control => 1
    case Status => 2
    case Hi => 3
    case Lo => 4
    case LinkControl => 5
    case LinkLo => 6
  }

  lemma StoreBounds(r: Ring)
    requires Bounds(r)
    ensures Bounds(Store(r))
  {
  }

  /** All the stores of the record in hand. */
  function Finish(r: Ring): Ring
    requires Bounds(r)
    decreases Rank(r.at)
  {
    if r.at == Idle then r
    else
      StoreBounds(r);
      Finish(Store(r))
  }

  lemma FinishStep(r: Ring)
    requires Bounds(r) && r.at != Idle
    ensures Bounds(Store(r)) && Finish(Store(r)) == Finish(r)
  {
    StoreBounds(r);
  }

  lemma {:induction false} FinishSends(r: Ring)
    requires Inv(r)
    ensures Inv(Finish(r)) && Finish(r).at == Idle && Finish(r).got == r.got
    ensures Finish(r).sent == if r.at == Idle then r.sent else r.sent + [r.cur]
    decreases Rank(r.at)
  {
    if r.at != Idle {
      StoreKeeps(r);
      hide Inv;
      FinishSends(Store(r));
    }
  }

  /** A ring the driver sends on: command, control, interrupt or bulk. */
  class Sender {
    const trbs: array<Trb>
    const base: nat
    const rewrites: bool
    var enqueue: nat
    var pcs: bool

    ghost predicate Matches(r: Ring)
      reads this, trbs
    {
      && Bounds(r) && r.linked && r.base == base && r.rewrites == rewrites
      && r.n + 1 == trbs.Length && r.slots == trbs[..] && r.enq == enqueue && r.pcs == pcs
    }

    constructor (size: nat, base: nat, rewrites: bool, ghost cur: Msg)
      requires size > 1
      ensures Matches(Fresh(size - 1, true, rewrites, base, cur))
    {
      this.base, this.rewrites := base, rewrites;
      enqueue, pcs := 0, true;
      trbs := new Trb[size](k requires k >= 0 => if k == size - 1 then Trb(base, 0, 0, LINK_BODY, true) else Trb(0, 0, 0, 0, false));
    }

    /** The driver's push is the producer's stores, in the order the consumer may see them. */
    method Push(m: Msg, ghost r: Ring)
      requires Matches(r) && r.at == Idle
      modifies this`enqueue, this`pcs, trbs
      ensures Matches(Finish(Begin(r, m)))
    {
      hide Finish;
      ghost var c := Begin(r, m);
      if enqueue == trbs.Length - 1 {
        if rewrites {
          trbs[enqueue] := trbs[enqueue].(lo := base);
          FinishStep(c);
          c := Store(c);
        }
        trbs[enqueue] := trbs[enqueue].(cycle := pcs);
        enqueue := 0;
        pcs := !pcs;
        FinishStep(c);
        c := Store(c);
      }
      StoreRecord(m, c);
    }

    method StoreRecord(m: Msg, ghost r: Ring)
      requires Matches(r) && r.at == Lo && r.cur == m
      modifies this`enqueue, trbs
      ensures Matches(Finish(r))
    {
      ghost var c := r;
      trbs[enqueue] := trbs[enqueue].(lo := m.lo);
      FinishStep(c);
      c := Store(c);
      trbs[enqueue] := trbs[enqueue].(hi := m.hi);
      FinishStep(c);
      c := Store(c);
      trbs[enqueue] := trbs[enqueue].(status := m.status);
      FinishStep(c);
      c := Store(c);
      trbs[enqueue] := trbs[enqueue].(body := m.body, cycle := pcs);
      enqueue := enqueue + 1;
      FinishStep(c);
      c := Store(c);
    }
  }

  /** The ring the controller reports events on. */
  class EventRing {
    const ring: array<Trb>
    var dequeue: nat
    var ccs: bool

    ghost predicate Matches(r: Ring)
      reads this, ring
    {
      Bounds(r) && !r.linked && r.n == ring.Length && r.slots == ring[..] && r.deq == dequeue && r.ccs == ccs
    }

    constructor (size: nat, base: nat, ghost cur: Msg)
      requires size > 0
      ensures Matches(Fresh(size, false, false, base, cur))
    {
      dequeue, ccs := 0, true;
      ring := new Trb[size](_ => Trb(0, 0, 0, 0, false));
    }

    /** The next event, if the cycle bit says the controller has written one. */
    method NextEvent(ghost r: Ring) returns (ev: Option<Trb>)
      requires Matches(r) && Inv(r)
      ensures ev == if |r.got| < |r.sent| then Some(Stamp(r.sent[|r.got|], ccs)) else None
    {
      Front(r);
      ev := if ring[dequeue].cycle != ccs then None else Some(ring[dequeue]);
    }

    /** Moving on past an event takes exactly the oldest pending one from the ring. */
    method ConsumeEvent(ghost r: Ring)
      requires Matches(r) && Inv(r) && r.fetch == Resting && |r.got| < |r.sent|
      modifies this
      ensures Matches(Take(r)) && Inv(Take(r))
      ensures Take(r).got == r.got + [r.sent[|r.got|]] && Take(r).sent == r.sent && Take(r).fetch == Resting
    {
      hide Cycles, Contents, NoLinks, HalfRead, HalfWritten, LinkOk, Take;
      TakeKeeps(r);
      TakeRecord(r);
      dequeue := dequeue + 1;
      if dequeue == ring.Length {
        dequeue := 0;
        ccs := !ccs;
      }
    }

    /** One poll takes the oldest pending events, each once and in order, and no more than its bound. */
    method Drain(ghost r: Ring) returns (events: seq<Msg>, ghost r': Ring)
      requires Matches(r) && Inv(r) && r.fetch == Resting
      modifies this
      ensures Matches(r') && Inv(r') && r'.sent == r.sent && r'.got == r.got + events
      ensures |events| == if Pending(r) < POLL_MAX_EVENTS then Pending(r) else POLL_MAX_EVENTS
    {
      hide Cycles, Contents, NoLinks, HalfRead, HalfWritten, LinkOk, Take;
      events, r' := [], r;
      var drained := 0;
      while drained < POLL_MAX_EVENTS
        invariant drained == |events| <= POLL_MAX_EVENTS
        invariant Matches(r') && Inv(r') && r'.sent == r.sent && r'.got == r.got + events && r'.fetch == Resting
      {
        var ev := NextEvent(r');
        if ev.None? {
          return;
        }
        var t := ev.value;
        ConsumeEvent(r');
        r' := Take(r');
        events := events + [Msg(t.lo, t.hi, t.status, t.body)];
        drained := drained + 1;
      }
    }
  }
}
