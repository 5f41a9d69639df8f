/**
 * The PCI enumeration of drivers/pci.c: a worklist of buses, grown by the bridges found on
 * them, over a configuration space that may contain any bridges at all, cycles included.
 */
module PciWalk {

  const BUSES := 256
  const DEVICES := 32
  const FUNCTIONS := 8
  const MAX_DEVICES := 192
  const NO_DEVICE := 0xFFFF

  type Octet = x: int | 0 <= x < 256

  datatype Address = Address(bus: Octet, device: nat, fn: nat)

  predicate Exists(a: Address) { a.device < DEVICES && a.fn < FUNCTIONS }

  /** What the walk reads of a function: its vendor, its header type, and the bus behind it. */
  datatype Config = Config(vendor: nat, header: Octet, secondary: Octet)

  type Space = Address -> Config

  predicate Answers(space: Space, a: Address) { space(a).vendor != NO_DEVICE }

  predicate Multifunction(c: Config) { c.header >= 0x80 }

  predicate IsBridge(c: Config) { c.header % 0x80 == 1 }

  /** A function of the machine: function zero of a device, or another of one that says it has several. */
  predicate Present(space: Space, a: Address) {
    && Exists(a) && Answers(space, a)
    && (a.fn > 0 ==> Answers(space, a.(fn := 0)) && Multifunction(space(a.(fn := 0))))
  }

  // ---- What can be reached ---------------------------------------------------------------------

  /** A present bridge leads from its own bus to its secondary one. */
  predicate Leads(space: Space, a: Address, bus: Octet) { Present(space, a) && IsBridge(space(a)) && space(a).secondary == bus }

  ghost predicate ReachableIn(space: Space, bus: Octet, hops: nat)
    decreases hops
  {
    if hops == 0 then bus == 0
    else exists a: Address :: Leads(space, a, bus) && ReachableIn(space, a.bus, hops - 1)
  }

  ghost predicate Reachable(space: Space, bus: Octet) { exists hops: nat :: ReachableIn(space, bus, hops) }

  lemma OneHopFurther(space: Space, a: Address, bus: Octet)
    requires Reachable(space, a.bus) && Leads(space, a, bus)
    ensures Reachable(space, bus)
  {
    var hops: nat :| ReachableIn(space, a.bus, hops);
    assert ReachableIn(space, bus, hops + 1);
  }

  /** A set of buses that holds the first and every bus its bridges lead to holds every reachable one. */
  lemma {:induction false} ClosedHoldsAll(space: Space, queue: seq<Octet>, bus: Octet, hops: nat)
    requires 0 in queue && (forall a: Address, b: Octet :: a.bus in queue && Leads(space, a, b) ==> b in queue)
    requires ReachableIn(space, bus, hops)
    ensures bus in queue
    decreases hops
  {
    if hops > 0 {
      var a: Address :| Leads(space, a, bus) && ReachableIn(space, a.bus, hops - 1);
      ClosedHoldsAll(space, queue, a.bus, hops - 1);
    }
  }

  // ---- Progress --------------------------------------------------------------------------------

  /** The walk has been past this function: at bus number `i` of the queue, it stands before (dev, fn). */
  predicate Past(queue: seq<Octet>, i: nat, dev: nat, fn: nat, a: Address)
    requires i <= |queue|
  {
    || a.bus in queue[..i]
    || (i < |queue| && a.bus == queue[i] && (a.device < dev || (a.device == dev && a.fn < fn)))
  }

  ghost predicate Distinct<T>(s: seq<T>) { forall i, j :: 0 <= i < j < |s| ==> s[i] != s[j] }

  /** The queue holds each bus once, the first among them, and only reachable ones. */
  ghost predicate QueueOk(space: Space, queue: seq<Octet>) {
    Distinct(queue) && 0 in queue && forall b: Octet :: b in queue ==> Reachable(space, b)
  }

  /** Recorded functions are present, each once, and behind the walk. */
  ghost predicate FoundOk(space: Space, queue: seq<Octet>, found: seq<Address>, i: nat, dev: nat, fn: nat)
    requires i <= |queue|
  {
    Distinct(found) && forall a: Address :: a in found ==> Present(space, a) && Past(queue, i, dev, fn, a)
  }

  /** Nothing behind the walk was missed, neither a function nor the bus behind a bridge. */
  ghost predicate Complete(space: Space, queue: seq<Octet>, found: seq<Address>, i: nat, dev: nat, fn: nat)
    requires i <= |queue|
  {
    forall a: Address :: Present(space, a) && Past(queue, i, dev, fn, a) ==>
      a in found && (IsBridge(space(a)) ==> space(a).secondary in queue)
  }

  /** Distinct numbers below a bound are no more than the bound. */
  lemma {:induction false} AtMost(s: seq<int>, n: nat)
    requires Distinct(s) && forall k :: 0 <= k < |s| ==> 0 <= s[k] < n
    ensures |s| <= n
  {
    if s != [] {
      if n - 1 in s {
        var k :| 0 <= k < |s| && s[k] == n - 1;
        AtMost(s[..k] + s[k + 1..], n - 1);
      } else {
        AtMost(s, n - 1);
      }
    }
  }

  /** Some reachable function is not recorded. */
  ghost predicate Missed(space: Space, found: seq<Address>) {
    exists a: Address :: Present(space, a) && Reachable(space, a.bus) && a !in found
  }

  /** The function the walk stands at is not recorded yet. */
  lemma NotYet(space: Space, queue: seq<Octet>, found: seq<Address>, i: nat, a: Address)
    requires i < |queue| && a.bus == queue[i] && Present(space, a) && QueueOk(space, queue)
    requires FoundOk(space, queue, found, i, a.device, a.fn)
    ensures Missed(space, found)
  {
    assert !Past(queue, i, a.device, a.fn, a);
    hide Present, Reachable;
    assert a.bus in queue && a !in found;
  }

  /** Moving on past nothing present. */
  lemma MoveOn(space: Space, queue: seq<Octet>, found: seq<Address>, i: nat, dev: nat, fn: nat, i': nat, dev': nat, fn': nat)
    requires i <= |queue| && i' <= |queue|
    requires forall a: Address :: Present(space, a) ==> (Past(queue, i, dev, fn, a) <==> Past(queue, i', dev', fn', a))
    ensures FoundOk(space, queue, found, i, dev, fn) ==> FoundOk(space, queue, found, i', dev', fn')
    ensures Complete(space, queue, found, i, dev, fn) ==> Complete(space, queue, found, i', dev', fn')
  {
    hide Present, Past;
  }

  /** Moving on past one function, recorded, with the bus behind it queued if it is a bridge. */
  lemma MovePast(space: Space, queue: seq<Octet>, queue': seq<Octet>, found: seq<Address>, i: nat, a: Address)
    requires i < |queue| && a.bus == queue[i] && Present(space, a) && Distinct(queue)
    requires queue <= queue' && (IsBridge(space(a)) ==> space(a).secondary in queue')
    requires FoundOk(space, queue, found, i, a.device, a.fn)
    ensures FoundOk(space, queue', found + [a], i, a.device, a.fn + 1)
    ensures Complete(space, queue, found, i, a.device, a.fn) ==> Complete(space, queue', found + [a], i, a.device, a.fn + 1)
  {
    assert queue'[..i] == queue[..i] && queue'[i] == queue[i];
    hide Present, IsBridge;
    assert !Past(queue, i, a.device, a.fn, a);
    forall b: Address
      ensures Past(queue', i, a.device, a.fn + 1, b) <==> Past(queue, i, a.device, a.fn, b) || b == a
    {
    }
  }

  /** A recorded function's being behind the walk outlasts the walk's moving on. */
  lemma StaysPast(space: Space, queue: seq<Octet>, found: seq<Address>, i: nat, dev: nat, fn: nat)
    requires i <= |queue| && FoundOk(space, queue, found, i, dev, fn)
    ensures FoundOk(space, queue, found, i, dev, fn + 1)
  {
    hide Present;
  }

  /** Queueing a bus that a present bridge leads to keeps the queue in order. */
  lemma QueueGrows(space: Space, queue: seq<Octet>, a: Address)
    requires QueueOk(space, queue) && a.bus in queue && Leads(space, a, space(a).secondary)
    ensures QueueOk(space, if space(a).secondary in queue then queue else queue + [space(a).secondary])
  {
    OneHopFurther(space, a, space(a).secondary);
    hide Reachable, Leads;
  }

  // ---- The walk ----------------------------------------------------------------------------------

  class Walk {
    const queue: array<Octet>
    var queued: nat
    const visited: array<bool>
    const devices: array<Address>
    var count: nat
    var truncated: bool

    ghost predicate Shaped()
      reads this, queue, visited, devices
    {
      && queue.Length == BUSES && visited.Length == BUSES && devices.Length == MAX_DEVICES
      && queued <= BUSES && count <= MAX_DEVICES
      && (forall b :: 0 <= b < BUSES ==> (visited[b] <==> b in queue[..queued]))
    }

    ghost function Queue(): seq<Octet>
      requires queued <= queue.Length
      reads this, queue
    {
      queue[..queued]
    }

    ghost function Found(): seq<Address>
      requires count <= devices.Length
      reads this, devices
    {
      devices[..count]
    }

    /** What holds wherever the walk stands. */
    ghost predicate Inv(space: Space, i: nat, dev: nat, fn: nat)
      reads this, queue, visited, devices
    {
      && Shaped() && i <= queued && QueueOk(space, Queue())
      && FoundOk(space, Queue(), Found(), i, dev, fn)
      && (truncated ==> count == MAX_DEVICES && Missed(space, Found()))
      && (!truncated ==> Complete(space, Queue(), Found(), i, dev, fn))
    }

    /** Adds a bus unless it has been seen. The queue has room for every bus there is. */
    method Enqueue(bus: Octet)
      requires Shaped() && Distinct(Queue())
      modifies this`queued, queue, visited
      ensures Shaped() && Distinct(Queue())
      ensures Queue() == if bus in old(Queue()) then old(Queue()) else old(Queue()) + [bus]
    {
      if visited[bus] {
        return;
      }
      RoomForOne(Queue(), bus);
      visited[bus] := true;
      if queued < queue.Length {
        queue[queued] := bus;
        queued := queued + 1;
        assert Queue() == old(Queue()) + [bus];
      }
    }

    /** Records a function and queues the bus behind it; refuses when the table is full. */
    method Record(space: Space, a: Address, ghost i: nat) returns (ok: bool)
      requires Inv(space, i, a.device, a.fn) && i < queued && a.bus == queue[i] && Present(space, a)
      modifies this, queue, visited, devices
      ensures Inv(space, i, a.device, a.fn + 1) && old(Queue()) <= Queue()
      ensures !ok ==> truncated
    {
      hide Present, QueueOk, FoundOk, Complete, IsBridge, Missed;
      ghost var q, f := Queue(), Found();
      if count >= devices.Length {
        NotYet(space, q, f, i, a);
        StaysPast(space, q, f, i, a.device, a.fn);
        truncated := true;
        return false;
      }
      QueueDistinct(space, q);
      devices[count] := a;
      count := count + 1;
      assert Found() == f + [a];
      if IsBridge(space(a)) {
        QueueGrows(space, q, a);
        Enqueue(space(a).secondary);
      }
      MovePast(space, q, Queue(), f, i, a);
      ok := true;
    }

    /** Moves the invariant on past nothing present. */
    lemma InvMovesOn(space: Space, i: nat, dev: nat, fn: nat, i': nat, dev': nat, fn': nat)
      requires Inv(space, i, dev, fn) && i' <= queued
      requires forall a: Address :: Present(space, a) ==> (Past(Queue(), i, dev, fn, a) <==> Past(Queue(), i', dev', fn', a))
      ensures Inv(space, i', dev', fn')
    {
      hide FoundOk, Complete, QueueOk, Missed;
      MoveOn(space, Queue(), Found(), i, dev, fn, i', dev', fn');
    }

    /** Walks the functions of one device. */
    method ScanDevice(space: Space, bus: Octet, device: nat, ghost i: nat)
      requires Inv(space, i, device, 0) && i < queued && queue[i] == bus && device < DEVICES
      modifies this, queue, visited, devices
      ensures Inv(space, i, device + 1, 0) && old(Queue()) <= Queue()
    {
      hide QueueOk, FoundOk, Complete, IsBridge, Multifunction, Missed;
      var zero := Address(bus, device, 0);
      if space(zero).vendor == NO_DEVICE {
        InvMovesOn(space, i, device, 0, i, device + 1, 0);
        return;
      }
      ghost var q := Queue();
      var ok := Record(space, zero, i);
      assert Queue()[i] == q[i];
      if !ok {
        RestOfDevice(space, i, device, 1);
        return;
      }
      if !Multifunction(space(zero)) {
        InvMovesOn(space, i, device, 1, i, device + 1, 0);
        return;
      }
      for fn := 1 to FUNCTIONS
        invariant Inv(space, i, device, fn) && i < queued && queue[i] == bus && q <= Queue()
      {
        var a := Address(bus, device, fn);
        if space(a).vendor == NO_DEVICE {
          InvMovesOn(space, i, device, fn, i, device, fn + 1);
        } else {
          ghost var before := Queue();
          ok := Record(space, a, i);
          assert Queue()[i] == before[i];
          if !ok {
            RestOfDevice(space, i, device, fn + 1);
            return;
          }
        }
      }
      InvMovesOn(space, i, device, FUNCTIONS, i, device + 1, 0);
    }

    /** A full table leaves the rest of a device unwalked. */
    lemma RestOfDevice(space: Space, i: nat, dev: nat, fn: nat)
      requires Inv(space, i, dev, fn) && truncated
      ensures Inv(space, i, dev + 1, 0)
    {
      hide Present, Missed;
    }

    constructor ()
      ensures fresh(queue) && fresh(visited) && fresh(devices)
      ensures queue.Length == BUSES && visited.Length == BUSES && devices.Length == MAX_DEVICES
    {
      queue := new Octet[BUSES];
      visited := new bool[BUSES];
      devices := new Address[MAX_DEVICES](_ => Address(0, 0, 0));
      queued, count, truncated := 0, 0, false;
    }

    /**
     * Walks every bus that can be reached. It ends on every configuration space; it records
     * only reachable functions, each once; and it says it was truncated exactly when it missed one.
     */
    method Enumerate(space: Space) returns (n: nat)
      requires queue.Length == BUSES && visited.Length == BUSES && devices.Length == MAX_DEVICES
      modifies this, queue, visited, devices
      ensures count <= MAX_DEVICES && n == |Found()| && Distinct(Found())
      ensures forall a: Address :: a in Found() ==> Present(space, a) && Reachable(space, a.bus)
      ensures truncated <==> Missed(space, Found())
      ensures truncated ==> n == MAX_DEVICES
    {
      hide FoundOk, Complete, Missed, Present, IsBridge;
      count, truncated, queued := 0, false, 0;
      Clear();
      Enqueue(0);
      Starts(space, Queue());
      var i := 0;
      while i < queued
        invariant Inv(space, i, 0, 0)
        decreases BUSES - i
      {
        var bus := queue[i];
        for device := 0 to DEVICES
          invariant Inv(space, i, device, 0) && i < queued && queue[i] == bus
        {
          ghost var before := Queue();
          ScanDevice(space, bus, device, i);
          assert Queue()[i] == before[i];
        }
        BusDone(space, Queue(), i);
        InvMovesOn(space, i, DEVICES, 0, i + 1, 0, 0);
        i := i + 1;
      }
      AllFound(space, Queue(), Found());
      n := count;
    }

    method Clear()
      requires visited.Length == BUSES
      modifies visited
      ensures forall b :: 0 <= b < BUSES ==> !visited[b]
    {
      for b := 0 to BUSES
        invariant forall c :: 0 <= c < b ==> !visited[c]
      {
        visited[b] := false;
      }
    }
  }

  lemma Starts(space: Space, queue: seq<Octet>)
    requires queue == [0]
    ensures QueueOk(space, queue) && FoundOk(space, queue, [], 0, 0, 0) && Complete(space, queue, [], 0, 0, 0)
  {
    assert ReachableIn(space, 0, 0);
    hide Present;
  }

  lemma BusDone(space: Space, queue: seq<Octet>, i: nat)
    requires i < |queue|
    ensures forall a: Address :: Present(space, a) ==> (Past(queue, i, DEVICES, 0, a) <==> Past(queue, i + 1, 0, 0, a))
  {
    assert queue[..i + 1] == queue[..i] + [queue[i]];
  }

  /** At the end of the queue, a walk that missed nothing behind it has found everything. */
  lemma AllFound(space: Space, queue: seq<Octet>, found: seq<Address>)
    requires QueueOk(space, queue) && FoundOk(space, queue, found, |queue|, 0, 0)
    ensures forall a: Address :: a in found ==> Present(space, a) && Reachable(space, a.bus)
    ensures Distinct(found)
    ensures Complete(space, queue, found, |queue|, 0, 0) ==> !Missed(space, found)
  {
    hide Present, IsBridge, ReachableIn;
    assert queue[..|queue|] == queue;
    if Complete(space, queue, found, |queue|, 0, 0) {
      forall a: Address | Present(space, a) && Reachable(space, a.bus)
        ensures a in found
      {
        var hops: nat :| ReachableIn(space, a.bus, hops);
        ClosedHoldsAll(space, queue, a.bus, hops);
      }
    }
  }

  lemma QueueDistinct(space: Space, queue: seq<Octet>)
    requires QueueOk(space, queue)
    ensures Distinct(queue)
  {
  }

  lemma RoomForOne(queue: seq<Octet>, bus: Octet)
    requires Distinct(queue) && bus !in queue
    ensures |queue| < BUSES
  {
    var s: seq<int> := queue + [bus];
    AtMost(s, BUSES);
  }
}
