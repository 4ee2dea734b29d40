// The bounded queue: what each call does while it holds the mutex, first on sequences, then on the
// ring buffer.

module BoundedQueue {
  import opened Bytes

  datatype Queue<T> = Queue(items: seq<T>, stopped: bool)

  // What one stretch inside the mutex ends in.
  datatype Outcome<T> =
    | MustWait         // the condition does not hold: sleep on the condition variable
    | Accepted         // return true, and notify one consumer
    | Refused          // return false
    | Taken(item: T)   // return the item, and notify one producer
    | Nothing          // return no item

  function PushSection<T>(q: Queue<T>, capacity: nat, item: T): (Outcome<T>, Queue<T>) {
    if !q.stopped && |q.items| >= capacity then (MustWait, q)
    else if q.stopped then (Refused, q)
    else (Accepted, q.(items := q.items + [item]))
  }

  function TryPushSection<T>(q: Queue<T>, capacity: nat, item: T): (Outcome<T>, Queue<T>) {
    if q.stopped || |q.items| == capacity then (Refused, q)
    else (Accepted, q.(items := q.items + [item]))
  }

  function PopSection<T>(q: Queue<T>): (Outcome<T>, Queue<T>) {
    if !q.stopped && |q.items| == 0 then (MustWait, q)
    else if q.items == [] then (Nothing, q)
    else (Taken(q.items[0]), q.(items := q.items[1..]))
  }

  function TryPopSection<T>(q: Queue<T>): (Outcome<T>, Queue<T>) {
    if q.items == [] then (Nothing, q)
    else (Taken(q.items[0]), q.(items := q.items[1..]))
  }

  // ---- the ring buffer ----

  // The place k behind start, in a ring of n places.
  function Place(start: nat, k: nat, n: nat): (place: nat)
    requires start < n && k <= n
    ensures place < n
  {
    if start + k < n then start + k else start + k - n
  }

  function NextIndex(index: nat, n: nat): (next: nat)
    requires index < n
    ensures next == Place(index, 1, n)
  {
    NextIsPlace(index, n);
    (index + 1) % n
  }

  lemma NextIsPlace(index: nat, n: nat)
    requires index < n
    ensures (index + 1) % n == Place(index, 1, n)
  {
  }

  // The values held in the ring's k places behind start.
  function Held<T>(ring: seq<Option<T>>, start: nat, k: nat): seq<T>
    requires start < |ring| && k <= |ring|
    requires forall i :: 0 <= i < k ==> ring[Place(start, i, |ring|)].Some?
  {
    seq(k, i requires 0 <= i < k => ring[Place(start, i, |ring|)].value)
  }

  lemma PlacesShift(start: nat, n: nat)
    requires start < n
    ensures forall i :: 0 <= i < n - 1 ==> Place(NextIndex(start, n), i, n) == Place(start, i + 1, n) != start
    ensures Place(NextIndex(start, n), n - 1, n) == start
    ensures forall i :: 0 < i <= n ==> Place(NextIndex(start, n), i - 1, n) == Place(start, i, n)
  {
    var next := NextIndex(start, n);
    assert next == if start + 1 < n then start + 1 else 0;
    hide NextIndex;
    forall i | 0 <= i < n - 1 ensures Place(next, i, n) == Place(start, i + 1, n) != start {
    }
    forall i | 0 < i <= n ensures Place(next, i - 1, n) == Place(start, i, n) {
    }
  }

  // Dropping the first value leaves the rest in order.
  lemma HeldFirst<T>(ring: seq<Option<T>>, start: nat, k: nat)
    requires start < |ring| && 0 < k <= |ring|
    requires forall i :: 0 <= i < k ==> ring[Place(start, i, |ring|)].Some?
    ensures var rest := ring[start := None];
            && (forall i :: 0 <= i < k - 1 ==> rest[Place(NextIndex(start, |ring|), i, |ring|)].Some?)
            && [ring[Place(start, 0, |ring|)].value] + Held(rest, NextIndex(start, |ring|), k - 1)
               == Held(ring, start, k)
  {
    PlacesShift(start, |ring|);
  }

  class RingQueue<T> {
    const storage: array<Option<T>>
    var readIndex: nat
    var writeIndex: nat
    var size: nat
    var stopped: bool

    // Exactly the places between the two indices hold a value.
    ghost predicate Valid()
      reads this, storage
    {
      && 0 < storage.Length && readIndex < storage.Length && size <= storage.Length
      && writeIndex == Place(readIndex, size, storage.Length)
      && (forall i :: 0 <= i < size ==> storage[Place(readIndex, i, storage.Length)].Some?)
      && (forall i :: size <= i < storage.Length ==> storage[Place(readIndex, i, storage.Length)].None?)
    }

    ghost function View(): Queue<T>
      reads this, storage
      requires Valid()
    {
      Queue(Held(storage[..], readIndex, size), stopped)
    }

    constructor (capacity: nat)
      requires capacity > 0
      ensures Valid() && View() == Queue([], false) && storage.Length == capacity && fresh(storage)
    {
      storage := new Option<T>[capacity](_ => None);
      readIndex, writeIndex, size, stopped := 0, 0, 0, false;
    }

    method Append(item: T)
      requires Valid() && size < storage.Length
      modifies this`writeIndex, this`size, storage
      ensures Valid() && View() == old(View()).(items := old(View()).items + [item])
    {
      ghost var before := View().items;
      storage[writeIndex] := Some(item);
      writeIndex := NextIndex(writeIndex, storage.Length);
      size := size + 1;
      assert storage[Place(readIndex, size - 1, storage.Length)] == Some(item);
      assert View().items == before + [item];
    }

    method RemoveFirst() returns (item: T)
      requires Valid() && size > 0
      modifies this`readIndex, this`size, storage
      ensures Valid() && [item] + View().items == old(View()).items && stopped == old(stopped)
    {
      assert Place(readIndex, 0, storage.Length) == readIndex;
      HeldFirst(storage[..], readIndex, size);
      PlacesShift(readIndex, storage.Length);
      item := storage[readIndex].value;
      storage[readIndex] := None;
      readIndex := NextIndex(readIndex, storage.Length);
      size := size - 1;
    }

    // push, from taking the mutex to releasing it or going to sleep.
    method Push(item: T) returns (outcome: Outcome<T>)
      requires Valid()
      modifies this`writeIndex, this`size, storage
      ensures Valid() && (outcome, View()) == PushSection(old(View()), storage.Length, item)
    {
      if !stopped && !(size < storage.Length) {
        return MustWait;
      }
      if stopped {
        return Refused;
      }
      Append(item);
      return Accepted;
    }

    method TryPush(item: T) returns (outcome: Outcome<T>)
      requires Valid()
      modifies this`writeIndex, this`size, storage
      ensures Valid() && (outcome, View()) == TryPushSection(old(View()), storage.Length, item)
    {
      if stopped || size == storage.Length {
        return Refused;
      }
      Append(item);
      return Accepted;
    }

    method Pop() returns (outcome: Outcome<T>)
      requires Valid()
      modifies this`readIndex, this`size, storage
      ensures Valid() && (outcome, View()) == PopSection(old(View()))
    {
      if !stopped && size == 0 {
        return MustWait;
      }
      if size == 0 {
        return Nothing;
      }
      var item := RemoveFirst();
      assert View().items == ([item] + View().items)[1..];
      return Taken(item);
    }

    method TryPop() returns (outcome: Outcome<T>)
      requires Valid()
      modifies this`readIndex, this`size, storage
      ensures Valid() && (outcome, View()) == TryPopSection(old(View()))
    {
      if size == 0 {
        return Nothing;
      }
      var item := RemoveFirst();
      assert View().items == ([item] + View().items)[1..];
      return Taken(item);
    }

    method Stop()
      requires Valid()
      modifies this`stopped
      ensures Valid() && View() == old(View()).(stopped := true)
    {
      stopped := true;
    }
  }
}
