/** The per-pin table of driver instances (`RCSwitch* senders[TOTAL_PINS]`
    or `receivers[TOTAL_PINS]`): each pin holds at most one instance, an
    attach creates one only when the slot is empty, and a detach destroys
    it and clears the slot. `next` stands for the allocator: it is the
    handle the next `new RCSwitch()` returns. */
module Registry {
  import opened Bytes
  import opened Driver

  datatype Registry = Registry(slots: seq<Option<Handle>>, next: Handle)

  predicate Attached(r: Registry, pin: nat) {
    pin < |r.slots| && r.slots[pin].Some?
  }

  /** The table invariant: at most 255 pins (the handlers count pins with a
      `byte`), every instance in use was created before `next`, and no two
      pins share an instance. */
  predicate Valid(r: Registry) {
    && |r.slots| <= 255
    && (forall p | 0 <= p < |r.slots| && r.slots[p].Some? :: r.slots[p].value < r.next)
    && (forall p, q | 0 <= p < |r.slots| && 0 <= q < |r.slots| && p != q && r.slots[p].Some? && r.slots[q].Some? ::
          r.slots[p].value != r.slots[q].value)
  }

  /** The zero-initialised table of a freshly constructed handler. */
  function Empty(capacity: nat): (r: Registry)
    requires capacity <= 255
    ensures Valid(r) && |r.slots| == capacity
    ensures forall p :: !Attached(r, p)
  {
    Registry(seq(capacity, _ => None), 0)
  }

  datatype Acquired = Acquired(reg: Registry, handle: Handle, created: bool)

  /** The create-or-reuse step of `attach`: an empty slot gets a new
      instance, an occupied one keeps its instance. */
  function Acquire(r: Registry, pin: nat): (a: Acquired)
    requires Valid(r) && pin < |r.slots|
    ensures Valid(a.reg) && |a.reg.slots| == |r.slots|
    ensures a.reg.slots[pin] == Some(a.handle)
    ensures forall p | 0 <= p < |r.slots| && p != pin :: a.reg.slots[p] == r.slots[p]
    ensures a.created <==> !Attached(r, pin)
    ensures !a.created ==> a.reg == r
    ensures a.created ==> forall p | 0 <= p < |r.slots| && r.slots[p].Some? :: r.slots[p].value != a.handle
  {
    match r.slots[pin]
    case Some(h) => Acquired(r, h, false)
    case None => Acquired(Registry(r.slots[pin := Some(r.next)], r.next + 1), r.next, true)
  }

  /** A new table together with the driver calls that produced it. */
  datatype Step = Step(reg: Registry, calls: seq<DriverCall>)

  datatype Released = Released(reg: Registry, freed: Option<Handle>)

  /** The destroy-and-clear step of `detach`; a no-op on an empty slot. */
  function Release(r: Registry, pin: nat): (d: Released)
    requires Valid(r) && pin < |r.slots|
    ensures Valid(d.reg) && |d.reg.slots| == |r.slots| && d.reg.next == r.next
    ensures !Attached(d.reg, pin)
    ensures d.freed == r.slots[pin]
    ensures forall p | 0 <= p < |r.slots| && p != pin :: d.reg.slots[p] == r.slots[p]
    ensures !Attached(r, pin) ==> d.reg == r
  {
    match r.slots[pin]
    case None => Released(r, None)
    case Some(h) => Released(Registry(r.slots[pin := None], r.next), Some(h))
  }

  /** Attaching an empty pin and detaching it again restores the table and
      destroys exactly the instance the attach created. */
  lemma AcquireThenRelease(r: Registry, pin: nat)
    requires Valid(r) && pin < |r.slots| && !Attached(r, pin)
    ensures Release(Acquire(r, pin).reg, pin).reg.slots == r.slots
    ensures Release(Acquire(r, pin).reg, pin).freed == Some(Acquire(r, pin).handle)
  {
    var a := Acquire(r, pin);
    var d := Release(a.reg, pin);
    assert d.reg.slots == r.slots[pin := None];
    assert r.slots[pin := None] == r.slots;
  }

  /** A second attach of the same pin reuses the first one's instance. */
  lemma AcquireIdempotent(r: Registry, pin: nat)
    requires Valid(r) && pin < |r.slots|
    ensures var a := Acquire(r, pin);
      Acquire(a.reg, pin) == Acquired(a.reg, a.handle, false)
  {
  }

  /** The `reset()` loop from pin `from` on: every eligible pin is
      detached, in ascending pin order. */
  function ReleaseFrom(r: Registry, eligible: set<nat>, from: nat): (d: Registry)
    requires Valid(r) && from <= |r.slots|
    ensures Valid(d) && |d.slots| == |r.slots| && d.next == r.next
    ensures forall p | 0 <= p < |r.slots| ::
      d.slots[p] == (if from <= p && p in eligible then None else r.slots[p])
    decreases |r.slots| - from
  {
    if from == |r.slots| then r
    else if from in eligible then ReleaseFrom(Release(r, from).reg, eligible, from + 1)
    else ReleaseFrom(r, eligible, from + 1)
  }

  datatype Entry = Entry(pin: nat, handle: Handle)

  /** `f` lists the occupied eligible slots from pin `from` on, with
      their instances, in strictly ascending pin order, and misses none. */
  predicate Enumerates(r: Registry, eligible: set<nat>, from: nat, f: seq<Entry>) {
    && (forall i | 0 <= i < |f| ::
          && from <= f[i].pin < |r.slots|
          && f[i].pin in eligible
          && r.slots[f[i].pin] == Some(f[i].handle))
    && (forall i | 0 <= i < |f| - 1 :: f[i].pin < f[i + 1].pin)
    && (forall p | from <= p < |r.slots| && p in eligible && r.slots[p].Some? :: Lists(f, p))
  }

  /** The occupied eligible slots from pin `from` on: the instances the
      `reset()` loop destroys, and the receivers the `report()` loop
      polls. */
  function EntriesFrom(r: Registry, eligible: set<nat>, from: nat): (f: seq<Entry>)
    requires from <= |r.slots|
    ensures Enumerates(r, eligible, from, f)
    decreases |r.slots| - from
  {
    if from == |r.slots| then []
    else
      var rest := EntriesFrom(r, eligible, from + 1);
      if from in eligible && r.slots[from].Some? then
        EnumeratesCons(r, eligible, from, rest);
        [Entry(from, r.slots[from].value)] + rest
      else
        EnumeratesSkip(r, eligible, from, rest);
        rest
  }

  /** An occupied eligible slot followed by the listing of the later ones
      lists the slots from its pin on. */
  lemma EnumeratesCons(r: Registry, eligible: set<nat>, from: nat, rest: seq<Entry>)
    requires from < |r.slots| && from in eligible && r.slots[from].Some?
    requires Enumerates(r, eligible, from + 1, rest)
    ensures Enumerates(r, eligible, from, [Entry(from, r.slots[from].value)] + rest)
  {
    var x := Entry(from, r.slots[from].value);
    var f := [x] + rest;
    assert f[0] == x && forall i | 1 <= i < |f| :: f[i] == rest[i - 1];
    forall p | from <= p < |r.slots| && p in eligible && r.slots[p].Some?
      ensures Lists(f, p)
    {
      ListsCons(x, rest, p);
    }
  }

  /** A slot that is free or not eligible adds nothing to the listing. */
  lemma EnumeratesSkip(r: Registry, eligible: set<nat>, from: nat, rest: seq<Entry>)
    requires from < |r.slots| && !(from in eligible && r.slots[from].Some?)
    requires Enumerates(r, eligible, from + 1, rest)
    ensures Enumerates(r, eligible, from, rest)
  {
  }

  /** Some entry of `f` is for pin `p`. */
  predicate Lists(f: seq<Entry>, p: nat) {
    exists i :: 0 <= i < |f| && f[i].pin == p
  }

  lemma ListsCons(x: Entry, rest: seq<Entry>, p: nat)
    requires Lists(rest, p) || x.pin == p
    ensures Lists([x] + rest, p)
  {
    if x.pin == p {
      assert ([x] + rest)[0] == x;
    } else {
      var i :| 0 <= i < |rest| && rest[i].pin == p;
      assert ([x] + rest)[i + 1] == rest[i];
    }
  }

  datatype ReleasedAll = ReleasedAll(reg: Registry, freed: seq<Entry>)

  /** `reset()`: every eligible pin detached, in ascending pin order, and
      the instances destroyed on the way. */
  function ReleaseAll(r: Registry, eligible: set<nat>): (d: ReleasedAll)
    requires Valid(r)
    ensures Valid(d.reg) && |d.reg.slots| == |r.slots|
    ensures forall p | 0 <= p < |r.slots| :: d.reg.slots[p] == (if p in eligible then None else r.slots[p])
    ensures forall p | p in eligible :: !Attached(d.reg, p)
    ensures forall i | 0 <= i < |d.freed| :: d.freed[i].pin in eligible && d.freed[i].pin < |r.slots| && r.slots[d.freed[i].pin] == Some(d.freed[i].handle)
    ensures forall p | 0 <= p < |r.slots| && p in eligible && r.slots[p].Some? :: Lists(d.freed, p)
    ensures Enumerates(r, eligible, 0, d.freed)
  {
    ReleasedAll(ReleaseFrom(r, eligible, 0), EntriesFrom(r, eligible, 0))
  }
}
