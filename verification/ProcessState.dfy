/** The table from handles to remote proxies, with lookups racing the destruction of proxies. Proxies are
    numbered in the order they are made; a proxy lives while its weak count is positive, and its destructor
    takes the table lock once, to expunge its entry, before its memory goes away. */
module ProcessState {
  import opened Basics

  datatype Phase = Live | Dying | Expunged

  datatype Proxy = Proxy(handle: nat, weak: nat, phase: Phase)

  datatype Table = Table(slots: seq<Option<nat>>, proxies: seq<Proxy>)

  /** The table grown, if need be, to hold an entry for the handle. */
  function Grown(slots: seq<Option<nat>>, handle: nat): (r: seq<Option<nat>>)
    ensures |r| == if |slots| > handle then |slots| else handle + 1
    ensures forall h :: 0 <= h < |slots| ==> r[h] == slots[h]
    ensures forall h :: |slots| <= h < |r| ==> r[h] == None
  {
    if |slots| <= handle then slots + seq(handle + 1 - |slots|, _ => None) else slots
  }

  /** attemptIncWeak: the count of the entry's proxy is still positive. */
  predicate Usable(t: Table, entry: Option<nat>) {
    entry.Some? && entry.value < |t.proxies| && t.proxies[entry.value].weak > 0
  }

  /** A lookup under the lock. `dead` is the answer to the ping sent before a strong proxy for handle 0 is
      made; the result holds one reference. */
  function GetProxy(t: Table, handle: nat, strong: bool, dead: bool): (Table, Option<nat>) {
    var slots := Grown(t.slots, handle);
    var entry := slots[handle];
    if Usable(t, entry) then
      var p := t.proxies[entry.value];
      (Table(slots, t.proxies[entry.value := p.(weak := p.weak + 1)]), entry)
    else if strong && handle == 0 && dead then (t.(slots := slots), None)
    else
      var id := |t.proxies|;
      (Table(slots[handle := Some(id)], t.proxies + [Proxy(handle, 1, Live)]), Some(id))
  }

  /** expungeHandle: an entry that has been replaced meanwhile is left alone. */
  function Expunge(t: Table, id: nat): Table
    requires id < |t.proxies|
  {
    var p := t.proxies[id];
    var slots := Grown(t.slots, p.handle);
    Table(if slots[p.handle] == Some(id) then slots[p.handle := None] else slots,
          t.proxies[id := p.(phase := Expunged)])
  }

  /** References are copied and dropped without the lock; dropping the last one starts the destructor. */
  function AddRef(t: Table, id: nat): Table
    requires id < |t.proxies|
  {
    var p := t.proxies[id];
    if p.weak == 0 then t else t.(proxies := t.proxies[id := p.(weak := p.weak + 1)])
  }

  function DropRef(t: Table, id: nat): Table
    requires id < |t.proxies|
  {
    var p := t.proxies[id];
    if p.weak == 0 then t
    else t.(proxies := t.proxies[id := p.(weak := p.weak - 1, phase := if p.weak == 1 then Dying else p.phase)])
  }

  datatype Event = Lookup(handle: nat, strong: bool, dead: bool) | Copy(id: nat) | Drop(id: nat) | Destructor(id: nat)

  function Next(t: Table, e: Event): Table {
    match e
    case Lookup(h, s, d) => GetProxy(t, h, s, d).0
    case Copy(i) => if i < |t.proxies| then AddRef(t, i) else t
    case Drop(i) => if i < |t.proxies| then DropRef(t, i) else t
    case Destructor(i) => if i < |t.proxies| && t.proxies[i].phase == Dying then Expunge(t, i) else t
  }

  function Run(t: Table, es: seq<Event>): Table
    decreases |es|
  {
    if es == [] then t else Run(Next(t, es[0]), es[1..])
  }

  ghost predicate Inv(t: Table) {
    && (forall h :: 0 <= h < |t.slots| && t.slots[h].Some? ==> SlotOk(t, h))
    && (forall i :: 0 <= i < |t.proxies| ==> ProxyOk(t, i))
  }

  /** The entry's proxy is for that handle, and its memory is still there. */
  ghost predicate SlotOk(t: Table, h: nat)
    requires h < |t.slots| && t.slots[h].Some?
  {
    var i := t.slots[h].value;
    i < |t.proxies| && t.proxies[i].handle == h && t.proxies[i].phase != Expunged
  }

  /** A proxy that can still be referred to is the one in the table. */
  ghost predicate ProxyOk(t: Table, i: nat)
    requires i < |t.proxies|
  {
    var p := t.proxies[i];
    (p.phase == Live <==> p.weak > 0) && (p.weak > 0 ==> p.handle < |t.slots| && t.slots[p.handle] == Some(i))
  }

  lemma LookupKeepsInv(t: Table, h: nat, s: bool, d: bool)
    requires Inv(t)
    ensures Inv(GetProxy(t, h, s, d).0)
  {
    var u := GetProxy(t, h, s, d).0;
    var slots := Grown(t.slots, h);
    forall k | 0 <= k < |u.slots| && u.slots[k].Some? ensures SlotOk(u, k) {
      if k < |t.slots| && t.slots[k].Some? { assert SlotOk(t, k); }
    }
    forall i | 0 <= i < |u.proxies| ensures ProxyOk(u, i) {
      if i < |t.proxies| {
        assert ProxyOk(t, i);
        if t.proxies[i].weak > 0 && t.proxies[i].handle == h {
          assert slots[h] == Some(i);
        }
      }
    }
  }

  lemma RefKeepsInv(t: Table, u: Table, id: nat)
    requires Inv(t) && id < |t.proxies| && (u == AddRef(t, id) || u == DropRef(t, id))
    ensures Inv(u)
  {
    forall k | 0 <= k < |u.slots| && u.slots[k].Some? ensures SlotOk(u, k) {
      assert SlotOk(t, k);
      assert ProxyOk(t, id);
    }
    forall i | 0 <= i < |u.proxies| ensures ProxyOk(u, i) {
      assert ProxyOk(t, i);
    }
  }

  lemma ExpungeKeepsInv(t: Table, id: nat)
    requires Inv(t) && id < |t.proxies| && t.proxies[id].phase == Dying
    ensures Inv(Expunge(t, id))
  {
    var u := Expunge(t, id);
    assert ProxyOk(t, id);
    forall k | 0 <= k < |u.slots| && u.slots[k].Some? ensures SlotOk(u, k) {
      assert SlotOk(t, k);
    }
    forall i | 0 <= i < |u.proxies| ensures ProxyOk(u, i) {
      assert ProxyOk(t, i);
    }
  }

  lemma NextKeepsInv(t: Table, e: Event)
    requires Inv(t)
    ensures Inv(Next(t, e))
  {
    match e
    case Lookup(h, s, d) => LookupKeepsInv(t, h, s, d);
    case Copy(i) => if i < |t.proxies| { RefKeepsInv(t, AddRef(t, i), i); }
    case Drop(i) => if i < |t.proxies| { RefKeepsInv(t, DropRef(t, i), i); }
    case Destructor(i) => if i < |t.proxies| && t.proxies[i].phase == Dying { ExpungeKeepsInv(t, i); }
  }

  lemma {:induction false} RunKeepsInv(t: Table, es: seq<Event>)
    requires Inv(t)
    ensures Inv(Run(t, es))
    decreases |es|
  {
    if es != [] {
      NextKeepsInv(t, es[0]);
      RunKeepsInv(Next(t, es[0]), es[1..]);
    }
  }

  /** In every run: an entry never refers to a proxy whose expunge is over, so the count a lookup tests is
      still there; and each handle has at most one proxy with references. */
  lemma TableUnderAnyInterleaving(es: seq<Event>)
    ensures var t := Run(Table([], []), es);
            && (forall h :: 0 <= h < |t.slots| && t.slots[h].Some? ==>
                  t.slots[h].value < |t.proxies| && t.proxies[t.slots[h].value].phase != Expunged
                  && t.proxies[t.slots[h].value].handle == h)
            && (forall i, j :: 0 <= i < j < |t.proxies| && t.proxies[i].weak > 0 && t.proxies[j].weak > 0 ==>
                  t.proxies[i].handle != t.proxies[j].handle)
  {
    var t := Run(Table([], []), es);
    RunKeepsInv(Table([], []), es);
    forall h | 0 <= h < |t.slots| && t.slots[h].Some?
      ensures t.slots[h].value < |t.proxies| && t.proxies[t.slots[h].value].phase != Expunged
              && t.proxies[t.slots[h].value].handle == h
    {
      assert SlotOk(t, h);
    }
    forall i, j | 0 <= i < j < |t.proxies| && t.proxies[i].weak > 0 && t.proxies[j].weak > 0
      ensures t.proxies[i].handle != t.proxies[j].handle
    {
      assert ProxyOk(t, i) && ProxyOk(t, j);
    }
  }

  ghost predicate HeldFor(t: Table, handle: nat, i: nat) {
    i < |t.proxies| && t.proxies[i].handle == handle && t.proxies[i].weak > 0
  }

  /** A lookup gives the proxy of that handle that anybody still holds, with one more reference, and otherwise a
      new one with a single reference, which the table then has; no other proxy's count and no other entry
      changes. Exactly a strong lookup of handle 0 with a dead context manager that nobody holds gives none. */
  lemma LookupFindsHeld(t: Table, handle: nat, strong: bool, dead: bool)
    requires Inv(t)
    ensures var (u, r) := GetProxy(t, handle, strong, dead);
            && (r.None? <==> handle == 0 && strong && dead && forall i: nat :: !HeldFor(t, handle, i))
            && (r.None? ==> u.proxies == t.proxies)
            && (forall i: nat :: HeldFor(t, handle, i) ==>
                  r == Some(i) && u.proxies == t.proxies[i := t.proxies[i].(weak := t.proxies[i].weak + 1)])
            && (r.Some? && (forall i: nat :: !HeldFor(t, handle, i)) ==>
                  r == Some(|t.proxies|) && u.proxies == t.proxies + [Proxy(handle, 1, Live)])
            && handle < |u.slots| && (r.Some? ==> u.slots[handle] == r)
            && (forall h :: 0 <= h < |t.slots| && h != handle ==> h < |u.slots| && u.slots[h] == t.slots[h])
  {
    forall i: nat | HeldFor(t, handle, i) ensures GetProxy(t, handle, strong, dead).1 == Some(i) {
      assert ProxyOk(t, i);
    }
    if handle < |t.slots| && t.slots[handle].Some? {
      assert SlotOk(t, handle);
      if Usable(t, t.slots[handle]) { assert HeldFor(t, handle, t.slots[handle].value); }
    }
  }

  /** Expunging a proxy leaves every held proxy findable, its own replacement included. */
  lemma ExpungeSparesReplacement(t: Table, id: nat, i: nat)
    requires Inv(t) && id < |t.proxies| && t.proxies[id].phase == Dying
    requires i < |t.proxies| && t.proxies[i].weak > 0
    ensures var u := Expunge(t, id);
            && t.proxies[i].handle < |u.slots| && u.slots[t.proxies[i].handle] == Some(i)
            && u.proxies == t.proxies[id := t.proxies[id].(phase := Expunged)]
            && forall h :: 0 <= h < |u.slots| ==> u.slots[h] != Some(id)
  {
    ExpungeKeepsInv(t, id);
    forall h | 0 <= h < |Expunge(t, id).slots| ensures Expunge(t, id).slots[h] != Some(id) {
      if Expunge(t, id).slots[h].Some? { assert SlotOk(Expunge(t, id), h); }
    }
    assert ProxyOk(t, i) && ProxyOk(t, id);
    assert ProxyOk(Expunge(t, id), i);
  }

  /** A remote proxy, as far as its reference counts go. */
  class BpProxy {
    const handle: nat
    var weak: nat
    ghost const id: nat
    ghost var phase: Phase

    constructor (h: nat, ghost n: nat)
      ensures View() == Proxy(h, 1, Live) && id == n
    {
      handle, id, weak, phase := h, n, 1, Live;
    }

    ghost function View(): Proxy
      reads this
    {
      Proxy(handle, weak, phase)
    }

    method AttemptIncWeak() returns (ok: bool)
      modifies `weak
      ensures ok == (old(weak) > 0) && weak == old(weak) + if ok then 1 else 0
    {
      ok := weak > 0;
      if ok { weak := weak + 1; }
    }

    method IncWeak()
      modifies `weak
      ensures weak == old(weak) + 1
    {
      weak := weak + 1;
    }

    /** The count of a reference taken and given back, never the last one. */
    method DecWeak()
      requires weak > 1
      modifies `weak
      ensures weak == old(weak) - 1
    {
      weak := weak - 1;
    }
  }

  /** The process-wide table; each method is one critical section under the table lock. */
  class HandleTable {
    var handleToObject: seq<BpProxy?>
    ghost var proxies: seq<BpProxy>

    ghost predicate Valid()
      reads this, proxies
    {
      && (forall i :: 0 <= i < |proxies| ==> proxies[i].id == i)
      && (forall h :: 0 <= h < |handleToObject| && handleToObject[h] != null ==> handleToObject[h] in proxies)
    }

    ghost function SlotView(p: BpProxy?): Option<nat> {
      if p == null then None else Some(p.id)
    }

    ghost function View(): Table
      reads this, proxies
    {
      Table(seq(|handleToObject|, h requires 0 <= h < |handleToObject| reads this => SlotView(handleToObject[h])),
            seq(|proxies|, i requires 0 <= i < |proxies| reads this, proxies => proxies[i].View()))
    }

    constructor ()
      ensures Valid() && View() == Table([], [])
    {
      handleToObject, proxies := [], [];
    }

    method LookupHandleLocked(handle: nat)
      requires Valid()
      modifies `handleToObject
      ensures Valid() && handle < |handleToObject|
      ensures View() == Table(Grown(old(View()).slots, handle), old(View()).proxies)
    {
      var n := |handleToObject|;
      if n <= handle {
        handleToObject := handleToObject + seq(handle + 1 - n, _ => null);
      }
      assert View().slots == Grown(old(View()).slots, handle);
    }

    /** Another reference to the proxy in the entry, if that proxy has any left. */
    method Share(handle: nat) returns (b: BpProxy?)
      requires Valid() && handle < |handleToObject|
      modifies proxies
      ensures Valid()
      ensures Usable(old(View()), old(View()).slots[handle]) <==> b != null
      ensures b != null ==> b in proxies && b == handleToObject[handle]
                            && View().slots == old(View()).slots
                            && View().proxies == old(View()).proxies[b.id := old(b.View()).(weak := old(b.weak) + 1)]
      ensures b == null ==> View() == old(View())
    {
      b := handleToObject[handle];
      if b != null {
        ghost var i: nat :| i < |proxies| && proxies[i] == b;
        var ok := b.AttemptIncWeak();
        if ok {
          b.IncWeak();
          b.DecWeak();
          assert View().proxies == old(View()).proxies[b.id := old(b.View()).(weak := old(b.weak) + 1)];
        } else {
          b := null;
          assert View().proxies == old(View()).proxies;
        }
      }
    }

    /** A new proxy put into the entry. */
    method Install(handle: nat) returns (b: BpProxy)
      requires Valid() && handle < |handleToObject|
      modifies this
      ensures Valid() && b in proxies && b.id == |old(proxies)| && fresh(b) && proxies == old(proxies) + [b]
      ensures View() == Table(old(View()).slots[handle := Some(|old(proxies)|)],
                              old(View()).proxies + [Proxy(handle, 1, Live)])
    {
      b := new BpProxy(handle, |proxies|);
      handleToObject := handleToObject[handle := b];
      proxies := proxies + [b];
      assert View().slots == old(View()).slots[handle := Some(|old(proxies)|)];
      assert View().proxies == old(View()).proxies + [Proxy(handle, 1, Live)];
    }

    method GetStrongProxyForHandle(handle: nat, dead: bool) returns (b: BpProxy?)
      requires Valid()
      modifies this, proxies
      ensures Valid() && (b != null ==> b in proxies)
      ensures (View(), SlotView(b)) == GetProxy(old(View()), handle, true, dead)
    {
      LookupHandleLocked(handle);
      b := Share(handle);
      if b == null {
        if handle == 0 && dead {
          return null;
        }
        b := Install(handle);
      }
    }

    method GetWeakProxyForHandle(handle: nat) returns (b: BpProxy?)
      requires Valid()
      modifies this, proxies
      ensures Valid() && (b != null ==> b in proxies)
      ensures forall dead :: (View(), SlotView(b)) == GetProxy(old(View()), handle, false, dead)
    {
      LookupHandleLocked(handle);
      b := Share(handle);
      if b == null {
        b := Install(handle);
      }
    }

    method ExpungeHandle(handle: nat, binder: BpProxy)
      requires Valid() && binder in proxies && binder.handle == handle
      modifies this, binder`phase
      ensures Valid() && View() == Expunge(old(View()), binder.id)
    {
      ghost var i: nat :| i < |proxies| && proxies[i] == binder;
      LookupHandleLocked(handle);
      if handleToObject[handle] == binder {
        handleToObject := handleToObject[handle := null];
      }
      binder.phase := Expunged;
      assert View().slots == Expunge(old(View()), binder.id).slots;
      assert View().proxies == Expunge(old(View()), binder.id).proxies;
    }
  }
}
