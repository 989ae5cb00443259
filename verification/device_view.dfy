/** A device view (`DevicetrackerView`): an ordered list of device keys and a
    presence map answering "is this device in the view" without scanning the
    list. The device tracker drives it through three entry points, filtered
    by the view's two callbacks; readers run workers over the list. Each
    operation is atomic here: the view's lock is not modelled. */
module DeviceView {
  import opened SeqLemmas

  /** A device key. The source's key is an opaque value compared only for
      equality and order in a map; a natural number stands in for it. */
  type Key = nat

  /** The view's filtering policy: the device key, and the two callbacks
      deciding membership for new and for changed devices. */
  datatype Callbacks<-D> = Callbacks(key: D -> Key, newCb: D -> bool, updateCb: D -> bool)

  /** The view's state: its id, its description, the device list, the
      presence map, and the `list_sz` field `pre_serialize` last wrote. */
  datatype View = View(id: string, description: string, list: seq<Key>, presence: map<Key, bool>,
                       size: nat)

  /** No key occurs twice in `s`. */
  predicate NoDup(s: seq<Key>)
    decreases |s|
  {
    s == [] || (s[0] !in s[1..] && NoDup(s[1..]))
  }

  /** The pairing of list and map: every key of the list is in the map,
      set, and the map holds nothing else; no key is listed twice. */
  ghost predicate Valid(v: View) {
    && NoDup(v.list)
    && (forall k :: k in v.presence <==> k in v.list)
    && (forall k :: k in v.presence ==> v.presence[k])
  }

  /** The presence test the map exists for. */
  predicate Member(v: View, k: Key) {
    k in v.presence && v.presence[k]
  }

  /** Under the pairing, the map answers exactly what a scan of the list would. */
  lemma MemberIsListed(v: View, k: Key)
    requires Valid(v)
    ensures Member(v, k) <==> k in v.list
  {
  }

  /** A freshly constructed view, before any device is offered to it. */
  function Empty(id: string, description: string): (r: View)
    ensures Valid(r) && r.list == [] && r.id == id && r.description == description
  {
    View(id, description, [], map[], 0)
  }

  /** `s` with its first `k` taken out, as a linear scan and erase does it. */
  function RemoveFirst(s: seq<Key>, k: Key): (r: seq<Key>)
    ensures k !in s ==> r == s
    ensures k in s ==> |r| == |s| - 1
    decreases |s|
  {
    if s == [] then []
    else if s[0] == k then s[1..]
    else [s[0]] + RemoveFirst(s[1..], k)
  }

  /** Erasing the first occurrence takes exactly one `k` away, if there is
      one, and keeps every other element. */
  lemma {:induction false} RemoveFirstCount(s: seq<Key>, k: Key)
    ensures multiset(RemoveFirst(s, k)) == multiset(s) - multiset{k}
    decreases |s|
  {
    if s != [] {
      assert s == [s[0]] + s[1..];
      if s[0] != k {
        RemoveFirstCount(s[1..], k);
      }
    }
  }

  /** `s` with every `k` taken out, the rest in order. */
  function Without(s: seq<Key>, k: Key): (r: seq<Key>)
    ensures forall x :: x in r <==> x in s && x != k
    decreases |s|
  {
    if s == [] then [] else (if s[0] == k then [] else [s[0]]) + Without(s[1..], k)
  }

  lemma {:induction false} WithoutAbsent(s: seq<Key>, k: Key)
    requires k !in s
    ensures Without(s, k) == s
    decreases |s|
  {
    if s != [] {
      assert k !in s[1..] by { assert forall x :: x in s[1..] ==> x in s; }
      WithoutAbsent(s[1..], k);
      assert s == [s[0]] + s[1..];
    }
  }

  /** On a list without duplicates, erasing the first occurrence erases them
      all, keeping the others in their relative order. */
  lemma {:induction false} RemoveFirstIsWithout(s: seq<Key>, k: Key)
    requires NoDup(s)
    ensures RemoveFirst(s, k) == Without(s, k)
    decreases |s|
  {
    if s != [] {
      if s[0] == k {
        WithoutAbsent(s[1..], k);
      } else {
        RemoveFirstIsWithout(s[1..], k);
      }
    }
  }

  lemma {:induction false} NoDupWithout(s: seq<Key>, k: Key)
    requires NoDup(s)
    ensures NoDup(Without(s, k))
    decreases |s|
  {
    if s != [] {
      NoDupWithout(s[1..], k);
      var t := Without(s[1..], k);
      if s[0] != k {
        assert ([s[0]] + t)[1..] == t;
      } else {
        assert [] + t == t;
      }
    }
  }

  lemma {:induction false} NoDupSnoc(s: seq<Key>, k: Key)
    requires NoDup(s) && k !in s
    ensures NoDup(s + [k])
    decreases |s|
  {
    if s == [] {
      assert [] + [k] == [k];
      assert [k][1..] == [];
    } else {
      assert (s + [k])[1..] == s[1..] + [k];
      assert k !in s[1..] by { assert forall x :: x in s[1..] ==> x in s; }
      NoDupSnoc(s[1..], k);
    }
  }

  /** Scanning past an element that is not `k` keeps it in the result. */
  lemma RemoveFirstSkip(s: seq<Key>, i: nat, k: Key)
    requires i < |s| && s[i] != k
    ensures s[..i] + RemoveFirst(s[i..], k) == s[..i + 1] + RemoveFirst(s[i + 1..], k)
  {
    var t := s[i..];
    assert t[0] == s[i] && t[1..] == s[i + 1..];
    assert RemoveFirst(t, k) == [s[i]] + RemoveFirst(s[i + 1..], k);
    AppendAssoc(s[..i], [s[i]], RemoveFirst(s[i + 1..], k));
    assert s[..i] + [s[i]] == s[..i + 1];
  }

  /** The linear scan that erases a device from the list. */
  method EraseFirst(s: seq<Key>, k: Key) returns (r: seq<Key>)
    ensures r == RemoveFirst(s, k)
  {
    var i := 0;
    assert s[i..] == s;
    while i < |s| && s[i] != k
      invariant 0 <= i <= |s|
      invariant RemoveFirst(s, k) == s[..i] + RemoveFirst(s[i..], k)
    {
      RemoveFirstSkip(s, i, k);
      i := i + 1;
    }
    if i == |s| {
      assert s[..i] == s;
      r := s;
    } else {
      assert s[i..][1..] == s[i + 1..];
      r := s[..i] + s[i + 1..];
    }
  }

  /** Put `k` at the end of the list and mark it present, unless it already
      is; the view does not reorder a device it holds. */
  function Admit(v: View, k: Key): View {
    if Member(v, k) then v else v.(list := v.list + [k], presence := v.presence[k := true])
  }

  /** Take `k` out of the list and out of the map. */
  function Evict(v: View, k: Key): View {
    v.(list := RemoveFirst(v.list, k), presence := v.presence - {k})
  }

  lemma AdmitValid(v: View, k: Key)
    ensures Valid(v) ==> Valid(Admit(v, k))
  {
    if Valid(v) && !Member(v, k) {
      NoDupSnoc(v.list, k);
    }
  }

  /** Evicting keeps the pairing, erases every occurrence, and evicting an
      absent key changes nothing. */
  lemma EvictValid(v: View, k: Key)
    ensures Valid(v) ==> Valid(Evict(v, k))
    ensures Valid(v) ==> Evict(v, k).list == Without(v.list, k)
    ensures Valid(v) && !Member(v, k) ==> Evict(v, k) == v
  {
    if Valid(v) {
      RemoveFirstIsWithout(v.list, k);
      NoDupWithout(v.list, k);
      if !Member(v, k) {
        assert v.presence - {k} == v.presence;
      }
    }
  }

  /** `newDevice`: a device the tracker has just created joins the view,
      at the end of the list, exactly when `new_cb` accepts it. */
  function NewDevice<D>(v: View, cb: Callbacks<D>, d: D): (r: View)
    ensures Valid(v) ==> Valid(r)
    ensures Member(r, cb.key(d)) <==> Member(v, cb.key(d)) || cb.newCb(d)
    ensures !cb.newCb(d) || Member(v, cb.key(d)) ==> r == v
    ensures cb.newCb(d) && !Member(v, cb.key(d)) ==> r.list == v.list + [cb.key(d)]
    ensures r.presence - {cb.key(d)} == v.presence - {cb.key(d)}
    ensures r.id == v.id && r.description == v.description
  {
    AdmitValid(v, cb.key(d));
    if cb.newCb(d) then Admit(v, cb.key(d)) else v
  }

  /** `updateDevice`: a changed device is in the view afterwards exactly
      when `update_cb` accepts it. A device that qualifies late is appended;
      one that stops qualifying is erased; a device already where it belongs
      leaves the view as it was. */
  function UpdateDevice<D>(v: View, cb: Callbacks<D>, d: D): (r: View)
    ensures Valid(v) ==> Valid(r)
    ensures Member(r, cb.key(d)) <==> cb.updateCb(d)
    ensures cb.updateCb(d) && Member(v, cb.key(d)) ==> r == v
    ensures cb.updateCb(d) && !Member(v, cb.key(d)) ==> r.list == v.list + [cb.key(d)]
    ensures Valid(v) && !cb.updateCb(d) ==> r.list == Without(v.list, cb.key(d))
    ensures Valid(v) && !cb.updateCb(d) && !Member(v, cb.key(d)) ==> r == v
    ensures r.presence - {cb.key(d)} == v.presence - {cb.key(d)}
    ensures r.id == v.id && r.description == v.description
  {
    var k := cb.key(d);
    AdmitValid(v, k);
    EvictValid(v, k);
    if cb.updateCb(d) then Admit(v, k) else Evict(v, k)
  }

  /** `removeDevice`: a timed-out device leaves the list and the map; the
      other devices keep their order, and removing an absent device changes
      nothing. */
  function RemoveDevice<D>(v: View, cb: Callbacks<D>, d: D): (r: View)
    ensures Valid(v) ==> Valid(r)
    ensures !Member(r, cb.key(d))
    ensures Valid(v) ==> r.list == Without(v.list, cb.key(d))
    ensures Valid(v) && !Member(v, cb.key(d)) ==> r == v
    ensures r.presence - {cb.key(d)} == v.presence - {cb.key(d)}
    ensures r.id == v.id && r.description == v.description
  {
    EvictValid(v, cb.key(d));
    Evict(v, cb.key(d))
  }

  /** Late qualification: an absent device whose update now passes appears
      exactly once, at the end. */
  lemma LateQualification<D>(v: View, cb: Callbacks<D>, d: D)
    requires Valid(v) && !Member(v, cb.key(d)) && cb.updateCb(d)
    ensures var r := UpdateDevice(v, cb, d);
            multiset(r.list)[cb.key(d)] == 1 && r.list[|r.list| - 1] == cb.key(d)
  {
    var k := cb.key(d);
    assert k !in v.list;
    assert multiset(v.list)[k] == 0;
  }

  /** A device first rejected by `new_cb` joins the view once an update
      passes `update_cb`: with key 7, the list goes from `[]` to `[7]`. */
  lemma LateJoinExample(id: string, description: string, accepted: nat -> bool)
    requires !accepted(7)
    ensures var cb := Callbacks((d: nat) => d, accepted, (d: nat) => d == 7);
            var v := NewDevice(Empty(id, description), cb, 7);
            v.list == [] && UpdateDevice(v, cb, 7).list == [7]
  {
    var cb := Callbacks((d: nat) => d, accepted, (d: nat) => d == 7);
    var v := NewDevice(Empty(id, description), cb, 7);
    assert v.list == [];
    assert [] + [7] == [7];
  }

  /** Removing the middle device of `[1, 2, 3]` leaves `[1, 3]` and no
      presence entry for it. */
  lemma RemoveMiddleExample(cb: Callbacks<nat>)
    requires cb.key(2) == 2
    ensures var v := View("all", "", [1, 2, 3], map[1 := true, 2 := true, 3 := true], 0);
            var r := RemoveDevice(v, cb, 2);
            r.list == [1, 3] && 2 !in r.presence && r.presence.Keys == {1, 3}
  {
    var v := View("all", "", [1, 2, 3], map[1 := true, 2 := true, 3 := true], 0);
    assert [1, 2, 3][1..] == [2, 3];
    assert RemoveFirst([2, 3], 2) == [3];
    assert RemoveFirst([1, 2, 3], 2) == [1] + [3];
  }

  /** The view constructor's initial population: `new_cb` replayed over
      every device the tracker already knows, in order. */
  function Populate<D>(v: View, cb: Callbacks<D>, devices: seq<D>): (r: View)
    ensures Valid(v) ==> Valid(r)
    ensures r.id == v.id && r.description == v.description
    decreases |devices|
  {
    if devices == [] then v else Populate(NewDevice(v, cb, devices[0]), cb, devices[1..])
  }

  /** A device key is in the populated view exactly when it was there before
      or some known device with that key passes `new_cb`. */
  lemma {:induction false} PopulateMembers<D>(v: View, cb: Callbacks<D>, devices: seq<D>, k: Key)
    ensures Member(Populate(v, cb, devices), k)
            <==> Member(v, k) || exists i :: 0 <= i < |devices| && cb.key(devices[i]) == k && cb.newCb(devices[i])
    decreases |devices|
  {
    if devices != [] {
      var v1 := NewDevice(v, cb, devices[0]);
      PopulateMembers(v1, cb, devices[1..], k);
      if cb.key(devices[0]) != k {
        assert k in v1.presence <==> k in v.presence by {
          assert v1.presence - {cb.key(devices[0])} == v.presence - {cb.key(devices[0])};
        }
        if k in v.presence {
          assert v1.presence[k] == (v1.presence - {cb.key(devices[0])})[k];
          assert v.presence[k] == (v.presence - {cb.key(devices[0])})[k];
        }
      }
      if exists i :: 0 <= i < |devices| - 1 && cb.key(devices[1..][i]) == k && cb.newCb(devices[1..][i]) {
        var i :| 0 <= i < |devices| - 1 && cb.key(devices[1..][i]) == k && cb.newCb(devices[1..][i]);
        assert devices[1..][i] == devices[i + 1];
      }
      if exists i :: 0 <= i < |devices| && cb.key(devices[i]) == k && cb.newCb(devices[i]) {
        var i :| 0 <= i < |devices| && cb.key(devices[i]) == k && cb.newCb(devices[i]);
        if i > 0 {
          assert devices[1..][i - 1] == devices[i];
        }
      }
    }
  }

  /** `DevicetrackerView(id, description, new_cb, update_cb)` followed by the
      tracker's initial replay over its known devices. */
  function Create<D>(id: string, description: string, cb: Callbacks<D>, devices: seq<D>): (r: View)
    ensures Valid(r) && r.id == id && r.description == description
  {
    Populate(Empty(id, description), cb, devices)
  }

  const UINT32_RANGE: nat := 0x1_0000_0000

  /** `pre_serialize`: write the list's length into the unsigned 32-bit
      `list_sz` field. Nothing else changes. */
  function PreSerialize(v: View): (r: View)
    ensures r.size < UINT32_RANGE
    ensures |v.list| < UINT32_RANGE ==> r.size == |v.list|
    ensures Valid(v) ==> r.size == |v.presence.Keys| % UINT32_RANGE
    ensures r.list == v.list && r.presence == v.presence
    ensures r.id == v.id && r.description == v.description
  {
    ListedKeys(v);
    v.(size := |v.list| % UINT32_RANGE)
  }

  function Elems(s: seq<Key>): set<Key> {
    set x | x in s
  }

  lemma {:induction false} NoDupCard(s: seq<Key>)
    requires NoDup(s)
    ensures |Elems(s)| == |s|
    decreases |s|
  {
    if s != [] {
      NoDupCard(s[1..]);
      assert Elems(s) == {s[0]} + Elems(s[1..]);
      assert s[0] !in Elems(s[1..]);
    }
  }

  /** Under the pairing the map has one key per listed device. */
  lemma ListedKeys(v: View)
    ensures Valid(v) ==> |v.presence.Keys| == |v.list|
  {
    if Valid(v) {
      assert v.presence.Keys == Elems(v.list);
      NoDupCard(v.list);
    }
  }

  /** `doDeviceWork(worker)` as a function of the view: the worker's
      result on the list, and the view as it leaves the call. */
  function DeviceWork(v: View, worker: seq<Key> -> seq<Key>): (View, seq<Key>) {
    (v, worker(v.list))
  }

  /** `doDeviceWork(worker)`: copy the list, then run the worker over the
      copy. The view comes back as it was, and the worker sees exactly the
      list at the moment of the copy. */
  method DoDeviceWork(v: View, worker: seq<Key> -> seq<Key>) returns (result: seq<Key>, after: View)
    ensures result == worker(v.list)
    ensures after == v
    ensures (after, result) == DeviceWork(v, worker)
  {
    var copy: seq<Key> := [];
    var i := 0;
    while i < |v.list|
      invariant 0 <= i <= |v.list|
      invariant copy == v.list[..i]
    {
      copy := copy + [v.list[i]];
      i := i + 1;
    }
    assert copy == v.list;
    result := worker(copy);
    after := v;
  }

  /** `doDeviceWork(worker, vec)`: the worker runs on the caller's vector
      and the view is not consulted at all. */
  function DoDeviceWorkOn(v: View, worker: seq<Key> -> seq<Key>, vec: seq<Key>): (r: (View, seq<Key>))
    ensures r.0 == v
    ensures r.1 == worker(vec)
  {
    (v, worker(vec))
  }

  /** The vector form's result does not depend on the view it is called
      on, and given the view's own list it does what the copying form does. */
  lemma WorkOnCallerVector(v1: View, v2: View, worker: seq<Key> -> seq<Key>, vec: seq<Key>)
    ensures DoDeviceWorkOn(v1, worker, vec).1 == DoDeviceWorkOn(v2, worker, vec).1
    ensures DoDeviceWorkOn(v1, worker, v1.list) == DeviceWork(v1, worker)
  {
  }

  /** What the tracker and the readers do to a view. */
  datatype Event<D> =
    | Created(d: D)
    | Changed(d: D)
    | TimedOut(d: D)
    | Work(worker: seq<Key> -> seq<Key>)
    | Serialize

  function Step<D>(v: View, cb: Callbacks<D>, e: Event<D>): View {
    match e
    case Created(d) => NewDevice(v, cb, d)
    case Changed(d) => UpdateDevice(v, cb, d)
    case TimedOut(d) => RemoveDevice(v, cb, d)
    case Work(w) => DeviceWork(v, w).0
    case Serialize => PreSerialize(v)
  }

  function Run<D>(v: View, cb: Callbacks<D>, trace: seq<Event<D>>): View
    decreases |trace|
  {
    if trace == [] then v else Run(Step(v, cb, trace[0]), cb, trace[1..])
  }

  /** The pairing holds after any sequence of tracker events and reads. */
  lemma {:induction false} RunPreservesValid<D>(v: View, cb: Callbacks<D>, trace: seq<Event<D>>)
    requires Valid(v)
    ensures Valid(Run(v, cb, trace))
    ensures forall k :: Member(Run(v, cb, trace), k) <==> k in Run(v, cb, trace).list
    decreases |trace|
  {
    if trace != [] {
      var v1 := Step(v, cb, trace[0]);
      assert Valid(v1);
      RunPreservesValid(v1, cb, trace[1..]);
    }
  }

  /** The trace with its reads taken out. */
  function Mutations<D>(trace: seq<Event<D>>): seq<Event<D>>
    decreases |trace|
  {
    if trace == [] then []
    else (if trace[0].Work? || trace[0].Serialize? then [] else [trace[0]]) + Mutations(trace[1..])
  }

  /** Two views that agree on everything the tracker's events read and
      write: all but the serialised size. */
  predicate Same(a: View, b: View) {
    a.id == b.id && a.description == b.description && a.list == b.list && a.presence == b.presence
  }

  lemma StepSame<D>(a: View, b: View, cb: Callbacks<D>, e: Event<D>)
    requires Same(a, b)
    ensures Same(Step(a, cb, e), Step(b, cb, e))
  {
  }

  lemma {:induction false} RunSame<D>(a: View, b: View, cb: Callbacks<D>, trace: seq<Event<D>>)
    requires Same(a, b)
    ensures Same(Run(a, cb, trace), Run(b, cb, trace))
    decreases |trace|
  {
    if trace != [] {
      StepSame(a, b, cb, trace[0]);
      RunSame(Step(a, cb, trace[0]), Step(b, cb, trace[0]), cb, trace[1..]);
    }
  }

  /** Reads never change a view's devices: interleaving `doDeviceWork` and
      `pre_serialize` anywhere leaves the id, description, list and presence
      map exactly as the tracker's events alone leave them. */
  lemma {:induction false} ReadsChangeNothing<D>(v: View, cb: Callbacks<D>, trace: seq<Event<D>>)
    ensures Same(Run(v, cb, trace), Run(v, cb, Mutations(trace)))
    decreases |trace|
  {
    if trace != [] {
      var v1 := Step(v, cb, trace[0]);
      if trace[0].Work? || trace[0].Serialize? {
        assert Mutations(trace) == Mutations(trace[1..]);
        assert Same(v1, v);
        RunSame(v1, v, cb, trace[1..]);
        ReadsChangeNothing(v, cb, trace[1..]);
      } else {
        ReadsChangeNothing(v1, cb, trace[1..]);
        var m := [trace[0]] + Mutations(trace[1..]);
        assert Mutations(trace) == m;
        assert m[0] == trace[0] && m[1..] == Mutations(trace[1..]);
      }
    }
  }
}
