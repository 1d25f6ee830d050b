/** Console.UpdateMethodList (Base/Console.cs): the registry of console methods.
    Each scene object contributes, per component, the first public method whose
    name starts with "Console_"; the registry indexes those bindings by object
    name and by exposed method name. Dictionaries enumerate in insertion order,
    so the registry keeps its key orders as explicit sequences. */
module Registry {
  import opened Results
  import opened Text
  import MethodHelper

  /** A component: its public methods in reflection order. */
  datatype Component = Component(methods: seq<MethodHelper.Method>)

  /** A scene object: its name and its (non-null) components. */
  datatype HostObject = HostObject(name: string, components: seq<Component>)

  /** ComponentMethod: a method of a component of a named object; the indexes
      say which object of the scene and which of its components. */
  datatype Binding = Binding(owner: string, objectIndex: nat, componentIndex: nat, methodInfo: MethodHelper.Method)

  /** The header that marks a method as a console method. */
  const Header := "Console_"

  /** The name a console method is called by: every header removed. */
  function ExposedName(b: Binding): string {
    Replace(b.methodInfo.name, Header, "")
  }

  // ---------------------------------------------------------------------------
  // The scan

  /** The index of the first method from `i` on whose name starts with the header. */
  function FirstConsoleMethodFrom(methods: seq<MethodHelper.Method>, i: nat): (r: Option<nat>)
    ensures r.Some? ==> i <= r.value < |methods| && StartsWith(methods[r.value].name, Header)
    ensures r.Some? ==> forall j :: i <= j < r.value ==> !StartsWith(methods[j].name, Header)
    ensures r.None? ==> forall j :: i <= j < |methods| ==> !StartsWith(methods[j].name, Header)
    decreases |methods| - i
  {
    if i >= |methods| then None
    else if StartsWith(methods[i].name, Header) then Some(i)
    else FirstConsoleMethodFrom(methods, i + 1)
  }

  /** The one method a component registers: the scan breaks after the first
      console method. */
  function FirstConsoleMethod(methods: seq<MethodHelper.Method>): Option<nat> {
    FirstConsoleMethodFrom(methods, 0)
  }

  /** `b` is the binding for component `ci` of object `oi`. */
  predicate BindsComponent(objects: seq<HostObject>, b: Binding) {
    && b.objectIndex < |objects|
    && var obj := objects[b.objectIndex];
    && b.owner == obj.name
    && b.componentIndex < |obj.components|
    && var methods := obj.components[b.componentIndex].methods;
    && FirstConsoleMethod(methods).Some?
    && b.methodInfo == methods[FirstConsoleMethod(methods).value]
  }

  /** `a` comes before `b` in scan order: by object, then by component. */
  predicate Before(a: Binding, b: Binding) {
    a.objectIndex < b.objectIndex || (a.objectIndex == b.objectIndex && a.componentIndex < b.componentIndex)
  }

  function ComponentBinding(objects: seq<HostObject>, oi: nat, ci: nat): seq<Binding>
    requires oi < |objects| && ci < |objects[oi].components|
  {
    var obj := objects[oi];
    match FirstConsoleMethod(obj.components[ci].methods)
    case None => []
    case Some(j) => [Binding(obj.name, oi, ci, obj.components[ci].methods[j])]
  }

  /** The bindings of the first `n` components of object `oi`, in order. */
  function ScanObject(objects: seq<HostObject>, oi: nat, n: nat): (r: seq<Binding>)
    requires oi < |objects| && n <= |objects[oi].components|
    ensures forall k :: 0 <= k < |r| ==> BindsComponent(objects, r[k]) && r[k].objectIndex == oi && r[k].componentIndex < n
    ensures forall k, l :: 0 <= k < l < |r| ==> Before(r[k], r[l])
  {
    if n == 0 then [] else ScanObject(objects, oi, n - 1) + ComponentBinding(objects, oi, n - 1)
  }

  /** The bindings of the first `n` objects, in scan order. */
  function ScanUpTo(objects: seq<HostObject>, n: nat): (r: seq<Binding>)
    requires n <= |objects|
    ensures forall k :: 0 <= k < |r| ==> BindsComponent(objects, r[k]) && r[k].objectIndex < n
    ensures forall k, l :: 0 <= k < l < |r| ==> Before(r[k], r[l])
  {
    if n == 0 then []
    else ScanUpTo(objects, n - 1) + ScanObject(objects, n - 1, |objects[n - 1].components|)
  }

  /** Every binding the scene offers, in scan order: each is the first console
      method of its component, and no component appears twice. */
  function Scan(objects: seq<HostObject>): (r: seq<Binding>)
    ensures forall k :: 0 <= k < |r| ==> BindsComponent(objects, r[k])
    ensures forall k, l :: 0 <= k < l < |r| ==> Before(r[k], r[l])
  {
    ScanUpTo(objects, |objects|)
  }

  /** Strict scan order leaves at most one binding per component. */
  lemma OnePerComponent(objects: seq<HostObject>)
    ensures var bs := Scan(objects);
      forall k, l :: 0 <= k < l < |bs| ==>
        (bs[k].objectIndex, bs[k].componentIndex) != (bs[l].objectIndex, bs[l].componentIndex)
  {
  }

  /** Some binding in `bs` is for component `ci` of object `oi`. */
  predicate Covers(bs: seq<Binding>, oi: nat, ci: nat) {
    exists k :: 0 <= k < |bs| && bs[k].objectIndex == oi && bs[k].componentIndex == ci
  }

  lemma CoversAppend(a: seq<Binding>, b: seq<Binding>, oi: nat, ci: nat)
    requires Covers(a, oi, ci) || Covers(b, oi, ci)
    ensures Covers(a + b, oi, ci)
  {
    if Covers(a, oi, ci) {
      var k :| 0 <= k < |a| && a[k].objectIndex == oi && a[k].componentIndex == ci;
      assert (a + b)[k] == a[k];
    } else {
      var k :| 0 <= k < |b| && b[k].objectIndex == oi && b[k].componentIndex == ci;
      assert (a + b)[|a| + k] == b[k];
    }
  }

  lemma {:induction false} ScanObjectComplete(objects: seq<HostObject>, oi: nat, n: nat, ci: nat)
    requires oi < |objects| && ci < n <= |objects[oi].components|
    requires FirstConsoleMethod(objects[oi].components[ci].methods).Some?
    ensures Covers(ScanObject(objects, oi, n), oi, ci)
  {
    var prev := ScanObject(objects, oi, n - 1);
    var here := ComponentBinding(objects, oi, n - 1);
    if ci == n - 1 {
      assert here[0].objectIndex == oi && here[0].componentIndex == ci;
      CoversAppend(prev, here, oi, ci);
    } else {
      ScanObjectComplete(objects, oi, n - 1, ci);
      CoversAppend(prev, here, oi, ci);
    }
  }

  lemma {:induction false} ScanUpToComplete(objects: seq<HostObject>, n: nat, oi: nat, ci: nat)
    requires oi < n <= |objects| && ci < |objects[oi].components|
    requires FirstConsoleMethod(objects[oi].components[ci].methods).Some?
    ensures Covers(ScanUpTo(objects, n), oi, ci)
  {
    var prev := ScanUpTo(objects, n - 1);
    var last := ScanObject(objects, n - 1, |objects[n - 1].components|);
    if oi == n - 1 {
      ScanObjectComplete(objects, oi, |objects[oi].components|, ci);
    } else {
      ScanUpToComplete(objects, n - 1, oi, ci);
    }
    CoversAppend(prev, last, oi, ci);
  }

  /** Every component that has a console method is in the scan. */
  lemma ScanComplete(objects: seq<HostObject>, oi: nat, ci: nat)
    requires oi < |objects| && ci < |objects[oi].components|
    requires FirstConsoleMethod(objects[oi].components[ci].methods).Some?
    ensures Covers(Scan(objects), oi, ci)
  {
    ScanUpToComplete(objects, |objects|, oi, ci);
  }

  // ---------------------------------------------------------------------------
  // The two indexes

  /** One object's methods: names in insertion order, and the binding per name. */
  datatype ObjectEntry = ObjectEntry(names: seq<string>, methods: map<string, Binding>)

  /** byObject and byMethod, with their keys in insertion order. */
  datatype Registry = Registry(
    objectNames: seq<string>,
    byObject: map<string, ObjectEntry>,
    methodNames: seq<string>,
    byMethod: map<string, seq<Binding>>)

  const Empty := Registry([], map[], [], map[])

  /** One pass of the inner loop body: the object's entry keeps the first
      binding per name; the method's list gets every binding. */
  function Add(reg: Registry, b: Binding): Registry {
    var n := ExposedName(b);
    var entry := if b.owner in reg.byObject then reg.byObject[b.owner] else ObjectEntry([], map[]);
    var entry' := if n in entry.methods then entry else ObjectEntry(entry.names + [n], entry.methods[n := b]);
    var objectNames := if b.owner in reg.byObject then reg.objectNames else reg.objectNames + [b.owner];
    var list := if n in reg.byMethod then reg.byMethod[n] else [];
    var methodNames := if n in reg.byMethod then reg.methodNames else reg.methodNames + [n];
    Registry(objectNames, reg.byObject[b.owner := entry'], methodNames, reg.byMethod[n := list + [b]])
  }

  /** Registering bindings one after the other, starting from empty indexes. */
  function AddAll(bs: seq<Binding>): Registry
    decreases |bs|
  {
    if |bs| == 0 then Empty else Add(AddAll(bs[..|bs| - 1]), bs[|bs| - 1])
  }

  /** UpdateMethodList: clear both indexes, then register the scene's bindings
      in scan order. */
  function UpdateMethodList(objects: seq<HostObject>): Registry {
    AddAll(Scan(objects))
  }

  // ---------------------------------------------------------------------------
  // Reference descriptions

  predicate NoDups(s: seq<string>) {
    forall i, j :: 0 <= i < j < |s| ==> s[i] != s[j]
  }

  ghost predicate EntryValid(o: string, e: ObjectEntry) {
    && |e.names| > 0 && NoDups(e.names)
    && (forall n :: n in e.methods <==> n in e.names)
    && (forall n :: n in e.methods ==> e.methods[n].owner == o && ExposedName(e.methods[n]) == n)
  }

  /** The registry's invariant: key orders list each key once; every object
      has a method; every method list is non-empty and holds only bindings
      exposed under that name. */
  ghost predicate Valid(reg: Registry) {
    && NoDups(reg.objectNames) && (forall o :: o in reg.byObject <==> o in reg.objectNames)
    && NoDups(reg.methodNames) && (forall n :: n in reg.byMethod <==> n in reg.methodNames)
    && (forall o :: o in reg.byObject ==> EntryValid(o, reg.byObject[o]))
    && (forall n :: n in reg.byMethod ==> |reg.byMethod[n]| > 0)
    && (forall n, k :: n in reg.byMethod && 0 <= k < |reg.byMethod[n]| ==> ExposedName(reg.byMethod[n][k]) == n)
  }

  /** The bindings exposed under name `n`, in order. */
  function Filter(bs: seq<Binding>, n: string): (r: seq<Binding>)
    ensures |r| <= |bs|
    ensures forall k :: 0 <= k < |r| ==> r[k] in bs && ExposedName(r[k]) == n
    ensures r == [] <==> forall j :: 0 <= j < |bs| ==> ExposedName(bs[j]) != n
    decreases |bs|
  {
    if |bs| == 0 then []
    else
      var last := bs[|bs| - 1];
      Filter(bs[..|bs| - 1], n) + (if ExposedName(last) == n then [last] else [])
  }

  predicate Matches(b: Binding, o: string, n: string) {
    b.owner == o && ExposedName(b) == n
  }

  /** The index of the first binding of object `o` exposed under `n`. */
  function FirstIndex(bs: seq<Binding>, o: string, n: string): (r: Option<nat>)
    ensures r.Some? ==> r.value < |bs| && Matches(bs[r.value], o, n)
    ensures r.Some? ==> forall j :: 0 <= j < r.value ==> !Matches(bs[j], o, n)
    ensures r.None? ==> forall j :: 0 <= j < |bs| ==> !Matches(bs[j], o, n)
    decreases |bs|
  {
    if |bs| == 0 then None
    else
      var f := FirstIndex(bs[..|bs| - 1], o, n);
      if f.Some? then f
      else if Matches(bs[|bs| - 1], o, n) then Some(|bs| - 1)
      else None
  }

  function Owners(bs: seq<Binding>): set<string> {
    set k | 0 <= k < |bs| :: bs[k].owner
  }

  /** The distinct elements of `xs` in the order of their first appearance. */
  function Dedup(xs: seq<string>): (r: seq<string>)
    ensures NoDups(r)
    ensures forall x :: x in r <==> x in xs
    decreases |xs|
  {
    if |xs| == 0 then []
    else
      var d := Dedup(xs[..|xs| - 1]);
      assert forall x :: x in xs <==> x in xs[..|xs| - 1] || x == xs[|xs| - 1];
      if xs[|xs| - 1] in d then d else d + [xs[|xs| - 1]]
  }

  /** The owners of the bindings, one per binding, in order. */
  function OwnerSeq(bs: seq<Binding>): (r: seq<string>)
    ensures |r| == |bs| && forall k :: 0 <= k < |bs| ==> r[k] == bs[k].owner
    decreases |bs|
  {
    if |bs| == 0 then [] else OwnerSeq(bs[..|bs| - 1]) + [bs[|bs| - 1].owner]
  }

  /** The exposed names of the bindings, one per binding, in order. */
  function NameSeq(bs: seq<Binding>): (r: seq<string>)
    ensures |r| == |bs| && forall k :: 0 <= k < |bs| ==> r[k] == ExposedName(bs[k])
    decreases |bs|
  {
    if |bs| == 0 then [] else NameSeq(bs[..|bs| - 1]) + [ExposedName(bs[|bs| - 1])]
  }

  /** The exposed names of the bindings that belong to object `o`, in order. */
  function NamesOf(bs: seq<Binding>, o: string): (r: seq<string>)
    ensures |r| <= |bs|
    ensures r == [] <==> o !in OwnerSeq(bs)
    decreases |bs|
  {
    if |bs| == 0 then []
    else
      var b := bs[|bs| - 1];
      NamesOf(bs[..|bs| - 1], o) + (if b.owner == o then [ExposedName(b)] else [])
  }

  // ---------------------------------------------------------------------------
  // The indexes against the reference descriptions

  lemma {:induction false} AddAllValid(bs: seq<Binding>)
    ensures Valid(AddAll(bs))
    decreases |bs|
  {
    if |bs| > 0 {
      AddAllValid(bs[..|bs| - 1]);
      AddValid(AddAll(bs[..|bs| - 1]), bs[|bs| - 1]);
    }
  }

  lemma AddValid(reg: Registry, b: Binding)
    requires Valid(reg)
    ensures Valid(Add(reg, b))
  {
    AddKeepsObjectNames(reg, b);
    AddKeepsMethodNames(reg, b);
    AddKeepsEntries(reg, b);
    AddKeepsLists(reg, b);
  }

  lemma AddKeepsObjectNames(reg: Registry, b: Binding)
    requires Valid(reg)
    ensures var r := Add(reg, b); NoDups(r.objectNames) && (forall o :: o in r.byObject <==> o in r.objectNames)
  {
    if b.owner !in reg.byObject {
      assert forall i :: 0 <= i < |reg.objectNames| ==> reg.objectNames[i] in reg.byObject;
    }
  }

  lemma AddKeepsMethodNames(reg: Registry, b: Binding)
    requires Valid(reg)
    ensures var r := Add(reg, b); NoDups(r.methodNames) && (forall n :: n in r.byMethod <==> n in r.methodNames)
  {
    if ExposedName(b) !in reg.byMethod {
      assert forall i :: 0 <= i < |reg.methodNames| ==> reg.methodNames[i] in reg.byMethod;
    }
  }

  lemma AddKeepsEntries(reg: Registry, b: Binding)
    requires Valid(reg)
    ensures var r := Add(reg, b); forall o :: o in r.byObject ==> EntryValid(o, r.byObject[o])
  {
    var n := ExposedName(b);
    var entry := if b.owner in reg.byObject then reg.byObject[b.owner] else ObjectEntry([], map[]);
    if n !in entry.methods {
      assert forall i :: 0 <= i < |entry.names| ==> entry.names[i] in entry.methods;
    }
    assert EntryValid(b.owner, Add(reg, b).byObject[b.owner]);
  }

  lemma AddKeepsLists(reg: Registry, b: Binding)
    requires Valid(reg)
    ensures var r := Add(reg, b);
      && (forall n :: n in r.byMethod ==> |r.byMethod[n]| > 0)
      && (forall n, k :: n in r.byMethod && 0 <= k < |r.byMethod[n]| ==> ExposedName(r.byMethod[n][k]) == n)
  {
  }

  /** byMethod[n] lists exactly the bindings exposed under n, in order. */
  lemma {:induction false} AddAllByMethod(bs: seq<Binding>)
    ensures var reg := AddAll(bs);
      forall n :: (n in reg.byMethod <==> Filter(bs, n) != []) && (n in reg.byMethod ==> reg.byMethod[n] == Filter(bs, n))
    decreases |bs|
  {
    if |bs| > 0 {
      AddAllByMethod(bs[..|bs| - 1]);
    }
  }

  /** byObject[o][n] is the first binding of o exposed under n; o is a key
      exactly when some binding belongs to it. */
  ghost predicate FirstPerObject(reg: Registry, bs: seq<Binding>) {
    && (forall o :: o in reg.byObject <==> o in Owners(bs))
    && (forall o, n :: o in reg.byObject ==>
          (n in reg.byObject[o].methods <==> FirstIndex(bs, o, n).Some?))
    && (forall o, n :: o in reg.byObject && n in reg.byObject[o].methods ==>
          FirstIndex(bs, o, n).Some? && reg.byObject[o].methods[n] == bs[FirstIndex(bs, o, n).value])
  }

  lemma {:induction false} AddAllByObject(bs: seq<Binding>)
    ensures var reg := AddAll(bs);
      && (forall o :: o in reg.byObject <==> o in Owners(bs))
      && (forall o, n :: o in reg.byObject ==>
            (n in reg.byObject[o].methods <==> FirstIndex(bs, o, n).Some?))
      && (forall o, n :: o in reg.byObject && n in reg.byObject[o].methods ==>
            FirstIndex(bs, o, n).Some? && reg.byObject[o].methods[n] == bs[FirstIndex(bs, o, n).value])
    decreases |bs|
  {
    if |bs| > 0 {
      AddAllByObject(bs[..|bs| - 1]);
      AddByObjectStep(bs);
    }
  }

  /** Registering one more binding keeps byObject the first binding per name. */
  lemma AddByObjectStep(bs: seq<Binding>)
    requires |bs| > 0
    requires FirstPerObject(AddAll(bs[..|bs| - 1]), bs[..|bs| - 1])
    ensures FirstPerObject(AddAll(bs), bs)
  {
    var prefix := bs[..|bs| - 1];
    var b := bs[|bs| - 1];
    var r := AddAll(bs);
    assert r == Add(AddAll(prefix), b);
    OwnersSnoc(bs);
    forall o, n | o in r.byObject
      ensures n in r.byObject[o].methods <==> FirstIndex(bs, o, n).Some?
      ensures n in r.byObject[o].methods ==> r.byObject[o].methods[n] == bs[FirstIndex(bs, o, n).value]
    {
      AddByObjectAt(bs, o, n);
    }
  }

  /** The step of AddByObjectStep for one object and one name. */
  lemma AddByObjectAt(bs: seq<Binding>, o: string, n: string)
    requires |bs| > 0
    requires FirstPerObject(AddAll(bs[..|bs| - 1]), bs[..|bs| - 1])
    ensures var r := AddAll(bs);
      o in r.byObject ==>
        && (n in r.byObject[o].methods <==> FirstIndex(bs, o, n).Some?)
        && (n in r.byObject[o].methods ==> r.byObject[o].methods[n] == bs[FirstIndex(bs, o, n).value])
  {
    var prefix := bs[..|bs| - 1];
    var b := bs[|bs| - 1];
    var reg := AddAll(prefix);
    var f := FirstIndex(prefix, o, n);
    assert AddAll(bs) == Add(reg, b);
    assert FirstIndex(bs, o, n) == if f.Some? then f else if Matches(b, o, n) then Some(|bs| - 1) else None;
    FirstIndexOwner(prefix, o, n);
    if f.Some? {
      assert bs[f.value] == prefix[f.value];
    }
  }

  lemma OwnersSnoc(bs: seq<Binding>)
    requires |bs| > 0
    ensures Owners(bs) == Owners(bs[..|bs| - 1]) + {bs[|bs| - 1].owner}
  {
    var prefix := bs[..|bs| - 1];
    forall o | o in Owners(bs)
      ensures o in Owners(prefix) + {bs[|bs| - 1].owner}
    {
      var k :| 0 <= k < |bs| && bs[k].owner == o;
      if k < |prefix| {
        assert prefix[k].owner == o;
      }
    }
    forall o | o in Owners(prefix)
      ensures o in Owners(bs)
    {
      var k :| 0 <= k < |prefix| && prefix[k].owner == o;
      assert bs[k].owner == o;
    }
  }

  /** Only an object that owns some binding has a first binding under any name. */
  lemma FirstIndexOwner(bs: seq<Binding>, o: string, n: string)
    ensures FirstIndex(bs, o, n).Some? ==> o in Owners(bs)
  {
    if FirstIndex(bs, o, n).Some? {
      var k := FirstIndex(bs, o, n).value;
      assert bs[k].owner == o;
    }
  }

  /** The key orders are the orders of first registration: objects by their
      first binding, method names by the first binding exposing them, and each
      object's names by the first of its bindings exposing them. */
  lemma {:induction false} AddAllOrders(bs: seq<Binding>)
    ensures var reg := AddAll(bs);
      && reg.objectNames == Dedup(OwnerSeq(bs))
      && reg.methodNames == Dedup(NameSeq(bs))
      && forall o :: o in reg.byObject ==> reg.byObject[o].names == Dedup(NamesOf(bs, o))
    decreases |bs|
  {
    if |bs| > 0 {
      var prefix, b := bs[..|bs| - 1], bs[|bs| - 1];
      var reg := AddAll(prefix);
      AddAllOrders(prefix);
      AddAllValid(prefix);
      assert bs == prefix + [b];
      assert AddAll(bs) == Add(reg, b);
      var known := b.owner in reg.byObject;
      assert known <==> b.owner in OwnerSeq(prefix);
      AddObjectOrder(reg, b, prefix);
      AddMethodOrder(reg, b, prefix);
      forall o | o in Add(reg, b).byObject
        ensures Add(reg, b).byObject[o].names == Dedup(NamesOf(prefix + [b], o))
      {
        if known {
          assert EntryValid(b.owner, reg.byObject[b.owner]);
        }
        AddEntryOrder(reg, b, prefix, o);
      }
    }
  }

  /** Registering `b` after `prefix` appends its owner exactly when it is new. */
  lemma AddObjectOrder(reg: Registry, b: Binding, prefix: seq<Binding>)
    requires b.owner in reg.byObject <==> b.owner in reg.objectNames
    requires reg.objectNames == Dedup(OwnerSeq(prefix))
    ensures Add(reg, b).objectNames == Dedup(OwnerSeq(prefix + [b]))
  {
    assert (prefix + [b])[..|prefix|] == prefix;
  }

  /** Registering `b` after `prefix` appends its name exactly when it is new. */
  lemma AddMethodOrder(reg: Registry, b: Binding, prefix: seq<Binding>)
    requires ExposedName(b) in reg.byMethod <==> ExposedName(b) in reg.methodNames
    requires reg.methodNames == Dedup(NameSeq(prefix))
    ensures Add(reg, b).methodNames == Dedup(NameSeq(prefix + [b]))
  {
    assert (prefix + [b])[..|prefix|] == prefix;
  }

  /** Registering `b` after `prefix` appends its name to its owner's entry
      exactly when the owner has no method of that name yet. */
  lemma AddEntryOrder(reg: Registry, b: Binding, prefix: seq<Binding>, o: string)
    requires b.owner in reg.byObject <==> b.owner in OwnerSeq(prefix)
    requires b.owner in reg.byObject ==>
      forall n :: n in reg.byObject[b.owner].methods <==> n in reg.byObject[b.owner].names
    requires o in reg.byObject ==> reg.byObject[o].names == Dedup(NamesOf(prefix, o))
    requires o in Add(reg, b).byObject
    ensures Add(reg, b).byObject[o].names == Dedup(NamesOf(prefix + [b], o))
  {
    var bs := prefix + [b];
    assert bs[..|prefix|] == prefix && bs[|bs| - 1] == b;
    var names := NamesOf(prefix, o);
    if o == b.owner {
      assert NamesOf(bs, o) == names + [ExposedName(b)];
      assert (names + [ExposedName(b)])[..|names|] == names;
    } else {
      assert NamesOf(bs, o) == names;
    }
  }

  /** The key orders UpdateMethodList leaves, which the autocomplete list
      follows: first appearance in the scan. */
  lemma UpdateMethodListOrders(objects: seq<HostObject>)
    ensures var reg := UpdateMethodList(objects); var bs := Scan(objects);
      && reg.objectNames == Dedup(OwnerSeq(bs))
      && reg.methodNames == Dedup(NameSeq(bs))
      && forall o :: o in reg.byObject ==> reg.byObject[o].names == Dedup(NamesOf(bs, o))
  {
    AddAllOrders(Scan(objects));
  }

  /** UpdateMethodList against the scan: both indexes are rebuilt from nothing,
      byMethod keeps every binding in scan order, byObject the first per name. */
  lemma UpdateMethodListSpec(objects: seq<HostObject>)
    ensures var reg := UpdateMethodList(objects); var bs := Scan(objects);
      && Valid(reg)
      && (forall n :: n in reg.byMethod <==> Filter(bs, n) != [])
      && (forall n :: n in reg.byMethod ==> reg.byMethod[n] == Filter(bs, n))
      && (forall o :: o in reg.byObject <==> o in Owners(bs))
      && (forall o, n :: o in reg.byObject ==>
            (n in reg.byObject[o].methods <==> FirstIndex(bs, o, n).Some?))
      && (forall o, n :: o in reg.byObject && n in reg.byObject[o].methods ==>
            FirstIndex(bs, o, n).Some? && reg.byObject[o].methods[n] == bs[FirstIndex(bs, o, n).value])
  {
    AddAllValid(Scan(objects));
    AddAllByMethod(Scan(objects));
    AddAllByObject(Scan(objects));
  }
}
