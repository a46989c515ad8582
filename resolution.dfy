/**
  * What an injection pass does, as functions of the registry's entries and
  * the heap: how a binding's class is resolved, the by-type and by-name
  * matching of one (target, source) pair, and the nested loop over all pairs
  * that stops at the first failure. The helpers `injectResource`,
  * `injectByType` and `injectByName` are methods that write the heap and are
  * proved against these functions.
  */
module Resolution {
  import opened Wrappers
  import opened Keys
  import opened Reflection
  import opened Bindings

  /** Why an injection pass fails. */
  datatype Fault =
    | ClassNotFound(name: string)      // `Class.forName` on the class part of a null binding's key
    | NullTarget                       // `Field.set` on an instance field of a null (static) target
    | NullInstance                     // a null extra instance after a non-null first one (`getClass` on null)
    | Conflicting(conflict: Conflict)  // auto-registering an extra instance broke the conflict policy

  /** The one wrapped error `inject` throws: the source key and target class it had last reached, and the cause. */
  datatype InjectionError = InjectionError(sourceKey: Option<string>, targetClass: Option<ClassName>, cause: Fault)

  type Cells = map<Location, Value>

  /** One helper call: it returned (the new cells, and the boolean it returned: whether it assigned), or it threw after writing the source value to some of `pending`. */
  datatype Step = Done(cells: Cells, returned: bool) | Thrown(fault: Fault, pending: set<Location>)

  /** `cells` with every slot of `slots` holding `v`. */
  function Write(cells: Cells, slots: set<Location>, v: Value): (r: Cells)
    ensures r.Keys == cells.Keys + slots
    ensures forall l :: l in slots ==> r[l] == v
    ensures forall l :: l in cells && l !in slots ==> r[l] == cells[l]
  {
    map l | l in cells.Keys + slots :: if l in slots then v else cells[l]
  }

  /** After a throw: the cells before the call, with `v` written to some of the pending slots. */
  ghost predicate PartialWrite(before: Cells, after: Cells, pending: set<Location>, v: Value) {
    exists written :: written <= pending && after == Write(before, written, v)
  }

  lemma WriteNothing(cells: Cells, v: Value)
    ensures Write(cells, {}, v) == cells
    ensures PartialWrite(cells, cells, {}, v)
  {
  }

  lemma WriteOneMore(cells: Cells, slots: set<Location>, l: Location, v: Value)
    ensures Write(cells, slots, v)[l := v] == Write(cells, slots + {l}, v)
  {
  }

  /** A helper's result and heap agree with what the step function says. */
  ghost predicate Agrees(step: Step, r: Result<bool, Fault>, before: Cells, after: Cells, v: Value) {
    match step
    case Done(cells, returned) => r == Ok(returned) && after == cells
    case Thrown(fault, pending) => r == Err(fault) && PartialWrite(before, after, pending, v)
  }

  /** `getTypeBinding`: a bound object's runtime class; for a null binding, `Class.forName` of the key's class part. */
  function TypeBinding(s: Schema, e: Entry): (r: Result<ClassName, Fault>)
    ensures e.value.Ref? ==> r == Ok(e.value.cls)
    ensures e.value.Null? && r.Ok? ==> r.value in s.classes && r.value == ClassNameOf(e.key)
    ensures r.Err? ==> e.value.Null? && r.error == ClassNotFound(ClassNameOf(e.key))
  {
    if e.value.Ref? then Ok(e.value.cls)
    else
      var n := ClassNameOf(e.key);
      if IsClassName(n) && n in s.classes then Ok(n) else Err(ClassNotFound(n))
  }

  /** `injectResource`: a field takes the value only if it is annotated and its type accepts the source class; static at class level, otherwise on the target. */
  function ResourceStep(s: Schema, cells: Cells, target: Value, f: Field, source: ClassName, v: Value): Step {
    if !s.Eligible(f, source) then Done(cells, false)
    else if !Writable(target, f) then Thrown(NullTarget, {})
    else Done(cells[Slot(target, f) := v], true)
  }

  /** The fields up the chain that a value of class `source` may be injected into. */
  ghost function EligibleFields(s: Schema, c: ClassName, source: ClassName): set<Field>
    requires s.WF()
  {
    set f | f in AllFields(s, c) && s.Eligible(f, source)
  }

  /** The slots of those fields that `Field.set(target, ...)` can write. */
  function Slots(target: Value, fields: set<Field>): set<Location> {
    set f | f in fields && Writable(target, f) :: Slot(target, f)
  }

  /**
    * `injectByType`: every eligible field up the chain takes the value, and
    * the result says whether there was one; it throws when one of them is an
    * instance field of a null target, possibly after some static ones were set.
    */
  ghost function ByTypeStep(s: Schema, cells: Cells, targetCls: ClassName, target: Value, source: ClassName, v: Value): Step
    requires s.WF()
  {
    var eligible := EligibleFields(s, targetCls, source);
    if exists f :: f in eligible && !Writable(target, f) then Thrown(NullTarget, Slots(target, eligible))
    else Done(Write(cells, Slots(target, eligible), v), eligible != {})
  }

  /** `injectByName`: only the nearest field of that name is tried; no such field means no assignment and no error. */
  function ByNameStep(s: Schema, cells: Cells, target: Value, targetCls: ClassName, name: string, source: ClassName, v: Value): Step
    requires s.WF()
  {
    if name == "" then Done(cells, false)
    else
      match FieldByName(s, targetCls, name)
      case None => Done(cells, false)
      case Some(f) => ResourceStep(s, cells, target, f, source, v)
  }

  /** One (target, source) pair once both classes are resolved: by type for a source without a name, by name otherwise. */
  ghost function PairStep(s: Schema, cells: Cells, target: Entry, targetCls: ClassName, source: Entry, sourceCls: ClassName): Step
    requires s.WF()
  {
    var name := NameOf(source.key);
    if name == "" then ByTypeStep(s, cells, targetCls, target.value, sourceCls, source.value)
    else ByNameStep(s, cells, target.value, targetCls, name, sourceCls, source.value)
  }

  /** The heap and the two locals that `inject` reports when it fails. */
  datatype Progress = Progress(cells: Cells, sourceKey: Option<string>, targetClass: Option<ClassName>)

  /**
    * How a pass, or part of one, ended: still running, or aborted with the
    * cells before the failing call, the wrapped error, and the slots that call
    * may have written with `value`.
    */
  datatype Verdict =
    | Running(progress: Progress)
    | Aborted(cells: Cells, error: InjectionError, pending: set<Location>, value: Value)

  /** The inner loop of `inject` for one target: every source in order, skipping the target's own key. */
  ghost function RunSources(s: Schema, p: Progress, target: Entry, targetCls: ClassName, sources: seq<Entry>): Verdict
    requires s.WF()
    decreases |sources|
  {
    if sources == [] then Running(p)
    else
      var source := sources[0];
      var p1 := p.(sourceKey := Some(source.key));
      if source.key == target.key then RunSources(s, p1, target, targetCls, sources[1..])
      else
        match TypeBinding(s, source)
        case Err(fault) => Aborted(p1.cells, InjectionError(p1.sourceKey, p1.targetClass, fault), {}, Null)
        case Ok(sourceCls) =>
          match PairStep(s, p1.cells, target, targetCls, source, sourceCls)
          case Thrown(fault, pending) =>
            Aborted(p1.cells, InjectionError(p1.sourceKey, p1.targetClass, fault), pending, source.value)
          case Done(cells, _) => RunSources(s, p1.(cells := cells), target, targetCls, sources[1..])
  }

  /** The outer loop of `inject`: each target's class is resolved, then the inner loop runs over all entries. */
  ghost function RunTargets(s: Schema, p: Progress, entries: seq<Entry>, targets: seq<Entry>): Verdict
    requires s.WF()
    decreases |targets|
  {
    if targets == [] then Running(p)
    else
      var target := targets[0];
      match TypeBinding(s, target)
      case Err(fault) => Aborted(p.cells, InjectionError(p.sourceKey, p.targetClass, fault), {}, Null)
      case Ok(targetCls) =>
        match RunSources(s, p.(targetClass := Some(targetCls)), target, targetCls, entries)
        case Aborted(cells, error, pending, value) => Aborted(cells, error, pending, value)
        case Running(next) => RunTargets(s, next, entries, targets[1..])
  }

  /** `inject`'s extra instances, each bound by type under its runtime class, without overwrite. */
  function Register(reg: Registry, instances: seq<Value>): (r: Result<Registry, Fault>)
    requires reg.Valid()
    ensures r.Ok? ==> r.value.Valid()
    decreases |instances|
  {
    if instances == [] then Ok(reg)
    else
      match instances[0]
      case Null => Err(NullInstance)
      case Ref(_, cls) =>
        match Bind(reg, false, cls, None, instances[0])
        case Err(c) => Err(Conflicting(c))
        case Ok(next) => Register(next, instances[1..])
  }

  /**
    * The registry left by registering the extra instances: each successful
    * binding stays, and the first failing instance and those after it are not bound.
    */
  function Registered(reg: Registry, instances: seq<Value>): (r: Registry)
    requires reg.Valid()
    ensures r.Valid()
    ensures Register(reg, instances).Ok? ==> r == Register(reg, instances).value
    ensures forall k :: k in reg.values ==> k in r.values && r.values[k] == reg.values[k]
    decreases |instances|
  {
    if instances == [] then reg
    else
      match instances[0]
      case Null => reg
      case Ref(_, cls) =>
        match Bind(reg, false, cls, None, instances[0])
        case Err(_) => reg
        case Ok(next) => Registered(next, instances[1..])
  }

  /** The type-only keys the instances are registered under, in order. */
  function ClassKeys(instances: seq<Value>): (r: seq<string>)
    ensures |r| <= |instances|
  {
    if instances == [] then []
    else (if instances[0].Ref? then [TypeKey(instances[0].cls)] else []) + ClassKeys(instances[1..])
  }

  /** Every instance is non-null, no two share a class, and no key of their classes is bound yet. */
  ghost predicate Registrable(reg: Registry, instances: seq<Value>) {
    && (forall i :: 0 <= i < |instances| ==> instances[i].Ref?)
    && (forall i, j :: 0 <= i < j < |instances| ==> instances[i].cls != instances[j].cls)
    && (forall i, name :: 0 <= i < |instances| ==> MakeKey(instances[i].cls, name) !in reg.values)
  }

  /** One more instance of class `cls` bound: the rest stays registrable exactly when it avoids `cls`. */
  lemma RegistrableStep(reg: Registry, instances: seq<Value>, next: Registry)
    requires reg.Valid() && instances != [] && instances[0].Ref?
    requires forall name :: MakeKey(instances[0].cls, name) !in reg.values
    requires next == Put(reg, TypeKey(instances[0].cls), instances[0])
    ensures Registrable(reg, instances) <==> Registrable(next, instances[1..])
  {
    var c := instances[0].cls;
    var rest := instances[1..];
    assert TypeKey(c) == MakeKey(c, "");
    assert next.values == reg.values[TypeKey(c) := instances[0]];
    forall d: ClassName, name: string
      ensures MakeKey(d, name) in next.values <==> MakeKey(d, name) in reg.values || (d == c && name == "")
    {
      if MakeKey(d, name) == MakeKey(c, "") {
        MakeKeyInjective(d, name, c, "");
      }
    }
    if Registrable(reg, instances) {
      forall i | 0 <= i < |rest|
        ensures rest[i].Ref? && rest[i].cls != c
      {
        assert rest[i] == instances[i + 1];
      }
      forall i, j | 0 <= i < j < |rest|
        ensures rest[i].cls != rest[j].cls
      {
        assert rest[i] == instances[i + 1] && rest[j] == instances[j + 1];
      }
      forall i, name | 0 <= i < |rest|
        ensures MakeKey(rest[i].cls, name) !in next.values
      {
        assert rest[i] == instances[i + 1];
      }
    }
    if Registrable(next, rest) {
      forall i | 0 <= i < |instances|
        ensures instances[i].Ref?
      {
        if i > 0 { assert instances[i] == rest[i - 1]; }
      }
      forall i, j | 0 <= i < j < |instances|
        ensures instances[i].cls != instances[j].cls
      {
        assert instances[j] == rest[j - 1];
        if i > 0 {
          assert instances[i] == rest[i - 1];
        } else {
          assert MakeKey(rest[j - 1].cls, "") !in next.values;
        }
      }
      forall i, name | 0 <= i < |instances|
        ensures MakeKey(instances[i].cls, name) !in reg.values
      {
        if i > 0 { assert instances[i] == rest[i - 1]; }
      }
    }
  }

  /** Registration succeeds exactly when the instances are registrable. */
  lemma {:induction false} RegisterMeaning(reg: Registry, instances: seq<Value>)
    requires reg.Valid()
    ensures Register(reg, instances).Ok? <==> Registrable(reg, instances)
    decreases |instances|
  {
    if instances != [] && instances[0].Ref? {
      var c := instances[0].cls;
      TypeBindingAccepted(reg, c, instances[0]);
      var b := Bind(reg, false, c, None, instances[0]);
      assert TypeKey(c) == MakeKey(c, "");
      if b.Ok? {
        RegistrableStep(reg, instances, b.value);
        RegisterMeaning(b.value, instances[1..]);
      } else {
        var name :| MakeKey(c, name) in reg.values;
      }
    }
  }

  /** An accepted type-only binding of an instance appends its class's type-only key, which was not bound. */
  lemma BindInstance(reg: Registry, x: Value)
    requires reg.Valid() && x.Ref? && Bind(reg, false, x.cls, None, x).Ok?
    ensures var next := Bind(reg, false, x.cls, None, x).value;
      && TypeKey(x.cls) !in reg.values
      && next.keys == reg.keys + [TypeKey(x.cls)]
      && next.values == reg.values[TypeKey(x.cls) := x]
  {
    assert TypeKey(x.cls) == MakeKey(x.cls, "");
  }

  lemma AppendAssoc(a: seq<string>, b: seq<string>, c: seq<string>)
    ensures a + b + c == a + (b + c)
  {
  }

  /** A successful registration appends the instances' type-only keys after the existing keys, in order. */
  lemma {:induction false} RegisterAppends(reg: Registry, instances: seq<Value>)
    requires reg.Valid() && Register(reg, instances).Ok?
    ensures Register(reg, instances).value.keys == reg.keys + ClassKeys(instances)
    decreases |instances|
  {
    if instances != [] {
      var x, rest := instances[0], instances[1..];
      var next := Bind(reg, false, x.cls, None, x).value;
      BindInstance(reg, x);
      RegisterAppends(next, rest);
      assert ClassKeys(instances) == [TypeKey(x.cls)] + ClassKeys(rest);
      AppendAssoc(reg.keys, [TypeKey(x.cls)], ClassKeys(rest));
    }
  }

  /** A successful registration keeps every earlier binding. */
  lemma {:induction false} RegisterKeeps(reg: Registry, instances: seq<Value>)
    requires reg.Valid() && Register(reg, instances).Ok?
    ensures var r := Register(reg, instances).value;
      forall k :: k in reg.values ==> k in r.values && r.values[k] == reg.values[k]
    decreases |instances|
  {
    if instances != [] {
      var x, rest := instances[0], instances[1..];
      var next := Bind(reg, false, x.cls, None, x).value;
      BindInstance(reg, x);
      RegisterKeeps(next, rest);
    }
  }

  /** A successful registration binds each instance under its class's type-only key. */
  lemma {:induction false} RegisterBinds(reg: Registry, instances: seq<Value>)
    requires reg.Valid() && Register(reg, instances).Ok?
    ensures var r := Register(reg, instances).value;
      forall i :: 0 <= i < |instances| ==>
        instances[i].Ref? && TypeKey(instances[i].cls) in r.values && r.values[TypeKey(instances[i].cls)] == instances[i]
    decreases |instances|
  {
    if instances != [] {
      var x, rest := instances[0], instances[1..];
      var next := Bind(reg, false, x.cls, None, x).value;
      BindInstance(reg, x);
      RegisterBinds(next, rest);
      RegisterKeeps(next, rest);
      assert Register(reg, instances) == Register(next, rest);
      var r := Register(next, rest).value;
      forall i | 0 <= i < |instances|
        ensures instances[i].Ref? && TypeKey(instances[i].cls) in r.values && r.values[TypeKey(instances[i].cls)] == instances[i]
      {
        if i > 0 { assert instances[i] == rest[i - 1]; }
      }
    }
  }

  /** An `inject` pass up to its `finally`: instances are registered only when the first one is not null. */
  ghost function InjectSpec(s: Schema, reg: Registry, cells: Cells, instances: seq<Value>): Verdict
    requires s.WF() && reg.Valid()
  {
    var registered := if |instances| > 0 && instances[0].Ref? then Register(reg, instances) else Ok(reg);
    match registered
    case Err(fault) => Aborted(cells, InjectionError(None, None, fault), {}, Null)
    case Ok(r) => RunTargets(s, Progress(cells, None, None), r.Entries(), r.Entries())
  }

  /** The caller sees what the verdict says: no error and the final cells, or the wrapped error over a partial write. */
  ghost predicate Reported(verdict: Verdict, r: Outcome<InjectionError>, cells: Cells) {
    match verdict
    case Running(p) => r == Pass && cells == p.cells
    case Aborted(before, error, pending, value) => r == Fail(error) && PartialWrite(before, cells, pending, value)
  }

  /** `injectResource` */
  method InjectResource(s: Schema, heap: Heap, target: Value, f: Field, source: ClassName, v: Value) returns (r: Result<bool, Fault>)
    modifies heap
    ensures Agrees(ResourceStep(s, old(heap.cells), target, f, source, v), r, old(heap.cells), heap.cells, v)
    ensures r.Err? ==> heap.cells == old(heap.cells)
  {
    if !f.annotated {
      return Ok(false);
    }
    if (f.typ, source) !in s.assignable {
      return Ok(false);
    }
    var ok := heap.Set(f, target, v);
    if !ok {
      WriteNothing(heap.cells, v);
      return Err(NullTarget);
    }
    return Ok(true);
  }

  /** `injectByType`: tries every field of `getAllFields`, in the set's unspecified order. */
  method InjectByType(s: Schema, heap: Heap, targetCls: ClassName, target: Value, source: ClassName, v: Value)
    returns (r: Result<bool, Fault>)
    requires s.WF()
    modifies heap
    ensures Agrees(ByTypeStep(s, old(heap.cells), targetCls, target, source, v), r, old(heap.cells), heap.cells, v)
  {
    var fields := GetAllFields(s, targetCls);
    ghost var eligible := EligibleFields(s, targetCls, source);
    var atLeastOneSet := false;
    var left := fields;
    ghost var done: set<Field> := {};
    while left != {}
      invariant left + done == fields && left !! done
      invariant heap.cells == Write(old(heap.cells), Slots(target, done * eligible), v)
      invariant atLeastOneSet <==> done * eligible != {}
      invariant forall f :: f in done * eligible ==> Writable(target, f)
      decreases left
    {
      var f :| f in left;
      ghost var before := heap.cells;
      var res := InjectResource(s, heap, target, f, source, v);
      if res.Err? {
        assert f in eligible && !Writable(target, f);
        assert Slots(target, done * eligible) <= Slots(target, eligible);
        return Err(res.error);
      }
      if f in eligible {
        WriteOneMore(old(heap.cells), Slots(target, done * eligible), Slot(target, f), v);
        assert Slots(target, (done + {f}) * eligible) == Slots(target, done * eligible) + {Slot(target, f)};
      } else {
        assert (done + {f}) * eligible == done * eligible;
      }
      atLeastOneSet := atLeastOneSet || res.value;
      left := left - {f};
      done := done + {f};
    }
    assert done * eligible == eligible;
    r := Ok(atLeastOneSet);
  }

  /** `injectByName` */
  method InjectByName(s: Schema, heap: Heap, target: Value, targetCls: ClassName, name: string, source: ClassName, v: Value)
    returns (r: Result<bool, Fault>)
    requires s.WF()
    modifies heap
    ensures Agrees(ByNameStep(s, old(heap.cells), target, targetCls, name, source, v), r, old(heap.cells), heap.cells, v)
  {
    if |name| == 0 {
      return Ok(false);
    }
    var field := GetFieldByName(s, targetCls, name);
    if field.None? {
      return Ok(false);
    }
    r := InjectResource(s, heap, target, field.value, source, v);
  }

  /** A binding's class: the bound object's runtime class, or for a null value the class its key was built for. */
  lemma BindingClass(s: Schema, cls: ClassName, name: string, v: Value)
    ensures TypeBinding(s, Entry(MakeKey(cls, name), v)) ==
      if v.Ref? then Ok(v.cls) else if cls in s.classes then Ok(cls) else Err(ClassNotFound(cls))
  {
    ClassNameOfKey(cls, name);
  }

  /** A source bound without a name is matched by type, one bound under a name (without the separator) by that name. */
  lemma PairDispatch(s: Schema, cells: Cells, target: Entry, targetCls: ClassName, cls: ClassName, name: string, v: Value, sourceCls: ClassName)
    requires s.WF() && Bar !in name
    ensures PairStep(s, cells, target, targetCls, Entry(MakeKey(cls, name), v), sourceCls) ==
      if name == "" then ByTypeStep(s, cells, targetCls, target.value, sourceCls, v)
      else ByNameStep(s, cells, target.value, targetCls, name, sourceCls, v)
  {
    NameOfKey(cls, name);
  }

  /**
    * `injectResource` assigns exactly when the field is annotated and accepts
    * the source class, and then returns true; static fields go to the class slot,
    * instance fields to the target's, and a null target fails for the latter.
    */
  lemma ResourceStepMeaning(s: Schema, cells: Cells, target: Value, f: Field, source: ClassName, v: Value)
    ensures var step := ResourceStep(s, cells, target, f, source, v);
      && (step.Thrown? <==> f.annotated && (f.typ, source) in s.assignable && !f.isStatic && target.Null?)
      && (step.Thrown? ==> step.fault == NullTarget && step.pending == {})
      && (step == Done(cells, false) <==> !(f.annotated && (f.typ, source) in s.assignable))
      && (step.Done? && step.returned ==>
            && (f.isStatic ==> step.cells == cells[StaticSlot(f) := v])
            && (!f.isStatic ==> step.cells == cells[InstanceSlot(target.id, f) := v]))
  {
  }

  /**
    * `injectByType`: it completes exactly when no eligible field of the chain
    * is an instance field of a null target; then every eligible field holds the
    * value, nothing else changes, and it returns whether there was any eligible field.
    */
  lemma ByTypeMeaning(s: Schema, cells: Cells, targetCls: ClassName, target: Value, source: ClassName, v: Value)
    requires s.WF()
    ensures var step := ByTypeStep(s, cells, targetCls, target, source, v);
      && (step.Done? <==> forall f :: f in AllFields(s, targetCls) && s.Eligible(f, source) ==> Writable(target, f))
      && (step.Done? ==>
            && (step.returned <==> exists f :: f in AllFields(s, targetCls) && s.Eligible(f, source))
            && (forall f :: f in AllFields(s, targetCls) && s.Eligible(f, source) ==>
                  Slot(target, f) in step.cells && step.cells[Slot(target, f)] == v)
            && (forall l :: l in step.cells && l !in Slots(target, EligibleFields(s, targetCls, source)) ==>
                  l in cells && step.cells[l] == cells[l]))
      && (step.Thrown? ==> step.fault == NullTarget && target.Null?)
  {
  }

  /**
    * `injectByName` tries only the field of that name declared nearest the
    * target class; with no such field it assigns nothing and does not fail.
    */
  lemma ByNameMeaning(s: Schema, cells: Cells, target: Value, targetCls: ClassName, name: string, source: ClassName, v: Value)
    requires s.WF()
    ensures var ch := Chain(s, targetCls);
      (name == "" || forall i :: 0 <= i < |ch| ==> name !in s.Declared(ch[i])) ==>
        ByNameStep(s, cells, target, targetCls, name, source, v) == Done(cells, false)
    ensures var ch := Chain(s, targetCls);
      forall i :: 0 <= i < |ch| && name != "" && name in s.Declared(ch[i]) && (forall j :: 0 <= j < i ==> name !in s.Declared(ch[j])) ==>
        ByNameStep(s, cells, target, targetCls, name, source, v) == ResourceStep(s, cells, target, s.Declared(ch[i])[name], source, v)
  {
    var ch := Chain(s, targetCls);
    if name != "" && forall i :: 0 <= i < |ch| ==> name !in s.Declared(ch[i]) {
      assert FieldByName(s, targetCls, name).None?;
    }
    forall i | 0 <= i < |ch| && name != "" && name in s.Declared(ch[i]) && (forall j :: 0 <= j < i ==> name !in s.Declared(ch[j]))
      ensures ByNameStep(s, cells, target, targetCls, name, source, v) == ResourceStep(s, cells, target, s.Declared(ch[i])[name], source, v)
    {
      var r := FieldByName(s, targetCls, name);
      assert r.Some?;
      var k :| 0 <= k < |ch| && name in s.Declared(ch[k]) && r.value == s.Declared(ch[k])[name]
                && forall j :: 0 <= j < k ==> name !in s.Declared(ch[j]);
      assert k == i;
    }
  }

  /**
    * By-name matching stops at the nearest field of that name even when it is
    * not eligible: an eligible field of the same name further up the chain is
    * then not assigned by name, although by type it would be.
    */
  lemma NearestFieldShadows(s: Schema, cells: Cells, target: Value, targetCls: ClassName, name: string, source: ClassName, v: Value, i: nat, k: nat)
    requires s.WF() && target.Ref? && name != ""
    requires i < k < |Chain(s, targetCls)|
    requires name in s.Declared(Chain(s, targetCls)[i]) && name in s.Declared(Chain(s, targetCls)[k])
    requires forall j :: 0 <= j < i ==> name !in s.Declared(Chain(s, targetCls)[j])
    requires !s.Eligible(s.Declared(Chain(s, targetCls)[i])[name], source)
    requires s.Eligible(s.Declared(Chain(s, targetCls)[k])[name], source)
    ensures ByNameStep(s, cells, target, targetCls, name, source, v) == Done(cells, false)
    ensures var step := ByTypeStep(s, cells, targetCls, target, source, v);
      var f := s.Declared(Chain(s, targetCls)[k])[name];
      step.Done? && step.returned && Slot(target, f) in step.cells && step.cells[Slot(target, f)] == v
  {
    var ch := Chain(s, targetCls);
    var nearest := s.Declared(ch[i])[name];
    ByNameMeaning(s, cells, target, targetCls, name, source, v);
    assert ByNameStep(s, cells, target, targetCls, name, source, v) == ResourceStep(s, cells, target, nearest, source, v);
    ChainFieldByType(s, cells, targetCls, target, source, v, Chain(s, targetCls)[k], s.Declared(Chain(s, targetCls)[k])[name]);
  }

  /** By type, an eligible field declared anywhere up the chain of a non-null target takes the value. */
  lemma ChainFieldByType(s: Schema, cells: Cells, targetCls: ClassName, target: Value, source: ClassName, v: Value, a: ClassName, f: Field)
    requires s.WF() && target.Ref?
    requires a in Chain(s, targetCls) && f in s.Declared(a).Values && s.Eligible(f, source)
    ensures var step := ByTypeStep(s, cells, targetCls, target, source, v);
      step.Done? && step.returned && Slot(target, f) in step.cells && step.cells[Slot(target, f)] == v
  {
    assert f in AllFields(s, targetCls);
    ByTypeMeaning(s, cells, targetCls, target, source, v);
  }

  /** The (target, source) pairs the inner loop handles for one target: every source in order, except the target's own key. */
  function PairsFor(target: Entry, sources: seq<Entry>): (r: seq<(Entry, Entry)>)
    ensures forall pr :: pr in r <==> pr.0 == target && pr.1 in sources && pr.1.key != target.key
  {
    if sources == [] then []
    else
      var rest := PairsFor(target, sources[1..]);
      assert forall e :: e in sources <==> e == sources[0] || e in sources[1..];
      if sources[0].key == target.key then rest else [(target, sources[0])] + rest
  }

  /** All pairs of a pass, target-major and each in insertion order. */
  function PairsOf(targets: seq<Entry>, entries: seq<Entry>): (r: seq<(Entry, Entry)>)
    ensures forall pr :: pr in r <==> pr.0 in targets && pr.1 in entries && pr.0.key != pr.1.key
  {
    if targets == [] then []
    else
      var rest := PairsOf(targets[1..], entries);
      assert forall e :: e in targets <==> e == targets[0] || e in targets[1..];
      PairsFor(targets[0], entries) + rest
  }

  /** The pairs for sources `a` then `b` are those for `a` followed by those for `b`: the sources keep their order. */
  lemma {:induction false} PairsForAppend(target: Entry, a: seq<Entry>, b: seq<Entry>)
    ensures PairsFor(target, a + b) == PairsFor(target, a) + PairsFor(target, b)
    decreases |a|
  {
    if a != [] {
      assert (a + b)[0] == a[0] && (a + b)[1..] == a[1..] + b;
      PairsForAppend(target, a[1..], b);
    } else {
      assert a + b == b;
    }
  }

  /** The pairs for targets `a` then `b` are those of `a` followed by those of `b`: the pass is target-major. */
  lemma {:induction false} PairsOfAppend(a: seq<Entry>, b: seq<Entry>, entries: seq<Entry>)
    ensures PairsOf(a + b, entries) == PairsOf(a, entries) + PairsOf(b, entries)
    decreases |a|
  {
    if a != [] {
      assert (a + b)[0] == a[0] && (a + b)[1..] == a[1..] + b;
      PairsOfAppend(a[1..], b, entries);
    } else {
      assert a + b == b;
    }
  }

  /** The pairs handled one after another on the cells, each side's class resolved afresh; `None` once one fails. */
  ghost function ApplyPairs(s: Schema, cells: Cells, pairs: seq<(Entry, Entry)>): Option<Cells>
    requires s.WF()
    decreases |pairs|
  {
    if pairs == [] then Some(cells)
    else
      var (target, source) := pairs[0];
      match (TypeBinding(s, target), TypeBinding(s, source))
      case (Ok(targetCls), Ok(sourceCls)) =>
        (match PairStep(s, cells, target, targetCls, source, sourceCls)
         case Thrown(_, _) => None
         case Done(next, _) => ApplyPairs(s, next, pairs[1..]))
      case _ => None
  }

  lemma {:induction false} ApplyPairsAppend(s: Schema, cells: Cells, a: seq<(Entry, Entry)>, b: seq<(Entry, Entry)>)
    requires s.WF()
    ensures ApplyPairs(s, cells, a + b) ==
      match ApplyPairs(s, cells, a) case None => None case Some(next) => ApplyPairs(s, next, b)
    decreases |a|
  {
    if a == [] {
      assert a + b == b;
    } else {
      assert (a + b)[0] == a[0] && (a + b)[1..] == a[1..] + b;
      var (target, source) := a[0];
      if TypeBinding(s, target).Ok? && TypeBinding(s, source).Ok? {
        var step := PairStep(s, cells, target, TypeBinding(s, target).value, source, TypeBinding(s, source).value);
        if step.Done? {
          ApplyPairsAppend(s, step.cells, a[1..], b);
        }
      }
    }
  }

  /** The inner loop for a resolved target is the pair fold over its pairs. */
  lemma {:induction false} RunSourcesIsPairFold(s: Schema, p: Progress, target: Entry, targetCls: ClassName, sources: seq<Entry>)
    requires s.WF() && TypeBinding(s, target) == Ok(targetCls)
    ensures match RunSources(s, p, target, targetCls, sources)
      case Running(q) => ApplyPairs(s, p.cells, PairsFor(target, sources)) == Some(q.cells)
      case Aborted(_, _, _, _) => ApplyPairs(s, p.cells, PairsFor(target, sources)) == None
    decreases |sources|
  {
    if sources != [] {
      var source := sources[0];
      var p1 := p.(sourceKey := Some(source.key));
      if source.key == target.key {
        RunSourcesIsPairFold(s, p1, target, targetCls, sources[1..]);
      } else {
        var pairs := PairsFor(target, sources);
        assert pairs == [(target, source)] + PairsFor(target, sources[1..]);
        assert pairs[0] == (target, source) && pairs[1..] == PairsFor(target, sources[1..]);
        match TypeBinding(s, source)
        case Err(_) =>
        case Ok(sourceCls) =>
          match PairStep(s, p1.cells, target, targetCls, source, sourceCls)
          case Thrown(_, _) =>
          case Done(next, _) => RunSourcesIsPairFold(s, p1.(cells := next), target, targetCls, sources[1..]);
      }
    }
  }

  /** When every target's class resolves, the outer loop completes exactly when the pair fold over all its pairs does, with the same cells. */
  lemma {:induction false} RunTargetsIsPairFold(s: Schema, p: Progress, entries: seq<Entry>, targets: seq<Entry>)
    requires s.WF()
    requires forall e :: e in targets ==> TypeBinding(s, e).Ok?
    ensures match RunTargets(s, p, entries, targets)
      case Running(q) => ApplyPairs(s, p.cells, PairsOf(targets, entries)) == Some(q.cells)
      case Aborted(_, _, _, _) => ApplyPairs(s, p.cells, PairsOf(targets, entries)) == None
    decreases |targets|
  {
    if targets != [] {
      var target := targets[0];
      var targetCls := TypeBinding(s, target).value;
      var p1 := p.(targetClass := Some(targetCls));
      RunSourcesIsPairFold(s, p1, target, targetCls, entries);
      ApplyPairsAppend(s, p.cells, PairsFor(target, entries), PairsOf(targets[1..], entries));
      match RunSources(s, p1, target, targetCls, entries)
      case Aborted(_, _, _, _) =>
      case Running(next) => RunTargetsIsPairFold(s, next, entries, targets[1..]);
    }
  }

  /**
    * A pass over a registry whose bindings all resolve handles every ordered
    * pair of distinct keys, target-major in insertion order, and completes
    * exactly when every pair does.
    */
  lemma InjectVisitsPairs(s: Schema, reg: Registry, cells: Cells)
    requires s.WF() && reg.Valid()
    requires forall e :: e in reg.Entries() ==> TypeBinding(s, e).Ok?
    ensures var pairs := PairsOf(reg.Entries(), reg.Entries());
      && (forall i, j :: 0 <= i < |reg.keys| && 0 <= j < |reg.keys| && i != j ==> (reg.Entries()[i], reg.Entries()[j]) in pairs)
      && (forall pr :: pr in pairs ==> pr.0.key != pr.1.key)
      && match InjectSpec(s, reg, cells, [])
         case Running(q) => ApplyPairs(s, cells, pairs) == Some(q.cells)
         case Aborted(_, _, _, _) => ApplyPairs(s, cells, pairs) == None
  {
    RunTargetsIsPairFold(s, Progress(cells, None, None), reg.Entries(), reg.Entries());
  }

  /**
    * The verdict is the failure of the pair (target, source): the error names
    * the target's class and the source's key, and either the source's class did
    * not resolve or the pair's step, run from the verdict's cells, threw it.
    */
  ghost predicate FailedAt(s: Schema, v: Verdict, target: Entry, targetCls: ClassName, source: Entry)
    requires s.WF()
  {
    && v.Aborted?
    && source.key != target.key
    && v.error.sourceKey == Some(source.key)
    && v.error.targetClass == Some(targetCls)
    && match TypeBinding(s, source)
       case Err(fault) => v.error.cause == fault && v.pending == {} && v.value == Null
       case Ok(sourceCls) =>
         PairStep(s, v.cells, target, targetCls, source, sourceCls) == Thrown(v.error.cause, v.pending) && v.value == source.value
  }

  /** When the inner loop runs through, the target class is kept and the source key is the last one visited. */
  lemma {:induction false} SourcesProgress(s: Schema, p: Progress, target: Entry, targetCls: ClassName, sources: seq<Entry>)
    requires s.WF()
    ensures var v := RunSources(s, p, target, targetCls, sources);
      v.Running? ==>
        && v.progress.targetClass == p.targetClass
        && v.progress.sourceKey == if sources == [] then p.sourceKey else Some(sources[|sources| - 1].key)
    decreases |sources|
  {
    if sources != [] {
      var source, rest := sources[0], sources[1..];
      var p1 := p.(sourceKey := Some(source.key));
      if rest != [] {
        assert sources[|sources| - 1] == rest[|rest| - 1];
      }
      if source.key == target.key {
        SourcesProgress(s, p1, target, targetCls, rest);
      } else if TypeBinding(s, source).Ok? {
        var step := PairStep(s, p1.cells, target, targetCls, source, TypeBinding(s, source).value);
        if step.Done? {
          SourcesProgress(s, p1.(cells := step.cells), target, targetCls, rest);
        }
      }
    }
  }

  /**
    * The inner loop fails at the first source whose pair fails: the sources
    * before it ran through and left the cells the failure starts from.
    */
  lemma {:induction false} SourcesAbortAt(s: Schema, p: Progress, target: Entry, targetCls: ClassName, sources: seq<Entry>)
    requires s.WF() && p.targetClass == Some(targetCls)
    ensures var v := RunSources(s, p, target, targetCls, sources);
      v.Aborted? ==>
        exists k :: 0 <= k < |sources| && FailedAt(s, v, target, targetCls, sources[k])
          && RunSources(s, p, target, targetCls, sources[..k]).Running?
          && RunSources(s, p, target, targetCls, sources[..k]).progress.cells == v.cells
    decreases |sources|
  {
    var v := RunSources(s, p, target, targetCls, sources);
    if sources != [] && v.Aborted? {
      var source, rest := sources[0], sources[1..];
      var p1 := p.(sourceKey := Some(source.key));
      if source.key == target.key {
        SourcesAbortLater(s, p, p1, target, targetCls, sources);
      } else if TypeBinding(s, source).Err? {
        assert sources[..0] == [];
        assert FailedAt(s, v, target, targetCls, sources[0]);
      } else {
        var step := PairStep(s, p1.cells, target, targetCls, source, TypeBinding(s, source).value);
        if step.Thrown? {
          assert sources[..0] == [];
          assert FailedAt(s, v, target, targetCls, sources[0]);
        } else {
          SourcesAbortLater(s, p, p1.(cells := step.cells), target, targetCls, sources);
        }
      }
    }
  }

  /** The step of `SourcesAbortAt` where the first source ran through and the failure comes later. */
  lemma {:induction false} SourcesAbortLater(s: Schema, p: Progress, p2: Progress, target: Entry, targetCls: ClassName, sources: seq<Entry>)
    requires s.WF() && p.targetClass == Some(targetCls) && sources != []
    requires RunSources(s, p, target, targetCls, sources) == RunSources(s, p2, target, targetCls, sources[1..])
    requires forall n :: 1 <= n <= |sources| ==>
      RunSources(s, p, target, targetCls, sources[..n]) == RunSources(s, p2, target, targetCls, sources[..n][1..])
    requires p2.targetClass == p.targetClass
    decreases |sources|, 0
    ensures var v := RunSources(s, p, target, targetCls, sources);
      v.Aborted? ==>
        exists k :: 0 <= k < |sources| && FailedAt(s, v, target, targetCls, sources[k])
          && RunSources(s, p, target, targetCls, sources[..k]).Running?
          && RunSources(s, p, target, targetCls, sources[..k]).progress.cells == v.cells
  {
    var v := RunSources(s, p, target, targetCls, sources);
    var rest := sources[1..];
    SourcesAbortAt(s, p2, target, targetCls, rest);
    if v.Aborted? {
      var k :| 0 <= k < |rest| && FailedAt(s, v, target, targetCls, rest[k])
        && RunSources(s, p2, target, targetCls, rest[..k]).Running?
        && RunSources(s, p2, target, targetCls, rest[..k]).progress.cells == v.cells;
      assert sources[k + 1] == rest[k];
      assert sources[..k + 1][1..] == rest[..k];
    }
  }

  /**
    * How a pass failed at `target`, given the run of the targets before it:
    * either the target's class did not resolve, and the error carries the
    * source key and target class that run left behind; or the inner loop failed
    * at one of its pairs.
    */
  ghost predicate TargetFailed(s: Schema, v: Verdict, before: Verdict, target: Entry, entries: seq<Entry>)
    requires s.WF()
  {
    && before.Running? && v.Aborted?
    && match TypeBinding(s, target)
       case Err(fault) =>
         v == Aborted(before.progress.cells, InjectionError(before.progress.sourceKey, before.progress.targetClass, fault), {}, Null)
       case Ok(targetCls) =>
         exists k :: 0 <= k < |entries| && FailedAt(s, v, target, targetCls, entries[k])
           && RunSources(s, before.progress.(targetClass := Some(targetCls)), target, targetCls, entries[..k]).Running?
           && RunSources(s, before.progress.(targetClass := Some(targetCls)), target, targetCls, entries[..k]).progress.cells == v.cells
  }

  /** A failed outer loop failed at one target, after the targets before it ran through. */
  lemma {:induction false} AbortNamesPair(s: Schema, p: Progress, entries: seq<Entry>, targets: seq<Entry>)
    requires s.WF()
    ensures var v := RunTargets(s, p, entries, targets);
      v.Aborted? ==> exists t :: 0 <= t < |targets| && TargetFailed(s, v, RunTargets(s, p, entries, targets[..t]), targets[t], entries)
    decreases |targets|
  {
    if targets != [] {
      var target, rest := targets[0], targets[1..];
      var v := RunTargets(s, p, entries, targets);
      assert targets[..0] == [];
      match TypeBinding(s, target)
      case Err(_) =>
      case Ok(targetCls) =>
        var p1 := p.(targetClass := Some(targetCls));
        SourcesAbortAt(s, p1, target, targetCls, entries);
        match RunSources(s, p1, target, targetCls, entries)
        case Aborted(_, _, _, _) =>
        case Running(next) =>
          AbortNamesPair(s, next, entries, rest);
          if v.Aborted? {
            var t :| 0 <= t < |rest| && TargetFailed(s, v, RunTargets(s, next, entries, rest[..t]), rest[t], entries);
            assert targets[t + 1] == rest[t];
            assert targets[..t + 1][0] == target && targets[..t + 1][1..] == rest[..t];
            assert RunTargets(s, p, entries, targets[..t + 1]) == RunTargets(s, next, entries, rest[..t]);
          }
    }
  }

  /**
    * After targets that all ran through, the locals `inject` would report
    * are the last target's class and the last entry's key; before the first
    * target they are the initial ones.
    */
  lemma {:induction false} TargetsProgress(s: Schema, p: Progress, entries: seq<Entry>, targets: seq<Entry>)
    requires s.WF()
    ensures var v := RunTargets(s, p, entries, targets);
      v.Running? ==>
        && (targets == [] ==> v.progress == p)
        && (targets != [] ==>
              && TypeBinding(s, targets[|targets| - 1]).Ok?
              && v.progress.targetClass == Some(TypeBinding(s, targets[|targets| - 1]).value)
              && v.progress.sourceKey == if entries == [] then p.sourceKey else Some(entries[|entries| - 1].key))
    decreases |targets|
  {
    if targets != [] {
      var target, rest := targets[0], targets[1..];
      if rest != [] {
        assert targets[|targets| - 1] == rest[|rest| - 1];
      }
      match TypeBinding(s, target)
      case Err(_) =>
      case Ok(targetCls) =>
        var p1 := p.(targetClass := Some(targetCls));
        SourcesProgress(s, p1, target, targetCls, entries);
        match RunSources(s, p1, target, targetCls, entries)
        case Aborted(_, _, _, _) =>
        case Running(next) =>
          TargetsProgress(s, next, entries, rest);
    }
  }
}
