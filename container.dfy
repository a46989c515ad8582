/**
  * The `SpitDI` object: its one field, the insertion-ordered `container` map,
  * here the two fields `keys` and `values`; the bind operations that check a
  * key and `put` it; `clearBindings`; and `inject`, which registers the extra
  * instances, runs every (target, source) pair against the heap and clears
  * the registry in its `finally`.
  */
module Container {
  import opened Wrappers
  import opened Keys
  import opened Reflection
  import opened Bindings
  import opened Resolution

  class SpitDI {
    var keys: seq<string>
    var values: map<string, Value>

    /** The `container` map as a value. */
    function Contents(): Registry
      reads this
    {
      Registry(keys, values)
    }

    ghost predicate Valid()
      reads this
    {
      Contents().Valid()
    }

    constructor ()
      ensures Valid() && Contents() == Empty
    {
      keys := [];
      values := map[];
    }

    /**
      * `toKey`: builds the key and, unless overwriting, refuses an exact
      * duplicate, a named binding over the class's type-only binding, and a
      * type-only binding once any key of the class is bound.
      */
    method ToKey(overwrite: bool, cls: ClassName, name: Option<string>) returns (r: Result<string, Conflict>)
      requires Valid()
      ensures r == CheckedKey(Contents(), overwrite, cls, name)
    {
      var key := MakeKey(cls, BindingName(name));
      if !overwrite {
        var byTypeKey := TypeKey(cls);
        if key in values {
          return Err(DuplicateBinding);
        } else if byTypeKey in values {
          return Err(NameAfterType);
        } else if name.None? {
          var i := 0;
          while i < |keys|
            invariant 0 <= i <= |keys|
            invariant forall j :: 0 <= j < i ==> TypePrefix(keys[j]) != byTypeKey
          {
            if byTypeKey == TypePrefix(keys[i]) {
              return Err(TypeAfterName);
            }
            i := i + 1;
          }
        }
      }
      return Ok(key);
    }

    /** `container.put` */
    method Put(key: string, v: Value)
      requires Valid()
      modifies this
      ensures Valid() && Contents() == Bindings.Put(old(Contents()), key, v)
    {
      if key !in values {
        keys := keys + [key];
      }
      values := values[key := v];
    }

    /** `bindByName`: on a conflict nothing is put and the registry is unchanged. */
    method BindByName(cls: ClassName, name: string, instance: Value, overwrite: bool) returns (r: Outcome<Conflict>)
      requires Valid()
      modifies this
      ensures Valid()
      ensures match Bind(old(Contents()), overwrite, cls, Some(name), instance)
        case Ok(reg) => r == Pass && Contents() == reg
        case Err(c) => r == Fail(c) && Contents() == old(Contents())
    {
      var key := ToKey(overwrite, cls, Some(name));
      if key.Err? {
        return Fail(key.error);
      }
      Put(key.value, instance);
      return Pass;
    }

    /** `bindByType` */
    method BindByType(cls: ClassName, instance: Value, overwrite: bool) returns (r: Outcome<Conflict>)
      requires Valid()
      modifies this
      ensures Valid()
      ensures match Bind(old(Contents()), overwrite, cls, None, instance)
        case Ok(reg) => r == Pass && Contents() == reg
        case Err(c) => r == Fail(c) && Contents() == old(Contents())
    {
      var key := ToKey(overwrite, cls, None);
      if key.Err? {
        return Fail(key.error);
      }
      Put(key.value, instance);
      return Pass;
    }

    /** `bindStatic`: a type-only binding whose value is null, so that injection targets the class. */
    method BindStatic(cls: ClassName, overwrite: bool) returns (r: Outcome<Conflict>)
      requires Valid()
      modifies this
      ensures Valid()
      ensures match Bind(old(Contents()), overwrite, cls, None, Null)
        case Ok(reg) => r == Pass && Contents() == reg
        case Err(c) => r == Fail(c) && Contents() == old(Contents())
    {
      var key := ToKey(overwrite, cls, None);
      if key.Err? {
        return Fail(key.error);
      }
      Put(key.value, Null);
      return Pass;
    }

    /** `clearBindings` */
    method ClearBindings()
      modifies this
      ensures Valid() && Contents() == Empty
    {
      keys := [];
      values := map[];
    }

    /**
      * `inject`: the pass below, then, returned or thrown, the registry is
      * cleared. A failure is one wrapped error; what was assigned before it stays.
      */
    method Inject(s: Schema, heap: Heap, instances: seq<Value>) returns (r: Outcome<InjectionError>)
      requires Valid() && s.WF()
      modifies this, heap
      ensures Valid() && Contents() == Empty
      ensures Reported(InjectSpec(s, old(Contents()), old(heap.cells), instances), r, heap.cells)
    {
      r := RunPass(s, heap, instances);
      ClearBindings();
    }

    /** The `try` block of `inject`: registration of the extra instances, then every (target, source) pair. */
    method RunPass(s: Schema, heap: Heap, instances: seq<Value>) returns (r: Outcome<InjectionError>)
      requires Valid() && s.WF()
      modifies this, heap
      ensures Valid()
      ensures Contents() == if |instances| > 0 && instances[0].Ref? then Registered(old(Contents()), instances) else old(Contents())
      ensures Reported(InjectSpec(s, old(Contents()), old(heap.cells), instances), r, heap.cells)
    {
      if |instances| > 0 && instances[0].Ref? {
        var registered := RegisterInstances(instances);
        if registered.Fail? {
          WriteNothing(heap.cells, Null);
          return Fail(InjectionError(None, None, registered.error));
        }
      }
      var entries := Contents().Entries();
      r := InjectAll(s, heap, entries);
    }

    /** Binds each extra instance by type under its runtime class; stops at a null instance or a conflict. */
    method RegisterInstances(instances: seq<Value>) returns (r: Outcome<Fault>)
      requires Valid()
      modifies this
      ensures Valid()
      ensures Contents() == Registered(old(Contents()), instances)
      ensures match Register(old(Contents()), instances)
        case Ok(reg) => r == Pass && Contents() == reg
        case Err(fault) => r == Fail(fault)
    {
      ghost var reg0 := Contents();
      var i := 0;
      while i < |instances|
        invariant 0 <= i <= |instances| && Valid()
        invariant Register(Contents(), instances[i..]) == Register(reg0, instances)
        invariant Registered(Contents(), instances[i..]) == Registered(reg0, instances)
      {
        var instance := instances[i];
        assert instances[i..][0] == instance && instances[i..][1..] == instances[i + 1..];
        if instance.Null? {
          return Fail(NullInstance);
        }
        var bound := BindByType(instance.cls, instance, false);
        if bound.Fail? {
          return Fail(Conflicting(bound.error));
        }
        i := i + 1;
      }
      return Pass;
    }

    /** The outer loop of `inject`: resolve each target's class, then run every source against it. */
    static method InjectAll(s: Schema, heap: Heap, entries: seq<Entry>) returns (r: Outcome<InjectionError>)
      requires s.WF()
      modifies heap
      ensures Reported(RunTargets(s, Progress(old(heap.cells), None, None), entries, entries), r, heap.cells)
    {
      ghost var verdict := RunTargets(s, Progress(heap.cells, None, None), entries, entries);
      var sourceKey: Option<string> := None;
      var targetClass: Option<ClassName> := None;
      var t := 0;
      while t < |entries|
        invariant 0 <= t <= |entries|
        invariant RunTargets(s, Progress(heap.cells, sourceKey, targetClass), entries, entries[t..]) == verdict
      {
        var target := entries[t];
        assert entries[t..][0] == target && entries[t..][1..] == entries[t + 1..];
        var resolved := TypeBinding(s, target);
        if resolved.Err? {
          WriteNothing(heap.cells, Null);
          return Fail(InjectionError(sourceKey, targetClass, resolved.error));
        }
        targetClass := Some(resolved.value);
        r, sourceKey := InjectTarget(s, heap, target, resolved.value, entries, sourceKey);
        if r.Fail? {
          return;
        }
        t := t + 1;
      }
      return Pass;
    }

    /**
      * The inner loop of `inject` for one resolved target: each other entry is
      * resolved and injected by type or by name. Returns the last source key reached.
      */
    static method InjectTarget(s: Schema, heap: Heap, target: Entry, targetCls: ClassName, entries: seq<Entry>, sourceKey0: Option<string>)
      returns (r: Outcome<InjectionError>, sourceKey: Option<string>)
      requires s.WF()
      modifies heap
      ensures var verdict := RunSources(s, Progress(old(heap.cells), sourceKey0, Some(targetCls)), target, targetCls, entries);
        && Reported(verdict, r, heap.cells)
        && (r.Pass? ==> verdict == Running(Progress(heap.cells, sourceKey, Some(targetCls))))
    {
      ghost var verdict := RunSources(s, Progress(heap.cells, sourceKey0, Some(targetCls)), target, targetCls, entries);
      sourceKey := sourceKey0;
      var u := 0;
      while u < |entries|
        invariant 0 <= u <= |entries|
        invariant RunSources(s, Progress(heap.cells, sourceKey, Some(targetCls)), target, targetCls, entries[u..]) == verdict
      {
        var source := entries[u];
        assert entries[u..][0] == source && entries[u..][1..] == entries[u + 1..];
        sourceKey := Some(source.key);
        if target.key != source.key {
          var sourceCls := TypeBinding(s, source);
          if sourceCls.Err? {
            WriteNothing(heap.cells, Null);
            return Fail(InjectionError(sourceKey, Some(targetCls), sourceCls.error)), sourceKey;
          }
          var sourceName := NameOf(source.key);
          var res: Result<bool, Fault>;
          if |sourceName| == 0 {
            res := InjectByType(s, heap, targetCls, target.value, sourceCls.value, source.value);
          } else {
            res := InjectByName(s, heap, target.value, targetCls, sourceName, sourceCls.value, source.value);
          }
          if res.Err? {
            return Fail(InjectionError(sourceKey, Some(targetCls), res.error)), sourceKey;
          }
        }
        u := u + 1;
      }
      return Pass, sourceKey;
    }
  }
}
