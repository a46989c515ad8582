/**
  * The binding registry as a value: the container's insertion-ordered map
  * from key strings to bound values, `put` on it, and the conflict policy
  * `toKey` applies before every `put`.
  */
module Bindings {
  import opened Wrappers
  import opened Keys
  import opened Reflection

  /** One entry of the container, as `entrySet()` yields it. */
  datatype Entry = Entry(key: string, value: Value)

  /** The `LinkedHashMap` behind the container: its keys in insertion order and the value under each. */
  datatype Registry = Registry(keys: seq<string>, values: map<string, Value>) {

    predicate Valid() {
      && (forall i, j :: 0 <= i < j < |keys| ==> keys[i] != keys[j])
      && (forall k :: k in values ==> k in keys)
      && (forall i :: 0 <= i < |keys| ==> keys[i] in values)
    }

    /** `entrySet()` in iteration (insertion) order. */
    function Entries(): (r: seq<Entry>)
      requires Valid()
      ensures |r| == |keys|
      ensures forall i :: 0 <= i < |r| ==> r[i] == Entry(keys[i], values[keys[i]])
    {
      seq(|keys|, i requires 0 <= i < |keys| => Entry(keys[i], values[keys[i]]))
    }
  }

  const Empty: Registry := Registry([], map[])

  /** `LinkedHashMap.put`: a new key goes last; a present key keeps its place and takes the new value. */
  function Put(reg: Registry, key: string, v: Value): (r: Registry)
    requires reg.Valid()
    ensures r.Valid()
  {
    if key in reg.values then Registry(reg.keys, reg.values[key := v])
    else Registry(reg.keys + [key], reg.values[key := v])
  }

  /** The three refusals of the conflict policy. */
  datatype Conflict =
    | DuplicateBinding  // the exact key is already bound
    | NameAfterType     // a named binding while the class's type-only key is bound
    | TypeAfterName     // a type-only binding while some key of the class is bound

  /** The binding name `toKey` receives: absent for `bindByType` and `bindStatic`. */
  function BindingName(name: Option<string>): string {
    if name.Some? then name.value else ""
  }

  /**
    * `toKey`: the key of the binding and, unless overwriting is allowed, the
    * conflict checks in the order the source makes them. Only a call without
    * a name (not one with an empty name) scans for keys of the same class.
    */
  function CheckedKey(reg: Registry, overwrite: bool, cls: ClassName, name: Option<string>): (r: Result<string, Conflict>)
    ensures overwrite ==> r.Ok?
    ensures r.Ok? ==> r.value == MakeKey(cls, BindingName(name))
    ensures r.Ok? && !overwrite ==> r.value !in reg.values
  {
    var key := MakeKey(cls, BindingName(name));
    if overwrite then Ok(key)
    else if key in reg.values then Err(DuplicateBinding)
    else if TypeKey(cls) in reg.values then Err(NameAfterType)
    else if name.None? && exists k :: k in reg.values && TypePrefix(k) == TypeKey(cls) then Err(TypeAfterName)
    else Ok(key)
  }

  /** `bindByName` (with a name), `bindByType` and `bindStatic` (without): the checked key, then `put`. */
  function Bind(reg: Registry, overwrite: bool, cls: ClassName, name: Option<string>, v: Value): (r: Result<Registry, Conflict>)
    requires reg.Valid()
    ensures r.Ok? ==> r.value.Valid()
  {
    match CheckedKey(reg, overwrite, cls, name)
    case Err(c) => Err(c)
    case Ok(key) => Ok(Put(reg, key, v))
  }

  /** Without overwrite, a non-empty name is accepted exactly when neither its key nor the class's type-only key is bound. */
  lemma NamedBindingAccepted(reg: Registry, cls: ClassName, name: string, v: Value)
    requires reg.Valid() && name != ""
    ensures var r := Bind(reg, false, cls, Some(name), v);
      && (r.Ok? <==> MakeKey(cls, name) !in reg.values && MakeKey(cls, "") !in reg.values)
      && (r.Err? ==> r.error == if MakeKey(cls, name) in reg.values then DuplicateBinding else NameAfterType)
      && (r.Ok? ==> r.value == Put(reg, MakeKey(cls, name), v))
  {
    assert TypeKey(cls) == MakeKey(cls, "");
  }

  /**
    * Without overwrite, a type-only binding (instance or static) is accepted
    * exactly when no key of the class is bound, whatever its name.
    */
  lemma TypeBindingAccepted(reg: Registry, cls: ClassName, v: Value)
    requires reg.Valid()
    ensures var r := Bind(reg, false, cls, None, v);
      && (r.Ok? <==> forall name :: MakeKey(cls, name) !in reg.values)
      && (r.Err? ==> r.error == if MakeKey(cls, "") in reg.values then DuplicateBinding else TypeAfterName)
      && (r.Ok? ==> r.value == Put(reg, MakeKey(cls, ""), v))
  {
    assert TypeKey(cls) == MakeKey(cls, "");
    forall k | k in reg.values
      ensures TypePrefix(k) == TypeKey(cls) <==> exists name :: k == MakeKey(cls, name)
    {
      TypePrefixIsClass(k, cls);
    }
  }

  /** `bindByName` with an empty name builds the type-only key yet skips the scan: only the exact key refuses it. */
  lemma EmptyNameAccepted(reg: Registry, cls: ClassName, v: Value)
    requires reg.Valid()
    ensures var r := Bind(reg, false, cls, Some(""), v);
      && (r.Ok? <==> MakeKey(cls, "") !in reg.values)
      && (r.Ok? ==> r.value == Put(reg, TypeKey(cls), v))
      && (r.Err? ==> r.error == DuplicateBinding)
  {
    assert TypeKey(cls) == MakeKey(cls, "");
  }

  /**
    * With overwrite nothing is checked: the value under the key is replaced,
    * a bound key keeps its place and the key count stays, every other entry is unchanged.
    */
  lemma OverwriteReplaces(reg: Registry, cls: ClassName, name: Option<string>, v: Value)
    requires reg.Valid()
    ensures var key := MakeKey(cls, BindingName(name));
      var r := Bind(reg, true, cls, name, v);
      && r.Ok? && key in r.value.values && r.value.values[key] == v
      && (forall k :: k in reg.values && k != key ==> k in r.value.values && r.value.values[k] == reg.values[k])
      && (key in reg.values ==> r.value.keys == reg.keys)
      && (key !in reg.values ==> r.value.keys == reg.keys + [key])
  {
  }

  /** No class holds both its type-only key and a named key. */
  ghost predicate Exclusive(reg: Registry) {
    forall cls: ClassName, name: string :: name != "" && MakeKey(cls, name) in reg.values ==> TypeKey(cls) !in reg.values
  }

  /** A binding made without overwrite and without an empty name keeps the registry exclusive. */
  lemma BindKeepsExclusive(reg: Registry, cls: ClassName, name: Option<string>, v: Value)
    requires reg.Valid() && Exclusive(reg)
    requires name.Some? ==> name.value != ""
    ensures var r := Bind(reg, false, cls, name, v); r.Ok? ==> Exclusive(r.value)
  {
    var r := Bind(reg, false, cls, name, v);
    if r.Ok? {
      var key := MakeKey(cls, BindingName(name));
      var vals := r.value.values;
      assert vals == reg.values[key := v];
      forall c: ClassName, n: string | n != "" && MakeKey(c, n) in vals
        ensures TypeKey(c) !in vals
      {
        assert TypeKey(c) == MakeKey(c, "");
        if MakeKey(c, n) == key {
          MakeKeyInjective(c, n, cls, BindingName(name));
          assert TypeKey(c) != key by {
            if TypeKey(c) == key {
              MakeKeyInjective(c, "", c, n);
            }
          }
        } else if TypeKey(c) == key {
          MakeKeyInjective(c, "", cls, BindingName(name));
          TypePrefixOfKey(c, n);
        }
      }
    }
  }

  /** One call of the registry's public binding API. */
  datatype BindCall =
    | ByName(cls: ClassName, name: string, value: Value, overwrite: bool)
    | ByType(cls: ClassName, value: Value, overwrite: bool)
    | Static(cls: ClassName, overwrite: bool)

  function Apply(reg: Registry, call: BindCall): (r: Result<Registry, Conflict>)
    requires reg.Valid()
    ensures r.Ok? ==> r.value.Valid()
  {
    match call
    case ByName(cls, name, v, overwrite) => Bind(reg, overwrite, cls, Some(name), v)
    case ByType(cls, v, overwrite) => Bind(reg, overwrite, cls, None, v)
    case Static(cls, overwrite) => Bind(reg, overwrite, cls, None, Null)
  }

  /** A chain of binding calls; the first conflict propagates and ends the chain. */
  function Replay(reg: Registry, calls: seq<BindCall>): (r: Result<Registry, Conflict>)
    requires reg.Valid()
    ensures r.Ok? ==> r.value.Valid()
    decreases |calls|
  {
    if calls == [] then Ok(reg)
    else
      match Apply(reg, calls[0])
      case Err(c) => Err(c)
      case Ok(next) => Replay(next, calls[1..])
  }

  /** A call that uses no overwrite and no empty name. */
  predicate Guarded(call: BindCall) {
    !call.overwrite && (call.ByName? ==> call.name != "")
  }

  /** One guarded call keeps the registry exclusive. */
  lemma ApplyKeepsExclusive(reg: Registry, call: BindCall)
    requires reg.Valid() && Exclusive(reg) && Guarded(call)
    ensures var r := Apply(reg, call); r.Ok? ==> Exclusive(r.value)
  {
    match call
    case ByName(cls, name, v, _) => BindKeepsExclusive(reg, cls, Some(name), v);
    case ByType(cls, v, _) => BindKeepsExclusive(reg, cls, None, v);
    case Static(cls, _) => BindKeepsExclusive(reg, cls, None, Null);
  }

  /** While no call overwrites or passes an empty name, no class ever holds both a type-only and a named key. */
  lemma {:induction false} ReplayKeepsExclusive(reg: Registry, calls: seq<BindCall>)
    requires reg.Valid() && Exclusive(reg)
    requires forall i :: 0 <= i < |calls| ==> Guarded(calls[i])
    ensures var r := Replay(reg, calls); r.Ok? ==> Exclusive(r.value)
    decreases |calls|
  {
    if calls != [] {
      ApplyKeepsExclusive(reg, calls[0]);
      var next := Apply(reg, calls[0]);
      if next.Ok? {
        assert forall i :: 0 <= i < |calls[1..]| ==> calls[1..][i] == calls[i + 1];
        ReplayKeepsExclusive(next.value, calls[1..]);
      }
    }
  }

  /** An empty name passed to `bindByName` slips past the scan: the class then holds both kinds of key. */
  lemma EmptyNameBreaksExclusive(cls: ClassName, v: Value, w: Value)
    ensures var r := Replay(Empty, [ByName(cls, "x", v, false), ByName(cls, "", w, false)]);
      r.Ok? && !Exclusive(r.value)
  {
    var calls := [ByName(cls, "x", v, false), ByName(cls, "", w, false)];
    var named, typed := MakeKey(cls, "x"), MakeKey(cls, "");
    assert |named| != |typed|;
    assert TypeKey(cls) == typed;
    var first := Put(Empty, named, v);
    assert Apply(Empty, calls[0]) == Ok(first);
    var second := Put(first, typed, w);
    assert Apply(first, calls[1]) == Ok(second);
    assert calls[1..][0] == calls[1] && calls[1..][1..] == [];
    assert Replay(second, calls[1..][1..]) == Ok(second);
    assert Replay(first, calls[1..]) == Ok(second);
    assert Replay(Empty, calls) == Ok(second);
    assert named in second.values && TypeKey(cls) in second.values;
  }

  /** Overwrite skips every check, so a type-only binding can join a named one of the same class. */
  lemma OverwriteBreaksExclusive(cls: ClassName, v: Value, w: Value)
    ensures var r := Replay(Empty, [ByName(cls, "x", v, false), ByType(cls, w, true)]);
      r.Ok? && !Exclusive(r.value)
  {
    var calls := [ByName(cls, "x", v, false), ByType(cls, w, true)];
    var named, typed := MakeKey(cls, "x"), MakeKey(cls, "");
    assert |named| != |typed|;
    assert TypeKey(cls) == typed;
    var first := Put(Empty, named, v);
    assert Apply(Empty, calls[0]) == Ok(first);
    var second := Put(first, typed, w);
    assert Apply(first, calls[1]) == Ok(second);
    assert calls[1..][0] == calls[1] && calls[1..][1..] == [];
    assert Replay(second, calls[1..][1..]) == Ok(second);
    assert Replay(first, calls[1..]) == Ok(second);
    assert Replay(Empty, calls) == Ok(second);
    assert named in second.values && TypeKey(cls) in second.values;
  }
}
