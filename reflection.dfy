/**
  * The part of Java reflection the container uses, as a fixed class schema:
  * each loaded class has a superclass and declared fields (name, type,
  * `@Resource` annotation, `static` modifier), `isAssignableFrom` is a given
  * relation, objects carry their runtime class, and the JVM's field storage
  * is a heap from static or per-object field slots to values.
  */
module Reflection {
  import opened Wrappers
  import opened Keys

  /** A Java reference: null, or an object with an identity and the class `getClass()` returns. */
  datatype Value = Null | Ref(id: nat, cls: ClassName)

  /** A declared field as reflection describes it. */
  datatype Field = Field(declaringClass: ClassName, name: string, typ: ClassName, annotated: bool, isStatic: bool)

  /** A loaded class: its superclass, its depth below the root of the hierarchy, its declared fields by name. */
  datatype ClassInfo = ClassInfo(superclass: Option<ClassName>, depth: nat, declared: map<string, Field>)

  /**
    * The loaded classes, and `isAssignableFrom`: `(t, c) in assignable` when a
    * field of type `t` accepts a value of class `c`.
    */
  datatype Schema = Schema(classes: map<ClassName, ClassInfo>, assignable: set<(ClassName, ClassName)>) {

    /** The hierarchy is acyclic (a superclass sits higher) and each class declares its fields under their own names. */
    predicate WF() {
      forall c :: c in classes ==> WellFormedClass(c)
    }

    predicate WellFormedClass(c: ClassName)
      requires c in classes
    {
      var info := classes[c];
      && (info.superclass.Some? && info.superclass.value in classes ==>
            classes[info.superclass.value].depth < info.depth)
      && (forall n :: n in info.declared ==>
            info.declared[n].name == n && info.declared[n].declaringClass == c)
    }

    /** `getSuperclass()`; a class outside the schema has none. */
    function Super(c: ClassName): Option<ClassName> {
      if c in classes then classes[c].superclass else None
    }

    /** `getDeclaredFields()` by name; a class outside the schema declares none. */
    function Declared(c: ClassName): map<string, Field> {
      if c in classes then classes[c].declared else map[]
    }

    /** A measure that every step to a superclass decreases. */
    function Rank(c: ClassName): nat {
      if c in classes then classes[c].depth + 1 else 0
    }

    /** What `injectResource` demands of a field before it assigns a value of class `source` to it. */
    predicate Eligible(f: Field, source: ClassName) {
      f.annotated && (f.typ, source) in assignable
    }
  }

  /** The class and its superclasses, nearest first, as `c = c.getSuperclass()` visits them. */
  function Chain(s: Schema, c: ClassName): (r: seq<ClassName>)
    requires s.WF()
    decreases s.Rank(c)
    ensures r != [] && r[0] == c
    ensures forall i :: 0 <= i < |r| - 1 ==> s.Super(r[i]) == Some(r[i + 1])
    ensures s.Super(r[|r| - 1]).None?
  {
    match s.Super(c)
    case None => [c]
    case Some(p) =>
      assert s.WellFormedClass(c);
      [c] + Chain(s, p)
  }

  /** Every field declared by the class or by one of its superclasses. */
  ghost function AllFields(s: Schema, c: ClassName): set<Field>
    requires s.WF()
  {
    set a, f | a in Chain(s, c) && f in s.Declared(a).Values :: f
  }

  /** `getAllFields`: collects the declared fields of each class up the superclass chain. */
  method GetAllFields(s: Schema, c: ClassName) returns (fields: set<Field>)
    requires s.WF()
    ensures fields == AllFields(s, c)
  {
    fields := {};
    var cur: Option<ClassName> := Some(c);
    ghost var visited: seq<ClassName> := [];
    while cur.Some?
      invariant cur.Some? ==> Chain(s, c) == visited + Chain(s, cur.value)
      invariant cur.None? ==> Chain(s, c) == visited
      invariant fields == set a, f | a in visited && f in s.Declared(a).Values :: f
      decreases if cur.Some? then s.Rank(cur.value) + 1 else 0
    {
      var here := cur.value;
      assert here in s.classes ==> s.WellFormedClass(here);
      fields := fields + s.Declared(here).Values;
      visited := visited + [here];
      cur := s.Super(here);
    }
  }

  /** The field named `name` declared by the class, or else by its nearest superclass that declares one. */
  function FieldByName(s: Schema, c: ClassName, name: string): (r: Option<Field>)
    requires s.WF()
    decreases s.Rank(c)
    ensures var ch := Chain(s, c);
      r.None? <==> forall i :: 0 <= i < |ch| ==> name !in s.Declared(ch[i])
    ensures var ch := Chain(s, c);
      r.Some? ==> exists i :: 0 <= i < |ch| && name in s.Declared(ch[i]) && r.value == s.Declared(ch[i])[name]
                               && forall j :: 0 <= j < i ==> name !in s.Declared(ch[j])
  {
    if name in s.Declared(c) then
      assert Chain(s, c)[0] == c;
      Some(s.Declared(c)[name])
    else
      match s.Super(c)
      case None => None
      case Some(p) =>
        assert s.WellFormedClass(c);
        var r := FieldByName(s, p, name);
        var ch := Chain(s, c);
        assert ch == [c] + Chain(s, p);
        if r.Some? then
          var i :| 0 <= i < |Chain(s, p)| && name in s.Declared(Chain(s, p)[i]) && r.value == s.Declared(Chain(s, p)[i])[name]
                     && forall j :: 0 <= j < i ==> name !in s.Declared(Chain(s, p)[j]);
          assert ch[i + 1] == Chain(s, p)[i];
          r
        else
          r
  }

  /** `getFieldByName`: asks each class up the chain for a declared field of that name and returns the first. */
  method GetFieldByName(s: Schema, c: ClassName, name: string) returns (r: Option<Field>)
    requires s.WF()
    ensures r == FieldByName(s, c, name)
  {
    var cur: Option<ClassName> := Some(c);
    while cur.Some?
      invariant cur.Some? ==> FieldByName(s, cur.value, name) == FieldByName(s, c, name)
      invariant cur.None? ==> FieldByName(s, c, name).None?
      decreases if cur.Some? then s.Rank(cur.value) + 1 else 0
    {
      var here := cur.value;
      assert here in s.classes ==> s.WellFormedClass(here);
      var declared := s.Declared(here);
      if name in declared {
        return Some(declared[name]);
      }
      cur := s.Super(here);
    }
    return None;
  }

  /** Where a field's value lives: once per class for a static field, once per object otherwise. */
  datatype Location = StaticSlot(field: Field) | InstanceSlot(obj: nat, field: Field)

  /** `Field.set(target, v)` succeeds for a static field, and for an instance field only when the target is not null. */
  predicate Writable(target: Value, f: Field) {
    f.isStatic || target.Ref?
  }

  /** The slot `Field.set(target, v)` writes. */
  function Slot(target: Value, f: Field): Location
    requires Writable(target, f)
  {
    if f.isStatic then StaticSlot(f) else InstanceSlot(target.id, f)
  }

  /** The JVM's field storage, which reflective assignment changes in place. */
  class Heap {
    var cells: map<Location, Value>

    constructor (initial: map<Location, Value>)
      ensures cells == initial
    {
      cells := initial;
    }

    /** `Field.set`: writes the slot, or fails (a NullPointerException) for an instance field of a null target. */
    method Set(f: Field, target: Value, v: Value) returns (ok: bool)
      modifies this
      ensures ok == Writable(target, f)
      ensures ok ==> cells == old(cells)[Slot(target, f) := v]
      ensures !ok ==> cells == old(cells)
    {
      ok := Writable(target, f);
      if ok {
        cells := cells[Slot(target, f) := v];
      }
    }
  }
}
