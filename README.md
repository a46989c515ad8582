# Spit-DI, modelled in Dafny

Spit-DI is a small field-injection container for Java. One object, `SpitDI`,
holds an insertion-ordered map from string keys to bound objects. The
`bindByName`, `bindByType` and `bindStatic` calls add entries under a conflict
policy. `inject` then wires every bound object into the `@Resource` fields of
every other bound object and clears the map.

The model has two halves, as the class has.

**Binding registry.** A key is the class name, a `|`, then the binding's name.
The name is empty for a type-only binding. Without overwrite, `toKey` refuses
three things:

- a key that is already bound;
- a named binding once the class's type-only key is bound;
- a type-only binding once any key of the class is bound.

A refusal happens before `put`, so the map is unchanged. The model states
each rule in both directions. It also proves that, without overwrite and
without an empty name, no class ever holds both kinds of key. Two short call
sequences show that each of those two loopholes breaks this.

**Resolver.** Java reflection is replaced by a fixed class schema, which gives:

- each class's superclass and declared fields (name, type, `@Resource`, `static`);
- an assignability relation standing for `isAssignableFrom`;
- objects that carry their runtime class;
- a heap of static and per-object field slots.

`inject` does the following:

- it registers the extra instances by their runtime class;
- it visits every (target, source) pair of distinct keys, target-major, in insertion order;
- it matches by type when the source's key has no name, by name otherwise;
- it stops at the first failure with one wrapped error;
- it empties the registry in every case.

The helpers and the loops are methods over the heap object. They are proved
against step functions, and the properties are proved about those functions:

- the key decode round trip;
- which fields by-type and by-name matching assign;
- shadowing by the nearest field of a name;
- the pair enumeration, and what the wrapped error names.

A pass can fail while the extra instances are registered, on a null later
instance or a conflicting class; that error carries no source key and no
target class. A pass that fails after registration failed at one target,
after the targets before it ran through. Either that target's class did not
load, or its inner loop failed at one source. In the first case the error carries the source key and target class
left over from the previous target. Before the first target these are both
absent; after it they are the previous target's class and the last entry's
key. `Resolution.AbortNamesPair`, `Resolution.SourcesAbortAt` and
`Resolution.TargetsProgress` state this.

## Model

| member | source | states |
|---|---|---|
| Keys.MakeKey | SpitDI.java:155 | the key is the class name, one `\|`, then the binding name, and nothing else |
| Keys.IndexOfBar | SpitDI.java:166 | `indexOf("\|")`: the first separator's position, -1 exactly when there is none, and no separator before it |
| Keys.TypePrefix | SpitDI.java:166 | the cut is a prefix of the key. It is empty exactly when the key has no `\|`, and otherwise ends at the key's first `\|` |
| Keys.Pieces | SpitDI.java:108 | the pieces between separators: at least one, none holding a separator, and joined with `\|` they give the string back; the first piece ends at the first separator |
| Keys.DropTrailingEmpty | SpitDI.java:108 | the result is a prefix of the pieces, ends in a non-empty piece, and only empty pieces were dropped |
| Keys.Split | SpitDI.java:108 | `split("\\\|")` gives the string itself when it has no separator. Otherwise it gives the pieces less only trailing empty ones, ending in a non-empty piece |
| Keys.NameOf | SpitDI.java:107-110 | `getNameBinding` returns a separator-free string; a non-empty one is the second piece of the split |
| Keys.ClassNameOf | SpitDI.java:115 | the piece passed to `Class.forName` is a separator-free prefix of the key, and the whole key when it has no separator |
| Keys.SplitKey | SpitDI.java:107-116 | splitting a built key with a separator-free name gives `[class]` for an empty name and `[class, name]` otherwise |
| Keys.NameOfKey | SpitDI.java:107-110 | round trip: `getNameBinding` of a built key returns the name (without separator), "" for a type-only key |
| Keys.ClassNameOfKey | SpitDI.java:112-116 | the piece `getTypeBinding` passes to `Class.forName` is the class the key was built for, whatever the name |
| Keys.NameOfKeyLosesBar | SpitDI.java:107-110 | a name containing `\|` comes back cut before its first `\|`, so the round trip loses it |
| Keys.TypePrefixOfKey | SpitDI.java:157-167 | the class part the conflict scan cuts from a built key is the class's type-only key |
| Keys.TypePrefixIsClass | SpitDI.java:165-167 | a key's class part equals `C\|` exactly when the key was built for class C under some name |
| Keys.MakeKeyInjective | SpitDI.java:155 | distinct (class, name) pairs give distinct keys |
| Keys.BarAfterClass | SpitDI.java:166 | the first separator of a built key sits right after the class name |
| Reflection.Chain | SpitDI.java:92 | the superclass walk starts at the class, follows `getSuperclass` and ends at a class without one |
| Reflection.GetAllFields | SpitDI.java:90-95 | the loop collects exactly the fields declared by some class of the chain |
| Reflection.FieldByName | SpitDI.java:97-105 | absent exactly when no class of the chain declares the name; otherwise the field of the nearest class declaring it |
| Reflection.GetFieldByName | SpitDI.java:97-105 | the loop returns the nearest declared field of that name, or none |
| Reflection.Heap.Set | SpitDI.java:144-148 | `Field.set` writes the class slot of a static field or the target's slot of an instance field, fails for an instance field of null, and changes nothing else |
| Bindings.Registry.Entries | SpitDI.java:61-64 | `entrySet()` lists every key once, in insertion order, with its value |
| Bindings.Put | SpitDI.java:28 | `LinkedHashMap.put` keeps the map valid: keys distinct and exactly those with values |
| Bindings.CheckedKey | SpitDI.java:152-173 | with overwrite every key is accepted; an accepted key is the built key; without overwrite an accepted key is not yet bound |
| Bindings.Bind | SpitDI.java:27-40 | a successful bind leaves a valid registry |
| Bindings.NamedBindingAccepted | SpitDI.java:156-162 | without overwrite, a named binding succeeds iff neither its key nor the type-only key of the class is bound; the refusal says which; success puts under the key |
| Bindings.TypeBindingAccepted | SpitDI.java:156-169 | without overwrite, a type-only or static binding succeeds iff no key of the class is bound under any name; the refusal says which |
| Bindings.EmptyNameAccepted | SpitDI.java:154-164 | `bindByName` with "" builds the type-only key, is refused exactly when that key is bound and then as a duplicate, and otherwise puts under it |
| Bindings.OverwriteReplaces | SpitDI.java:152-172 | with overwrite, nothing is checked: the key holds the new value, a present key keeps its place and the key count, other entries are unchanged |
| Bindings.BindKeepsExclusive | SpitDI.java:156-169 | a binding without overwrite and without an empty name never gives a class both a type-only and a named key |
| Bindings.Apply | SpitDI.java:27-40 | one public bind call keeps the registry valid |
| Bindings.Replay | SpitDI.java:27-40 | a chain of bind calls keeps the registry valid; the first refusal ends it |
| Bindings.ApplyKeepsExclusive | SpitDI.java:156-169 | one guarded bind call keeps the registry exclusive |
| Bindings.ReplayKeepsExclusive | SpitDI.java:156-169 | any chain of bind calls without overwrite or empty names keeps every class to one kind of key |
| Bindings.EmptyNameBreaksExclusive | SpitDI.java:154-164 | binding `C` under "x", then `bindByName(C, "")`, succeeds and leaves both kinds of key for C |
| Bindings.OverwriteBreaksExclusive | SpitDI.java:156 | binding `C` under "x", then `bindByType(C, …, true)`, succeeds and leaves both kinds of key for C |
| Resolution.Write | SpitDI.java:134-135 | the written cells hold the value in the given slots and the old value everywhere else |
| Resolution.TypeBinding | SpitDI.java:112-120 | a non-null binding's class is its runtime class; a null binding's is the loaded class named by the key's class part; only a null binding fails, with `ClassNotFound` of that part |
| Resolution.ResourceStep | SpitDI.java:139-150 | definition of `injectResource` on the heap; its meaning is stated by `Resolution.ResourceStepMeaning` |
| Resolution.ByTypeStep | SpitDI.java:132-137 | definition of `injectByType` on the heap; its meaning is stated by `Resolution.ByTypeMeaning` |
| Resolution.ByNameStep | SpitDI.java:122-130 | definition of `injectByName` on the heap; its meaning is stated by `Resolution.ByNameMeaning` |
| Resolution.PairStep | SpitDI.java:69-74 | one resolved pair: by type for a source key without a name, by name otherwise (see `Resolution.PairDispatch`) |
| Resolution.RunSources | SpitDI.java:64-75 | definition of the inner loop: skip the target's own key, resolve the source, run the pair, stop at the first failure |
| Resolution.RunTargets | SpitDI.java:61-76 | definition of the outer loop: resolve each target's class, then run the inner loop, stop at the first failure |
| Resolution.InjectSpec | SpitDI.java:52-84 | definition of one `inject` pass: registration when the first instance is non-null, a registration failure wrapped with no key and no class, then the outer loop over the entries |
| Resolution.Register | SpitDI.java:56-59 | a successful registration leaves a valid registry; what it binds is stated by the four lemmas below |
| Resolution.RegisterMeaning | SpitDI.java:56-59 | registration succeeds exactly when every instance is non-null, no two share a runtime class, and no key of their classes is bound yet |
| Resolution.RegisterAppends | SpitDI.java:56-59 | a successful registration appends each instance's type-only key after the existing keys, in order |
| Resolution.RegisterKeeps | SpitDI.java:56-59 | a successful registration keeps every earlier binding |
| Resolution.RegisterBinds | SpitDI.java:56-59 | after a successful registration each instance is bound under the type-only key of its runtime class |
| Resolution.Registered | SpitDI.java:56-60 | the registry after registration, failed or not, is valid, keeps every earlier binding, and is `Register`'s result when that succeeds |
| Resolution.InjectResource | SpitDI.java:139-150 | the method matches `ResourceStep` and leaves the heap unchanged when it fails |
| Resolution.InjectByType | SpitDI.java:132-137 | the loop over the field set, in any order, matches `ByTypeStep`: a completed run writes every eligible slot; a failed run writes only some of them |
| Resolution.InjectByName | SpitDI.java:122-130 | the method matches `ByNameStep` |
| Resolution.BindingClass | SpitDI.java:112-120 | a binding's class is its value's runtime class, or for a null value the key's class if loaded, else `ClassNotFound` |
| Resolution.PairDispatch | SpitDI.java:69-74 | a source bound without a name is matched by type, one bound under a name by that name |
| Resolution.ResourceStepMeaning | SpitDI.java:139-150 | a field is assigned iff annotated and assignable, and then at class level when static and on the target otherwise; fails exactly for an instance field of a null target |
| Resolution.ByTypeMeaning | SpitDI.java:132-137 | by type completes iff no eligible field is an instance field of a null target; then every eligible field of the whole chain holds the value, nothing else changes, and the result says whether one existed |
| Resolution.ByNameMeaning | SpitDI.java:122-130 | by name with an empty name or no field of that name is a no-op; otherwise only the nearest declared field of that name is tried |
| Resolution.NearestFieldShadows | SpitDI.java:97-105 | an ineligible nearest field stops by-name matching even when an ancestor's field of the same name is eligible (and by type would be set) |
| Resolution.ChainFieldByType | SpitDI.java:90-95 | by type, an eligible field declared by any class of the chain of a non-null target takes the value |
| Resolution.PairsFor | SpitDI.java:64-67 | one target's pairs are exactly the sources whose key differs from the target's |
| Resolution.PairsOf | SpitDI.java:61-67 | a pass's pairs are exactly the (target, source) pairs of distinct keys |
| Resolution.PairsForAppend | SpitDI.java:64-67 | one target's pairs follow the sources in their order: the pairs for sources `a + b` are those for `a`, then those for `b` |
| Resolution.PairsOfAppend | SpitDI.java:61-67 | a pass is target-major: the pairs for targets `a + b` are all of `a`'s, then all of `b`'s |
| Resolution.RunSourcesIsPairFold | SpitDI.java:64-75 | the inner loop completes iff the fold over its pairs does, with the same cells |
| Resolution.RunTargetsIsPairFold | SpitDI.java:61-76 | when all targets resolve, the outer loop completes iff the fold over all pairs does, with the same cells |
| Resolution.InjectVisitsPairs | SpitDI.java:61-76 | a pass handles every ordered pair of distinct keys and never a key with itself; it completes iff every pair does |
| Resolution.SourcesProgress | SpitDI.java:64-75 | when the inner loop runs through, the target class is kept and the source key is the last entry's, or unchanged for no entries |
| Resolution.SourcesAbortAt | SpitDI.java:64-78 | a failed inner loop failed at one source whose key differs from the target's. The entries before it ran through to the cells the failure starts from. The error names that source's key and the target class. The cause is the source's `ClassNotFound`, or what its by-type or by-name step threw from those cells |
| Resolution.AbortNamesPair | SpitDI.java:61-78 | a failed outer loop failed at one target after the targets before it ran through. Either its class did not load, and the error carries the source key and target class those targets left, or its inner loop failed at one pair as `Resolution.SourcesAbortAt` states |
| Resolution.TargetsProgress | SpitDI.java:61-76 | after targets that all ran through, the reported locals are the initial ones before the first target, and otherwise the last target's class and the last entry's key |
| Container.SpitDI.constructor | SpitDI.java:25 | a new container is empty |
| Container.SpitDI.ToKey | SpitDI.java:152-173 | the key scan returns the built key or the first conflict, as `CheckedKey` states |
| Container.SpitDI.Put | SpitDI.java:28 | `put` on the container fields is `Put` on the registry value |
| Container.SpitDI.BindByName | SpitDI.java:27-30 | puts the checked key's binding, or reports the conflict with the registry unchanged |
| Container.SpitDI.BindByType | SpitDI.java:32-35 | puts the checked type-only binding, or reports the conflict with the registry unchanged |
| Container.SpitDI.BindStatic | SpitDI.java:37-40 | puts a null under the checked type-only key, or reports the conflict with the registry unchanged |
| Container.SpitDI.ClearBindings | SpitDI.java:86-88 | the registry is empty |
| Container.SpitDI.Inject | SpitDI.java:52-84 | the registry is empty afterwards; the result and heap are what `InjectSpec` says: success with the final cells, or one wrapped error with the writes made before it kept |
| Container.SpitDI.RunPass | SpitDI.java:55-76 | the `try` block: registration only when the first instance is non-null, leaving the registry `Registered` says, then the pass, as `InjectSpec` states |
| Container.SpitDI.RegisterInstances | SpitDI.java:56-60 | binds each instance by type under its runtime class; fails on a null instance or a conflict, as `Register` states; leaves the registry `Registered` says, with the bindings made before a failure kept |
| Container.SpitDI.InjectAll | SpitDI.java:61-78 | the outer loop's result and heap are what `RunTargets` says |
| Container.SpitDI.InjectTarget | SpitDI.java:64-75 | the inner loop's result, heap and last source key are what `RunSources` says |

## Left out

- Java reflection is replaced by the schema. `Class.forName` succeeds exactly for the classes in the schema, with no class initialisation.
- An object whose runtime class is not in the schema is treated as a class with no declared fields and no superclass, so nothing is injected into it.
- `Keys.ClassName`: class names are taken to be non-empty and free of `|`, as every Java-language class name is. A JVM class whose name holds `|` (possible in other JVM languages or generated bytecode) breaks the key encoding, since distinct (class, name) pairs can then share a key, and is not modelled.
- `isAssignableFrom` is a given relation. The model assumes nothing about it (no reflexivity or transitivity).
- `Field.set` can also throw `IllegalAccessException` for a final field or a field that `setAccessible` cannot open. It is modelled only for its null-target failure.
- `getDeclaredField` can throw `SecurityException`, which `getFieldByName` swallows. A security manager is not modelled.
- `bindStaticScala` looks up a Scala `MODULE$` singleton by reflection. It depends on a foreign runtime convention and is not modelled.
- Exception classes and message texts are not modelled. A conflict is one of three `Conflict` values, and an injection failure is an `InjectionError` holding the last source key, the target class and a cause.
- Each bind call is modelled on its own with an `Outcome`. Fluent chaining by returning `this` is not modelled.
- The varargs overwrite flag is a plain `bool`. A `null` array for it, a `null` class, a `null` binding name (which Java would turn into the text "null") and a `null` instances array are not modelled.
- `Container.SpitDI.BindByName`: the name is a plain string, so Java's `"null"` key for a null name is not represented.
- `Resolution.InjectByType`: the order of the `HashSet` from `getAllFields` is unspecified. The loop picks fields in any order, so after a failure the contract says only that some of the eligible slots were written, not which ones.
- Setter injection is not modelled, because the container handles only fields.
- There is no concurrency to model.
