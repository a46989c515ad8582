/**
  * The string encoding of binding keys. A key is the bound class's name, the
  * separator `|`, then the binding's name, which is empty for a type-only
  * binding. The container later recovers the two parts with Java's
  * `String.split("\\|")`, and the conflict check recovers the class part with
  * `indexOf("|")` and `substring`; both are modelled here exactly.
  */
module Keys {

  const Bar: char := '|'

  /** A Java-language class name as `Class.getName()` returns it: never empty, never containing the separator. */
  predicate IsClassName(s: string) {
    s != [] && Bar !in s
  }

  type ClassName = s: string | IsClassName(s) witness "java.lang.Object"

  /** The key `toKey` builds for a binding of `cls` under `name` ("" for a type-only binding). */
  function MakeKey(cls: ClassName, name: string): (r: string)
    ensures |r| == |cls| + 1 + |name|
    ensures r[..|cls|] == cls && r[|cls|] == Bar && r[|cls| + 1..] == name
  {
    cls + [Bar] + name
  }

  /** The key of the type-only binding of `cls`; also the class part every key of `cls` starts with. */
  function TypeKey(cls: ClassName): string {
    cls + [Bar]
  }

  /** `String.indexOf("|")`: the first position of the separator, or -1 when there is none. */
  function IndexOfBar(s: string): (i: int)
    ensures -1 <= i < |s|
    ensures i == -1 <==> Bar !in s
    ensures 0 <= i ==> s[i] == Bar && Bar !in s[..i]
  {
    if s == [] then -1
    else if s[0] == Bar then 0
    else
      var j := IndexOfBar(s[1..]);
      if j == -1 then -1
      else
        assert s[..j + 1] == [s[0]] + s[1..][..j];
        j + 1
  }

  /** `key.substring(0, key.indexOf("|") + 1)`: the class part of a key with its separator, or "" without one. */
  function TypePrefix(key: string): (r: string)
    ensures r <= key
    ensures r == "" <==> Bar !in key
    ensures r != "" ==> r[|r| - 1] == Bar && Bar !in r[..|r| - 1]
  {
    var r := key[..IndexOfBar(key) + 1];
    assert r != "" ==> r[..|r| - 1] == key[..IndexOfBar(key)];
    r
  }

  /** The pieces joined back together with the separator between them. */
  function Join(parts: seq<string>): string
    decreases |parts|
  {
    if parts == [] then ""
    else if |parts| == 1 then parts[0]
    else parts[0] + [Bar] + Join(parts[1..])
  }

  /** All pieces of `s` between separators, trailing empty pieces included: joined again they give `s` back. */
  function Pieces(s: string): (r: seq<string>)
    decreases |s|
    ensures |r| >= 1
    ensures forall k :: 0 <= k < |r| ==> Bar !in r[k]
    ensures Join(r) == s
    ensures Bar !in s ==> r == [s]
    ensures Bar in s ==> r[0] == s[..IndexOfBar(s)]
  {
    var i := IndexOfBar(s);
    if i == -1 then [s]
    else
      var rest := Pieces(s[i + 1..]);
      assert Join([s[..i]] + rest) == s[..i] + [Bar] + Join(rest) by {
        assert ([s[..i]] + rest)[1..] == rest;
      }
      assert s == s[..i] + [Bar] + s[i + 1..];
      [s[..i]] + rest
  }

  /** The trailing empty strings that `split` with limit 0 removes. */
  function DropTrailingEmpty(parts: seq<string>): (r: seq<string>)
    ensures |r| <= |parts| && r == parts[..|r|]
    ensures r != [] ==> r[|r| - 1] != ""
    ensures forall k :: |r| <= k < |parts| ==> parts[k] == ""
  {
    if parts != [] && parts[|parts| - 1] == "" then DropTrailingEmpty(parts[..|parts| - 1]) else parts
  }

  /**
    * `String.split("\\|")`: the string itself when it holds no separator,
    * otherwise its pieces without the trailing empty ones.
    */
  function Split(s: string): (r: seq<string>)
    ensures Bar !in s ==> r == [s]
    ensures |r| <= |Pieces(s)| && r == Pieces(s)[..|r|]
    ensures forall k :: |r| <= k < |Pieces(s)| ==> Pieces(s)[k] == ""
    ensures r != [] ==> r[|r| - 1] != "" || Bar !in s
  {
    if Bar !in s then [s] else DropTrailingEmpty(Pieces(s))
  }

  /** `getNameBinding`: the second piece of the key, or "" when there is none. */
  function NameOf(key: string): (r: string)
    ensures Bar !in r
    ensures r != "" ==> |Split(key)| > 1 && r == Split(key)[1]
  {
    var parts := Split(key);
    if |parts| > 1 then parts[1] else ""
  }

  /**
    * The first piece of the key, which `getTypeBinding` passes to `Class.forName`.
    * Java would throw on an empty split; no key the registry builds has one,
    * and "" names no class, so resolution fails there as well.
    */
  function ClassNameOf(key: string): (r: string)
    ensures r <= key && Bar !in r
    ensures Bar !in key ==> r == key
  {
    var parts := Split(key);
    if parts != [] then parts[0] else ""
  }

  /** Splitting a built key yields the class name and, unless empty, the binding name. */
  lemma SplitKey(cls: ClassName, name: string)
    requires Bar !in name
    ensures Split(MakeKey(cls, name)) == if name == "" then [cls] else [cls, name]
  {
    var key := MakeKey(cls, name);
    BarAfterClass(cls, name);
    assert key[..|cls|] == cls && key[|cls| + 1..] == name;
    assert Pieces(key) == [cls] + Pieces(name);
    assert Pieces(name) == [name];
    if name == "" {
      assert [cls, name][..1] == [cls];
      assert DropTrailingEmpty([cls, name]) == DropTrailingEmpty([cls]);
    }
  }

  /** The decode round trip: `getNameBinding` gives back a name without the separator ("" for a type-only key). */
  lemma NameOfKey(cls: ClassName, name: string)
    requires Bar !in name
    ensures NameOf(MakeKey(cls, name)) == name
  {
    SplitKey(cls, name);
  }

  /** The text before the first separator is always the class, whatever the name holds. */
  lemma ClassNameOfKey(cls: ClassName, name: string)
    ensures ClassNameOf(MakeKey(cls, name)) == cls
  {
    var key := MakeKey(cls, name);
    BarAfterClass(cls, name);
    assert key[..|cls|] == cls && key[|cls| + 1..] == name;
    var pieces := Pieces(key);
    assert pieces == [cls] + Pieces(name);
  }

  /**
    * A name containing the separator does not survive the round trip:
    * `getNameBinding` returns only its text before the first separator (so a
    * name starting with `|` decodes as "", which selects by-type matching).
    */
  lemma NameOfKeyLosesBar(cls: ClassName, name: string)
    requires Bar in name
    ensures NameOf(MakeKey(cls, name)) == name[..IndexOfBar(name)]
    ensures NameOf(MakeKey(cls, name)) != name
  {
    var key := MakeKey(cls, name);
    BarAfterClass(cls, name);
    assert key[..|cls|] == cls && key[|cls| + 1..] == name;
    var pieces := Pieces(key);
    assert pieces == [cls] + Pieces(name);
    assert pieces[1] == name[..IndexOfBar(name)];
    assert Bar in key by { assert key[|cls|] == Bar; }
    var parts := Split(key);
    if |parts| <= 1 {
      assert pieces[1] == "";
    }
  }

  /** The conflict scan reads the class part of a built key correctly. */
  lemma TypePrefixOfKey(cls: ClassName, name: string)
    ensures TypePrefix(MakeKey(cls, name)) == TypeKey(cls)
  {
    BarAfterClass(cls, name);
  }

  /** Two keys share a class part exactly when they were built for the same class. */
  lemma TypePrefixIsClass(key: string, cls: ClassName)
    ensures TypePrefix(key) == TypeKey(cls) <==> exists name :: key == MakeKey(cls, name)
  {
    if TypePrefix(key) == TypeKey(cls) {
      var i := IndexOfBar(key);
      assert key[..i + 1] == cls + [Bar];
      assert key == MakeKey(cls, key[i + 1..]);
    }
    if exists name :: key == MakeKey(cls, name) {
      var name :| key == MakeKey(cls, name);
      TypePrefixOfKey(cls, name);
    }
  }

  /** Keys of different classes, or of one class under different names, differ. */
  lemma MakeKeyInjective(c1: ClassName, n1: string, c2: ClassName, n2: string)
    requires MakeKey(c1, n1) == MakeKey(c2, n2)
    ensures c1 == c2 && n1 == n2
  {
    TypePrefixOfKey(c1, n1);
    TypePrefixOfKey(c2, n2);
    assert TypeKey(c1) == TypeKey(c2);
    assert c1 == TypeKey(c1)[..|c1|] && c2 == TypeKey(c2)[..|c2|];
    assert MakeKey(c1, n1)[|c1| + 1..] == n1;
  }

  /** The first separator of a built key is the one right after the class name. */
  lemma BarAfterClass(cls: ClassName, name: string)
    ensures IndexOfBar(MakeKey(cls, name)) == |cls|
  {
    var key := MakeKey(cls, name);
    var i := IndexOfBar(key);
    assert key[|cls|] == Bar;
    assert forall j :: 0 <= j < |cls| ==> key[j] == cls[j];
  }
}
