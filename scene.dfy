/** A flat model of the three.js scene the demo draws into: the scene's direct
    children, each carrying the `name` that the frame step looks them up by.
    Nested children (the lines inside a group) are values inside their group. */
module SceneGraph {

  /** A polyline vertex (a three.js `Vector3`); its coordinates are only copied. */
  datatype Vector3 = Vector3(x: real, y: real, z: real)

  /** A three.js `Line` over a `BufferGeometry` set from these points, in order. */
  datatype Line = Line(points: seq<Vector3>)

  /** A direct child of the scene. Helpers keep three.js's default empty name. */
  datatype Child =
    | GridHelper(name: string)
    | AxesHelper(name: string, size: nat)
    | Group(name: string, lines: seq<Line>)

  /** How many children of `s` are called `name`. */
  function CountNamed(s: seq<Child>, name: string): (n: nat)
    ensures n <= |s|
    ensures n == 0 <==> forall k | 0 <= k < |s| :: s[k].name != name
  {
    if s == [] then 0
    else (if s[0].name == name then 1 else 0) + CountNamed(s[1..], name)
  }

  /** The children of `s` not called `name`, in their original order. */
  function Without(s: seq<Child>, name: string): (r: seq<Child>)
    ensures |r| + CountNamed(s, name) == |s|
    ensures CountNamed(r, name) == 0
  {
    if s == [] then []
    else if s[0].name == name then Without(s[1..], name)
    else [s[0]] + Without(s[1..], name)
  }

  /** Removal by name keeps exactly the children with another name. */
  lemma {:induction false} WithoutKeepsOthers(s: seq<Child>, name: string)
    ensures forall c :: c in Without(s, name) <==> c in s && c.name != name
  {
    if s != [] {
      WithoutKeepsOthers(s[1..], name);
      assert s == [s[0]] + s[1..];
    }
  }

  lemma {:induction false} CountNamedAppend(a: seq<Child>, b: seq<Child>, name: string)
    ensures CountNamed(a + b, name) == CountNamed(a, name) + CountNamed(b, name)
  {
    if a == [] {
      assert a + b == b;
    } else {
      assert (a + b)[1..] == a[1..] + b;
      CountNamedAppend(a[1..], b, name);
    }
  }

  lemma {:induction false} WithoutAppend(a: seq<Child>, b: seq<Child>, name: string)
    ensures Without(a + b, name) == Without(a, name) + Without(b, name)
  {
    if a == [] {
      assert a + b == b;
    } else {
      assert (a + b)[1..] == a[1..] + b;
      WithoutAppend(a[1..], b, name);
    }
  }

  /** Removing a name that no child carries changes nothing. */
  lemma {:induction false} WithoutAbsent(s: seq<Child>, name: string)
    requires CountNamed(s, name) == 0
    ensures Without(s, name) == s
  {
    if s != [] {
      assert s[0].name != name;
      WithoutAbsent(s[1..], name);
    }
  }

  /** Removing by name a second time removes nothing more. */
  lemma WithoutIdempotent(s: seq<Child>, name: string)
    ensures Without(Without(s, name), name) == Without(s, name)
  {
    WithoutAbsent(Without(s, name), name);
  }

  /** When the only child called `name` is the last one, removal by name
      drops exactly that last child. */
  lemma WithoutLastNamed(s: seq<Child>, name: string)
    requires |s| > 0 && s[|s| - 1].name == name && CountNamed(s, name) == 1
    ensures Without(s, name) == s[..|s| - 1]
  {
    var n := |s| - 1;
    var prefix, last := s[..n], [s[n]];
    assert s == prefix + last;
    assert last[1..] == [];
    CountNamedAppend(prefix, last, name);
    WithoutAbsent(prefix, name);
    WithoutAppend(prefix, last, name);
  }

  /** One unfolding of `Without` at position `i` of `s`. */
  lemma WithoutAt(s: seq<Child>, i: nat, name: string)
    requires i < |s|
    ensures Without(s[i..], name) == (if s[i].name == name then [] else [s[i]]) + Without(s[i + 1..], name)
  {
    assert s[i..][1..] == s[i + 1..];
  }

  /** Removing the named child at position `i` keeps the removal loop's
      invariant: the part already scanned, then the rest with the name removed. */
  lemma RemovalStepDrop(s: seq<Child>, i: nat, name: string)
    requires i < |s| && s[i].name == name
    ensures var t := s[..i] + s[i + 1..];
      t[..i] + Without(t[i..], name) == s[..i] + Without(s[i..], name)
  {
    WithoutAt(s, i, name);
    var t := s[..i] + s[i + 1..];
    assert t[..i] == s[..i];
    assert t[i..] == s[i + 1..];
  }

  /** Stepping over a child with another name keeps the removal loop's invariant. */
  lemma RemovalStepKeep(s: seq<Child>, i: nat, name: string)
    requires i < |s| && s[i].name != name
    ensures s[..i + 1] + Without(s[i + 1..], name) == s[..i] + Without(s[i..], name)
  {
    WithoutAt(s, i, name);
    var p, w := s[..i], Without(s[i + 1..], name);
    assert s[..i + 1] == p + [s[i]];
    assert Without(s[i..], name) == [s[i]] + w;
    AppendAssoc(p, [s[i]], w);
  }

  /** Concatenation regrouped; stated once so the removal step stays cheap. */
  lemma AppendAssoc(a: seq<Child>, b: seq<Child>, c: seq<Child>)
    ensures (a + b) + c == a + (b + c)
  {
  }

  /** The mutable three.js `Scene`: its list of direct children. */
  class Scene {
    var children: seq<Child>

    constructor ()
      ensures children == []
    {
      children := [];
    }

    /** `scene.add(child)`: appends `child` after the existing children. */
    method Add(child: Child)
      modifies this
      ensures children == old(children) + [child]
    {
      children := children + [child];
    }

    /** `scene.traverse` calling `scene.remove` on every child called `name`:
        those children leave the scene, the others keep their order. */
    method RemoveNamed(name: string)
      modifies this
      ensures children == Without(old(children), name)
    {
      var i := 0;
      assert children[i..] == children;
      while i < |children|
        invariant 0 <= i <= |children|
        invariant children[..i] + Without(children[i..], name) == Without(old(children), name)
        decreases |children| - i
      {
        if children[i].name == name {
          RemovalStepDrop(children, i, name);
          children := children[..i] + children[i + 1..];
        } else {
          RemovalStepKeep(children, i, name);
          i := i + 1;
        }
      }
    }
  }
}
