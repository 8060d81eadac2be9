/**
 * Type signatures of the documentation model and the walk that collects the named
 * signatures occurring in one of them (the helper `ServiceInfo.findNamedTypes(Set, TypeSignature)`
 * that `StructInfo.findNamedTypes()` calls once per field).
 */
module TypeSignatures {

  /** The kind of entity a named signature refers to; it is resolved elsewhere by name. */
  datatype NamedKind = StructKind | EnumKind | ExceptionKind

  /**
   * A type occurrence: a base type (`string`, `i32`, ...), a reference by name to a
   * struct, enum or exception, or a container (`list<T>`, `map<K, V>`, ...) over child signatures.
   * The tree is finite and acyclic; cyclic types exist only through names.
   */
  datatype TypeSignature =
    | Base(name: string)
    | Named(name: string, kind: NamedKind)
    | Container(name: string, children: seq<TypeSignature>)

  /** `t` is `from` itself or lies below it, reached by descending through container children. */
  ghost predicate Reachable(from: TypeSignature, t: TypeSignature)
    decreases from
  {
    from == t || (from.Container? && exists i :: 0 <= i < |from.children| && Reachable(from.children[i], t))
  }

  /** The set of named signatures the walk collects from `t`. */
  function NamedTypesOf(t: TypeSignature): (named: set<TypeSignature>)
    decreases t, 1
  {
    match t
    case Base(_) => {}
    case Named(_, _) => {t}
    case Container(_, children) => NamedTypesOfChildren(t, |children|)
  }

  /** The named signatures collected from the first `n` children of the container `t`. */
  function NamedTypesOfChildren(t: TypeSignature, n: nat): (named: set<TypeSignature>)
    requires t.Container? && n <= |t.children|
    decreases t, 0, n
  {
    if n == 0 then {} else NamedTypesOfChildren(t, n - 1) + NamedTypesOf(t.children[n - 1])
  }

  lemma {:induction false} NamedTypesOfChildrenMembers(t: TypeSignature, n: nat, u: TypeSignature)
    requires t.Container? && n <= |t.children|
    ensures u in NamedTypesOfChildren(t, n) <==> exists i :: 0 <= i < n && u in NamedTypesOf(t.children[i])
    decreases n
  {
    if n > 0 {
      NamedTypesOfChildrenMembers(t, n - 1, u);
    }
  }

  /**
   * The walk is exact: it collects a signature iff that signature is named and reachable
   * from `t` through container children. Base and container signatures are never collected.
   */
  lemma {:induction false} NamedTypesOfIsReachableNamed(t: TypeSignature, u: TypeSignature)
    ensures u in NamedTypesOf(t) <==> u.Named? && Reachable(t, u)
    decreases t
  {
    match t
    case Base(_) =>
    case Named(_, _) =>
    case Container(_, children) =>
      NamedTypesOfChildrenMembers(t, |children|, u);
      forall i | 0 <= i < |children|
        ensures u in NamedTypesOf(children[i]) <==> u.Named? && Reachable(children[i], u)
      {
        NamedTypesOfIsReachableNamed(children[i], u);
      }
  }

  /**
   * The per-signature walk: adds to `collected` every named signature in `t`, recursing into
   * every child of a container; base signatures add nothing. The Java helper updates the set
   * passed to it; here the updated set is returned.
   */
  method CollectNamedTypes(collected: set<TypeSignature>, t: TypeSignature) returns (r: set<TypeSignature>)
    ensures r == collected + NamedTypesOf(t)
    decreases t
  {
    match t
    case Base(_) =>
      r := collected;
    case Named(_, _) =>
      r := collected + {t};
    case Container(_, children) =>
      r := collected;
      for i := 0 to |children|
        invariant r == collected + NamedTypesOfChildren(t, i)
      {
        r := CollectNamedTypes(r, children[i]);
      }
  }

  /** A `map<string, list<Foo>>` field refers to exactly the named type `Foo`. */
  lemma NestedContainerExample()
    ensures var foo := Named("Foo", StructKind);
            NamedTypesOf(Container("map", [Base("string"), Container("list", [foo])])) == {foo}
  {
    var foo := Named("Foo", StructKind);
    var list := Container("list", [foo]);
    var m := Container("map", [Base("string"), list]);
    assert NamedTypesOfChildren(list, 1) == {foo};
    assert NamedTypesOf(list) == {foo};
    assert NamedTypesOfChildren(m, 1) == {};
    assert NamedTypesOfChildren(m, 2) == {foo};
  }
}
