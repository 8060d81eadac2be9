/**
 * Documentation metadata about a struct type: its name, its fields in declaration order and
 * an optional description, with the computation of the named types its fields refer to.
 */
module Docs {
  import opened Wrappers
  import opened JavaStrings
  import opened TypeSignatures

  /** Description text of a documented element; its contents play no part in this model. */
  datatype DescriptionInfo = DescriptionInfo(docString: string)

  /** A member of a struct: its name and the signature of its declared type. */
  datatype FieldInfo = FieldInfo(name: string, typeSignature: TypeSignature)

  /** The immutable state of a `StructInfo` once constructed. */
  datatype StructInfo = StructInfo(name: string, fields: seq<FieldInfo>, descriptionInfo: Option<DescriptionInfo>)

  /** What `equals(Object)` may be handed: `null`, a `StructInfo`, or an object of another class. */
  datatype JavaObject = NullRef | StructRef(struct: StructInfo) | OtherRef

  // ---------------------------------------------------------------------------------------------
  // Construction

  /**
   * The constructor: `name` and the `fields` collection must be non-null (the failure names the
   * missing argument, as `requireNonNull` does); the fields are copied out of the caller's
   * collection, here an array the caller owns and may change later.
   */
  method NewStructInfo(name: Option<string>, fields: array?<FieldInfo>, descriptionInfo: Option<DescriptionInfo>)
    returns (r: Result<StructInfo, string>)
    ensures name.None? ==> r == Failure("name")
    ensures name.Some? && fields == null ==> r == Failure("fields")
    ensures name.Some? && fields != null ==> r.Success? && r.value.name == name.value
    ensures name.Some? && fields != null ==> r.Success? && r.value.fields == fields[..]
    ensures name.Some? && fields != null ==> r.Success? && r.value.descriptionInfo == descriptionInfo
  {
    if name.None? {
      return Failure("name");
    }
    if fields == null {
      return Failure("fields");
    }
    var copy := fields[..];
    r := Success(StructInfo(name.value, copy, descriptionInfo));
  }

  /**
   * A caller that builds a struct from its own array and then overwrites an element of that
   * array does not change the struct's fields: they stay what the array held at construction.
   */
  method ChangingTheSourceLeavesFieldsAlone(name: string, source: array<FieldInfo>, replacement: FieldInfo)
    returns (s: StructInfo)
    requires source.Length > 0
    modifies source
    ensures s.name == name && s.fields == old(source[..])
    ensures source[0] == replacement
  {
    var r := NewStructInfo(Some(name), source, None);
    s := r.value;
    source[0] := replacement;
  }

  // ---------------------------------------------------------------------------------------------
  // Identity: equals, hashCode, toString

  /** `equals(o)`: same object, or another `StructInfo` with equal name and equal fields. */
  function Equals(self: StructInfo, o: JavaObject): (r: bool)
    ensures r <==> o.StructRef? && o.struct.name == self.name && o.struct.fields == self.fields
  {
    if o == StructRef(self) then true
    else if !o.StructRef? then false
    else self.name == o.struct.name && self.fields == o.struct.fields
  }

  /**
   * `hashCode()`: `Objects.hash(name, fields)`, with `fields` hashed by the `List` contract.
   * How a single `FieldInfo` hashes is a parameter.
   */
  function HashCode(self: StructInfo, fieldHash: FieldInfo -> int): (h: int)
    ensures IsInt32(h)
  {
    ObjectsHash2(StringHash(self.name), ListHash(self.fields, fieldHash))
  }

  /** `toString()`: the struct's name. */
  function ToString(self: StructInfo): (r: string)
    ensures r == self.name
  {
    self.name
  }

  lemma EqualsReflexive(a: StructInfo)
    ensures Equals(a, StructRef(a))
  {
  }

  lemma EqualsSymmetric(a: StructInfo, b: StructInfo)
    ensures Equals(a, StructRef(b)) <==> Equals(b, StructRef(a))
  {
  }

  lemma EqualsTransitive(a: StructInfo, b: StructInfo, c: StructInfo)
    requires Equals(a, StructRef(b)) && Equals(b, StructRef(c))
    ensures Equals(a, StructRef(c))
  {
  }

  /** Neither `null` nor an object of another class equals a struct. */
  lemma EqualsRejectsNullAndOtherClasses(a: StructInfo)
    ensures !Equals(a, NullRef) && !Equals(a, OtherRef)
  {
  }

  /** The description plays no part in equality, hashing or the string form. */
  lemma DescriptionIsIgnored(a: StructInfo, d: Option<DescriptionInfo>, fieldHash: FieldInfo -> int)
    ensures Equals(a, StructRef(a.(descriptionInfo := d)))
    ensures HashCode(a, fieldHash) == HashCode(a.(descriptionInfo := d), fieldHash)
    ensures ToString(a) == ToString(a.(descriptionInfo := d))
  {
  }

  /** Equal structs have equal hash codes, whatever hash code each field has. */
  lemma EqualStructsHaveEqualHashCodes(a: StructInfo, b: StructInfo, fieldHash: FieldInfo -> int)
    requires Equals(a, StructRef(b))
    ensures HashCode(a, fieldHash) == HashCode(b, fieldHash)
  {
  }

  // ---------------------------------------------------------------------------------------------
  // The named types referred to by the fields

  /** `t` lies in the type signature of some field. */
  ghost predicate ReachableFromFields(fields: seq<FieldInfo>, t: TypeSignature) {
    exists i :: 0 <= i < |fields| && Reachable(fields[i].typeSignature, t)
  }

  /** The named signatures collected from the first `n` fields. */
  function NamedTypesOfFields(fields: seq<FieldInfo>, n: nat): (named: set<TypeSignature>)
    requires n <= |fields|
  {
    if n == 0 then {} else NamedTypesOfFields(fields, n - 1) + NamedTypesOf(fields[n - 1].typeSignature)
  }

  lemma {:induction false} NamedTypesOfFieldsIsReachableNamed(fields: seq<FieldInfo>, n: nat, u: TypeSignature)
    requires n <= |fields|
    ensures u in NamedTypesOfFields(fields, n) <==>
              u.Named? && exists i :: 0 <= i < n && Reachable(fields[i].typeSignature, u)
  {
    if n > 0 {
      NamedTypesOfFieldsIsReachableNamed(fields, n - 1, u);
      NamedTypesOfIsReachableNamed(fields[n - 1].typeSignature, u);
    }
  }

  /** The names of the elements of `r`, in order. */
  function Names(r: seq<TypeSignature>): (ns: seq<string>)
    ensures |ns| == |r|
    ensures forall i :: 0 <= i < |r| ==> ns[i] == r[i].name
  {
    if r == [] then [] else [r[0].name] + Names(r[1..])
  }

  /**
   * Adding `x` to a set sorted by a name comparator: `x` goes in at its place by name,
   * unless an element with the same name is already there, in which case nothing changes.
   */
  function InsertByName(r: seq<TypeSignature>, x: TypeSignature): (r': seq<TypeSignature>)
    requires StrictlyIncreasing(Names(r))
    ensures StrictlyIncreasing(Names(r'))
    ensures forall t :: t in r' <==> t in r || (t == x && x.name !in Names(r))
    ensures forall n :: n in Names(r') <==> n in Names(r) || n == x.name
  {
    if r == [] then [x]
    else if x.name == r[0].name then r
    else if Less(x.name, r[0].name) then
      BelowFirstIsBelowAll(x.name, Names(r));
      ConsIncreasing(x.name, Names(r));
      assert ([x] + r)[1..] == r;
      [x] + r
    else
      LessConnected(x.name, r[0].name);
      var rest := InsertByName(r[1..], x);
      assert r == [r[0]] + r[1..];
      assert Names(r) == [r[0].name] + Names(r[1..]);
      assert Below(r[0].name, Names(r[1..])) by {
        forall n | n in Names(r[1..]) ensures Less(r[0].name, n) {
          var j :| 0 <= j < |r| - 1 && Names(r[1..])[j] == n;
          assert Names(r)[j + 1] == n;
        }
      }
      ConsIncreasing(r[0].name, Names(rest));
      assert ([r[0]] + rest)[1..] == rest;
      [r[0]] + rest
  }

  /**
   * `ImmutableSortedSet.copyOf(comparing(TypeSignature::name), src)`: the elements of `src`
   * sorted by name, keeping one element per name. Which one of several same-named elements is
   * kept depends on the iteration order of the source set, so the choice here is arbitrary.
   */
  method SortedCopyByName(src: set<TypeSignature>) returns (r: seq<TypeSignature>)
    ensures StrictlyIncreasing(Names(r))
    ensures forall t :: t in r ==> t in src
    ensures forall t :: t in src ==> t.name in Names(r)
  {
    r := [];
    var rest := src;
    while rest != {}
      invariant rest <= src
      invariant StrictlyIncreasing(Names(r))
      invariant forall t :: t in r ==> t in src
      invariant forall t :: t in src && t !in rest ==> t.name in Names(r)
      decreases rest
    {
      var x :| x in rest;
      r := InsertByName(r, x);
      rest := rest - {x};
    }
  }

  /**
   * What `findNamedTypes()` promises about its result `r` for a struct with these fields:
   * every element is a named signature lying in some field's signature; every named signature
   * lying in some field's signature has its name in `r`; names strictly increase along `r`.
   */
  ghost predicate IsNamedTypeClosure(fields: seq<FieldInfo>, r: seq<TypeSignature>) {
    && (forall t :: t in r ==> t.Named? && ReachableFromFields(fields, t))
    && (forall t: TypeSignature :: t.Named? && ReachableFromFields(fields, t) ==> t.name in Names(r))
    && StrictlyIncreasing(Names(r))
  }

  /**
   * `findNamedTypes()`: walks every field's signature into a fresh set, then copies that set
   * sorted by name. It reads the fields only.
   */
  method FindNamedTypes(self: StructInfo) returns (r: seq<TypeSignature>)
    ensures IsNamedTypeClosure(self.fields, r)
    ensures self.fields == [] ==> r == []
  {
    var collected: set<TypeSignature> := {};
    for i := 0 to |self.fields|
      invariant collected == NamedTypesOfFields(self.fields, i)
    {
      collected := CollectNamedTypes(collected, self.fields[i].typeSignature);
    }
    r := SortedCopyByName(collected);
    forall t: TypeSignature ensures t in collected <==> t.Named? && ReachableFromFields(self.fields, t) {
      NamedTypesOfFieldsIsReachableNamed(self.fields, |self.fields|, t);
    }
    if r != [] {
      assert r[0] in collected;
    }
  }

  /**
   * Two results of `findNamedTypes()` for the same fields list the same names in the same
   * order; only the choice among signatures sharing a name can differ.
   */
  lemma ClosureNamesAreDetermined(fields: seq<FieldInfo>, r1: seq<TypeSignature>, r2: seq<TypeSignature>)
    requires IsNamedTypeClosure(fields, r1) && IsNamedTypeClosure(fields, r2)
    ensures Names(r1) == Names(r2)
  {
    forall n ensures n in Names(r1) <==> n in Names(r2) {
      if n in Names(r1) {
        var i :| 0 <= i < |r1| && Names(r1)[i] == n;
        assert r1[i] in r1;
      }
      if n in Names(r2) {
        var i :| 0 <= i < |r2| && Names(r2)[i] == n;
        assert r2[i] in r2;
      }
    }
    StrictlyIncreasingIsDeterminedByMembers(Names(r1), Names(r2));
  }

  /** No two different named signatures in the fields share a name. */
  ghost predicate NamesAreUnambiguous(fields: seq<FieldInfo>) {
    forall t: TypeSignature, u: TypeSignature ::
      t.Named? && u.Named? && ReachableFromFields(fields, t) && ReachableFromFields(fields, u) && t.name == u.name
      ==> t == u
  }

  /** When no two named signatures in the fields share a name, the result is fully determined. */
  lemma ClosureIsDeterminedWhenNamesAreUnambiguous(fields: seq<FieldInfo>, r1: seq<TypeSignature>, r2: seq<TypeSignature>)
    requires IsNamedTypeClosure(fields, r1) && IsNamedTypeClosure(fields, r2)
    requires NamesAreUnambiguous(fields)
    ensures r1 == r2
  {
    ClosureNamesAreDetermined(fields, r1, r2);
    forall i | 0 <= i < |r1| ensures r1[i] == r2[i] {
      assert r1[i] in r1 && r2[i] in r2;
      assert Names(r1)[i] == Names(r2)[i];
    }
  }
}
