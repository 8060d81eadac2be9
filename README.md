# Documentation struct model and media-type resolver fallback

This project models two pieces of Armeria in Dafny and proves their contracts.

1. The documentation service's `StructInfo`. It describes a struct type: a name, its fields in declaration order and an optional description. Its `findNamedTypes()` collects the named type signatures the fields refer to. It walks each field's signature through container children (`list<T>`, `map<K, V>`, ...) into a set. Then it copies that set into a set sorted by a comparator on the signature's name. Equality and hashing cover the name and the fields, not the description.
2. The file service's `MediaTypeResolver.orElse`, which combines two resolvers into one. The combined resolver asks the first resolver and falls back to the second when the first answers `null`.

Files:

- `wrappers.dfy` (module `Wrappers`): `Option` stands for a nullable reference and `Result` for an exception thrown with a message.
- `java_strings.dfy` (module `JavaStrings`): `String.compareTo` and the strict order it induces. It also has the `int` hash codes of strings, lists and `Objects.hash`, with 32-bit wrap-around written out; the string hash runs over Unicode scalar values (see "## Left out").
- `type_signatures.dfy` (module `TypeSignatures`): the closed `TypeSignature` datatype (`Base | Named | Container`). It has the specification `NamedTypesOf` of the per-signature walk, the independent `Reachable` relation, and the walk itself as the method `CollectNamedTypes`.
- `struct_info.dfy` (module `Docs`): `FieldInfo`, `StructInfo`, construction with its null checks and the copy of the caller's collection, `equals`/`hashCode`/`toString`, the name-sorted copy, and `findNamedTypes`.
- `media_type_resolver.dfy` (module `FileMediaTypes`): resolvers as objects with two fixed answer functions, and `orElse`.

`findNamedTypes` is imperative in the source: it fills a fresh `HashSet` field by field, then builds a sorted copy. The model keeps that shape. `FindNamedTypes` loops over the fields and calls `CollectNamedTypes`, a recursive method with a loop over container children. It then calls `SortedCopyByName`, which inserts the set's elements one at a time, in an arbitrary order, into a sequence kept strictly increasing by name. Each method is proved against a specification function (`NamedTypesOf`, `NamedTypesOfFields`, `InsertByName`). That function is proved equal to the independent characterisation: a signature is collected iff it is `Named` and `Reachable` from some field.

The result of `findNamedTypes` is specified by `IsNamedTypeClosure(fields, r)`:

- every element is a named signature reachable from a field;
- every reachable named signature has its name in `r`;
- names strictly increase along `r`.

The predicate takes only the fields, so the struct's name and description cannot affect the result. When several reachable signatures share a name, which of them survives depends on hash-set iteration order. The model therefore chooses nondeterministically. `ClosureNamesAreDetermined` proves that the sequence of names is still determined. `ClosureIsDeterminedWhenNamesAreUnambiguous` proves that the whole result is determined when no two reachable named signatures share a name.

A `StructInfo` never changes after construction, so it is a datatype value. `equals(Object)` takes a `JavaObject`: `null`, a `StructInfo` or an object of another class. A resolver is a class with `const` fields because `orElse` compares resolvers by identity (`this == other`).

## Model

| member | source | states |
|---|---|---|
| `TypeSignatures.NamedTypesOfIsReachableNamed` | core/src/main/java/com/linecorp/armeria/server/docs/StructInfo.java:88-91 | the per-signature walk collects a signature iff it is `Named` and reachable from the walked signature through container children; base and container signatures are never collected |
| `TypeSignatures.CollectNamedTypes` | core/src/main/java/com/linecorp/armeria/server/docs/StructInfo.java:90 | the helper called per field returns the accumulated set plus exactly the named signatures of the signature it walks |
| `TypeSignatures.NestedContainerExample` | core/src/main/java/com/linecorp/armeria/server/docs/StructInfo.java:89-91 | a `map<string, list<Foo>>` signature contributes exactly `{Foo}` |
| `JavaStrings.CompareToZeroIffEqual` | core/src/main/java/com/linecorp/armeria/server/docs/StructInfo.java:91 | the name comparator reports two names as equal iff they are the same string, so the sorted copy collapses exactly the equal names |
| `JavaStrings.CompareToAntisymmetric` | core/src/main/java/com/linecorp/armeria/server/docs/StructInfo.java:91 | comparing in the other order negates the result |
| `JavaStrings.LessTransitive` | core/src/main/java/com/linecorp/armeria/server/docs/StructInfo.java:91 | the order on names is transitive |
| `JavaStrings.LessConnected` | core/src/main/java/com/linecorp/armeria/server/docs/StructInfo.java:91 | two different names are ordered one way or the other |
| `JavaStrings.StrictlyIncreasingIsDeterminedByMembers` | core/src/main/java/com/linecorp/armeria/server/docs/StructInfo.java:91 | a strictly increasing sequence of names is fixed by the set of names it holds |
| `Docs.NewStructInfo` | core/src/main/java/com/linecorp/armeria/server/docs/StructInfo.java:50-61 | a missing name fails with "name"; otherwise a missing field collection fails with "fields"; otherwise the struct holds the name, the description and a copy of the collection's contents (the two-argument constructor is the case of no description) |
| `Docs.ChangingTheSourceLeavesFieldsAlone` | core/src/main/java/com/linecorp/armeria/server/docs/StructInfo.java:57-74 | overwriting the caller's collection after construction leaves `fields()` equal to the contents at construction |
| `Docs.Equals` | core/src/main/java/com/linecorp/armeria/server/docs/StructInfo.java:94-106 | `equals(o)` holds iff `o` is a `StructInfo` with an equal name and equal fields |
| `Docs.EqualsReflexive` | core/src/main/java/com/linecorp/armeria/server/docs/StructInfo.java:96-98 | every struct equals itself |
| `Docs.EqualsSymmetric` | core/src/main/java/com/linecorp/armeria/server/docs/StructInfo.java:104-105 | equality holds in one direction iff it holds in the other |
| `Docs.EqualsTransitive` | core/src/main/java/com/linecorp/armeria/server/docs/StructInfo.java:104-105 | equality is transitive |
| `Docs.EqualsRejectsNullAndOtherClasses` | core/src/main/java/com/linecorp/armeria/server/docs/StructInfo.java:100-102 | neither `null` nor an object of another class equals a struct |
| `Docs.DescriptionIsIgnored` | core/src/main/java/com/linecorp/armeria/server/docs/StructInfo.java:104-116 | replacing the description leaves a struct equal to itself, with the same hash code and the same string form |
| `Docs.HashCode` | core/src/main/java/com/linecorp/armeria/server/docs/StructInfo.java:108-111 | the hash code is `Objects.hash(name, fields)` and lies in the Java `int` range |
| `Docs.EqualStructsHaveEqualHashCodes` | core/src/main/java/com/linecorp/armeria/server/docs/StructInfo.java:104-111 | equal structs have equal hash codes, whatever hash code each field has |
| `Docs.ToString` | core/src/main/java/com/linecorp/armeria/server/docs/StructInfo.java:113-116 | the string form of a struct is its name |
| `Docs.NamedTypesOfFieldsIsReachableNamed` | core/src/main/java/com/linecorp/armeria/server/docs/StructInfo.java:89-90 | the set filled over the fields holds a signature iff it is `Named` and reachable from some field's signature |
| `Docs.InsertByName` | core/src/main/java/com/linecorp/armeria/server/docs/StructInfo.java:91 | inserting into a name-sorted set keeps names strictly increasing; the element is added iff no element has its name yet, and nothing else changes |
| `Docs.SortedCopyByName` | core/src/main/java/com/linecorp/armeria/server/docs/StructInfo.java:91 | the sorted copy has strictly increasing names, holds only elements of the source set, and holds the name of every element of the source set |
| `Docs.FindNamedTypes` | core/src/main/java/com/linecorp/armeria/server/docs/StructInfo.java:87-92 | the result holds only named signatures reachable from the fields, holds the name of every such signature, has strictly increasing names, and is empty for a struct without fields |
| `Docs.ClosureNamesAreDetermined` | core/src/main/java/com/linecorp/armeria/server/docs/StructInfo.java:87-92 | any two results for the same fields list the same names in the same order |
| `Docs.ClosureIsDeterminedWhenNamesAreUnambiguous` | core/src/main/java/com/linecorp/armeria/server/docs/StructInfo.java:87-92 | if no two reachable named signatures share a name, any two results for the same fields are equal |
| `FileMediaTypes.FirstNonNull` | core/src/main/java/com/linecorp/armeria/server/file/MediaTypeResolver.java:72-88 | the combined answer is the first resolver's answer when it is non-null, otherwise the second's; it is null iff both are null |
| `FileMediaTypes.MediaTypeResolver.OrElse` | core/src/main/java/com/linecorp/armeria/server/file/MediaTypeResolver.java:65-90 | a null `other` fails with "other"; `a.orElse(a)` is `a`; otherwise a new resolver whose two overloads answer as `FirstNonNull` of both resolvers' answers for the same path and encoding |
| `FileMediaTypes.FallbackExample` | core/src/main/java/com/linecorp/armeria/server/file/MediaTypeResolver.java:70-78 | a resolver that knows only `index.html`, backed by a catch-all, answers the first for that path and the catch-all for another |

## Left out

- `FlagsLoaded` (a process-wide flag that records that the flags class was loaded) is not part of this model. It is initialisation plumbing outside the documentation model.
- `MediaTypeResolver.ofDefault()` is not part of this model. The table from file extension to media type lives in `MediaTypeUtil`, which is not part of this model either. Resolvers are arbitrary pairs of functions.
- `MediaType`, `DescriptionInfo` and the named kinds of a signature are kept minimal. None of their contents take part in the modelled behaviour.
- The source of `ServiceInfo.findNamedTypes(Set, TypeSignature)` is not part of this model. The model assumes it adds a named signature to the set and recurses uniformly into every child of a container.
- `TypeSignature.java` and `FieldInfo.java` are not part of this model. Their equality is taken as structural (Dafny datatype equality). A field is modelled by its name and type signature only.
- `Docs.HashCode`: the hash code of a single `FieldInfo` is a parameter, because `FieldInfo.hashCode()` is not part of this model. Lists and `Objects.hash` combine hash codes as their Java contracts define.
- `JavaStrings.StringHash` runs over Unicode scalar values. Java's `String.hashCode` runs over UTF-16 code units. The two differ for any name holding a character outside the Basic Multilingual Plane, and so does `Docs.HashCode` for a struct with such a name. Equal structs still hash equally, and the description still plays no part.
- `Docs.Equals`: the identity shortcut `this == o` is modelled as value equality. That branch returns `true` either way, so the result is the same.
- `Docs.NewStructInfo`: the caller's `Iterable` is modelled as an array the caller owns. A `null` element in it makes `ImmutableList.copyOf` throw; that case is not modelled, because a field value here cannot be null.
- `JavaStrings.CompareTo` compares Unicode scalar values. Java compares UTF-16 code units. The two orders differ only when a character outside the Basic Multilingual Plane is compared with one in U+E000 to U+FFFF.
- Jackson annotations and the JSON form of the documentation model are left out, including omitting an absent description.
- Resolvers are pure functions of their arguments. A resolver that throws or has side effects is not modelled. Concurrency is not modelled: every modelled value is immutable.
