/**
 * The slice of the Swift declaration and type model that the invertible
 * conformance checker queries. Semantic type queries (`hasError`,
 * `isNoncopyable`, `isEscapable`) are flags on a type; every stored type is
 * already mapped into the declaration's generic context.
 */
module Ast {
  import opened Wrappers

  /** An opaque source location. */
  type Loc = nat

  /** An opaque module identity. */
  type ModuleId = nat

  /** The two invertible protocols: `Copyable` and `Escapable`. */
  datatype InvertibleProtocol = Copyable | Escapable

  /** The known protocol's spelling in source. */
  function ProtocolName(ip: InvertibleProtocol): string
  {
    match ip
    case Copyable => "Copyable"
    case Escapable => "Escapable"
  }

  /** A generic parameter declaration, with its location and its module. */
  datatype GenericParamDecl = GenericParamDecl(name: string, loc: Loc, parentModule: ModuleId)

  /** The interface type behind an archetype: a generic parameter (whose
      declaration may be missing) or anything else, such as a member type. */
  datatype InterfaceType =
    | GenericParamType(decl: Option<GenericParamDecl>)
    | OtherInterfaceType

  /** A reference to a nominal declaration; `loc` is `None` when the
      declaration has no source location (it was deserialized). */
  datatype NominalRef = NominalRef(name: string, loc: Option<Loc>)

  /** The shapes of type the advice generator distinguishes. */
  datatype TypeShape =
    | Archetype(interfaceType: InterfaceType)
    | NominalType(nominal: NominalRef)
    | OtherShape

  /** A contextual type with the three semantic queries the checker asks. */
  datatype Ty = Ty(
    spelling: string,
    hasError: bool,
    isNoncopyable: bool,
    isEscapable: bool,
    shape: TypeShape)

  /** The kinds of nominal declaration. */
  datatype DeclKind = Struct | Enum | Class | Protocol | BuiltinTuple

  datatype StoredProperty = StoredProperty(name: string, loc: Loc, ty: Ty)

  /** An enum element; `payload` is the associated-value type, if there is one. */
  datatype EnumElement = EnumElement(name: string, loc: Loc, payload: Option<Ty>)

  /** One `case` declaration, which may declare several elements. */
  datatype EnumCase = EnumCase(elements: seq<EnumElement>)

  /** One entry of an inheritance clause, as spelled, and where it ends. */
  datatype InheritedEntry = InheritedEntry(spelling: string, endLoc: Loc)

  /**
   * A nominal type declaration. `inverses` is the set of `~KP` entries that
   * the inheritance clause lookup reports; `moveOnlyAttr` and
   * `nonEscapableAttr` are the deprecated `@_moveOnly` and `@_nonEscapable`
   * attributes; `deinit` is the location of a value-type destructor.
   */
  datatype NominalDecl = NominalDecl(
    name: string,
    kind: DeclKind,
    loc: Loc,
    parentModule: ModuleId,
    inherited: seq<InheritedEntry>,
    bracesStart: Loc,
    inverses: set<InvertibleProtocol>,
    moveOnlyAttr: bool,
    nonEscapableAttr: bool,
    deinit: Option<Loc>,
    storedProperties: seq<StoredProperty>,
    cases: seq<EnumCase>)

  /** A declaration the conformance checker accepts as `Self`. */
  predicate IsConformingKind(kind: DeclKind)
  {
    kind == Struct || kind == Enum || kind == Class
  }

  /** A conformance's variety; only a normal one carries conditional requirements. */
  datatype Requirement = Requirement(subject: string, constraint: string)

  datatype ConformanceKind =
    | Normal(loc: Loc, conditionalRequirements: seq<Requirement>)
    | Specialized
    | Inherited
    | SelfConformance
    | Builtin

  datatype Conformance = Conformance(protocol: InvertibleProtocol, kind: ConformanceKind)

  /** One element of storage as the storage visitor hands it to its callback. */
  datatype StorageElement = StorageElement(name: string, loc: Loc, ty: Ty, isEnum: bool)

  function PropertyElement(p: StoredProperty): StorageElement
  {
    StorageElement(p.name, p.loc, p.ty, false)
  }

  /** The stored properties of a struct or class, in declaration order. */
  function PropertyElements(ps: seq<StoredProperty>): (s: seq<StorageElement>)
    ensures |s| == |ps|
    ensures forall k :: 0 <= k < |ps| ==> s[k] == PropertyElement(ps[k])
  {
    seq(|ps|, k requires 0 <= k < |ps| => PropertyElement(ps[k]))
  }

  /** An enum element contributes storage only when it has associated values. */
  function ElementStorage(e: EnumElement): seq<StorageElement>
  {
    match e.payload
    case None => []
    case Some(t) => [StorageElement(e.name, e.loc, t, true)]
  }

  /** The payload-carrying elements of one case, in order. */
  function PayloadElements(es: seq<EnumElement>): seq<StorageElement>
  {
    if es == [] then [] else ElementStorage(es[0]) + PayloadElements(es[1..])
  }

  /** The payload-carrying elements of all cases, in order. */
  function CaseElements(cs: seq<EnumCase>): seq<StorageElement>
  {
    if cs == [] then [] else PayloadElements(cs[0].elements) + CaseElements(cs[1..])
  }

  /**
   * The storage a nominal's storage visitor walks, in walk order: the stored
   * properties of a struct or class, the payload-carrying elements of an
   * enum, and nothing for any other kind of declaration.
   */
  function Storage(n: NominalDecl): seq<StorageElement>
  {
    match n.kind
    case Struct => PropertyElements(n.storedProperties)
    case Class => PropertyElements(n.storedProperties)
    case Enum => CaseElements(n.cases)
    case _ => []
  }

  lemma {:induction false} PayloadElementsAppend(a: seq<EnumElement>, b: seq<EnumElement>)
    ensures PayloadElements(a + b) == PayloadElements(a) + PayloadElements(b)
  {
    if a == [] {
      assert a + b == b;
    } else {
      assert (a + b)[0] == a[0];
      assert (a + b)[1..] == a[1..] + b;
      PayloadElementsAppend(a[1..], b);
    }
  }

  lemma {:induction false} CaseElementsAppend(a: seq<EnumCase>, b: seq<EnumCase>)
    ensures CaseElements(a + b) == CaseElements(a) + CaseElements(b)
  {
    if a == [] {
      assert a + b == b;
    } else {
      assert (a + b)[0] == a[0];
      assert (a + b)[1..] == a[1..] + b;
      CaseElementsAppend(a[1..], b);
    }
  }
}
