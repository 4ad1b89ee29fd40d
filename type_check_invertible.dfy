/**
 * The decision procedure for conformances to the invertible protocols
 * `Copyable` and `Escapable`: which diagnostics, advice notes and fix-its are
 * emitted, and in what order. Each emitting method is specified by a
 * function giving the diagnostics it appends.
 */
module TypeCheckInvertible {
  import opened Wrappers
  import opened Ast
  import opened Diagnostics
  import opened StorageVisitor

  // ---------------------------------------------------------------------
  // Diagnostic records, each with its location and arguments

  /** `inverse_but_also_conforms`, at the conformance. */
  function ContradictionDiagnostic(loc: Loc, n: NominalDecl, ip: InvertibleProtocol): Diagnostic
  {
    Diagnostic(loc, InverseButAlsoConforms, [DeclArg(n.name), StringArg(ProtocolName(ip))], None)
  }

  /** `copyable_illegal_deinit`, at the deinit. */
  function DeinitDiagnostic(loc: Loc, n: NominalDecl): Diagnostic
  {
    Diagnostic(loc, CopyableIllegalDeinit, [DeclArg(n.name)], None)
  }

  /** `add_inverse`, at the nominal, carrying the fix-it. */
  function AddInverseDiagnostic(nominal: NominalDecl, ip: InvertibleProtocol, fixIt: FixIt): Diagnostic
  {
    Diagnostic(nominal.loc, AddInverse, [DeclArg(nominal.name), StringArg(ProtocolName(ip))], Some(fixIt))
  }

  /** `inverse_type_member_in_conforming_type`, at the storage. */
  function MemberDiagnostic(n: NominalDecl, ip: InvertibleProtocol, e: StorageElement): Diagnostic
  {
    Diagnostic(e.loc, InverseTypeMemberInConformingType,
               [TypeArg(e.ty), BoolArg(e.isEnum), NameArg(e.name), DeclArg(n.name), StringArg(ProtocolName(ip))], None)
  }

  /** `note_inverse_preventing_conformance`, at the generic parameter. */
  function ParamNote(param: GenericParamDecl, ty: Ty, ip: InvertibleProtocol): Diagnostic
  {
    Diagnostic(param.loc, NoteInversePreventingConformance, [TypeArg(ty), StringArg(ProtocolName(ip))], None)
  }

  /** `note_inverse_preventing_conformance_explicit`, at the nominal's location. */
  function NominalNote(loc: Loc, name: string, ip: InvertibleProtocol): Diagnostic
  {
    Diagnostic(loc, NoteInversePreventingConformanceExplicit, [DeclArg(name), StringArg(ProtocolName(ip))], None)
  }

  // ---------------------------------------------------------------------
  // Diagnostic utilities

  /** The inheritance clause as written: `: A, B, C`, or nothing. */
  function Join(entries: seq<string>): string
  {
    if entries == [] then ""
    else if |entries| == 1 then entries[0]
    else Join(entries[..|entries| - 1]) + ", " + entries[|entries| - 1]
  }

  function ClauseText(entries: seq<string>): string
  {
    if entries == [] then "" else ": " + Join(entries)
  }

  function Spellings(inherited: seq<InheritedEntry>): (r: seq<string>)
    ensures |r| == |inherited|
  {
    seq(|inherited|, k requires 0 <= k < |inherited| => inherited[k].spelling)
  }

  /** The protocol as an inheritance-clause entry: `KP` or `~KP`. */
  function ConformanceEntry(proto: InvertibleProtocol, inverse: bool): string
  {
    (if inverse then "~" else "") + ProtocolName(proto)
  }

  /**
   * The fix-it that adds `proto` (or its inverse) to the nominal's
   * inheritance clause: at the opening brace when the clause is empty,
   * right after the clause's last entry otherwise.
   */
  function ConformanceFixIt(nominal: NominalDecl, proto: InvertibleProtocol, inverse: bool): (f: FixIt)
    ensures nominal.inherited == [] ==> f == Insert(nominal.bracesStart, ": " + ConformanceEntry(proto, inverse))
    ensures nominal.inherited != [] ==>
      f == InsertAfter(nominal.inherited[|nominal.inherited| - 1].endLoc, ", " + ConformanceEntry(proto, inverse))
  {
    var separator := if nominal.inherited == [] then ": " else ", ";
    var text := separator + ConformanceEntry(proto, inverse);
    if nominal.inherited == [] then Insert(nominal.bracesStart, text)
    else InsertAfter(nominal.inherited[|nominal.inherited| - 1].endLoc, text)
  }

  /** Builds the fix-it's text piece by piece, as the source fills its buffer. */
  method AddConformanceFixIt(nominal: NominalDecl, proto: InvertibleProtocol, inverse: bool)
    returns (fixIt: FixIt)
    ensures fixIt == ConformanceFixIt(nominal, proto, inverse)
  {
    var text: string := "";
    if nominal.inherited == [] {
      var fixItLoc := nominal.bracesStart;
      text := text + ": ";
      if inverse { text := text + "~"; }
      text := text + ProtocolName(proto);
      fixIt := Insert(fixItLoc, text);
    } else {
      var fixItLoc := nominal.inherited[|nominal.inherited| - 1].endLoc;
      text := text + ", ";
      if inverse { text := text + "~"; }
      text := text + ProtocolName(proto);
      fixIt := InsertAfter(fixItLoc, text);
    }
  }

  /** The `add_inverse` advice, with its fix-it, only when an inverse may be added. */
  function AdviceToApplyInverseAfter(ip: InvertibleProtocol, canAddInverse: bool, nominal: NominalDecl): (ds: seq<Diagnostic>)
    ensures |ds| == (if canAddInverse then 1 else 0)
    ensures forall k :: 0 <= k < |ds| ==>
      ds[k].id == AddInverse && ds[k].loc == nominal.loc
      && ds[k].fixIt == Some(ConformanceFixIt(nominal, ip, true))
  {
    if canAddInverse then
      [AddInverseDiagnostic(nominal, ip, ConformanceFixIt(nominal, ip, true))]
    else []
  }

  method EmitAdviceToApplyInverseAfter(diags: DiagnosticEngine, ip: InvertibleProtocol, canAddInverse: bool, nominal: NominalDecl)
    modifies diags
    ensures diags.emitted == old(diags.emitted) + AdviceToApplyInverseAfter(ip, canAddInverse, nominal)
  {
    if canAddInverse {
      var fixIt := AddConformanceFixIt(nominal, ip, true);
      diags.Diagnose(AddInverseDiagnostic(nominal, ip, fixIt));
    }
  }

  /** The offending type is an archetype of a generic parameter declared in `m`. */
  predicate IsLocalGenericParam(ty: Ty, m: ModuleId)
  {
    ty.shape.Archetype? && ty.shape.interfaceType.GenericParamType?
    && ty.shape.interfaceType.decl.Some? && ty.shape.interfaceType.decl.value.parentModule == m
  }

  /** The offending type is a nominal type whose declaration has a location. */
  predicate IsLocatableNominal(ty: Ty)
  {
    ty.shape.NominalType? && ty.shape.nominal.loc.Some?
  }

  /**
   * The note that points to the root cause, if any: a generic parameter
   * declared in the enclosing module takes priority; an archetype never
   * yields the nominal note; a nominal yields a note only when its
   * declaration has a location.
   */
  function RootCauseNote(enclosing: NominalDecl, ty: Ty, ip: InvertibleProtocol): (ds: seq<Diagnostic>)
    ensures |ds| <= 1
    ensures |ds| == 1 <==> IsLocalGenericParam(ty, enclosing.parentModule) || IsLocatableNominal(ty)
    ensures IsLocalGenericParam(ty, enclosing.parentModule) ==>
      ds == [ParamNote(ty.shape.interfaceType.decl.value, ty, ip)]
    ensures IsLocatableNominal(ty) ==>
      ds == [NominalNote(ty.shape.nominal.loc.value, ty.shape.nominal.name, ip)]
  {
    match ty.shape
    case Archetype(GenericParamType(Some(param))) =>
      if param.parentModule == enclosing.parentModule
      then [ParamNote(param, ty, ip)]
      else []
    case Archetype(_) => []
    case NominalType(NominalRef(name, Some(loc))) =>
      [NominalNote(loc, name, ip)]
    case _ => []
  }

  /** Containment advice: the generic advice first, then the root-cause note. */
  function ContainmentFixits(enclosing: NominalDecl, canAddInverse: bool, ty: Ty, ip: InvertibleProtocol): (ds: seq<Diagnostic>)
    ensures var advice := AdviceToApplyInverseAfter(ip, canAddInverse, enclosing);
      |advice| <= |ds| && ds[..|advice|] == advice && ds[|advice|..] == RootCauseNote(enclosing, ty, ip)
  {
    AdviceToApplyInverseAfter(ip, canAddInverse, enclosing) + RootCauseNote(enclosing, ty, ip)
  }

  method TryEmitContainmentFixits(diags: DiagnosticEngine, enclosing: NominalDecl, canAddInverse: bool, ty: Ty, ip: InvertibleProtocol)
    modifies diags
    ensures diags.emitted == old(diags.emitted) + ContainmentFixits(enclosing, canAddInverse, ty, ip)
  {
    var enclosingModule := enclosing.parentModule;
    EmitAdviceToApplyInverseAfter(diags, ip, canAddInverse, enclosing);
    if ty.shape.Archetype? {
      if ty.shape.interfaceType.GenericParamType? {
        var param := ty.shape.interfaceType.decl;
        if param.Some? && param.value.parentModule == enclosingModule {
          diags.Diagnose(ParamNote(param.value, ty, ip));
        }
      }
      return;
    }
    if ty.shape.NominalType? {
      var nominal := ty.shape.nominal;
      if nominal.loc.Some? {
        diags.Diagnose(NominalNote(nominal.loc.value, nominal.name, ip));
      }
    }
  }

  // ---------------------------------------------------------------------
  // Conformance checking

  /**
   * The inverse set: the explicit `~KP` entries, plus `Copyable` for
   * `@_moveOnly` and `Escapable` for `@_nonEscapable`. Nothing is removed
   * and nothing else is added.
   */
  function Negations(n: NominalDecl): (r: set<InvertibleProtocol>)
    ensures n.inverses <= r
    ensures n.moveOnlyAttr ==> Copyable in r
    ensures n.nonEscapableAttr ==> Escapable in r
    ensures forall ip :: ip in r && ip !in n.inverses ==>
      (ip == Copyable && n.moveOnlyAttr) || (ip == Escapable && n.nonEscapableAttr)
  {
    n.inverses
    + (if n.moveOnlyAttr then {Copyable} else {})
    + (if n.nonEscapableAttr then {Escapable} else {})
  }

  predicate HasExplicitInverse(n: NominalDecl, ip: InvertibleProtocol)
  {
    ip in Negations(n)
  }

  /** A normal conformance with no conditional requirements. */
  predicate HasUnconditionalConformance(c: Conformance): (b: bool)
    ensures !c.kind.Normal? ==> !b
    ensures c.kind.Normal? ==> (b <==> c.kind.conditionalRequirements == [])
  {
    c.kind.Normal? && c.kind.conditionalRequirements == []
  }

  predicate CanAddInverse(n: NominalDecl, c: Conformance, ip: InvertibleProtocol)
  {
    !HasExplicitInverse(n, ip) && !HasUnconditionalConformance(c)
  }

  /** The contradiction check runs for structs and enums always, for classes
      only with the `MoveOnlyClasses` feature. */
  predicate ContradictionChecked(n: NominalDecl, moveOnlyClasses: bool)
  {
    n.kind != Class || moveOnlyClasses
  }

  predicate ContradictionApplies(n: NominalDecl, c: Conformance, ip: InvertibleProtocol, moveOnlyClasses: bool)
  {
    ContradictionChecked(n, moveOnlyClasses) && HasExplicitInverse(n, ip) && HasUnconditionalConformance(c)
  }

  /** LacksMatchingStorage's test: error-typed storage never violates;
      otherwise the stored type must lack the protocol. */
  predicate StorageViolates(ip: InvertibleProtocol, ty: Ty): (b: bool)
    ensures ty.hasError ==> !b
    ensures !ty.hasError && ip == Copyable ==> (b <==> ty.isNoncopyable)
    ensures !ty.hasError && ip == Escapable ==> (b <==> !ty.isEscapable)
  {
    !ty.hasError &&
    match ip
    case Copyable => ty.isNoncopyable
    case Escapable => !ty.isEscapable
  }

  /** The callback decision handed to the storage visitor. */
  function ViolationFor(ip: InvertibleProtocol): StorageElement -> bool
  {
    (e: StorageElement) => StorageViolates(ip, e.ty)
  }

  function ContradictionDiagnostics(n: NominalDecl, c: Conformance, ip: InvertibleProtocol, moveOnlyClasses: bool): seq<Diagnostic>
  {
    if ContradictionApplies(n, c, ip, moveOnlyClasses)
    then [ContradictionDiagnostic(c.kind.loc, n, ip)]
    else []
  }

  function DeinitDiagnostics(n: NominalDecl, ip: InvertibleProtocol, canAddInverse: bool): seq<Diagnostic>
  {
    if ip == Copyable && n.deinit.Some?
    then [DeinitDiagnostic(n.deinit.value, n)]
         + AdviceToApplyInverseAfter(ip, canAddInverse, n)
    else []
  }

  /** What LacksMatchingStorage emits for the element it stops on. */
  function StorageViolationDiagnostics(n: NominalDecl, canAddInverse: bool, ip: InvertibleProtocol, e: StorageElement): seq<Diagnostic>
  {
    [MemberDiagnostic(n, ip, e)] + ContainmentFixits(n, canAddInverse, e.ty, ip)
  }

  function StorageDiagnostics(n: NominalDecl, ip: InvertibleProtocol, canAddInverse: bool): seq<Diagnostic>
  {
    match FirstMatch(Storage(n), ViolationFor(ip))
    case None => []
    case Some(e) => StorageViolationDiagnostics(n, canAddInverse, ip, e)
  }

  /** Everything one conformance check emits, in order. */
  function ConformanceDiagnostics(n: NominalDecl, c: Conformance, ip: InvertibleProtocol, moveOnlyClasses: bool): (d: seq<Diagnostic>)
    ensures n.kind == Class ==> d == ContradictionDiagnostics(n, c, ip, moveOnlyClasses)
    ensures |d| <= 6
  {
    ContradictionDiagnostics(n, c, ip, moveOnlyClasses)
    + if n.kind == Class then []
      else DeinitDiagnostics(n, ip, CanAddInverse(n, c, ip)) + StorageDiagnostics(n, ip, CanAddInverse(n, c, ip))
  }

  method EmitStorageViolation(diags: DiagnosticEngine, n: NominalDecl, canAddInverse: bool, ip: InvertibleProtocol, e: StorageElement)
    modifies diags
    ensures diags.emitted == old(diags.emitted) + StorageViolationDiagnostics(n, canAddInverse, ip, e)
  {
    diags.Diagnose(MemberDiagnostic(n, ip, e));
    TryEmitContainmentFixits(diags, n, canAddInverse, e.ty, ip);
  }

  /** `LacksMatchingStorage::visit`: walks the storage and reports the first
      violating element; the result says whether the walk stopped on one. */
  method LacksMatchingStorageVisit(diags: DiagnosticEngine, n: NominalDecl, canAddInverse: bool, ip: InvertibleProtocol)
    returns (stopped: bool)
    modifies diags
    ensures stopped <==> FirstMatch(Storage(n), ViolationFor(ip)).Some?
    ensures diags.emitted == old(diags.emitted) + StorageDiagnostics(n, ip, canAddInverse)
  {
    var found := Visit(n, ViolationFor(ip));
    stopped := found.Some?;
    if found.Some? {
      EmitStorageViolation(diags, n, canAddInverse, ip, found.value);
    } else {
      assert StorageDiagnostics(n, ip, canAddInverse) == [];
    }
  }

  lemma AppendAssoc(a: seq<Diagnostic>, b: seq<Diagnostic>, c: seq<Diagnostic>)
    ensures (a + b) + c == a + (b + c)
  {
  }

  /** The common conformance check for `Copyable` and `Escapable`. */
  method CheckInvertibleConformanceCommon(diags: DiagnosticEngine, nominal: NominalDecl, conformance: Conformance,
                                          ip: InvertibleProtocol, moveOnlyClasses: bool)
    requires conformance.protocol == ip
    requires IsConformingKind(nominal.kind)
    modifies diags
    ensures diags.emitted == old(diags.emitted) + ConformanceDiagnostics(nominal, conformance, ip, moveOnlyClasses)
  {
    ghost var start := diags.emitted;
    var inverses := nominal.inverses;
    if nominal.moveOnlyAttr {
      inverses := inverses + {Copyable};
    }
    if nominal.nonEscapableAttr {
      inverses := inverses + {Escapable};
    }
    assert inverses == Negations(nominal);
    var hasExplicitInverse := ip in inverses;

    var hasUnconditionalConformance := false;
    if conformance.kind.Normal? && conformance.kind.conditionalRequirements == [] {
      hasUnconditionalConformance := true;
    }
    assert hasUnconditionalConformance == HasUnconditionalConformance(conformance);

    if nominal.kind != Class || moveOnlyClasses {
      if hasExplicitInverse && hasUnconditionalConformance {
        diags.Diagnose(ContradictionDiagnostic(conformance.kind.loc, nominal, ip));
      }
    }
    ghost var contradiction := ContradictionDiagnostics(nominal, conformance, ip, moveOnlyClasses);
    assert diags.emitted == start + contradiction;

    if nominal.kind == Class {
      assert contradiction + [] == contradiction;
      return;
    }

    var canAddInverse := !hasExplicitInverse && !hasUnconditionalConformance;
    assert canAddInverse == CanAddInverse(nominal, conformance, ip);

    if ip == Copyable {
      if nominal.deinit.Some? {
        diags.Diagnose(DeinitDiagnostic(nominal.deinit.value, nominal));
        EmitAdviceToApplyInverseAfter(diags, ip, canAddInverse, nominal);
      }
    }
    ghost var deinit := DeinitDiagnostics(nominal, ip, canAddInverse);
    assert diags.emitted == start + contradiction + deinit;

    var _ := LacksMatchingStorageVisit(diags, nominal, canAddInverse, ip);
    ghost var storage := StorageDiagnostics(nominal, ip, canAddInverse);
    assert diags.emitted == (start + contradiction + deinit) + storage;
    AppendAssoc(start + contradiction, deinit, storage);
    AppendAssoc(start, contradiction, deinit + storage);
    assert ConformanceDiagnostics(nominal, conformance, ip, moveOnlyClasses) == contradiction + (deinit + storage);
  }

  method CheckEscapableConformance(diags: DiagnosticEngine, nominal: NominalDecl, conformance: Conformance, moveOnlyClasses: bool)
    requires conformance.protocol == Escapable
    requires IsConformingKind(nominal.kind)
    modifies diags
    ensures diags.emitted == old(diags.emitted) + ConformanceDiagnostics(nominal, conformance, Escapable, moveOnlyClasses)
  {
    CheckInvertibleConformanceCommon(diags, nominal, conformance, Escapable, moveOnlyClasses);
  }

  method CheckCopyableConformance(diags: DiagnosticEngine, nominal: NominalDecl, conformance: Conformance, moveOnlyClasses: bool)
    requires conformance.protocol == Copyable
    requires IsConformingKind(nominal.kind)
    modifies diags
    ensures diags.emitted == old(diags.emitted) + ConformanceDiagnostics(nominal, conformance, Copyable, moveOnlyClasses)
  {
    CheckInvertibleConformanceCommon(diags, nominal, conformance, Copyable, moveOnlyClasses);
  }
}
