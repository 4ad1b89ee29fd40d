/**
 * Properties of the invertible conformance checker, stated over the
 * diagnostics one check emits.
 */
module InvertibleProperties {
  import opened Wrappers
  import opened Ast
  import opened Diagnostics
  import opened StorageVisitor
  import opened TypeCheckInvertible

  /** Some stored element's type lacks the protocol being checked. */
  ghost predicate HasViolatingStorage(n: NominalDecl, ip: InvertibleProtocol)
  {
    exists k :: 0 <= k < |Storage(n)| && StorageViolates(ip, Storage(n)[k].ty)
  }

  /** The element the storage walk stops on. */
  function FirstViolation(n: NominalDecl, ip: InvertibleProtocol): Option<StorageElement>
  {
    FirstMatch(Storage(n), ViolationFor(ip))
  }

  /**
   * How many diagnostics of each kind one check emits, stated from the
   * declaration and the conformance alone.
   */
  function ExpectedCount(n: NominalDecl, c: Conformance, ip: InvertibleProtocol, moveOnlyClasses: bool, id: DiagId): nat
  {
    var walked := n.kind != Class;
    var deinit := if walked && ip == Copyable && n.deinit.Some? then 1 else 0;
    var offending := FirstViolation(n, ip);
    var member := if walked && offending.Some? then 1 else 0;
    match id
    case InverseButAlsoConforms => if ContradictionApplies(n, c, ip, moveOnlyClasses) then 1 else 0
    case CopyableIllegalDeinit => deinit
    case InverseTypeMemberInConformingType => member
    case AddInverse => if CanAddInverse(n, c, ip) then deinit + member else 0
    case NoteInversePreventingConformance =>
      if walked && offending.Some? && IsLocalGenericParam(offending.value.ty, n.parentModule) then 1 else 0
    case NoteInversePreventingConformanceExplicit =>
      if walked && offending.Some? && IsLocatableNominal(offending.value.ty) then 1 else 0
  }

  lemma CountSingle(d: Diagnostic, id: DiagId)
    ensures Count([d], id) == if d.id == id then 1 else 0
  {
    assert [d][1..] == [];
  }

  lemma AdviceCount(ip: InvertibleProtocol, canAddInverse: bool, n: NominalDecl, id: DiagId)
    ensures Count(AdviceToApplyInverseAfter(ip, canAddInverse, n), id) ==
      if canAddInverse && id == AddInverse then 1 else 0
  {
    var advice := AdviceToApplyInverseAfter(ip, canAddInverse, n);
    if canAddInverse {
      assert advice == [advice[0]];
      CountSingle(advice[0], id);
    }
  }

  lemma RootCauseNoteCount(n: NominalDecl, ty: Ty, ip: InvertibleProtocol, id: DiagId)
    ensures Count(RootCauseNote(n, ty, ip), id) ==
      if (IsLocalGenericParam(ty, n.parentModule) && id == NoteInversePreventingConformance)
         || (IsLocatableNominal(ty) && id == NoteInversePreventingConformanceExplicit)
      then 1 else 0
  {
    var note := RootCauseNote(n, ty, ip);
    if |note| == 1 {
      assert note == [note[0]];
      CountSingle(note[0], id);
    }
  }

  /** The walk finds something exactly when some stored element violates. */
  lemma FirstViolationIff(n: NominalDecl, ip: InvertibleProtocol)
    ensures FirstViolation(n, ip).Some? <==> HasViolatingStorage(n, ip)
    ensures FirstViolation(n, ip).Some? ==> StorageViolates(ip, FirstViolation(n, ip).value.ty)
  {
    FirstMatchCharacterization(Storage(n), ViolationFor(ip));
  }

  lemma ContradictionCount(n: NominalDecl, c: Conformance, ip: InvertibleProtocol, moveOnlyClasses: bool, id: DiagId)
    ensures Count(ContradictionDiagnostics(n, c, ip, moveOnlyClasses), id) ==
      if ContradictionApplies(n, c, ip, moveOnlyClasses) && id == InverseButAlsoConforms then 1 else 0
  {
    var contradiction := ContradictionDiagnostics(n, c, ip, moveOnlyClasses);
    if contradiction != [] {
      assert contradiction == [contradiction[0]];
      CountSingle(contradiction[0], id);
    }
  }

  lemma DeinitCount(n: NominalDecl, ip: InvertibleProtocol, canAdd: bool, id: DiagId)
    ensures Count(DeinitDiagnostics(n, ip, canAdd), id) ==
      if ip == Copyable && n.deinit.Some? then
        (if id == CopyableIllegalDeinit then 1 else 0) + (if canAdd && id == AddInverse then 1 else 0)
      else 0
  {
    if ip == Copyable && n.deinit.Some? {
      var d := DeinitDiagnostic(n.deinit.value, n);
      CountAppend([d], AdviceToApplyInverseAfter(ip, canAdd, n), id);
      CountSingle(d, id);
      AdviceCount(ip, canAdd, n, id);
    }
  }

  lemma StorageCount(n: NominalDecl, ip: InvertibleProtocol, canAdd: bool, id: DiagId)
    ensures var offending := FirstViolation(n, ip);
      Count(StorageDiagnostics(n, ip, canAdd), id) ==
      if offending.None? then 0
      else
        (if id == InverseTypeMemberInConformingType then 1 else 0)
        + (if canAdd && id == AddInverse then 1 else 0)
        + (if (IsLocalGenericParam(offending.value.ty, n.parentModule) && id == NoteInversePreventingConformance)
              || (IsLocatableNominal(offending.value.ty) && id == NoteInversePreventingConformanceExplicit)
           then 1 else 0)
  {
    match FirstViolation(n, ip)
    case None =>
    case Some(e) =>
      var member := MemberDiagnostic(n, ip, e);
      CountAppend([member], ContainmentFixits(n, canAdd, e.ty, ip), id);
      CountSingle(member, id);
      CountAppend(AdviceToApplyInverseAfter(ip, canAdd, n), RootCauseNote(n, e.ty, ip), id);
      AdviceCount(ip, canAdd, n, id);
      RootCauseNoteCount(n, e.ty, ip, id);
  }

  /** `ExpectedCount` of a struct or enum, split along the three stages. */
  lemma ExpectedCountSplit(n: NominalDecl, c: Conformance, ip: InvertibleProtocol, moveOnlyClasses: bool, id: DiagId)
    requires n.kind != Class
    ensures var canAdd := CanAddInverse(n, c, ip);
      var offending := FirstViolation(n, ip);
      ExpectedCount(n, c, ip, moveOnlyClasses, id)
      == (if ContradictionApplies(n, c, ip, moveOnlyClasses) && id == InverseButAlsoConforms then 1 else 0)
      + (if ip == Copyable && n.deinit.Some? then
           (if id == CopyableIllegalDeinit then 1 else 0) + (if canAdd && id == AddInverse then 1 else 0)
         else 0)
      + (if offending.None? then 0
         else
           (if id == InverseTypeMemberInConformingType then 1 else 0)
           + (if canAdd && id == AddInverse then 1 else 0)
           + (if (IsLocalGenericParam(offending.value.ty, n.parentModule) && id == NoteInversePreventingConformance)
                 || (IsLocatableNominal(offending.value.ty) && id == NoteInversePreventingConformanceExplicit)
              then 1 else 0))
  {
    match id
    case InverseButAlsoConforms =>
    case CopyableIllegalDeinit =>
    case InverseTypeMemberInConformingType =>
    case AddInverse =>
    case NoteInversePreventingConformance =>
    case NoteInversePreventingConformanceExplicit =>
  }

  /** The per-message count of every check agrees with `ExpectedCount`. */
  lemma {:induction false} DiagnosticCount(n: NominalDecl, c: Conformance, ip: InvertibleProtocol, moveOnlyClasses: bool, id: DiagId)
    ensures Count(ConformanceDiagnostics(n, c, ip, moveOnlyClasses), id) == ExpectedCount(n, c, ip, moveOnlyClasses, id)
  {
    var canAdd := CanAddInverse(n, c, ip);
    var contradiction := ContradictionDiagnostics(n, c, ip, moveOnlyClasses);
    ContradictionCount(n, c, ip, moveOnlyClasses, id);
    if n.kind == Class {
      assert ConformanceDiagnostics(n, c, ip, moveOnlyClasses) == contradiction;
    } else {
      var deinit := DeinitDiagnostics(n, ip, canAdd);
      var storage := StorageDiagnostics(n, ip, canAdd);
      assert ConformanceDiagnostics(n, c, ip, moveOnlyClasses) == contradiction + (deinit + storage);
      CountAppend(contradiction, deinit + storage, id);
      CountAppend(deinit, storage, id);
      DeinitCount(n, ip, canAdd, id);
      StorageCount(n, ip, canAdd, id);
      ExpectedCountSplit(n, c, ip, moveOnlyClasses, id);
    }
  }

  // ---------------------------------------------------------------------
  // The inverse set

  /** Two declarations that differ at most in how their inverses are spelled. */
  predicate SameButForInverses(a: NominalDecl, b: NominalDecl)
  {
    a.(inverses := {}, moveOnlyAttr := false, nonEscapableAttr := false)
    == b.(inverses := {}, moveOnlyAttr := false, nonEscapableAttr := false)
  }

  /** The check sees a declaration's inverses only through the inverse set. */
  lemma DependsOnlyOnNegations(a: NominalDecl, b: NominalDecl, c: Conformance, ip: InvertibleProtocol, moveOnlyClasses: bool)
    requires SameButForInverses(a, b) && Negations(a) == Negations(b)
    ensures ConformanceDiagnostics(a, c, ip, moveOnlyClasses) == ConformanceDiagnostics(b, c, ip, moveOnlyClasses)
  {
    var a0 := a.(inverses := {}, moveOnlyAttr := false, nonEscapableAttr := false);
    var b0 := b.(inverses := {}, moveOnlyAttr := false, nonEscapableAttr := false);
    assert a0.kind == b0.kind && a0.storedProperties == b0.storedProperties && a0.cases == b0.cases;
    assert a0.name == b0.name && a0.loc == b0.loc && a0.inherited == b0.inherited && a0.bracesStart == b0.bracesStart;
    assert a0.parentModule == b0.parentModule && a0.deinit == b0.deinit;
    assert Storage(a) == Storage(b);
    var canAdd := CanAddInverse(a, c, ip);
    assert canAdd == CanAddInverse(b, c, ip);
    assert ContradictionDiagnostics(a, c, ip, moveOnlyClasses) == ContradictionDiagnostics(b, c, ip, moveOnlyClasses);
    assert ConformanceFixIt(a, ip, true) == ConformanceFixIt(b, ip, true);
    assert AdviceToApplyInverseAfter(ip, canAdd, a) == AdviceToApplyInverseAfter(ip, canAdd, b);
    assert DeinitDiagnostics(a, ip, canAdd) == DeinitDiagnostics(b, ip, canAdd);
    assert FirstViolation(a, ip) == FirstViolation(b, ip);
    if FirstViolation(a, ip).Some? {
      var e := FirstViolation(a, ip).value;
      assert MemberDiagnostic(a, ip, e) == MemberDiagnostic(b, ip, e);
      assert RootCauseNote(a, e.ty, ip) == RootCauseNote(b, e.ty, ip);
    }
    assert StorageDiagnostics(a, ip, canAdd) == StorageDiagnostics(b, ip, canAdd);
  }

  /** The diagnostics with their fix-its dropped: everything but the fix-its. */
  function StripFixIts(ds: seq<Diagnostic>): (r: seq<Diagnostic>)
    ensures |r| == |ds|
    ensures forall k :: 0 <= k < |r| ==> r[k].fixIt.None?
    ensures forall k :: 0 <= k < |r| ==> r[k].(fixIt := ds[k].fixIt) == ds[k]
  {
    seq(|ds|, k requires 0 <= k < |ds| => ds[k].(fixIt := None))
  }

  lemma StripFixItsAppend(a: seq<Diagnostic>, b: seq<Diagnostic>)
    ensures StripFixIts(a + b) == StripFixIts(a) + StripFixIts(b)
  {
    assert forall k :: 0 <= k < |a + b| ==> StripFixIts(a + b)[k] == (StripFixIts(a) + StripFixIts(b))[k];
  }

  /** Two declarations that differ at most in how their inverses are spelled,
      inheritance clause included. */
  predicate SameButForInverseSpelling(a: NominalDecl, b: NominalDecl)
  {
    a.(inverses := {}, moveOnlyAttr := false, nonEscapableAttr := false, inherited := [])
    == b.(inverses := {}, moveOnlyAttr := false, nonEscapableAttr := false, inherited := [])
  }

  /** The advice of two declarations with the same name and location differs
      at most in its fix-it, and not at all when no advice is given. */
  lemma AdviceUpToFixIt(ip: InvertibleProtocol, canAdd: bool, a: NominalDecl, b: NominalDecl)
    requires a.name == b.name && a.loc == b.loc
    ensures StripFixIts(AdviceToApplyInverseAfter(ip, canAdd, a)) == StripFixIts(AdviceToApplyInverseAfter(ip, canAdd, b))
    ensures !canAdd ==> AdviceToApplyInverseAfter(ip, canAdd, a) == AdviceToApplyInverseAfter(ip, canAdd, b)
  {
    if canAdd {
      assert StripFixIts(AdviceToApplyInverseAfter(ip, canAdd, a))[0] == StripFixIts(AdviceToApplyInverseAfter(ip, canAdd, b))[0];
    }
  }

  /**
   * The inheritance clause is read only for the fix-it: declarations with the
   * same inverse set that differ in their clause get the same diagnostics up
   * to fix-its, and exactly the same ones when the inverse may not be added.
   */
  lemma ClauseOnlyMovesFixIts(a: NominalDecl, b: NominalDecl, c: Conformance, ip: InvertibleProtocol, moveOnlyClasses: bool)
    requires SameButForInverseSpelling(a, b) && Negations(a) == Negations(b)
    ensures StripFixIts(ConformanceDiagnostics(a, c, ip, moveOnlyClasses))
         == StripFixIts(ConformanceDiagnostics(b, c, ip, moveOnlyClasses))
    ensures !CanAddInverse(a, c, ip) ==>
      ConformanceDiagnostics(a, c, ip, moveOnlyClasses) == ConformanceDiagnostics(b, c, ip, moveOnlyClasses)
  {
    var a0 := a.(inverses := {}, moveOnlyAttr := false, nonEscapableAttr := false, inherited := []);
    var b0 := b.(inverses := {}, moveOnlyAttr := false, nonEscapableAttr := false, inherited := []);
    assert a0.kind == b0.kind && a0.storedProperties == b0.storedProperties && a0.cases == b0.cases;
    assert a0.name == b0.name && a0.loc == b0.loc;
    assert a0.parentModule == b0.parentModule && a0.deinit == b0.deinit;
    assert Storage(a) == Storage(b);
    var canAdd := CanAddInverse(a, c, ip);
    assert canAdd == CanAddInverse(b, c, ip);
    var front := ContradictionDiagnostics(a, c, ip, moveOnlyClasses);
    assert front == ContradictionDiagnostics(b, c, ip, moveOnlyClasses);
    if a.kind != Class {
      AdviceUpToFixIt(ip, canAdd, a, b);
      var adviceA := AdviceToApplyInverseAfter(ip, canAdd, a);
      var adviceB := AdviceToApplyInverseAfter(ip, canAdd, b);
      var deinitA := DeinitDiagnostics(a, ip, canAdd);
      var deinitB := DeinitDiagnostics(b, ip, canAdd);
      if ip == Copyable && a.deinit.Some? {
        var head := [DeinitDiagnostic(a.deinit.value, a)];
        assert head == [DeinitDiagnostic(b.deinit.value, b)];
        StripFixItsAppend(head, adviceA);
        StripFixItsAppend(head, adviceB);
      }
      assert StripFixIts(deinitA) == StripFixIts(deinitB);
      var storageA := StorageDiagnostics(a, ip, canAdd);
      var storageB := StorageDiagnostics(b, ip, canAdd);
      assert FirstViolation(a, ip) == FirstViolation(b, ip);
      if FirstViolation(a, ip).Some? {
        var e := FirstViolation(a, ip).value;
        var member := [MemberDiagnostic(a, ip, e)];
        assert member == [MemberDiagnostic(b, ip, e)];
        var note := RootCauseNote(a, e.ty, ip);
        assert note == RootCauseNote(b, e.ty, ip);
        assert storageA == member + (adviceA + note);
        assert storageB == member + (adviceB + note);
        StripFixItsAppend(adviceA, note);
        StripFixItsAppend(adviceB, note);
        StripFixItsAppend(member, adviceA + note);
        StripFixItsAppend(member, adviceB + note);
      }
      assert StripFixIts(storageA) == StripFixIts(storageB);
      StripFixItsAppend(deinitA, storageA);
      StripFixItsAppend(deinitB, storageB);
      StripFixItsAppend(front, deinitA + storageA);
      StripFixItsAppend(front, deinitB + storageB);
    }
  }

  /** `@_moveOnly` on `n`, against `n` with `~Copyable` written last in its clause, ending at `endLoc`. */
  function SpelledNoncopyable(n: NominalDecl, endLoc: Loc): NominalDecl
  {
    n.(inverses := n.inverses + {Copyable}, inherited := n.inherited + [InheritedEntry("~Copyable", endLoc)])
  }

  function SpelledNonescapable(n: NominalDecl, endLoc: Loc): NominalDecl
  {
    n.(inverses := n.inverses + {Escapable}, inherited := n.inherited + [InheritedEntry("~Escapable", endLoc)])
  }

  /**
   * `@_moveOnly` behaves like a written `~Copyable`: exactly the same
   * diagnostics for `Copyable`; for `Escapable` the same up to the position
   * of the `add_inverse` fix-it, which follows the clause as written, and
   * exactly the same when that advice is not given.
   */
  lemma MoveOnlyAttrIsExplicitNoncopyable(n: NominalDecl, endLoc: Loc, c: Conformance, moveOnlyClasses: bool)
    ensures ConformanceDiagnostics(n.(moveOnlyAttr := true), c, Copyable, moveOnlyClasses)
         == ConformanceDiagnostics(SpelledNoncopyable(n, endLoc), c, Copyable, moveOnlyClasses)
    ensures StripFixIts(ConformanceDiagnostics(n.(moveOnlyAttr := true), c, Escapable, moveOnlyClasses))
         == StripFixIts(ConformanceDiagnostics(SpelledNoncopyable(n, endLoc), c, Escapable, moveOnlyClasses))
    ensures !CanAddInverse(n, c, Escapable) ==>
      ConformanceDiagnostics(n.(moveOnlyAttr := true), c, Escapable, moveOnlyClasses)
      == ConformanceDiagnostics(SpelledNoncopyable(n, endLoc), c, Escapable, moveOnlyClasses)
  {
    var a := n.(moveOnlyAttr := true);
    var b := SpelledNoncopyable(n, endLoc);
    assert Negations(a) == Negations(b);
    assert SameButForInverseSpelling(a, b);
    ClauseOnlyMovesFixIts(a, b, c, Copyable, moveOnlyClasses);
    ClauseOnlyMovesFixIts(a, b, c, Escapable, moveOnlyClasses);
  }

  /** `@_nonEscapable` behaves like a written `~Escapable`, symmetrically. */
  lemma NonEscapableAttrIsExplicitNonescapable(n: NominalDecl, endLoc: Loc, c: Conformance, moveOnlyClasses: bool)
    ensures ConformanceDiagnostics(n.(nonEscapableAttr := true), c, Escapable, moveOnlyClasses)
         == ConformanceDiagnostics(SpelledNonescapable(n, endLoc), c, Escapable, moveOnlyClasses)
    ensures StripFixIts(ConformanceDiagnostics(n.(nonEscapableAttr := true), c, Copyable, moveOnlyClasses))
         == StripFixIts(ConformanceDiagnostics(SpelledNonescapable(n, endLoc), c, Copyable, moveOnlyClasses))
    ensures !CanAddInverse(n, c, Copyable) ==>
      ConformanceDiagnostics(n.(nonEscapableAttr := true), c, Copyable, moveOnlyClasses)
      == ConformanceDiagnostics(SpelledNonescapable(n, endLoc), c, Copyable, moveOnlyClasses)
  {
    var a := n.(nonEscapableAttr := true);
    var b := SpelledNonescapable(n, endLoc);
    assert Negations(a) == Negations(b);
    assert SameButForInverseSpelling(a, b);
    ClauseOnlyMovesFixIts(a, b, c, Escapable, moveOnlyClasses);
    ClauseOnlyMovesFixIts(a, b, c, Copyable, moveOnlyClasses);
  }

  /** Where the clause is empty, the two spellings do give different
      `~Escapable` fix-its: at the brace for the attribute, after the written
      `~Copyable` otherwise. */
  lemma SpellingMovesOtherFixIt(n: NominalDecl, endLoc: Loc)
    requires n.inherited == []
    ensures ConformanceFixIt(n.(moveOnlyAttr := true), Escapable, true) == Insert(n.bracesStart, ": ~Escapable")
    ensures ConformanceFixIt(SpelledNoncopyable(n, endLoc), Escapable, true) == InsertAfter(endLoc, ", ~Escapable")
  {
    assert SpelledNoncopyable(n, endLoc).inherited == [InheritedEntry("~Copyable", endLoc)];
  }

  // ---------------------------------------------------------------------
  // The ordered checks

  /**
   * `inverse_but_also_conforms` is emitted exactly once when the
   * declaration has the inverse, the conformance is unconditional, and the
   * declaration is not a class or `MoveOnlyClasses` is on; never otherwise.
   * It is then the first diagnostic, at the conformance.
   */
  lemma ContradictionDiagnosedExactlyWhen(n: NominalDecl, c: Conformance, ip: InvertibleProtocol, moveOnlyClasses: bool)
    ensures var d := ConformanceDiagnostics(n, c, ip, moveOnlyClasses);
      Count(d, InverseButAlsoConforms) ==
        if HasExplicitInverse(n, ip) && HasUnconditionalConformance(c) && (n.kind != Class || moveOnlyClasses) then 1 else 0
    ensures var d := ConformanceDiagnostics(n, c, ip, moveOnlyClasses);
      ContradictionApplies(n, c, ip, moveOnlyClasses) ==>
        d[0] == Diagnostic(c.kind.loc, InverseButAlsoConforms, [DeclArg(n.name), StringArg(ProtocolName(ip))], None)
  {
    DiagnosticCount(n, c, ip, moveOnlyClasses, InverseButAlsoConforms);
  }

  /** The contradiction decision does not look at storage. */
  lemma ContradictionIgnoresStorage(n: NominalDecl, c: Conformance, ip: InvertibleProtocol, moveOnlyClasses: bool,
                                   properties: seq<StoredProperty>, cases: seq<EnumCase>)
    ensures Count(ConformanceDiagnostics(n, c, ip, moveOnlyClasses), InverseButAlsoConforms)
         == Count(ConformanceDiagnostics(n.(storedProperties := properties, cases := cases), c, ip, moveOnlyClasses),
                  InverseButAlsoConforms)
  {
    var m := n.(storedProperties := properties, cases := cases);
    DiagnosticCount(n, c, ip, moveOnlyClasses, InverseButAlsoConforms);
    DiagnosticCount(m, c, ip, moveOnlyClasses, InverseButAlsoConforms);
    assert Negations(m) == Negations(n);
  }

  /** A conformance that is not normal, or has conditional requirements, never
      contradicts an inverse, and leaves the inverse free to be suggested. */
  lemma ConditionalConformanceNeverContradicts(n: NominalDecl, c: Conformance, ip: InvertibleProtocol, moveOnlyClasses: bool)
    requires !c.kind.Normal? || |c.kind.conditionalRequirements| > 0
    ensures Count(ConformanceDiagnostics(n, c, ip, moveOnlyClasses), InverseButAlsoConforms) == 0
    ensures CanAddInverse(n, c, ip) <==> ip !in Negations(n)
  {
    DiagnosticCount(n, c, ip, moveOnlyClasses, InverseButAlsoConforms);
  }

  /**
   * For a class nothing follows the contradiction check: no deinit
   * diagnostic, no advice, no storage walk. With `MoveOnlyClasses` off a
   * class yields no diagnostics at all.
   */
  lemma ClassEarlyExit(n: NominalDecl, c: Conformance, ip: InvertibleProtocol, moveOnlyClasses: bool)
    requires n.kind == Class
    ensures var d := ConformanceDiagnostics(n, c, ip, moveOnlyClasses);
      |d| <= 1 && forall k :: 0 <= k < |d| ==> d[k].id == InverseButAlsoConforms
    ensures !moveOnlyClasses ==> ConformanceDiagnostics(n, c, ip, moveOnlyClasses) == []
  {
    assert ContradictionDiagnostics(n, c, ip, moveOnlyClasses) + [] == ContradictionDiagnostics(n, c, ip, moveOnlyClasses);
  }

  /**
   * `copyable_illegal_deinit` is emitted once exactly when checking
   * `Copyable` on a struct or enum that declares a deinit, and never when
   * checking `Escapable`.
   */
  lemma DeinitRuleCopyableOnly(n: NominalDecl, c: Conformance, ip: InvertibleProtocol, moveOnlyClasses: bool)
    ensures Count(ConformanceDiagnostics(n, c, ip, moveOnlyClasses), CopyableIllegalDeinit) ==
      if ip == Copyable && n.kind != Class && n.deinit.Some? then 1 else 0
  {
    DiagnosticCount(n, c, ip, moveOnlyClasses, CopyableIllegalDeinit);
  }

  /**
   * `add_inverse` is emitted exactly when the inverse may be added and a
   * deinit or a storage violation is reported; where it stands is stated by
   * `AdviceFollowsDeinitDiagnostic` and `AdviceFollowsMemberDiagnostic`.
   */
  lemma AddInverseAdviceIffCanAddInverse(n: NominalDecl, c: Conformance, ip: InvertibleProtocol, moveOnlyClasses: bool)
    requires n.kind != Class
    ensures Count(ConformanceDiagnostics(n, c, ip, moveOnlyClasses), AddInverse) > 0 <==>
      !HasExplicitInverse(n, ip) && !HasUnconditionalConformance(c)
      && ((ip == Copyable && n.deinit.Some?) || HasViolatingStorage(n, ip))
  {
    DiagnosticCount(n, c, ip, moveOnlyClasses, AddInverse);
    FirstViolationIff(n, ip);
  }

  /**
   * A `Copyable` declaration's deinit is reported right after the
   * contradiction check, and when the inverse may be added the `add_inverse`
   * advice comes right after it.
   */
  lemma AdviceFollowsDeinitDiagnostic(n: NominalDecl, c: Conformance, ip: InvertibleProtocol, moveOnlyClasses: bool)
    requires n.kind != Class
    requires ip == Copyable && n.deinit.Some?
    ensures var d := ConformanceDiagnostics(n, c, ip, moveOnlyClasses);
      var at := |ContradictionDiagnostics(n, c, ip, moveOnlyClasses)|;
      at < |d| && d[at] == DeinitDiagnostic(n.deinit.value, n)
      && (CanAddInverse(n, c, ip) <==>
            at + 1 < |d| && d[at + 1] == AddInverseDiagnostic(n, ip, ConformanceFixIt(n, ip, true)))
  {
    var front := ContradictionDiagnostics(n, c, ip, moveOnlyClasses);
    var deinit := DeinitDiagnostics(n, ip, CanAddInverse(n, c, ip));
    var storage := StorageDiagnostics(n, ip, CanAddInverse(n, c, ip));
    var d := ConformanceDiagnostics(n, c, ip, moveOnlyClasses);
    assert d == front + (deinit + storage);
    assert d[|front|] == deinit[0];
    if CanAddInverse(n, c, ip) {
      assert d[|front| + 1] == deinit[1];
    } else {
      assert |deinit| == 1;
      if |front| + 1 < |d| {
        assert d[|front| + 1] == storage[0];
        if storage != [] {
          assert storage[0] == MemberDiagnostic(n, ip, FirstViolation(n, ip).value);
        }
      }
    }
  }

  /**
   * The first violating storage is reported after the contradiction and
   * deinit diagnostics, and when the inverse may be added the `add_inverse`
   * advice comes right after it.
   */
  lemma AdviceFollowsMemberDiagnostic(n: NominalDecl, c: Conformance, ip: InvertibleProtocol, moveOnlyClasses: bool)
    requires n.kind != Class
    requires FirstViolation(n, ip).Some?
    ensures var d := ConformanceDiagnostics(n, c, ip, moveOnlyClasses);
      var at := |ContradictionDiagnostics(n, c, ip, moveOnlyClasses)| + |DeinitDiagnostics(n, ip, CanAddInverse(n, c, ip))|;
      at < |d| && d[at] == MemberDiagnostic(n, ip, FirstViolation(n, ip).value)
      && (CanAddInverse(n, c, ip) <==>
            at + 1 < |d| && d[at + 1] == AddInverseDiagnostic(n, ip, ConformanceFixIt(n, ip, true)))
  {
    var canAdd := CanAddInverse(n, c, ip);
    var front := ContradictionDiagnostics(n, c, ip, moveOnlyClasses);
    var deinit := DeinitDiagnostics(n, ip, canAdd);
    var storage := StorageDiagnostics(n, ip, canAdd);
    StorageDiagnosticsHead(n, ip, canAdd);
    AppendAssoc(front, deinit, storage);
    IndexPastPrefix(front + deinit, storage);
  }

  /** Indexing past a prefix reaches the suffix. */
  lemma IndexPastPrefix(p: seq<Diagnostic>, s: seq<Diagnostic>)
    ensures |p + s| == |p| + |s|
    ensures forall k :: 0 <= k < |s| ==> (p + s)[|p| + k] == s[k]
  {
  }

  /** The storage stage opens with the member diagnostic, and the advice comes
      second exactly when the inverse may be added. */
  lemma StorageDiagnosticsHead(n: NominalDecl, ip: InvertibleProtocol, canAdd: bool)
    requires FirstViolation(n, ip).Some?
    ensures var storage := StorageDiagnostics(n, ip, canAdd);
      0 < |storage| && storage[0] == MemberDiagnostic(n, ip, FirstViolation(n, ip).value)
      && (canAdd <==> 1 < |storage| && storage[1] == AddInverseDiagnostic(n, ip, ConformanceFixIt(n, ip, true)))
  {
    var e := FirstViolation(n, ip).value;
    var advice := AdviceToApplyInverseAfter(ip, canAdd, n);
    var note := RootCauseNote(n, e.ty, ip);
    var storage := StorageDiagnostics(n, ip, canAdd);
    assert storage == [MemberDiagnostic(n, ip, e)] + (advice + note);
    if !canAdd {
      assert storage == [MemberDiagnostic(n, ip, e)] + note;
      if 1 < |storage| {
        assert storage[1] == note[0];
      }
    }
  }

  /** Every diagnostics list satisfying: only the `add_inverse` advice carries a
      fix-it, and it is the fix-it adding `~KP` to `n`, at `n`. */
  ghost predicate FixItsOnlyOnAdvice(ds: seq<Diagnostic>, n: NominalDecl, ip: InvertibleProtocol)
  {
    forall k :: 0 <= k < |ds| ==>
      (ds[k].fixIt.Some? <==> ds[k].id == AddInverse)
      && (ds[k].id == AddInverse ==> ds[k].loc == n.loc && ds[k].fixIt == Some(ConformanceFixIt(n, ip, true)))
  }

  lemma FixItsOnlyOnAdviceAppend(a: seq<Diagnostic>, b: seq<Diagnostic>, n: NominalDecl, ip: InvertibleProtocol)
    requires FixItsOnlyOnAdvice(a, n, ip) && FixItsOnlyOnAdvice(b, n, ip)
    ensures FixItsOnlyOnAdvice(a + b, n, ip)
  {
    forall k | 0 <= k < |a + b|
      ensures ((a + b)[k].fixIt.Some? <==> (a + b)[k].id == AddInverse)
      ensures (a + b)[k].id == AddInverse ==> (a + b)[k].loc == n.loc && (a + b)[k].fixIt == Some(ConformanceFixIt(n, ip, true))
    {
      if k >= |a| {
        assert (a + b)[k] == b[k - |a|];
      }
    }
  }

  lemma DeinitFixIts(n: NominalDecl, ip: InvertibleProtocol, canAdd: bool)
    ensures FixItsOnlyOnAdvice(DeinitDiagnostics(n, ip, canAdd), n, ip)
  {
    if ip == Copyable && n.deinit.Some? {
      var d := DeinitDiagnostic(n.deinit.value, n);
      FixItsOnlyOnAdviceAppend([d], AdviceToApplyInverseAfter(ip, canAdd, n), n, ip);
    }
  }

  lemma StorageFixIts(n: NominalDecl, ip: InvertibleProtocol, canAdd: bool)
    ensures FixItsOnlyOnAdvice(StorageDiagnostics(n, ip, canAdd), n, ip)
  {
    match FirstViolation(n, ip)
    case None =>
    case Some(e) =>
      var advice := AdviceToApplyInverseAfter(ip, canAdd, n);
      var note := RootCauseNote(n, e.ty, ip);
      assert FixItsOnlyOnAdvice(note, n, ip);
      FixItsOnlyOnAdviceAppend(advice, note, n, ip);
      FixItsOnlyOnAdviceAppend([MemberDiagnostic(n, ip, e)], advice + note, n, ip);
  }

  /** Only the `add_inverse` advice carries a fix-it; it is always the one that
      adds `~KP` to the declaration being checked, and it sits at that declaration. */
  lemma FixItsOnlyOnAddInverse(n: NominalDecl, c: Conformance, ip: InvertibleProtocol, moveOnlyClasses: bool)
    ensures FixItsOnlyOnAdvice(ConformanceDiagnostics(n, c, ip, moveOnlyClasses), n, ip)
  {
    var canAdd := CanAddInverse(n, c, ip);
    var contradiction := ContradictionDiagnostics(n, c, ip, moveOnlyClasses);
    assert FixItsOnlyOnAdvice(contradiction, n, ip);
    if n.kind == Class {
      FixItsOnlyOnAdviceAppend(contradiction, [], n, ip);
    } else {
      var deinit := DeinitDiagnostics(n, ip, canAdd);
      var storage := StorageDiagnostics(n, ip, canAdd);
      DeinitFixIts(n, ip, canAdd);
      StorageFixIts(n, ip, canAdd);
      FixItsOnlyOnAdviceAppend(deinit, storage, n, ip);
      FixItsOnlyOnAdviceAppend(contradiction, deinit + storage, n, ip);
    }
  }

  // ---------------------------------------------------------------------
  // The storage walk

  /** Only enum elements are reported with `isEnum` set. */
  lemma {:induction false} CaseElementsAreEnum(cs: seq<EnumCase>)
    ensures forall e :: e in CaseElements(cs) ==> e.isEnum
  {
    if cs != [] {
      PayloadElementsAreEnum(cs[0].elements);
      CaseElementsAreEnum(cs[1..]);
    }
  }

  lemma {:induction false} PayloadElementsAreEnum(es: seq<EnumElement>)
    ensures forall e :: e in PayloadElements(es) ==> e.isEnum
  {
    if es != [] {
      PayloadElementsAreEnum(es[1..]);
    }
  }

  /** Storage elements carry `isEnum` exactly when the declaration is an enum. */
  lemma StorageIsEnumExactlyForEnums(n: NominalDecl)
    ensures forall k :: 0 <= k < |Storage(n)| ==> (Storage(n)[k].isEnum <==> n.kind == Enum)
  {
    if n.kind == Enum {
      CaseElementsAreEnum(n.cases);
    }
  }

  /** Every enum element with associated values is walked, and nothing else is. */
  lemma {:induction false} PayloadElementsExactly(es: seq<EnumElement>)
    ensures forall j :: 0 <= j < |es| && es[j].payload.Some? ==>
      StorageElement(es[j].name, es[j].loc, es[j].payload.value, true) in PayloadElements(es)
    ensures forall e :: e in PayloadElements(es) ==>
      exists j :: 0 <= j < |es| && es[j] == EnumElement(e.name, e.loc, Some(e.ty))
  {
    if es != [] {
      PayloadElementsExactly(es[1..]);
      var head := ElementStorage(es[0]);
      var tail := PayloadElements(es[1..]);
      assert PayloadElements(es) == head + tail;
      forall j | 0 <= j < |es| && es[j].payload.Some?
        ensures StorageElement(es[j].name, es[j].loc, es[j].payload.value, true) in head + tail
      {
        if j == 0 {
          assert head == [StorageElement(es[0].name, es[0].loc, es[0].payload.value, true)];
        } else {
          assert es[j] == es[1..][j - 1];
        }
      }
      forall e: StorageElement | e in head + tail
        ensures exists j :: 0 <= j < |es| && es[j] == EnumElement(e.name, e.loc, Some(e.ty))
      {
        if e in head {
          assert es[0] == EnumElement(e.name, e.loc, Some(e.ty));
        } else {
          assert e in tail;
          var j :| 0 <= j < |es[1..]| && es[1..][j] == EnumElement(e.name, e.loc, Some(e.ty));
          assert es[j + 1] == es[1..][j];
        }
      }
    }
  }

  lemma {:induction false} CaseElementsExactly(cs: seq<EnumCase>)
    ensures forall i, j :: 0 <= i < |cs| && 0 <= j < |cs[i].elements| && cs[i].elements[j].payload.Some? ==>
      StorageElement(cs[i].elements[j].name, cs[i].elements[j].loc, cs[i].elements[j].payload.value, true)
        in CaseElements(cs)
    ensures forall e :: e in CaseElements(cs) ==>
      exists i, j :: 0 <= i < |cs| && 0 <= j < |cs[i].elements|
        && cs[i].elements[j] == EnumElement(e.name, e.loc, Some(e.ty))
  {
    if cs != [] {
      PayloadElementsExactly(cs[0].elements);
      CaseElementsExactly(cs[1..]);
      forall i | 1 <= i < |cs| ensures cs[i] == cs[1..][i - 1] { }
      forall e | e in CaseElements(cs)
        ensures exists i, j ::
          0 <= i < |cs| && 0 <= j < |cs[i].elements| && cs[i].elements[j] == EnumElement(e.name, e.loc, Some(e.ty))
      {
        if e in PayloadElements(cs[0].elements) {
          var j :| 0 <= j < |cs[0].elements| && cs[0].elements[j] == EnumElement(e.name, e.loc, Some(e.ty));
        } else {
          var i, j :| 0 <= i < |cs[1..]| && 0 <= j < |cs[1..][i].elements|
            && cs[1..][i].elements[j] == EnumElement(e.name, e.loc, Some(e.ty));
          assert cs[i + 1] == cs[1..][i];
        }
      }
    }
  }

  /**
   * The walk stops on the earliest violating element: it is a violation
   * (not error-typed; noncopyable for `Copyable`, not escapable for
   * `Escapable`) and no element before it is one.
   */
  lemma FirstViolationIsEarliest(n: NominalDecl, ip: InvertibleProtocol)
    ensures FirstViolation(n, ip).None? <==> forall k :: 0 <= k < |Storage(n)| ==> !StorageViolates(ip, Storage(n)[k].ty)
    ensures FirstViolation(n, ip).Some? ==>
      var e := FirstViolation(n, ip).value;
      && !e.ty.hasError
      && (ip == Copyable ==> e.ty.isNoncopyable)
      && (ip == Escapable ==> !e.ty.isEscapable)
      && exists i :: 0 <= i < |Storage(n)| && Storage(n)[i] == e
           && forall j :: 0 <= j < i ==> !StorageViolates(ip, Storage(n)[j].ty)
  {
    var s := Storage(n);
    FirstMatchCharacterization(s, ViolationFor(ip));
    if FirstViolation(n, ip).Some? {
      var i :| 0 <= i < |s| && s[i] == FirstViolation(n, ip).value && ViolationFor(ip)(s[i])
        && NoMatch(s[..i], ViolationFor(ip));
      assert forall j :: 0 <= j < i ==> s[j] == s[..i][j];
    }
  }

  /** Error-typed storage is never reported. */
  lemma ErrorTypedStorageIsSkipped(n: NominalDecl, c: Conformance, ip: InvertibleProtocol, moveOnlyClasses: bool)
    requires forall k :: 0 <= k < |Storage(n)| ==> Storage(n)[k].ty.hasError
    ensures FirstViolation(n, ip).None?
    ensures Count(ConformanceDiagnostics(n, c, ip, moveOnlyClasses), InverseTypeMemberInConformingType) == 0
  {
    FirstViolationIsEarliest(n, ip);
    FirstViolationIff(n, ip);
    DiagnosticCount(n, c, ip, moveOnlyClasses, InverseTypeMemberInConformingType);
  }

  /**
   * A struct or enum gets at most one `inverse_type_member_in_conforming_type`,
   * exactly when some element violates, and it names the earliest one.
   */
  lemma MemberDiagnosticNamesFirstViolation(n: NominalDecl, c: Conformance, ip: InvertibleProtocol, moveOnlyClasses: bool)
    requires n.kind != Class
    ensures var d := ConformanceDiagnostics(n, c, ip, moveOnlyClasses);
      Count(d, InverseTypeMemberInConformingType) == (if HasViolatingStorage(n, ip) then 1 else 0)
    ensures var d := ConformanceDiagnostics(n, c, ip, moveOnlyClasses);
      HasViolatingStorage(n, ip) ==>
        FirstViolation(n, ip).Some? && MemberDiagnostic(n, ip, FirstViolation(n, ip).value) in d
  {
    DiagnosticCount(n, c, ip, moveOnlyClasses, InverseTypeMemberInConformingType);
    FirstViolationIff(n, ip);
  }

  // ---------------------------------------------------------------------
  // Root-cause advice

  /**
   * When the offending type is an archetype, the nominal note is never
   * emitted; the parameter note is emitted, at the parameter, exactly when
   * the parameter is declared in the enclosing module.
   */
  lemma RootCauseTieBreak(n: NominalDecl, c: Conformance, ip: InvertibleProtocol, moveOnlyClasses: bool)
    requires n.kind != Class
    requires FirstViolation(n, ip).Some? && FirstViolation(n, ip).value.ty.shape.Archetype?
    ensures var d := ConformanceDiagnostics(n, c, ip, moveOnlyClasses);
      Count(d, NoteInversePreventingConformanceExplicit) == 0
    ensures var d := ConformanceDiagnostics(n, c, ip, moveOnlyClasses);
      var ty := FirstViolation(n, ip).value.ty;
      Count(d, NoteInversePreventingConformance) == (if IsLocalGenericParam(ty, n.parentModule) then 1 else 0)
      && (IsLocalGenericParam(ty, n.parentModule) ==>
            Diagnostic(ty.shape.interfaceType.decl.value.loc, NoteInversePreventingConformance,
                       [TypeArg(ty), StringArg(ProtocolName(ip))], None) in d)
  {
    DiagnosticCount(n, c, ip, moveOnlyClasses, NoteInversePreventingConformanceExplicit);
    DiagnosticCount(n, c, ip, moveOnlyClasses, NoteInversePreventingConformance);
  }

  /** A nominal offending type gets its note exactly when it has a location. */
  lemma RootCauseNominalNote(n: NominalDecl, c: Conformance, ip: InvertibleProtocol, moveOnlyClasses: bool)
    requires n.kind != Class
    requires FirstViolation(n, ip).Some? && FirstViolation(n, ip).value.ty.shape.NominalType?
    ensures var d := ConformanceDiagnostics(n, c, ip, moveOnlyClasses);
      var nominal := FirstViolation(n, ip).value.ty.shape.nominal;
      Count(d, NoteInversePreventingConformance) == 0
      && Count(d, NoteInversePreventingConformanceExplicit) == (if nominal.loc.Some? then 1 else 0)
      && (nominal.loc.Some? ==>
            Diagnostic(nominal.loc.value, NoteInversePreventingConformanceExplicit,
                       [DeclArg(nominal.name), StringArg(ProtocolName(ip))], None) in d)
  {
    DiagnosticCount(n, c, ip, moveOnlyClasses, NoteInversePreventingConformanceExplicit);
    DiagnosticCount(n, c, ip, moveOnlyClasses, NoteInversePreventingConformance);
  }

  /** Applying the suggested fix-it to the inheritance clause's text appends
      `KP` (or `~KP`) as its last entry. */
  lemma FixItCompletesInheritanceClause(n: NominalDecl, proto: InvertibleProtocol, inverse: bool)
    ensures ClauseText(Spellings(n.inherited)) + ConformanceFixIt(n, proto, inverse).text
         == ClauseText(Spellings(n.inherited) + [ConformanceEntry(proto, inverse)])
  {
    var s := Spellings(n.inherited);
    var x := ConformanceEntry(proto, inverse);
    if s == [] {
      assert s + [x] == [x];
    } else {
      JoinSnoc(s, x);
      assert n.inherited != [];
      var text := ConformanceFixIt(n, proto, inverse).text;
      assert text == ", " + x;
      calc {
        ClauseText(s) + text;
        (": " + Join(s)) + (", " + x);
        ": " + (Join(s) + ", " + x);
        ClauseText(s + [x]);
      }
    }
  }

  /** Joining one more entry appends it after a comma. */
  lemma JoinSnoc(s: seq<string>, x: string)
    requires s != []
    ensures Join(s + [x]) == Join(s) + ", " + x
  {
    assert (s + [x])[..|s|] == s;
  }

  /**
   * A declaration that spells no inverse of `ip`, has no violating storage and,
   * when `Copyable` is checked, no deinit is accepted without any diagnostic.
   */
  lemma CleanDeclarationIsAccepted(n: NominalDecl, c: Conformance, ip: InvertibleProtocol, moveOnlyClasses: bool)
    requires ip !in Negations(n)
    requires forall k :: 0 <= k < |Storage(n)| ==> !StorageViolates(ip, Storage(n)[k].ty)
    requires ip == Escapable || n.deinit.None?
    ensures ConformanceDiagnostics(n, c, ip, moveOnlyClasses) == []
  {
    FirstViolationIsEarliest(n, ip);
  }

  // ---------------------------------------------------------------------
  // Two end-to-end scenarios

  const NonCopyableThing := Ty("NonCopyableThing", false, true, true, NominalType(NominalRef("NonCopyableThing", Some(7))))
  const Inner := StoredProperty("inner", 3, NonCopyableThing)
  const Box := NominalDecl("Box", Struct, 1, 0, [], 2, {}, false, false, None, [Inner], [])
  const Handle := Box.(name := "Handle", kind := Class)

  /** A conformance coming from a builtin conformance record: it is not a
      normal conformance, so it does not count as written unconditionally. */
  const BuiltinCopyable := Conformance(Copyable, Builtin)
  /** A normal conformance, written at location 9, with no conditional requirements. */
  const WrittenCopyable := Conformance(Copyable, Normal(9, []))

  /** `struct Box { var inner: NonCopyableThing }` checked against a builtin
      `Copyable` conformance: the member diagnostic on `inner`, the advice to
      add `~Copyable` to `Box` with its fix-it, and a note at `NonCopyableThing`. */
  lemma BoxScenario(moveOnlyClasses: bool)
    ensures ConformanceDiagnostics(Box, BuiltinCopyable, Copyable, moveOnlyClasses) ==
      [ Diagnostic(3, InverseTypeMemberInConformingType,
                   [TypeArg(NonCopyableThing), BoolArg(false), NameArg("inner"), DeclArg("Box"), StringArg("Copyable")], None),
        Diagnostic(1, AddInverse, [DeclArg("Box"), StringArg("Copyable")], Some(Insert(2, ": ~Copyable"))),
        Diagnostic(7, NoteInversePreventingConformanceExplicit, [DeclArg("NonCopyableThing"), StringArg("Copyable")], None) ]
  {
    var e := PropertyElement(Inner);
    assert Storage(Box) == [e];
    assert FirstViolation(Box, Copyable) == Some(e);
    assert CanAddInverse(Box, BuiltinCopyable, Copyable);
    assert ContradictionDiagnostics(Box, BuiltinCopyable, Copyable, moveOnlyClasses) == [];
    assert DeinitDiagnostics(Box, Copyable, true) == [];
    assert ConformanceFixIt(Box, Copyable, true) == Insert(2, ": ~Copyable");
    assert RootCauseNote(Box, NonCopyableThing, Copyable) ==
      [Diagnostic(7, NoteInversePreventingConformanceExplicit, [DeclArg("NonCopyableThing"), StringArg("Copyable")], None)];
  }

  /** The same field in `class Handle`: no diagnostics at all. */
  lemma HandleScenario(moveOnlyClasses: bool)
    ensures ConformanceDiagnostics(Handle, BuiltinCopyable, Copyable, moveOnlyClasses) == []
  {
  }

  /** The same `Box` checked against an unconditional normal conformance: the
      inverse may not be added, so the member diagnostic on `inner` is followed
      by the note at `NonCopyableThing` alone, without the advice. */
  lemma BoxUnconditionalScenario(moveOnlyClasses: bool)
    ensures ConformanceDiagnostics(Box, WrittenCopyable, Copyable, moveOnlyClasses) ==
      [ Diagnostic(3, InverseTypeMemberInConformingType,
                   [TypeArg(NonCopyableThing), BoolArg(false), NameArg("inner"), DeclArg("Box"), StringArg("Copyable")], None),
        Diagnostic(7, NoteInversePreventingConformanceExplicit, [DeclArg("NonCopyableThing"), StringArg("Copyable")], None) ]
  {
    var e := PropertyElement(Inner);
    assert Storage(Box) == [e];
    assert FirstViolation(Box, Copyable) == Some(e);
    assert !CanAddInverse(Box, WrittenCopyable, Copyable);
    assert ContradictionDiagnostics(Box, WrittenCopyable, Copyable, moveOnlyClasses) == [];
    assert DeinitDiagnostics(Box, Copyable, false) == [];
    assert RootCauseNote(Box, NonCopyableThing, Copyable) ==
      [Diagnostic(7, NoteInversePreventingConformanceExplicit, [DeclArg("NonCopyableThing"), StringArg("Copyable")], None)];
  }
}
