# Invertible-protocol conformance checking (Swift type checker), modelled in Dafny

This project models the part of the Swift type checker that decides whether
a struct, enum or class may conform to one of the two *invertible* protocols,
`Copyable` and `Escapable`. A protocol is invertible when the inverse `~KP`
exists. The model covers `lib/Sema/TypeCheckInvertible.cpp`:

- building the inverse set from the explicit `~KP` entries and the deprecated
  `@_moveOnly` / `@_nonEscapable` attributes;
- classifying the conformance as unconditional (a normal conformance with no
  conditional requirements);
- the ordered checks:
  1. the inverse-but-also-conforms contradiction;
  2. the class early exit;
  3. the `canAddInverse` flag;
  4. the `Copyable`-only deinit rule;
  5. the first-match storage walk, which skips error-typed storage;
- the root-cause advice: the generic `add_inverse` advice with its
  `": ~KP"` / `", ~KP"` fix-it, then a note at a generic parameter of the same
  module, or else a note at a nominal type that has a location.

Files (one module each):

- `wrappers.dfy`: `Option`.
- `ast.dfy`: the declaration and type model. `Storage(n)` is the sequence of
  storage elements the walk visits, in walk order.
- `diagnostics.dfy`: diagnostic records (location tag, message id, arguments,
  optional fix-it). It also holds a per-message `Count` and the append-only
  `DiagnosticEngine` class.
- `storage_visitor.dfy`: the walk. It is a set of methods with loops, proved
  to return `FirstMatch` of the storage.
- `type_check_invertible.dfy`: the checker. Each emitting method (`Emit…`,
  `TryEmit…`, `Check…`) appends to the engine exactly what a specification
  function returns (`AdviceToApplyInverseAfter`, `ContainmentFixits`,
  `ConformanceDiagnostics`, …).
- `invertible_properties.dfy`: lemmas about those functions.

The output of one check is a pure function of its inputs
(`ConformanceDiagnostics`). Running the same check twice therefore appends
the same diagnostics.

Two consequences of the source worth stating outright:

- With `canAddInverse` false the source emits no `add_inverse` diagnostic at
  all, not one without a fix-it (`TypeCheckInvertible.cpp:57-62`).
- A `Copyable` declaration with no inverse and no violating storage is
  accepted silently only if it also has no deinit
  (`CleanDeclarationIsAccepted`).

## Model

| member | source | states |
|---|---|---|
| `StorageVisitor.Visit` | lib/Sema/TypeCheckInvertible.cpp:240-273 | the walk returns the first storage element its callback stops on, and nothing when it stops on none; a declaration other than a struct, class or enum is never walked |
| `StorageVisitor.VisitStoredProperties` | lib/Sema/TypeCheckInvertible.cpp:241-251 | stored properties are visited in declaration order and the walk stops at the first one the callback accepts |
| `StorageVisitor.VisitEnumElements` | lib/Sema/TypeCheckInvertible.cpp:253-269 | cases and then their elements are visited in order, elements without associated values are skipped, and the walk stops at the first payload the callback accepts |
| `StorageVisitor.FirstMatchCharacterization` | lib/Sema/TypeCheckInvertible.cpp:240-273 | the walk finds nothing exactly when no element is accepted; otherwise what it finds is accepted and nothing before it is |
| `TypeCheckInvertible.ConformanceFixIt` | lib/Sema/TypeCheckInvertible.cpp:29-47 | the fix-it inserts `": "` + optional `"~"` + the protocol name at the opening brace when the inheritance clause is empty, otherwise it inserts `", "` + … after the clause's last entry |
| `TypeCheckInvertible.AddConformanceFixIt` | lib/Sema/TypeCheckInvertible.cpp:33-45 | building the text piece by piece gives exactly that fix-it |
| `TypeCheckInvertible.AdviceToApplyInverseAfter` | lib/Sema/TypeCheckInvertible.cpp:52-63 | one `add_inverse` diagnostic, at the declaration and carrying the `~KP` fix-it, when the inverse may be added; none otherwise |
| `TypeCheckInvertible.EmitAdviceToApplyInverseAfter` | lib/Sema/TypeCheckInvertible.cpp:52-63 | appends exactly that advice to the engine |
| `TypeCheckInvertible.RootCauseNote` | lib/Sema/TypeCheckInvertible.cpp:81-106 | at most one note; a note at the generic parameter when the type is an archetype of a parameter declared in the enclosing module; a note at the nominal when the type is a nominal with a location; none otherwise |
| `TypeCheckInvertible.ContainmentFixits` | lib/Sema/TypeCheckInvertible.cpp:70-107 | the generic advice always comes first, and the root-cause note is exactly what follows it |
| `TypeCheckInvertible.TryEmitContainmentFixits` | lib/Sema/TypeCheckInvertible.cpp:70-107 | appends exactly the containment advice, including the early return for archetypes |
| `TypeCheckInvertible.Negations` | lib/Sema/TypeCheckInvertible.cpp:124-132 | the inverse set contains every explicit inverse, contains `Copyable` under `@_moveOnly` and `Escapable` under `@_nonEscapable`, and contains nothing else |
| `TypeCheckInvertible.HasUnconditionalConformance` | lib/Sema/TypeCheckInvertible.cpp:136-139 | a conformance is unconditional only when it is a normal conformance, and then exactly when it has no conditional requirements |
| `TypeCheckInvertible.StorageViolates` | lib/Sema/TypeCheckInvertible.cpp:183-198 | error-typed storage never violates; otherwise storage violates `Copyable` exactly when its type is noncopyable, and `Escapable` exactly when its type is not escapable |
| `TypeCheckInvertible.ConformanceDiagnostics` | lib/Sema/TypeCheckInvertible.cpp:110-224 | everything one check emits: a class gets at most the contradiction diagnostic, and no check emits more than six diagnostics |
| `TypeCheckInvertible.EmitStorageViolation` | lib/Sema/TypeCheckInvertible.cpp:200-205 | appends the member diagnostic for the offending element, then its containment advice |
| `TypeCheckInvertible.LacksMatchingStorageVisit` | lib/Sema/TypeCheckInvertible.cpp:166-223 | the storage visit appends exactly the storage stage's diagnostics, and reports a stop exactly when some element violates |
| `TypeCheckInvertible.CheckInvertibleConformanceCommon` | lib/Sema/TypeCheckInvertible.cpp:110-224 | the check appends exactly `ConformanceDiagnostics`: the contradiction, then (not for classes) deinit diagnostics, then the storage violation |
| `TypeCheckInvertible.CheckEscapableConformance` | lib/Sema/TypeCheckInvertible.cpp:226-230 | the common check for `Escapable` |
| `TypeCheckInvertible.CheckCopyableConformance` | lib/Sema/TypeCheckInvertible.cpp:232-236 | the common check for `Copyable` |
| `InvertibleProperties.DiagnosticCount` | lib/Sema/TypeCheckInvertible.cpp:110-224 | for every message id, how many such diagnostics one check emits, as a direct function of the declaration and the conformance |
| `InvertibleProperties.DependsOnlyOnNegations` | lib/Sema/TypeCheckInvertible.cpp:124-134 | two declarations with the same inverse set and otherwise equal get identical diagnostics |
| `InvertibleProperties.ClauseOnlyMovesFixIts` | lib/Sema/TypeCheckInvertible.cpp:34-46 | the inheritance clause is read only for the `add_inverse` fix-it: with the same inverse set, declarations get the same diagnostics up to fix-its, and exactly the same ones when the inverse may not be added |
| `InvertibleProperties.MoveOnlyAttrIsExplicitNoncopyable` | lib/Sema/TypeCheckInvertible.cpp:129-130 | `@_moveOnly` gives exactly the `Copyable` diagnostics of a `~Copyable` written in the clause; for `Escapable` the same up to fix-its, and exactly the same when no advice is given |
| `InvertibleProperties.NonEscapableAttrIsExplicitNonescapable` | lib/Sema/TypeCheckInvertible.cpp:131-132 | `@_nonEscapable` gives exactly the `Escapable` diagnostics of a `~Escapable` written in the clause; for `Copyable` the same up to fix-its, and exactly the same when no advice is given |
| `InvertibleProperties.SpellingMovesOtherFixIt` | lib/Sema/TypeCheckInvertible.cpp:34-46 | with an otherwise empty clause, the `~Escapable` fix-it goes at the brace under `@_moveOnly` but after the written `~Copyable` entry otherwise |
| `InvertibleProperties.ContradictionDiagnosedExactlyWhen` | lib/Sema/TypeCheckInvertible.cpp:141-150 | `inverse_but_also_conforms` is emitted once exactly when there is an explicit inverse, the conformance is unconditional, and the declaration is not a class or `MoveOnlyClasses` is on; it is then the first diagnostic, at the conformance |
| `InvertibleProperties.ContradictionIgnoresStorage` | lib/Sema/TypeCheckInvertible.cpp:141-150 | replacing the stored properties and cases does not change whether the contradiction is emitted |
| `InvertibleProperties.ConditionalConformanceNeverContradicts` | lib/Sema/TypeCheckInvertible.cpp:136-139 | a non-normal conformance, or one with conditional requirements, is not unconditional: it never triggers the contradiction, and the inverse may be added iff it is not already present |
| `InvertibleProperties.ClassEarlyExit` | lib/Sema/TypeCheckInvertible.cpp:141-154 | a class gets at most the contradiction diagnostic, and nothing at all when `MoveOnlyClasses` is off |
| `InvertibleProperties.DeinitRuleCopyableOnly` | lib/Sema/TypeCheckInvertible.cpp:158-164 | `copyable_illegal_deinit` is emitted once exactly for `Copyable` on a struct or enum with a deinit, and never for `Escapable` |
| `InvertibleProperties.AddInverseAdviceIffCanAddInverse` | lib/Sema/TypeCheckInvertible.cpp:156-164 | on a struct or enum, `add_inverse` is emitted iff `!hasExplicitInverse && !hasUnconditionalConformance` and a deinit or a storage violation is reported |
| `InvertibleProperties.AdviceFollowsDeinitDiagnostic` | lib/Sema/TypeCheckInvertible.cpp:158-164 | on a `Copyable` struct or enum with a deinit, the deinit diagnostic comes right after the contradiction check, and the `add_inverse` advice with its fix-it comes right after it exactly when the inverse may be added |
| `InvertibleProperties.AdviceFollowsMemberDiagnostic` | lib/Sema/TypeCheckInvertible.cpp:198-205 | the member diagnostic for the first violating storage comes after the contradiction and deinit diagnostics, and the `add_inverse` advice with its fix-it comes right after it exactly when the inverse may be added |
| `InvertibleProperties.StorageDiagnosticsHead` | lib/Sema/TypeCheckInvertible.cpp:200-204 | the storage stage opens with the member diagnostic for the first violation, and the `add_inverse` advice comes second exactly when the inverse may be added |
| `InvertibleProperties.FixItsOnlyOnAddInverse` | lib/Sema/TypeCheckInvertible.cpp:52-63 | only `add_inverse` diagnostics carry a fix-it; each one sits at the checked declaration and adds `~KP` to it |
| `InvertibleProperties.StorageIsEnumExactlyForEnums` | lib/Sema/TypeCheckInvertible.cpp:208-218 | walked elements are marked `isEnum` exactly when the declaration is an enum |
| `InvertibleProperties.PayloadElementsExactly` | lib/Sema/TypeCheckInvertible.cpp:256-265 | within a case, every element with associated values is walked with its payload type, and nothing else is |
| `InvertibleProperties.CaseElementsExactly` | lib/Sema/TypeCheckInvertible.cpp:253-269 | across all cases, every element with associated values is walked, and every walked element is one of them |
| `InvertibleProperties.FirstViolationIff` | lib/Sema/TypeCheckInvertible.cpp:221-223 | the walk stops iff some stored element violates, and what it stops on violates |
| `InvertibleProperties.FirstViolationIsEarliest` | lib/Sema/TypeCheckInvertible.cpp:183-198 | the element the walk stops on is not error-typed, is noncopyable when checking `Copyable`, is not escapable when checking `Escapable`, and no earlier element violates |
| `InvertibleProperties.ErrorTypedStorageIsSkipped` | lib/Sema/TypeCheckInvertible.cpp:184-186 | storage whose types are all error types yields no member diagnostic |
| `InvertibleProperties.MemberDiagnosticNamesFirstViolation` | lib/Sema/TypeCheckInvertible.cpp:200-223 | a struct or enum gets one `inverse_type_member_in_conforming_type` iff some element violates, and it names the earliest such element |
| `InvertibleProperties.RootCauseTieBreak` | lib/Sema/TypeCheckInvertible.cpp:83-96 | for an archetype, the nominal note is never emitted; the parameter note is emitted once, at the parameter, exactly when the parameter belongs to the enclosing module |
| `InvertibleProperties.RootCauseNominalNote` | lib/Sema/TypeCheckInvertible.cpp:98-106 | for a nominal, the parameter note is never emitted; the nominal note is emitted once, at the nominal's location, exactly when it has one |
| `InvertibleProperties.FixItCompletesInheritanceClause` | lib/Sema/TypeCheckInvertible.cpp:33-45 | appending the fix-it text to the written inheritance clause yields the clause with `~KP` as its last entry, for both the empty and the non-empty clause |
| `InvertibleProperties.CleanDeclarationIsAccepted` | lib/Sema/TypeCheckInvertible.cpp:110-224 | no inverse, no violating storage and (for `Copyable`) no deinit give no diagnostics |
| `InvertibleProperties.BoxScenario` | lib/Sema/TypeCheckInvertible.cpp:200-205 | `struct Box { var inner: NonCopyableThing }` checked against a builtin `Copyable` conformance (not a normal one, so the inverse may be added) gives the member diagnostic on `inner`, the `~Copyable` advice with fix-it `": ~Copyable"`, and a note at `NonCopyableThing` |
| `InvertibleProperties.BoxUnconditionalScenario` | lib/Sema/TypeCheckInvertible.cpp:136-139 | the same `Box` checked against an unconditional normal `Copyable` conformance gives only the member diagnostic on `inner` and the note at `NonCopyableThing`: no advice, since the inverse may not be added |
| `InvertibleProperties.HandleScenario` | lib/Sema/TypeCheckInvertible.cpp:152-154 | the same field in a class gives no diagnostics |

## Left out

- Semantic type queries: `hasError`, `isNoncopyable` and `isEscapable` need the whole type system. They are flags on the abstract type `Ty`.
- Type substitution: every stored property and payload carries its type as already mapped into the declaration's context (`mapTypeIntoContext`). The declaration context is the nominal itself; extension contexts are not modelled.
- Inheritance-clause lookup: `getDirectlyInheritedNominalTypeDecls` is an input inverse set on the declaration. Its `anyObject` result is unused by the source.
- Inverses and the written clause: the inverse set and the clause entries (`inherited`) are independent fields. Nothing requires every `~KP` inverse to have its entry in the clause, so a declaration the compiler cannot build (an inverse with no clause entry) is still a value of the model. The attribute lemmas therefore compare the attribute with a declaration whose clause does contain the `~KP` entry (`SpelledNoncopyable`, `SpelledNonescapable`).
- `getValueTypeDestructor` is an input: the optional location of the deinit.
- Diagnostic rendering: there is no message text, no severity and no `InFlightDiagnostic` lifetime. A diagnostic is an abstract record, and source locations are opaque numbers.
- Language options: only the `MoveOnlyClasses` feature is modelled, as a boolean parameter.
- Assertions: the assertions on the protocol and on the declaration kind (lines 115-120) become preconditions of `CheckInvertibleConformanceCommon`. The assertion at line 271 holds for every declaration kind as written, so it constrains nothing and is not modelled.
- Visitor callback: the callback of `StorageVisitor` is split in two. Its decision (`StorageViolates`) is passed to the walk. Its emission (`EmitStorageViolation`) runs on the element where the walk stops. The source's callback emits only on that element, so the diagnostics are the same.
