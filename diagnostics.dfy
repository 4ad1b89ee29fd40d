/**
 * Diagnostics as abstract records: a location tag, a message id, the
 * substitution arguments and at most one fix-it. The diagnostic engine is an
 * append-only sink.
 */
module Diagnostics {
  import opened Wrappers
  import opened Ast

  /** The messages the invertible conformance checker can emit. */
  datatype DiagId =
    | InverseButAlsoConforms
    | CopyableIllegalDeinit
    | AddInverse
    | InverseTypeMemberInConformingType
    | NoteInversePreventingConformance
    | NoteInversePreventingConformanceExplicit

  datatype DiagArg =
    | DeclArg(decl: string)
    | TypeArg(ty: Ty)
    | BoolArg(b: bool)
    | NameArg(ident: string)
    | StringArg(s: string)

  /** `Insert` puts the text at a location, `InsertAfter` right after the token there. */
  datatype FixIt =
    | Insert(at: Loc, text: string)
    | InsertAfter(after: Loc, text: string)

  datatype Diagnostic = Diagnostic(loc: Loc, id: DiagId, args: seq<DiagArg>, fixIt: Option<FixIt>)

  /** How many diagnostics in `ds` carry the message `id`. */
  function Count(ds: seq<Diagnostic>, id: DiagId): nat
  {
    if ds == [] then 0 else (if ds[0].id == id then 1 else 0) + Count(ds[1..], id)
  }

  lemma {:induction false} CountAppend(a: seq<Diagnostic>, b: seq<Diagnostic>, id: DiagId)
    ensures Count(a + b, id) == Count(a, id) + Count(b, id)
  {
    if a == [] {
      assert a + b == b;
    } else {
      assert (a + b)[0] == a[0];
      assert (a + b)[1..] == a[1..] + b;
      CountAppend(a[1..], b, id);
    }
  }

  /** The compiler's diagnostic engine: everything emitted so far, in order. */
  class DiagnosticEngine {
    var emitted: seq<Diagnostic>

    constructor ()
      ensures emitted == []
    {
      emitted := [];
    }

    method Diagnose(d: Diagnostic)
      modifies this
      ensures emitted == old(emitted) + [d]
    {
      emitted := emitted + [d];
    }
  }
}
