/**
 * The storage visitor: walks the instance storage of a nominal declaration as
 * seen through its context and stops at the first element its callback
 * accepts. The callback's decision is the parameter `stop`.
 */
module StorageVisitor {
  import opened Wrappers
  import opened Ast

  /** No element of `s` makes the visitor stop. */
  predicate NoMatch(s: seq<StorageElement>, stop: StorageElement -> bool)
  {
    forall k :: 0 <= k < |s| ==> !stop(s[k])
  }

  /** The first element of `s` on which the visitor stops, if any. */
  function FirstMatch(s: seq<StorageElement>, stop: StorageElement -> bool): Option<StorageElement>
  {
    if s == [] then None
    else if stop(s[0]) then Some(s[0])
    else FirstMatch(s[1..], stop)
  }

  /** A prefix on which the visitor never stops is walked past. */
  lemma {:induction false} FirstMatchSkip(a: seq<StorageElement>, b: seq<StorageElement>, stop: StorageElement -> bool)
    requires NoMatch(a, stop)
    ensures FirstMatch(a + b, stop) == FirstMatch(b, stop)
  {
    if a != [] {
      assert (a + b)[0] == a[0];
      assert (a + b)[1..] == a[1..] + b;
      FirstMatchSkip(a[1..], b, stop);
    } else {
      assert a + b == b;
    }
  }

  /** `FirstMatch` finds the earliest accepted element, and finds nothing
      exactly when no element is accepted. */
  lemma {:induction false} FirstMatchCharacterization(s: seq<StorageElement>, stop: StorageElement -> bool)
    ensures FirstMatch(s, stop).None? <==> NoMatch(s, stop)
    ensures FirstMatch(s, stop).Some? ==>
      exists i :: 0 <= i < |s| && s[i] == FirstMatch(s, stop).value && stop(s[i]) && NoMatch(s[..i], stop)
  {
    if s != [] {
      FirstMatchCharacterization(s[1..], stop);
      assert forall k :: 1 <= k < |s| ==> s[k] == s[1..][k - 1];
      if !stop(s[0]) && FirstMatch(s[1..], stop).Some? {
        var i :| 0 <= i < |s[1..]| && s[1..][i] == FirstMatch(s[1..], stop).value
          && stop(s[1..][i]) && NoMatch(s[1..][..i], stop);
        assert s[i + 1] == s[1..][i];
        assert s[..i + 1] == [s[0]] + s[1..][..i];
        assert NoMatch(s[..i + 1], stop);
      }
      if stop(s[0]) {
        assert NoMatch(s[..0], stop);
      }
    }
  }

  /** The enum storage, split around case `i`. */
  lemma CaseStorageSplit(cs: seq<EnumCase>, i: nat)
    requires i < |cs|
    ensures CaseElements(cs) == CaseElements(cs[..i]) + PayloadElements(cs[i].elements) + CaseElements(cs[i + 1..])
  {
    assert cs == cs[..i] + cs[i..];
    CaseElementsAppend(cs[..i], cs[i..]);
    assert cs[i..][0] == cs[i] && cs[i..][1..] == cs[i + 1..];
  }

  /** Walking one more element of a case extends the walked prefix by its storage. */
  lemma PayloadPrefixStep(es: seq<EnumElement>, j: nat)
    requires j < |es|
    ensures PayloadElements(es[..j + 1]) == PayloadElements(es[..j]) + ElementStorage(es[j])
  {
    assert es[..j + 1] == es[..j] + [es[j]];
    PayloadElementsAppend(es[..j], [es[j]]);
    assert [es[j]][1..] == [];
  }

  /** Finishing a case extends the walked prefix by that case's storage. */
  lemma CasePrefixStep(cs: seq<EnumCase>, i: nat)
    requires i < |cs|
    ensures CaseElements(cs[..i + 1]) == CaseElements(cs[..i]) + PayloadElements(cs[i].elements)
  {
    assert cs[..i + 1] == cs[..i] + [cs[i]];
    CaseElementsAppend(cs[..i], [cs[i]]);
    assert [cs[i]][1..] == [];
  }

  /**
   * The walk: stored properties of a struct or class in declaration order;
   * for an enum, every element that has associated values, case by case;
   * nothing for any other declaration. It returns the first element on which
   * `stop` holds, which is exactly where the source's walk returns true.
   */
  method Visit(nominal: NominalDecl, stop: StorageElement -> bool) returns (found: Option<StorageElement>)
    ensures found == FirstMatch(Storage(nominal), stop)
  {
    if nominal.kind == Struct || nominal.kind == Class {
      found := VisitStoredProperties(nominal.storedProperties, stop);
    } else if nominal.kind == Enum {
      found := VisitEnumElements(nominal.cases, stop);
    } else {
      found := None;
    }
  }

  /** The struct and class loop over stored properties. */
  method VisitStoredProperties(properties: seq<StoredProperty>, stop: StorageElement -> bool)
    returns (found: Option<StorageElement>)
    ensures found == FirstMatch(PropertyElements(properties), stop)
  {
    ghost var s := PropertyElements(properties);
    for i := 0 to |properties|
      invariant NoMatch(s[..i], stop)
    {
      var e := PropertyElement(properties[i]);
      if stop(e) {
        assert s == s[..i] + s[i..];
        FirstMatchSkip(s[..i], s[i..], stop);
        assert s[i..][0] == e;
        return Some(e);
      }
      assert s[..i + 1] == s[..i] + [e];
    }
    assert s[..|properties|] == s;
    FirstMatchSkip(s, [], stop);
    assert s + [] == s;
    return None;
  }

  /** The enum loop over cases and their elements, skipping elements
      without associated values. */
  method VisitEnumElements(cases: seq<EnumCase>, stop: StorageElement -> bool)
    returns (found: Option<StorageElement>)
    ensures found == FirstMatch(CaseElements(cases), stop)
  {
    for i := 0 to |cases|
      invariant NoMatch(CaseElements(cases[..i]), stop)
    {
      var elements := cases[i].elements;
      for j := 0 to |elements|
        invariant NoMatch(CaseElements(cases[..i]) + PayloadElements(elements[..j]), stop)
      {
        var element := elements[j];
        PayloadPrefixStep(elements, j);
        if element.payload.None? {
          assert ElementStorage(element) == [];
          assert CaseElements(cases[..i]) + PayloadElements(elements[..j + 1])
            == CaseElements(cases[..i]) + PayloadElements(elements[..j]);
          continue;
        }
        var e := StorageElement(element.name, element.loc, element.payload.value, true);
        assert ElementStorage(element) == [e];
        if stop(e) {
          EnumFoundAt(cases, i, j, e, stop);
          return Some(e);
        }
        assert CaseElements(cases[..i]) + PayloadElements(elements[..j + 1])
          == (CaseElements(cases[..i]) + PayloadElements(elements[..j])) + [e];
      }
      assert elements[..|elements|] == elements;
      CasePrefixStep(cases, i);
    }
    assert cases[..|cases|] == cases;
    FirstMatchSkip(CaseElements(cases), [], stop);
    assert CaseElements(cases) + [] == CaseElements(cases);
    return None;
  }

  /** The storage of a case from its `j`-th element on, when that element has a payload. */
  lemma PayloadSuffixAt(es: seq<EnumElement>, j: nat, e: StorageElement)
    requires j < |es| && ElementStorage(es[j]) == [e]
    ensures PayloadElements(es[j..]) == [e] + PayloadElements(es[j + 1..])
  {
    assert es[j..] != [] && es[j..][0] == es[j] && es[j..][1..] == es[j + 1..];
  }

  /** Stopping at element `j` of case `i` after walking past everything before it. */
  lemma EnumFoundAt(cs: seq<EnumCase>, i: nat, j: nat, e: StorageElement, stop: StorageElement -> bool)
    requires i < |cs| && j < |cs[i].elements|
    requires ElementStorage(cs[i].elements[j]) == [e] && stop(e)
    requires NoMatch(CaseElements(cs[..i]) + PayloadElements(cs[i].elements[..j]), stop)
    ensures FirstMatch(CaseElements(cs), stop) == Some(e)
  {
    var es := cs[i].elements;
    CaseStorageSplit(cs, i);
    assert es == es[..j] + es[j..];
    PayloadElementsAppend(es[..j], es[j..]);
    PayloadSuffixAt(es, j, e);
    var earlier := CaseElements(cs[..i]);
    var before := PayloadElements(es[..j]);
    var tail := PayloadElements(es[j + 1..]);
    var later := CaseElements(cs[i + 1..]);
    Regroup(earlier, before, e, tail, later);
    FirstMatchSkip(earlier + before, [e] + (tail + later), stop);
  }

  lemma Regroup(a: seq<StorageElement>, x: seq<StorageElement>, e: StorageElement, t: seq<StorageElement>, d: seq<StorageElement>)
    ensures a + (x + ([e] + t)) + d == (a + x) + ([e] + (t + d))
  {
  }
}
