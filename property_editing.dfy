/**
 * The two operations of ProjectExtensions that edit the project:
 * ReplacePropertiesWith and SetProperty.  Each is a method of `Project`,
 * proved equal to a function of the document before the call (AfterReplace,
 * AfterSetProperty), and the lemmas below state what that function does.
 */
module PropertyEditing {
  import opened Wrappers
  import opened ProjectModel
  import opened ProjectExtensions

  /** Why an edit stops part-way: First() on no unconditional group, or
      Remove / ReplaceWith on an element that no longer has a parent (both
      throw InvalidOperationException). */
  datatype Error = MissingPrimaryGroup | DetachedElement

  datatype Outcome = Done | Failed(error: Error)

  /** The property groups an edit leaves behind, and whether it completed.
      Edits made before a failure stay in the document. */
  datatype Edit = Edit(groups: Document, outcome: Outcome)

  /** PrimaryPropertyGroup().Add(n): it succeeds iff some group has no
      Condition, and then `n` ends the first such group and nothing else
      changes; otherwise First() throws before anything is changed. */
  function AddToPrimary(doc: Document, n: Element): (r: Edit)
    ensures r.outcome == Done <==> exists g :: 0 <= g < |doc| && !doc[g].hasCondition
    ensures r.outcome != Done ==> r == Edit(doc, Failed(MissingPrimaryGroup))
    ensures forall g :: 0 <= g < |doc| && !doc[g].hasCondition && (forall j :: 0 <= j < g ==> doc[j].hasCondition) ==>
      && |r.groups| == |doc|
      && r.groups[g] == PropertyGroup(false, doc[g].elements + [n])
      && (forall h :: 0 <= h < |doc| && h != g ==> r.groups[h] == doc[h])
  {
    match PrimaryPropertyGroup(doc)
    case None => Edit(doc, Failed(MissingPrimaryGroup))
    case Some(g) => Edit(Append(doc, g, n), Done)
  }

  /** What ReplacePropertiesWith(newElement, names) does to the document.
      Nothing found: add the new element to the primary group (if there is
      one).  Otherwise walk All() (see AfterWalk). */
  function AfterReplace(doc: Document, newElement: Option<Element>, names: seq<string>): Edit {
    var r := ExistingElements(doc, names);
    if !r.FoundAny() then
      if newElement.Some? then AddToPrimary(doc, newElement.value) else Edit(doc, Done)
    else
      AllValid(doc, names);
      AfterWalk(doc, All(r), newElement)
  }

  /** Walking `all`: remove every element but the final one, failing at the
      first element that was already removed; then finish with the final one
      (see AfterLast). */
  function AfterWalk(doc: Document, all: seq<Pos>, newElement: Option<Element>): Edit
    requires all != [] && forall p :: p in all ==> ValidPos(doc, p)
  {
    var k := FirstRepeat(all);
    if k < |all| then Edit(RemoveIds(doc, IdsAt(doc, all[..k])), Failed(DetachedElement))
    else
      var last := all[|all| - 1];
      assert last in all;
      AfterLast(doc, last, RemoveIds(doc, IdsAt(doc, all[..|all| - 1])), newElement)
  }

  /** The final element `last` of `doc`, now part of `rest`: remove it (no new
      element), replace it (it has no PropertyCondition), or remove it and add
      the new element to the primary group. */
  function AfterLast(doc: Document, last: Pos, rest: Document, newElement: Option<Element>): Edit
    requires ValidPos(doc, last)
  {
    var id := ElementAt(doc, last).id;
    if newElement.None? then Edit(RemoveIds(rest, {id}), Done)
    else if !PropertyCondition(doc, last) then Edit(ReplaceId(rest, id, newElement.value), Done)
    else AddToPrimary(RemoveIds(rest, {id}), newElement.value)
  }

  /** string.IsNullOrWhiteSpace, with char.IsWhiteSpace: the Unicode space,
      line and paragraph separators and the control characters U+0009 to
      U+000D and U+0085. */
  predicate IsNullOrWhiteSpace(value: Option<string>) {
    value.None? || forall i :: 0 <= i < |value.value| ==> IsWhiteSpace(value.value[i])
  }

  predicate IsWhiteSpace(c: char) {
    || ('\U{0009}' <= c <= '\U{000D}') || c == '\U{0020}' || c == '\U{0085}' || c == '\U{00A0}'
    || c == '\U{1680}' || ('\U{2000}' <= c <= '\U{200A}') || c == '\U{2028}' || c == '\U{2029}'
    || c == '\U{202F}' || c == '\U{205F}' || c == '\U{3000}'
  }

  /** new XElement(name, value): a fresh element without a Condition. */
  function NewProperty(doc: Document, name: string, value: string): (n: Element)
    ensures n.id !in Ids(doc) && n.name == name && n.value == value && !n.hasCondition
  {
    Element(FreshId(doc), name, value, false)
  }

  /** What SetProperty(name, value) does to the document. */
  function AfterSetProperty(doc: Document, name: string, value: Option<string>): Edit {
    var newElement := if IsNullOrWhiteSpace(value) then None else Some(NewProperty(doc, name, value.value));
    AfterReplace(doc, newElement, [name])
  }

  class Project {
    var propertyGroups: Document

    /** Every element object occurs once in the document. */
    ghost predicate Valid()
      reads this
    {
      UniqueIds(propertyGroups)
    }

    constructor (groups: Document)
      requires UniqueIds(groups)
      ensures Valid() && propertyGroups == groups
    {
      propertyGroups := groups;
    }

    /** XNode.Remove on the element whose identity is `id`; it fails when that
        element is no longer in the document. */
    method Remove(id: nat) returns (outcome: Outcome)
      requires Valid()
      modifies this
      ensures Valid()
      ensures id in Ids(old(propertyGroups)) ==> outcome == Done && propertyGroups == RemoveIds(old(propertyGroups), {id})
      ensures id !in Ids(old(propertyGroups)) ==> outcome == Failed(DetachedElement) && propertyGroups == old(propertyGroups)
    {
      if id !in Ids(propertyGroups) {
        return Failed(DetachedElement);
      }
      RemoveIdsFacts(propertyGroups, {id});
      propertyGroups := RemoveIds(propertyGroups, {id});
      outcome := Done;
    }

    /** XNode.ReplaceWith(n) on the element whose identity is `id`. */
    method ReplaceWith(id: nat, n: Element) returns (outcome: Outcome)
      requires Valid() && n.id !in Ids(propertyGroups)
      modifies this
      ensures Valid()
      ensures id in Ids(old(propertyGroups)) ==> outcome == Done && propertyGroups == ReplaceId(old(propertyGroups), id, n)
      ensures id !in Ids(old(propertyGroups)) ==> outcome == Failed(DetachedElement) && propertyGroups == old(propertyGroups)
    {
      if id !in Ids(propertyGroups) {
        return Failed(DetachedElement);
      }
      ReplaceIdUnique(propertyGroups, id, n);
      propertyGroups := ReplaceId(propertyGroups, id, n);
      outcome := Done;
    }

    /** PrimaryPropertyGroup().Add(n). */
    method AddToPrimaryGroup(n: Element) returns (outcome: Outcome)
      requires Valid() && n.id !in Ids(propertyGroups)
      modifies this
      ensures Valid()
      ensures Edit(propertyGroups, outcome) == AddToPrimary(old(propertyGroups), n)
    {
      var primary := PrimaryPropertyGroup(propertyGroups);
      if primary.None? {
        return Failed(MissingPrimaryGroup);
      }
      AppendFacts(propertyGroups, primary.value, n);
      propertyGroups := Append(propertyGroups, primary.value, n);
      outcome := Done;
    }

    method ReplacePropertiesWith(newElement: Option<Element>, names: seq<string>) returns (outcome: Outcome)
      requires Valid()
      requires newElement.Some? ==> newElement.value.id !in Ids(propertyGroups)
      modifies this
      ensures Valid()
      ensures Edit(propertyGroups, outcome) == AfterReplace(old(propertyGroups), newElement, names)
    {
      var doc := propertyGroups;
      var findResult := FindExistingElements(doc, names);
      if !findResult.FoundAny() {
        if newElement.Some? {
          outcome := AddToPrimaryGroup(newElement.value);
        } else {
          outcome := Done;
        }
        return;
      }
      var all := All(findResult);
      AllValid(doc, names);
      assert AfterReplace(doc, newElement, names) == AfterWalk(doc, all, newElement);
      var lastExisting;
      outcome, lastExisting := RemoveAllButLast(doc, all);
      if outcome.Failed? {
        return;
      }
      var last := lastExisting.value;
      WalkStep(doc, all, |all| - 1);
      var id := ElementAt(doc, last).id;
      RemoveIdsFacts(doc, IdsAt(doc, all[..|all| - 1]));
      if newElement.None? {
        outcome := Remove(id);
        return;
      }
      if !PropertyCondition(doc, last) {
        outcome := ReplaceWith(id, newElement.value);
        return;
      }
      outcome := Remove(id);
      if outcome.Failed? {
        return;
      }
      RemoveIdsFacts(propertyGroups, {id});
      outcome := AddToPrimaryGroup(newElement.value);
    }

    /** The walk over All(): each element but the final one is removed when
        the next one is reached; it stops at the first removal that fails.
        The final element is returned. */
    method RemoveAllButLast(doc: Document, all: seq<Pos>) returns (outcome: Outcome, lastExisting: Option<Pos>)
      requires Valid() && propertyGroups == doc
      requires all != [] && forall p :: p in all ==> ValidPos(doc, p)
      modifies this
      ensures Valid()
      ensures outcome.Failed? ==>
        && FirstRepeat(all) < |all| - 1 && outcome == Failed(DetachedElement)
        && propertyGroups == RemoveIds(doc, IdsAt(doc, all[..FirstRepeat(all)]))
      ensures outcome.Done? ==>
        && FirstRepeat(all) >= |all| - 1 && lastExisting == Some(all[|all| - 1])
        && propertyGroups == RemoveIds(doc, IdsAt(doc, all[..|all| - 1]))
    {
      ghost var k := FirstRepeat(all);
      outcome := Done;
      lastExisting := None;
      assert propertyGroups == RemoveIds(doc, IdsAt(doc, all[..0])) by {
        assert IdsAt(doc, all[..0]) == {};
        RemoveIdsNone(doc);
      }
      for i := 0 to |all|
        invariant Valid()
        invariant i <= k + 1
        invariant outcome == Done
        invariant lastExisting == if i == 0 then None else Some(all[i - 1])
        invariant propertyGroups == RemoveIds(doc, IdsAt(doc, all[..if i == 0 then 0 else i - 1]))
      {
        if lastExisting.Some? {
          WalkStep(doc, all, i - 1);
          outcome := Remove(ElementAt(doc, lastExisting.value).id);
          if outcome.Failed? {
            return;
          }
        }
        lastExisting := Some(all[i]);
      }
    }

    method SetProperty(elementName: string, value: Option<string>) returns (outcome: Outcome)
      requires Valid()
      modifies this
      ensures Valid()
      ensures Edit(propertyGroups, outcome) == AfterSetProperty(old(propertyGroups), elementName, value)
    {
      var newElement: Option<Element> := None;
      if !IsNullOrWhiteSpace(value) {
        newElement := Some(NewProperty(propertyGroups, elementName, value.value));
      }
      outcome := ReplacePropertiesWith(newElement, [elementName]);
    }
  }

  /** One step of the walk over All(): up to the first repeat, the element at
      `j` is still in the document after removing those before it, and
      removing it extends the removed prefix by one. */
  lemma WalkStep(doc: Document, ps: seq<Pos>, j: nat)
    requires UniqueIds(doc) && j < |ps| && forall p :: p in ps ==> ValidPos(doc, p)
    requires j <= FirstRepeat(ps)
    ensures ValidPos(doc, ps[j])
    ensures ElementAt(doc, ps[j]).id in Ids(RemoveIds(doc, IdsAt(doc, ps[..j]))) <==> j < FirstRepeat(ps)
    ensures RemoveIds(RemoveIds(doc, IdsAt(doc, ps[..j])), {ElementAt(doc, ps[j]).id}) == RemoveIds(doc, IdsAt(doc, ps[..j + 1]))
  {
    assert ps[j] in ps;
    RemovedPrefix(doc, ps, j);
  }

  /** Walking All(): after removing the elements before index `j`, the element
      at `j` is still in the document exactly when it was not among them; and
      removing it too removes the elements up to and including `j`. */
  lemma RemovedPrefix(doc: Document, ps: seq<Pos>, j: nat)
    requires UniqueIds(doc) && j < |ps| && forall p :: p in ps ==> ValidPos(doc, p)
    ensures ElementAt(doc, ps[j]).id in Ids(RemoveIds(doc, IdsAt(doc, ps[..j]))) <==> ps[j] !in ps[..j]
    ensures RemoveIds(RemoveIds(doc, IdsAt(doc, ps[..j])), {ElementAt(doc, ps[j]).id}) == RemoveIds(doc, IdsAt(doc, ps[..j + 1]))
  {
    PrefixIds(doc, ps, j);
    var id := ElementAt(doc, ps[j]).id;
    RemoveIdsFacts(doc, IdsAt(doc, ps[..j]));
    IdsMember(doc, ps[j]);
    RemoveIdsTwice(doc, IdsAt(doc, ps[..j]), {id});
  }

  /** The found elements are exactly the elements named by one of `names`, by id. */
  lemma AllIds(doc: Document, names: seq<string>)
    ensures IdsAt(doc, All(ExistingElements(doc, names))) == NamedIds(doc, names)
  {
    AllMembers(doc, names);
    NamedPositions(doc, All(ExistingElements(doc, names)), names);
  }

  lemma NamedPositions(doc: Document, ps: seq<Pos>, names: seq<string>)
    requires forall p :: p in ps <==> ValidPos(doc, p) && ElementAt(doc, p).name in names
    ensures IdsAt(doc, ps) == NamedIds(doc, names)
  {
    forall x ensures x in IdsAt(doc, ps) <==> x in NamedIds(doc, names) {
      if x in NamedIds(doc, names) {
        var g, e :| 0 <= g < |doc| && e in doc[g].elements && e.name in names && e.id == x;
        var i :| 0 <= i < |doc[g].elements| && doc[g].elements[i] == e;
        assert Pos(g, i) in ps;
      }
      if x in IdsAt(doc, ps) {
        var p :| p in ps && ValidPos(doc, p) && ElementAt(doc, p).id == x;
        assert ElementAt(doc, p) in doc[p.group].elements;
      }
    }
  }

  /** Extending a prefix of references by one adds the id of that reference,
      which was already there exactly when the reference was. */
  lemma PrefixIds(doc: Document, ps: seq<Pos>, j: nat)
    requires UniqueIds(doc) && j < |ps| && forall p :: p in ps ==> ValidPos(doc, p)
    ensures ValidPos(doc, ps[j])
    ensures IdsAt(doc, ps[..j + 1]) == IdsAt(doc, ps[..j]) + {ElementAt(doc, ps[j]).id}
    ensures ElementAt(doc, ps[j]).id in IdsAt(doc, ps[..j]) <==> ps[j] in ps[..j]
  {
    var p := ps[j];
    assert p in ps;
    var id := ElementAt(doc, p).id;
    if id in IdsAt(doc, ps[..j]) {
      var q :| q in ps[..j] && ValidPos(doc, q) && ElementAt(doc, q).id == id;
      IdIdentifiesPosition(doc, p, q);
    }
    assert ps[..j + 1] == ps[..j] + [p];
  }

  /** Removing elements does not change which group is primary. */
  lemma PrimaryKept(doc: Document, ids: set<nat>)
    ensures PrimaryPropertyGroup(RemoveIds(doc, ids)) == PrimaryPropertyGroup(doc)
  {
    FirstUnconditionalKept(doc, RemoveIds(doc, ids), 0);
  }

  lemma FirstUnconditionalKept(a: Document, b: Document, i: nat)
    requires |a| == |b| && i <= |a|
    requires forall g :: 0 <= g < |a| ==> a[g].hasCondition == b[g].hasCondition
    ensures FirstUnconditionalFrom(a, i) == FirstUnconditionalFrom(b, i)
    decreases |a| - i
  {
    if i < |a| && a[i].hasCondition {
      FirstUnconditionalKept(a, b, i + 1);
    }
  }

  /** Where ReplacePropertiesWith puts the new element when the names are
      distinct: in place of the final element of All() when that one has no
      PropertyCondition, otherwise at the end of the primary group; None
      when it needs the primary group and there is none. */
  function Slot(doc: Document, names: seq<string>): Option<Pos> {
    var all := All(ExistingElements(doc, names));
    AllValid(doc, names);
    if all != [] && (assert all[|all| - 1] in all; !PropertyCondition(doc, all[|all| - 1])) then Some(all[|all| - 1])
    else match PrimaryPropertyGroup(doc)
      case None => None
      case Some(g) => Some(Pos(g, |doc[g].elements|))
  }

  /** What ReplacePropertiesWith does, for distinct names and a fresh new
      element: every element named by one of the names is removed, every
      other element stays where it was, and the new element (if any) goes to
      the Slot; with no Slot the removals happen and the edit fails for want
      of a primary group.  It never fails on a detached element. */
  lemma ReplaceEffect(doc: Document, newElement: Option<Element>, names: seq<string>)
    requires UniqueIds(doc) && NoDuplicates(names)
    requires newElement.Some? ==> newElement.value.id !in Ids(doc)
    ensures var e := AfterReplace(doc, newElement, names);
      var m := NamedIds(doc, names);
      && (newElement.None? ==> e == Edit(RemoveIds(doc, m), Done))
      && (newElement.Some? && Slot(doc, names).None? ==> e == Edit(RemoveIds(doc, m), Failed(MissingPrimaryGroup)))
      && (newElement.Some? && Slot(doc, names).Some? ==>
            var s := Slot(doc, names).value;
            && s.group < |doc| && s.index <= |doc[s.group].elements| && !doc[s.group].hasCondition
            && e == Edit(PlaceAt(doc, m, s.group, s.index, newElement.value), Done))
  {
    if ExistingElements(doc, names).FoundAny() {
      ReplaceFound(doc, newElement, names);
    } else {
      ReplaceNotFound(doc, newElement, names);
    }
  }

  lemma ReplaceNotFound(doc: Document, newElement: Option<Element>, names: seq<string>)
    requires !ExistingElements(doc, names).FoundAny()
    ensures NamedIds(doc, names) == {}
    ensures newElement.None? ==> AfterReplace(doc, newElement, names) == Edit(doc, Done)
    ensures newElement.Some? ==> AfterReplace(doc, newElement, names) == AddToPrimary(doc, newElement.value)
    ensures newElement.Some? && Slot(doc, names).None? ==>
      AfterReplace(doc, newElement, names) == Edit(doc, Failed(MissingPrimaryGroup))
    ensures var e := AfterReplace(doc, newElement, names);
      var m := NamedIds(doc, names);
      && (newElement.None? ==> e == Edit(RemoveIds(doc, m), Done))
      && (newElement.Some? && Slot(doc, names).None? ==> e == Edit(RemoveIds(doc, m), Failed(MissingPrimaryGroup)))
      && (newElement.Some? && Slot(doc, names).Some? ==>
            var s := Slot(doc, names).value;
            && s.group < |doc| && s.index <= |doc[s.group].elements| && !doc[s.group].hasCondition
            && e == Edit(PlaceAt(doc, m, s.group, s.index, newElement.value), Done))
  {
    var m := NamedIds(doc, names);
    AllValid(doc, names);
    AllIds(doc, names);
    assert m == {};
    RemoveIdsNone(doc);
    if newElement.Some? && PrimaryPropertyGroup(doc).Some? {
      AppendIsPlaceAtEnd(doc, m, PrimaryPropertyGroup(doc).value, newElement.value);
    }
  }

  lemma ReplaceFound(doc: Document, newElement: Option<Element>, names: seq<string>)
    requires UniqueIds(doc) && NoDuplicates(names)
    requires ExistingElements(doc, names).FoundAny()
    ensures var e := AfterReplace(doc, newElement, names);
      var m := NamedIds(doc, names);
      && (newElement.None? ==> e == Edit(RemoveIds(doc, m), Done))
      && (newElement.Some? && Slot(doc, names).None? ==> e == Edit(RemoveIds(doc, m), Failed(MissingPrimaryGroup)))
      && (newElement.Some? && Slot(doc, names).Some? ==>
            var s := Slot(doc, names).value;
            && s.group < |doc| && s.index <= |doc[s.group].elements| && !doc[s.group].hasCondition
            && e == Edit(PlaceAt(doc, m, s.group, s.index, newElement.value), Done))
  {
    var all := All(ExistingElements(doc, names));
    var m := NamedIds(doc, names);
    AllValid(doc, names);
    AllIds(doc, names);
    AllDistinct(doc, names);
    NoDuplicatesNoRepeat(all);
    var j := |all| - 1;
    var last := all[j];
    PrefixIds(doc, all, j);
    assert all[..j + 1] == all;
    var a, id := IdsAt(doc, all[..j]), ElementAt(doc, last).id;
    assert last !in all[..j];
    assert m == a + {id};
    assert AfterReplace(doc, newElement, names) == AfterLast(doc, last, RemoveIds(doc, a), newElement);
    RemoveIdsTwice(doc, a, {id});
    PrimaryKept(doc, m);
    if newElement.Some? {
      if !PropertyCondition(doc, last) {
        ReplaceIsPlaceAt(doc, a, last, newElement.value);
      } else if PrimaryPropertyGroup(doc).Some? {
        AppendIsPlaceAtEnd(doc, m, PrimaryPropertyGroup(doc).value, newElement.value);
      }
    }
  }

  /** A strictly increasing sequence that holds exactly `p` is [p]. */
  lemma IncreasingSingleton(ps: seq<Pos>, p: Pos)
    requires Increasing(ps) && forall q :: q in ps <==> q == p
    ensures ps == [p]
  {
    IncreasingNoDuplicates(ps);
    DistinctSingleton(ps, p);
  }

  /** A sequence without duplicates that holds exactly `p` is [p]. */
  lemma DistinctSingleton<T>(ps: seq<T>, p: T)
    requires NoDuplicates(ps) && forall q :: q in ps <==> q == p
    ensures ps == [p]
  {
    NoDuplicatesCount(ps);
    assert p in ps;
    assert multiset(ps) == multiset{p} by {
      forall x ensures multiset(ps)[x] == multiset{p}[x] {
        if x == p {
          assert multiset(ps)[x] >= 1;
        } else {
          assert x !in ps;
        }
      }
    }
    assert |ps| == |multiset(ps)| == 1;
    assert ps[0] in ps;
  }

  /** After removing every element named by one of `names`, none is left. */
  lemma RemovedNamed(doc: Document, names: seq<string>)
    ensures forall q :: ValidPos(RemoveIds(doc, NamedIds(doc, names)), q) ==>
      ElementAt(RemoveIds(doc, NamedIds(doc, names)), q).name !in names
  {
    var m := NamedIds(doc, names);
    var r := RemoveIds(doc, m);
    forall q | ValidPos(r, q) ensures ElementAt(r, q).name !in names {
      var e := ElementAt(r, q);
      assert e in r[q.group].elements;
      assert e in doc[q.group].elements && e.id !in m;
    }
  }

  /** Placing `n` after removing every element named by one of `names`:
      `n` sits right after the kept elements that preceded index `k`, and
      no other element has one of the names. */
  lemma PlacedNamed(doc: Document, names: seq<string>, g: nat, k: nat, n: Element)
    requires g < |doc| && k <= |doc[g].elements|
    ensures var r := PlaceAt(doc, NamedIds(doc, names), g, k, n);
      var p := Pos(g, |Without(doc[g].elements[..k], NamedIds(doc, names))|);
      && ValidPos(r, p) && ElementAt(r, p) == n
      && forall q :: ValidPos(r, q) && q != p ==> ElementAt(r, q).name !in names
  {
    var m := NamedIds(doc, names);
    var r := PlaceAt(doc, m, g, k, n);
    var es := doc[g].elements;
    var wx, wy := Without(es[..k], m), Without(es[k..], m);
    assert r[g].elements == wx + [n] + wy;
    var p := Pos(g, |wx|);
    forall q | ValidPos(r, q) && q != p ensures ElementAt(r, q).name !in names {
      var e := ElementAt(r, q);
      if q.group == g {
        if q.index < |wx| {
          assert e == wx[q.index] && e in wx;
          assert e in es[..k];
        } else {
          assert e == wy[q.index - |wx| - 1] && e in wy;
          assert e in es[k..];
        }
        assert e in es && e.id !in m;
      } else {
        assert e in r[q.group].elements;
        assert e in doc[q.group].elements && e.id !in m;
      }
    }
  }

  /** The only element named `name`, unconditional, is what Property finds. */
  lemma OnlyMatch(doc: Document, name: string, p: Pos)
    requires ValidPos(doc, p) && ElementAt(doc, p).name == name && !PropertyCondition(doc, p)
    requires forall q :: ValidPos(doc, q) && q != p ==> ElementAt(doc, q).name != name
    ensures ElementsAnyNamespace(doc, name) == [p]
    ensures Property(doc, name) == Some(p)
  {
    IncreasingSingleton(ElementsAnyNamespace(doc, name), p);
    OnlyUnconditional(doc, name, p);
  }

  lemma OnlyUnconditional(doc: Document, name: string, p: Pos)
    requires ValidPos(doc, p) && ElementAt(doc, p).name == name && !PropertyCondition(doc, p)
    requires forall q :: ValidPos(doc, q) && q != p ==> ElementAt(doc, q).name != name
    ensures Matches(doc, name, false) == [p]
  {
    PropertyAllPartition(doc, name);
    IncreasingSingleton(Matches(doc, name, false), p);
  }

  /** With no element named `name`, ElementsAnyNamespace finds none. */
  lemma NoMatch(doc: Document, name: string)
    requires forall q :: ValidPos(doc, q) ==> ElementAt(doc, q).name != name
    ensures ElementsAnyNamespace(doc, name) == []
  {
    var ps := ElementsAnyNamespace(doc, name);
    assert multiset(ps) == multiset{} by {
      forall x ensures multiset(ps)[x] == 0 {
        assert x !in ps;
      }
    }
    assert |ps| == |multiset(ps)| == 0;
  }

  /** SetProperty with a null or blank value deletes every element named
      `name`, and keeps every other element in place; a later search for
      `name` finds nothing. */
  lemma SetPropertyDeletes(doc: Document, name: string, value: Option<string>)
    requires UniqueIds(doc) && IsNullOrWhiteSpace(value)
    ensures var e := AfterSetProperty(doc, name, value);
      && e == Edit(RemoveIds(doc, NamedIds(doc, [name])), Done)
      && ElementsAnyNamespace(e.groups, name) == []
      && !ExistingElements(e.groups, [name]).FoundAny()
  {
    ReplaceEffect(doc, None, [name]);
    RemovedNamed(doc, [name]);
    NoMatch(RemoveIds(doc, NamedIds(doc, [name])), name);
    FindFlags(RemoveIds(doc, NamedIds(doc, [name])), [name]);
  }

  /** SetProperty with a value stores it: afterwards the new element is the
      one element named `name`, unconditional, so Property(name) returns it
      and its value.  The one way it fails is a document without an
      unconditional group, where only conditional elements named `name` had
      been found; they are removed all the same. */
  lemma SetPropertyStores(doc: Document, name: string, value: Option<string>)
    requires UniqueIds(doc) && !IsNullOrWhiteSpace(value)
    ensures var e := AfterSetProperty(doc, name, value);
      && (e.outcome == Done ==>
            exists p :: && ElementsAnyNamespace(e.groups, name) == [p]
                        && Property(e.groups, name) == Some(p)
                        && ElementAt(e.groups, p) == NewProperty(doc, name, value.value)
                        && ElementAt(e.groups, p).value == value.value)
      && (e.outcome != Done ==>
            && e.outcome == Failed(MissingPrimaryGroup)
            && PrimaryPropertyGroup(doc).None?
            && ElementsAnyNamespace(e.groups, name) == [])
  {
    var n := NewProperty(doc, name, value.value);
    var m := NamedIds(doc, [name]);
    ReplaceEffect(doc, Some(n), [name]);
    var e := AfterSetProperty(doc, name, value);
    if Slot(doc, [name]).Some? {
      var s := Slot(doc, [name]).value;
      PlacedNamed(doc, [name], s.group, s.index, n);
      var p := Pos(s.group, |Without(doc[s.group].elements[..s.index], m)|);
      OnlyMatch(e.groups, name, p);
    } else {
      RemovedNamed(doc, [name]);
      NoMatch(e.groups, name);
    }
  }

  /** ReplacePropertiesWith fails on a detached element exactly when some
      element is found twice, that is when its name occurs more than once
      in `names`. */
  lemma ReplaceDetachedIff(doc: Document, newElement: Option<Element>, names: seq<string>)
    ensures AfterReplace(doc, newElement, names).outcome == Failed(DetachedElement) <==>
      exists p :: ValidPos(doc, p) && multiset(names)[ElementAt(doc, p).name] >= 2
  {
    FoundAnyIff(doc, names);
    if ExistingElements(doc, names).FoundAny() {
      ReplaceDetachedFound(doc, newElement, names);
      FoundTwice(doc, names);
    }
  }

  /** When something is found, the walk fails exactly when All() holds a reference twice. */
  lemma ReplaceDetachedFound(doc: Document, newElement: Option<Element>, names: seq<string>)
    requires ExistingElements(doc, names).FoundAny()
    ensures AfterReplace(doc, newElement, names).outcome == Failed(DetachedElement) <==>
      exists x :: multiset(All(ExistingElements(doc, names)))[x] >= 2
  {
    var all := All(ExistingElements(doc, names));
    AllValid(doc, names);
    assert AfterReplace(doc, newElement, names) == AfterWalk(doc, all, newElement);
    RepeatIffTwice(all);
  }

  /** Some reference occurs twice in All() exactly when some element's name
      occurs twice among `names`. */
  lemma FoundTwice(doc: Document, names: seq<string>)
    ensures (exists x :: multiset(All(ExistingElements(doc, names)))[x] >= 2) <==>
      exists p :: ValidPos(doc, p) && multiset(names)[ElementAt(doc, p).name] >= 2
  {
    var all := All(ExistingElements(doc, names));
    if exists x :: multiset(all)[x] >= 2 {
      var x :| multiset(all)[x] >= 2;
      AllCountAt(doc, names, x);
      assert ValidPos(doc, x) && multiset(names)[ElementAt(doc, x).name] >= 2;
    }
    if exists p :: ValidPos(doc, p) && multiset(names)[ElementAt(doc, p).name] >= 2 {
      var p :| ValidPos(doc, p) && multiset(names)[ElementAt(doc, p).name] >= 2;
      AllCountAt(doc, names, p);
      assert multiset(all)[p] >= 2;
    }
  }

  /** How often All() holds a reference: once per occurrence of the element's name among `names`. */
  lemma AllCountAt(doc: Document, names: seq<string>, p: Pos)
    ensures multiset(All(ExistingElements(doc, names)))[p] ==
      if ValidPos(doc, p) then multiset(names)[ElementAt(doc, p).name] else 0
  {
    AllCount(doc, names);
    AllMatchesCount(doc, names, false, p);
    AllMatchesCount(doc, names, true, p);
  }

  /** A sequence has a repeat exactly when some value occurs in it twice. */
  lemma RepeatIffTwice<T>(s: seq<T>)
    ensures FirstRepeat(s) < |s| <==> exists x :: multiset(s)[x] >= 2
  {
    var k := FirstRepeat(s);
    if k < |s| {
      var j :| 0 <= j < k && s[..k][j] == s[k];
      assert s[j] == s[k];
      RepeatedCount(s, j, k);
    } else {
      NoRepeatNoDuplicates(s);
      NoDuplicatesCount(s);
    }
  }

  /** A value at two indices of a sequence occurs there at least twice. */
  lemma RepeatedCount<T>(s: seq<T>, i: nat, j: nat)
    requires i < j < |s| && s[i] == s[j]
    ensures multiset(s)[s[i]] >= 2
  {
    assert s == s[..i] + [s[i]] + s[i + 1..j] + [s[j]] + s[j + 1..];
  }

  /** Setting the same value a second time finds only the element the first
      call created, unconditional, and replaces it in place by a new element
      with the same name and value: the document is the same one up to the
      identity of that element. */
  lemma SetPropertyTwice(doc: Document, name: string, value: Option<string>)
    requires UniqueIds(doc) && !IsNullOrWhiteSpace(value)
    requires AfterSetProperty(doc, name, value).outcome == Done
    ensures var d1 := AfterSetProperty(doc, name, value).groups;
      AfterSetProperty(d1, name, value) ==
        Edit(ReplaceId(d1, NewProperty(doc, name, value.value).id, NewProperty(d1, name, value.value)), Done)
  {
    var d1 := AfterSetProperty(doc, name, value).groups;
    SetPropertyStores(doc, name, value);
    var p :| && ElementsAnyNamespace(d1, name) == [p]
             && Property(d1, name) == Some(p)
             && ElementAt(d1, p) == NewProperty(doc, name, value.value);
    SecondReplace(d1, name, p, NewProperty(d1, name, value.value));
  }

  /** ReplacePropertiesWith on a document where `p` is the one element named
      `name`, and it is unconditional, replaces that element in place. */
  lemma SecondReplace(doc: Document, name: string, p: Pos, n: Element)
    requires ElementsAnyNamespace(doc, name) == [p] && Property(doc, name) == Some(p)
    ensures ValidPos(doc, p)
    ensures AfterReplace(doc, Some(n), [name]) == Edit(ReplaceId(doc, ElementAt(doc, p).id, n), Done)
  {
    OnlyFound(doc, name, p);
    var all := All(ExistingElements(doc, [name]));
    FoundAnyIff(doc, [name]);
    assert FirstRepeat(all) == 1 by {
      NoDuplicatesNoRepeat(all);
    }
    assert all[..0] == [] && IdsAt(doc, all[..0]) == {};
    RemoveIdsNone(doc);
  }

  /** When `p` is the one element named `name`, and it is unconditional, All() is [p]. */
  lemma OnlyFound(doc: Document, name: string, p: Pos)
    requires ElementsAnyNamespace(doc, name) == [p] && Property(doc, name) == Some(p)
    ensures ValidPos(doc, p) && ElementAt(doc, p).name == name && !PropertyCondition(doc, p)
    ensures All(ExistingElements(doc, [name])) == [p]
  {
    OnlyUnconditionalMatch(doc, name, p);
    var all := All(ExistingElements(doc, [name]));
    AllMembers(doc, [name]);
    AllDistinct(doc, [name]);
    forall q ensures q in all <==> q == p {
      if q in all {
        assert q in ElementsAnyNamespace(doc, name);
      }
    }
    DistinctSingleton(all, p);
  }

  lemma OnlyUnconditionalMatch(doc: Document, name: string, p: Pos)
    requires ElementsAnyNamespace(doc, name) == [p] && Property(doc, name) == Some(p)
    ensures ValidPos(doc, p) && ElementAt(doc, p).name == name && !PropertyCondition(doc, p)
  {
    assert p in ElementsAnyNamespace(doc, name);
    PropertyAllPartition(doc, name);
    var u := Matches(doc, name, false);
    assert p == u[|u| - 1] && p in u;
  }
}
