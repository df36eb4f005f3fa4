/**
 * Concrete documents that pin down what ReplacePropertiesWith does where the
 * final element of All() is not the document-last match, where only
 * conditional groups hold the property, and where there are no groups.
 */
module Scenarios {
  import opened Wrappers
  import opened ProjectModel
  import opened ProjectExtensions
  import opened PropertyEditing

  /** Three groups, each holding one element named X; the middle group has a Condition. */
  function Mixed(): Document {
    [PropertyGroup(false, [Element(1, "X", "a", false)]),
     PropertyGroup(true, [Element(2, "X", "b", false)]),
     PropertyGroup(false, [Element(3, "X", "c", false)])]
  }

  /** One conditional group holding an element named X. */
  function OnlyConditional(): Document {
    [PropertyGroup(true, [Element(1, "X", "b", false)])]
  }

  /** The new element the scenarios add. */
  function Z(): Element {
    Element(4, "X", "z", false)
  }

  lemma MixedLastUnconditional()
    ensures IsLastMatch(Mixed(), ["X"], false, Pos(2, 0))
  {
  }

  lemma MixedLastConditional()
    ensures IsLastMatch(Mixed(), ["X"], true, Pos(1, 0))
  {
  }

  lemma MixedLasts()
    ensures ExistingElements(Mixed(), ["X"]).lastUnconditional == Some(Pos(2, 0))
    ensures ExistingElements(Mixed(), ["X"]).lastConditional == Some(Pos(1, 0))
  {
    var d, names := Mixed(), ["X"];
    var r := ExistingElements(d, names);
    FindLasts(d, names);
    MixedLastUnconditional();
    MixedLastConditional();
    LastMatchUnique(d, names, false, r.lastUnconditional, Pos(2, 0));
    LastMatchUnique(d, names, true, r.lastConditional, Pos(1, 0));
  }

  /** There is one last match, and only a document without matches has none. */
  lemma LastMatchUnique(doc: Document, names: seq<string>, conditional: bool, found: Option<Pos>, p: Pos)
    requires IsLastMatch(doc, names, conditional, p)
    requires found.Some? ==> IsLastMatch(doc, names, conditional, found.value)
    requires found.None? <==> forall q :: !MatchOf(doc, names, conditional, q)
    ensures found == Some(p)
  {
  }

  /** The final element of All() is the conditional X in the middle group,
      although the unconditional X in the last group comes after it. */
  lemma MixedFinal()
    ensures var all := All(ExistingElements(Mixed(), ["X"]));
      all != [] && all[|all| - 1] == Pos(1, 0)
  {
    MixedLasts();
    AllFinal(Mixed(), ["X"]);
  }

  lemma MixedSlot()
    ensures Slot(Mixed(), ["X"]) == Some(Pos(0, 1))
  {
    MixedFinal();
  }

  lemma MixedNamed()
    ensures NamedIds(Mixed(), ["X"]) == {1, 2, 3}
  {
    var d := Mixed();
    assert Element(1, "X", "a", false) in d[0].elements;
    assert Element(2, "X", "b", false) in d[1].elements;
    assert Element(3, "X", "c", false) in d[2].elements;
  }

  /** ReplacePropertiesWith(z, "X") on Mixed(): all three elements are
      removed and z is added to the first group; the last group, which held
      the document-last X, ends up empty. */
  lemma MixedReplace()
    ensures AfterReplace(Mixed(), Some(Z()), ["X"]) ==
      Edit([PropertyGroup(false, [Z()]), PropertyGroup(true, []), PropertyGroup(false, [])], Done)
  {
    MixedFresh();
    ReplaceEffect(Mixed(), Some(Z()), ["X"]);
    MixedSlot();
    MixedNamed();
    MixedPlaced();
  }

  lemma MixedFresh()
    ensures UniqueIds(Mixed()) && Z().id !in Ids(Mixed())
  {
  }

  lemma MixedPlaced()
    ensures PlaceAt(Mixed(), {1, 2, 3}, 0, 1, Z()) ==
      [PropertyGroup(false, [Z()]), PropertyGroup(true, []), PropertyGroup(false, [])]
  {
    var d := Mixed();
    var m: set<nat> := {1, 2, 3};
    var r := PlaceAt(d, m, 0, 1, Z());
    assert Without(d[0].elements[..1], m) == [];
    assert Without(d[0].elements[1..], m) == [];
    assert r[0] == PropertyGroup(false, [Z()]);
    assert Without(d[1].elements, m) == [];
    assert Without(d[2].elements, m) == [];
    assert r[1] == PropertyGroup(true, []) && r[2] == PropertyGroup(false, []);
  }

  /** ReplacePropertiesWith(z, "X") on OnlyConditional(): the conditional X
      is removed, then the edit fails because there is no primary group. */
  lemma OnlyConditionalReplace()
    ensures AfterReplace(OnlyConditional(), Some(Z()), ["X"]) ==
      Edit([PropertyGroup(true, [])], Failed(MissingPrimaryGroup))
  {
    OnlyConditionalFresh();
    ReplaceEffect(OnlyConditional(), Some(Z()), ["X"]);
    OnlyConditionalSlot();
    OnlyConditionalRemoved();
  }

  lemma OnlyConditionalFresh()
    ensures UniqueIds(OnlyConditional()) && Z().id !in Ids(OnlyConditional())
  {
  }

  /** The conditional X is all that is found, and there is no primary group. */
  lemma OnlyConditionalSlot()
    ensures Slot(OnlyConditional(), ["X"]).None?
  {
    var d, names := OnlyConditional(), ["X"];
    var r := ExistingElements(d, names);
    FindLasts(d, names);
    assert IsLastMatch(d, names, true, Pos(0, 0));
    LastMatchUnique(d, names, true, r.lastConditional, Pos(0, 0));
    AllFinal(d, names);
  }

  lemma OnlyConditionalRemoved()
    ensures RemoveIds(OnlyConditional(), NamedIds(OnlyConditional(), ["X"])) == [PropertyGroup(true, [])]
  {
    var d := OnlyConditional();
    assert Element(1, "X", "b", false) in d[0].elements;
    assert NamedIds(d, ["X"]) == {1};
    assert Without(d[0].elements, {1}) == [];
  }

  /** On a document without property groups, ReplacePropertiesWith with a new
      element fails for want of a primary group and changes nothing. */
  lemma EmptyReplace(names: seq<string>)
    ensures AfterReplace([], Some(Z()), names) == Edit([], Failed(MissingPrimaryGroup))
  {
    FindFlags([], names);
  }
}
