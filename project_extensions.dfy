/**
 * Property lookup, resolution and replacement over a project document
 * (the extension methods on Project in Definition/ProjectExtensions.cs).
 *
 * References to elements are `Pos` values into the document as it was when
 * they were found; the read-only operations take the document as a value and
 * the two operations that edit the document are methods of `Project`.
 */
module ProjectExtensions {
  import opened Wrappers
  import opened ProjectModel

  // ---------------------------------------------------------------------------
  // Property groups

  /** The groups without a Condition attribute, in document order. */
  function UnconditionalGroups(doc: Document): seq<PropertyGroup> {
    if doc == [] then []
    else (if doc[0].hasCondition then [] else [doc[0]]) + UnconditionalGroups(doc[1..])
  }

  /** The groups with a Condition attribute, in document order. */
  function ConditionalGroups(doc: Document): seq<PropertyGroup> {
    if doc == [] then []
    else (if doc[0].hasCondition then [doc[0]] else []) + ConditionalGroups(doc[1..])
  }

  /** The two selections split the groups between them by the Condition attribute. */
  lemma {:induction false} GroupsPartition(doc: Document)
    ensures forall g :: g in UnconditionalGroups(doc) <==> g in doc && !g.hasCondition
    ensures forall g :: g in ConditionalGroups(doc) <==> g in doc && g.hasCondition
    ensures multiset(UnconditionalGroups(doc)) + multiset(ConditionalGroups(doc)) == multiset(doc)
  {
    if doc != [] {
      GroupsPartition(doc[1..]);
      assert doc == [doc[0]] + doc[1..];
    }
  }

  /** Selecting the unconditional groups of a concatenation concatenates the
      selections from its parts, so the selection keeps document order. */
  lemma {:induction false} UnconditionalKeepsOrder(a: Document, b: Document)
    ensures UnconditionalGroups(a + b) == UnconditionalGroups(a) + UnconditionalGroups(b)
  {
    if a == [] {
      assert a + b == b;
    } else {
      var ab := a + b;
      assert ab[0] == a[0] && ab[1..] == a[1..] + b;
      UnconditionalKeepsOrder(a[1..], b);
      var head := if a[0].hasCondition then [] else [a[0]];
      assert UnconditionalGroups(ab) == head + UnconditionalGroups(a[1..] + b);
      assert UnconditionalGroups(a) == head + UnconditionalGroups(a[1..]);
    }
  }

  /** Selecting the conditional groups of a concatenation concatenates the
      selections from its parts, so this selection keeps document order too. */
  lemma {:induction false} ConditionalKeepsOrder(a: Document, b: Document)
    ensures ConditionalGroups(a + b) == ConditionalGroups(a) + ConditionalGroups(b)
  {
    if a == [] {
      assert a + b == b;
    } else {
      var ab := a + b;
      assert ab[0] == a[0] && ab[1..] == a[1..] + b;
      ConditionalKeepsOrder(a[1..], b);
      var head := if a[0].hasCondition then [a[0]] else [];
      assert ConditionalGroups(ab) == head + ConditionalGroups(a[1..] + b);
      assert ConditionalGroups(a) == head + ConditionalGroups(a[1..]);
    }
  }

  /** The index of the first unconditional group; None where First() throws. */
  function PrimaryPropertyGroup(doc: Document): (r: Option<nat>)
    ensures r.Some? ==> r.value < |doc| && !doc[r.value].hasCondition
    ensures r.Some? ==> forall j :: 0 <= j < r.value ==> doc[j].hasCondition
    ensures r.None? ==> forall j :: 0 <= j < |doc| ==> doc[j].hasCondition
  {
    FirstUnconditionalFrom(doc, 0)
  }

  function FirstUnconditionalFrom(doc: Document, i: nat): (r: Option<nat>)
    requires i <= |doc|
    ensures r.Some? ==> i <= r.value < |doc| && !doc[r.value].hasCondition
    ensures r.Some? ==> forall j :: i <= j < r.value ==> doc[j].hasCondition
    ensures r.None? ==> forall j :: i <= j < |doc| ==> doc[j].hasCondition
    decreases |doc| - i
  {
    if i == |doc| then None
    else if !doc[i].hasCondition then Some(i)
    else FirstUnconditionalFrom(doc, i + 1)
  }

  /** From index `i` on, the unconditional groups start with the group
      FirstUnconditionalFrom finds, and there are none when it finds none. */
  lemma {:induction false} FirstUnconditionalFromIsFirst(doc: Document, i: nat)
    requires i <= |doc|
    ensures FirstUnconditionalFrom(doc, i).None? <==> UnconditionalGroups(doc[i..]) == []
    ensures FirstUnconditionalFrom(doc, i).Some? ==>
      UnconditionalGroups(doc[i..]) != [] && UnconditionalGroups(doc[i..])[0] == doc[FirstUnconditionalFrom(doc, i).value]
    decreases |doc| - i
  {
    if i < |doc| {
      var rest := doc[i..];
      assert rest[0] == doc[i] && rest[1..] == doc[i + 1..];
      var head := if doc[i].hasCondition then [] else [doc[i]];
      assert UnconditionalGroups(rest) == head + UnconditionalGroups(doc[i + 1..]);
      if doc[i].hasCondition {
        FirstUnconditionalFromIsFirst(doc, i + 1);
      }
    }
  }

  /** The primary group is the first of UnconditionalGroups, and it is missing
      exactly when there are no unconditional groups. */
  lemma PrimaryIsFirstUnconditional(doc: Document)
    ensures PrimaryPropertyGroup(doc).None? <==> UnconditionalGroups(doc) == []
    ensures PrimaryPropertyGroup(doc).Some? ==>
      UnconditionalGroups(doc) != [] && UnconditionalGroups(doc)[0] == doc[PrimaryPropertyGroup(doc).value]
  {
    FirstUnconditionalFromIsFirst(doc, 0);
    assert doc[0..] == doc;
  }

  // ---------------------------------------------------------------------------
  // PropertyAll and Property

  /** The references of `ps` whose PropertyCondition is `conditional`, in order. */
  function OfClass(doc: Document, ps: seq<Pos>, conditional: bool): (r: seq<Pos>)
    requires forall p :: p in ps ==> ValidPos(doc, p)
    ensures forall p :: p in r <==> p in ps && PropertyCondition(doc, p) == conditional
    ensures Increasing(ps) ==> Increasing(r)
  {
    if ps == [] then []
    else
      var init, last := ps[..|ps| - 1], ps[|ps| - 1];
      assert forall p :: p in ps <==> p in init || p == last by {
        assert ps == init + [last];
      }
      assert Increasing(ps) ==> Increasing(init) && forall p :: p in init ==> Later(last, p);
      OfClass(doc, init, conditional) + (if PropertyCondition(doc, last) == conditional then [last] else [])
  }

  lemma {:induction false} OfClassPartition(doc: Document, ps: seq<Pos>)
    requires forall p :: p in ps ==> ValidPos(doc, p)
    ensures multiset(OfClass(doc, ps, false)) + multiset(OfClass(doc, ps, true)) == multiset(ps)
  {
    if ps != [] {
      var init, last := ps[..|ps| - 1], ps[|ps| - 1];
      assert ps == init + [last];
      OfClassPartition(doc, init);
    }
  }

  /** The elements named `name` whose PropertyCondition is `conditional`:
      the second (true) or first (false) list PropertyAll returns. */
  function Matches(doc: Document, name: string, conditional: bool): seq<Pos> {
    OfClass(doc, ElementsAnyNamespace(doc, name), conditional)
  }

  method PropertyAll(doc: Document, name: string) returns (unconditional: seq<Pos>, conditional: seq<Pos>)
    ensures unconditional == Matches(doc, name, false)
    ensures conditional == Matches(doc, name, true)
  {
    var elements := ElementsAnyNamespace(doc, name);
    unconditional, conditional := [], [];
    for i := 0 to |elements|
      invariant unconditional == OfClass(doc, elements[..i], false)
      invariant conditional == OfClass(doc, elements[..i], true)
    {
      var element := elements[i];
      OfClassSnoc(doc, elements, i);
      if !PropertyCondition(doc, element) {
        unconditional := unconditional + [element];
        continue;
      }
      conditional := conditional + [element];
    }
    assert elements[..|elements|] == elements;
  }

  /** Extending the references by one extends each class by it or by nothing. */
  lemma OfClassSnoc(doc: Document, ps: seq<Pos>, i: nat)
    requires i < |ps| && forall p :: p in ps ==> ValidPos(doc, p)
    ensures ValidPos(doc, ps[i])
    ensures forall c :: OfClass(doc, ps[..i + 1], c) == OfClass(doc, ps[..i], c) + (if PropertyCondition(doc, ps[i]) == c then [ps[i]] else [])
  {
    assert ps[i] in ps;
    assert ps[..i + 1][..i] == ps[..i];
  }

  /** PropertyAll puts every element named `name` in exactly one of its two
      lists, according to PropertyCondition, each list in document order
      (which is the order ElementsAnyNamespace discovers them in). */
  lemma PropertyAllPartition(doc: Document, name: string)
    ensures forall p :: p in Matches(doc, name, false) <==> IsMatch(doc, name, p) && !PropertyCondition(doc, p)
    ensures forall p :: p in Matches(doc, name, true) <==> IsMatch(doc, name, p) && PropertyCondition(doc, p)
    ensures Increasing(Matches(doc, name, false)) && Increasing(Matches(doc, name, true))
    ensures multiset(Matches(doc, name, false)) + multiset(Matches(doc, name, true)) == multiset(ElementsAnyNamespace(doc, name))
  {
    OfClassPartition(doc, ElementsAnyNamespace(doc, name));
  }

  /** An element of one of `names` whose PropertyCondition is `conditional`. */
  predicate MatchOf(doc: Document, names: seq<string>, conditional: bool, p: Pos) {
    ValidPos(doc, p) && ElementAt(doc, p).name in names && PropertyCondition(doc, p) == conditional
  }

  /** `p` is the last such element in document order. */
  ghost predicate IsLastMatch(doc: Document, names: seq<string>, conditional: bool, p: Pos) {
    MatchOf(doc, names, conditional, p) &&
    forall q :: MatchOf(doc, names, conditional, q) && q != p ==> Later(p, q)
  }

  /** The last unconditional element named `name`, or (when asked to) the last
      conditional one if there is no unconditional one. */
  function Property(doc: Document, name: string, tryConditional: bool := false): Option<Pos> {
    var unconditional := Matches(doc, name, false);
    var conditional := Matches(doc, name, true);
    if |unconditional| > 0 then Some(unconditional[|unconditional| - 1])
    else if tryConditional && |conditional| > 0 then Some(conditional[|conditional| - 1])
    else None
  }

  lemma LastOfIncreasing(doc: Document, name: string, conditional: bool)
    requires Matches(doc, name, conditional) != []
    ensures IsLastMatch(doc, [name], conditional, Matches(doc, name, conditional)[|Matches(doc, name, conditional)| - 1])
  {
    var m := Matches(doc, name, conditional);
    assert forall p :: p in m <==> IsMatch(doc, name, p) && PropertyCondition(doc, p) == conditional;
    var last := m[|m| - 1];
    assert last in m;
    assert MatchOf(doc, [name], conditional, last);
    forall q | MatchOf(doc, [name], conditional, q) && q != last ensures Later(last, q) {
      assert ElementAt(doc, q).name == name;
      assert q in m;
      var k :| 0 <= k < |m| && m[k] == q;
    }
  }

  /** Property returns the document-last unconditional element named `name`;
      only when there is none and `tryConditional` holds, the last conditional
      one; null exactly when neither applies. */
  lemma PropertyIsLast(doc: Document, name: string, tryConditional: bool)
    ensures (exists q :: MatchOf(doc, [name], false, q)) ==>
      Property(doc, name, tryConditional).Some? && IsLastMatch(doc, [name], false, Property(doc, name, tryConditional).value)
    ensures (!exists q :: MatchOf(doc, [name], false, q)) && tryConditional && (exists q :: MatchOf(doc, [name], true, q)) ==>
      Property(doc, name, tryConditional).Some? && IsLastMatch(doc, [name], true, Property(doc, name, tryConditional).value)
    ensures Property(doc, name, tryConditional).None? <==>
      (!exists q :: MatchOf(doc, [name], false, q)) && (!tryConditional || !exists q :: MatchOf(doc, [name], true, q))
  {
    PropertyAllPartition(doc, name);
    var u, c := Matches(doc, name, false), Matches(doc, name, true);
    assert forall q :: MatchOf(doc, [name], false, q) <==> q in u;
    assert forall q :: MatchOf(doc, [name], true, q) <==> q in c;
    if u != [] {
      LastOfIncreasing(doc, name, false);
    }
    if c != [] {
      LastOfIncreasing(doc, name, true);
    }
  }

  // ---------------------------------------------------------------------------
  // FindExistingElements and Store

  /** The result of FindExistingElements: per class the last element found and the others. */
  datatype PropertyFindResult = PropertyFindResult(
    lastUnconditional: Option<Pos>,
    lastConditional: Option<Pos>,
    otherUnconditional: seq<Pos>,
    otherConditional: seq<Pos>)
  {
    predicate LastElementIsConditional() {
      lastConditional.Some? && IsAfter(lastConditional.value, lastUnconditional)
    }

    predicate LastElementIsUnconditional() {
      lastUnconditional.Some? && IsAfter(lastUnconditional.value, lastConditional)
    }

    predicate FoundAny() {
      lastConditional.Some? || lastUnconditional.Some?
    }
  }

  /** `last` is at or after every element of `others` in document order. */
  predicate Dominates(last: Option<Pos>, others: seq<Pos>) {
    forall k :: 0 <= k < |others| ==> last.Some? && !Later(others[k], last.value)
  }

  /** Files `child` into one class: it becomes the last element when there is
      none yet or when it is after the current one (which joins the others),
      and joins the others otherwise. */
  function Store(child: Pos, last: Option<Pos>, others: seq<Pos>): (Option<Pos>, seq<Pos>) {
    if last.Some? then
      if IsAfter(child, last) then (Some(child), others + [last.value])
      else (last, others + [child])
    else (Some(child), others)
  }

  /** Store loses no element, always leaves a last element, and keeps the
      last element at or after all the others. */
  lemma StoreInvariant(child: Pos, last: Option<Pos>, others: seq<Pos>)
    ensures Store(child, last, others).0.Some?
    ensures var s := Store(child, last, others);
      multiset(s.1 + AsSeq(s.0)) == multiset(others + AsSeq(last)) + multiset{child}
    ensures Dominates(last, others) && (last.None? ==> others == []) ==>
      Dominates(Store(child, last, others).0, Store(child, last, others).1)
  {
    var (l, o) := Store(child, last, others);
    if last.Some? {
      assert others + AsSeq(last) == others + [last.value];
      if IsAfter(child, last) {
        assert o + AsSeq(l) == others + [last.value] + [child];
      } else {
        assert o + AsSeq(l) == others + [child] + [last.value];
        if Dominates(last, others) {
          forall k | 0 <= k < |o| ensures !Later(o[k], last.value) {
            if k < |others| {
              assert o[k] == others[k];
            }
          }
        }
      }
    } else {
      assert others + AsSeq(last) == others;
    }
  }

  /** Store applied to each of `children` in turn. */
  function StoreAll(last: Option<Pos>, others: seq<Pos>, children: seq<Pos>): (Option<Pos>, seq<Pos>) {
    if children == [] then (last, others)
    else
      var s := StoreAll(last, others, children[..|children| - 1]);
      Store(children[|children| - 1], s.0, s.1)
  }

  /** What FindExistingElements computes for `names`, one name after the other. */
  function ExistingElements(doc: Document, names: seq<string>): PropertyFindResult {
    if names == [] then PropertyFindResult(None, None, [], [])
    else FindStep(doc, ExistingElements(doc, names[..|names| - 1]), names[|names| - 1])
  }

  /** Storing the unconditional, then the conditional matches of one name. */
  function FindStep(doc: Document, r: PropertyFindResult, name: string): PropertyFindResult {
    var u := StoreAll(r.lastUnconditional, r.otherUnconditional, Matches(doc, name, false));
    var c := StoreAll(r.lastConditional, r.otherConditional, Matches(doc, name, true));
    PropertyFindResult(u.0, c.0, u.1, c.1)
  }

  method FindExistingElements(doc: Document, names: seq<string>) returns (result: PropertyFindResult)
    ensures result == ExistingElements(doc, names)
  {
    result := PropertyFindResult(None, None, [], []);
    for i := 0 to |names|
      invariant result == ExistingElements(doc, names[..i])
    {
      assert names[..i + 1][..i] == names[..i];
      var unconditional, conditional := PropertyAll(doc, names[i]);
      var lastU, otherU := result.lastUnconditional, result.otherUnconditional;
      var lastC, otherC := result.lastConditional, result.otherConditional;
      for j := 0 to |unconditional|
        invariant (lastU, otherU) == StoreAll(result.lastUnconditional, result.otherUnconditional, unconditional[..j])
      {
        assert unconditional[..j + 1][..j] == unconditional[..j];
        var stored := Store(unconditional[j], lastU, otherU);
        lastU, otherU := stored.0, stored.1;
      }
      assert unconditional[..|unconditional|] == unconditional;
      for j := 0 to |conditional|
        invariant (lastC, otherC) == StoreAll(result.lastConditional, result.otherConditional, conditional[..j])
      {
        assert conditional[..j + 1][..j] == conditional[..j];
        var stored := Store(conditional[j], lastC, otherC);
        lastC, otherC := stored.0, stored.1;
      }
      assert conditional[..|conditional|] == conditional;
      result := PropertyFindResult(lastU, lastC, otherU, otherC);
    }
    assert names[..|names|] == names;
  }

  /** Every match of the given class for the names, name after name (the
      order in which FindExistingElements visits them). */
  function AllMatches(doc: Document, names: seq<string>, conditional: bool): seq<Pos> {
    if names == [] then []
    else AllMatches(doc, names[..|names| - 1], conditional) + Matches(doc, names[|names| - 1], conditional)
  }

  lemma {:induction false} AllMatchesMembers(doc: Document, names: seq<string>, conditional: bool)
    ensures forall p :: p in AllMatches(doc, names, conditional) <==> MatchOf(doc, names, conditional, p)
  {
    if names != [] {
      var init, name := names[..|names| - 1], names[|names| - 1];
      AllMatchesMembers(doc, init, conditional);
      PropertyAllPartition(doc, name);
      assert forall n :: n in names <==> n in init || n == name by {
        assert names == init + [name];
      }
    }
  }

  lemma {:induction false} AllMatchesDistinct(doc: Document, names: seq<string>, conditional: bool)
    requires NoDuplicates(names)
    ensures NoDuplicates(AllMatches(doc, names, conditional))
  {
    if names != [] {
      var init, name := names[..|names| - 1], names[|names| - 1];
      assert NoDuplicates(init);
      AllMatchesDistinct(doc, init, conditional);
      AllMatchesMembers(doc, init, conditional);
      PropertyAllPartition(doc, name);
      var m := Matches(doc, name, conditional);
      assert name !in init by {
        forall k | 0 <= k < |init| ensures init[k] != name {
          assert init[k] == names[k];
        }
      }
      NoDuplicatesConcat(AllMatches(doc, init, conditional), m);
    }
  }

  /** Over any sequence of children, Store keeps the last element at or after
      all the others, and leaves no others without a last element. */
  lemma {:induction false} StoreAllDominates(last: Option<Pos>, others: seq<Pos>, children: seq<Pos>)
    requires Dominates(last, others) && (last.None? ==> others == [])
    ensures Dominates(StoreAll(last, others, children).0, StoreAll(last, others, children).1)
    ensures StoreAll(last, others, children).0.None? ==> StoreAll(last, others, children).1 == []
  {
    if children != [] {
      var init, child := children[..|children| - 1], children[|children| - 1];
      StoreAllDominates(last, others, init);
      var s0 := StoreAll(last, others, init);
      StoreInvariant(child, s0.0, s0.1);
    }
  }

  /** Over any sequence of children, Store loses no element and adds none,
      and a last element is absent only when there was none and no child. */
  lemma {:induction false} StoreAllCount(last: Option<Pos>, others: seq<Pos>, children: seq<Pos>)
    ensures multiset(StoreAll(last, others, children).1 + AsSeq(StoreAll(last, others, children).0))
      == multiset(others + AsSeq(last)) + multiset(children)
    ensures StoreAll(last, others, children).0.None? <==> last.None? && children == []
  {
    if children != [] {
      var init, child := children[..|children| - 1], children[|children| - 1];
      StoreAllCount(last, others, init);
      var s0 := StoreAll(last, others, init);
      StoreInvariant(child, s0.0, s0.1);
      MultisetSnoc(children);
    }
  }

  function AllUnconditional(r: PropertyFindResult): seq<Pos> {
    if r.lastUnconditional.Some? then r.otherUnconditional + [r.lastUnconditional.value] else []
  }

  function AllConditional(r: PropertyFindResult): seq<Pos> {
    if r.lastConditional.Some? then r.otherConditional + [r.lastConditional.value] else []
  }

  function All(r: PropertyFindResult): seq<Pos> {
    if r.LastElementIsConditional() then AllConditional(r) + AllUnconditional(r)
    else AllUnconditional(r) + AllConditional(r)
  }

  /** After FindExistingElements, for each class: the others followed by the
      last element are a permutation of all matches of that class, the last
      element is at or after each of the others, and it is absent exactly when
      nothing matched, in which case there are no others either. */
  lemma ExistingElementsInvariant(doc: Document, names: seq<string>)
    ensures var r := ExistingElements(doc, names);
      && multiset(AllUnconditional(r)) == multiset(AllMatches(doc, names, false))
      && multiset(AllConditional(r)) == multiset(AllMatches(doc, names, true))
      && Dominates(r.lastUnconditional, r.otherUnconditional)
      && Dominates(r.lastConditional, r.otherConditional)
      && (r.lastUnconditional.None? <==> AllMatches(doc, names, false) == [])
      && (r.lastConditional.None? <==> AllMatches(doc, names, true) == [])
      && (r.lastUnconditional.None? ==> r.otherUnconditional == [])
      && (r.lastConditional.None? ==> r.otherConditional == [])
  {
    ExistingElementsCount(doc, names);
    ExistingElementsDominate(doc, names);
    var r := ExistingElements(doc, names);
    assert AllUnconditional(r) == r.otherUnconditional + AsSeq(r.lastUnconditional);
    assert AllConditional(r) == r.otherConditional + AsSeq(r.lastConditional);
  }

  lemma {:induction false} ExistingElementsCount(doc: Document, names: seq<string>)
    ensures var r := ExistingElements(doc, names);
      && multiset(r.otherUnconditional + AsSeq(r.lastUnconditional)) == multiset(AllMatches(doc, names, false))
      && multiset(r.otherConditional + AsSeq(r.lastConditional)) == multiset(AllMatches(doc, names, true))
      && (r.lastUnconditional.None? <==> AllMatches(doc, names, false) == [])
      && (r.lastConditional.None? <==> AllMatches(doc, names, true) == [])
  {
    if names != [] {
      var init, name := names[..|names| - 1], names[|names| - 1];
      ExistingElementsCount(doc, init);
      var r := ExistingElements(doc, init);
      assert ExistingElements(doc, names) == FindStep(doc, r, name);
      StoreAllCount(r.lastUnconditional, r.otherUnconditional, Matches(doc, name, false));
      StoreAllCount(r.lastConditional, r.otherConditional, Matches(doc, name, true));
    }
  }

  lemma {:induction false} ExistingElementsDominate(doc: Document, names: seq<string>)
    ensures var r := ExistingElements(doc, names);
      && Dominates(r.lastUnconditional, r.otherUnconditional)
      && Dominates(r.lastConditional, r.otherConditional)
      && (r.lastUnconditional.None? ==> r.otherUnconditional == [])
      && (r.lastConditional.None? ==> r.otherConditional == [])
  {
    if names != [] {
      var init, name := names[..|names| - 1], names[|names| - 1];
      ExistingElementsDominate(doc, init);
      var r := ExistingElements(doc, init);
      assert ExistingElements(doc, names) == FindStep(doc, r, name);
      StoreAllDominates(r.lastUnconditional, r.otherUnconditional, Matches(doc, name, false));
      StoreAllDominates(r.lastConditional, r.otherConditional, Matches(doc, name, true));
    }
  }

  /** Per class, what the invariant of FindExistingElements means: the last
      element is the document-last match of that class, and it is absent
      exactly when nothing of that class matched. */
  lemma LastOfClass(doc: Document, names: seq<string>, conditional: bool, last: Option<Pos>, others: seq<Pos>)
    requires multiset(if last.Some? then others + [last.value] else []) == multiset(AllMatches(doc, names, conditional))
    requires Dominates(last, others)
    requires last.None? <==> AllMatches(doc, names, conditional) == []
    ensures last.Some? ==> IsLastMatch(doc, names, conditional, last.value)
    ensures last.None? <==> forall q :: !MatchOf(doc, names, conditional, q)
  {
    AllMatchesMembers(doc, names, conditional);
    var m := AllMatches(doc, names, conditional);
    if last.Some? {
      var all := others + [last.value];
      assert last.value in multiset(all);
      assert last.value in m;
      forall q | MatchOf(doc, names, conditional, q) && q != last.value ensures Later(last.value, q) {
        assert q in multiset(m);
        assert q in all;
        var k :| 0 <= k < |all| && all[k] == q;
        assert others[k] == q;
      }
    } else {
      forall q ensures !MatchOf(doc, names, conditional, q) {
        assert q !in m;
      }
    }
  }

  /** FindExistingElements finds, per class, the document-last element named
      by any of `names`, or null when that class has none. */
  lemma FindLasts(doc: Document, names: seq<string>)
    ensures var r := ExistingElements(doc, names);
      && (r.lastUnconditional.Some? ==> IsLastMatch(doc, names, false, r.lastUnconditional.value))
      && (r.lastConditional.Some? ==> IsLastMatch(doc, names, true, r.lastConditional.value))
      && (r.lastUnconditional.None? <==> forall q :: !MatchOf(doc, names, false, q))
      && (r.lastConditional.None? <==> forall q :: !MatchOf(doc, names, true, q))
  {
    var r := ExistingElements(doc, names);
    ExistingElementsInvariant(doc, names);
    LastOfClass(doc, names, false, r.lastUnconditional, r.otherUnconditional);
    LastOfClass(doc, names, true, r.lastConditional, r.otherConditional);
  }

  /** The flags of PropertyFindResult: FoundAny holds exactly when some element
      has one of the names; LastElementIsConditional (resp. Unconditional)
      holds exactly when there is a conditional (unconditional) match after
      every match of the other class; at most one of the two holds, and one
      does whenever something was found: the conditional one when only
      conditional elements matched, and neither when nothing matched. */
  lemma FindFlags(doc: Document, names: seq<string>)
    ensures var r := ExistingElements(doc, names);
      && (r.FoundAny() <==> exists q :: ValidPos(doc, q) && ElementAt(doc, q).name in names)
      && (r.LastElementIsConditional() <==>
            r.lastConditional.Some? && forall q :: MatchOf(doc, names, false, q) ==> Later(r.lastConditional.value, q))
      && (r.LastElementIsUnconditional() <==>
            r.lastUnconditional.Some? && forall q :: MatchOf(doc, names, true, q) ==> Later(r.lastUnconditional.value, q))
      && !(r.LastElementIsConditional() && r.LastElementIsUnconditional())
      && (r.FoundAny() ==> r.LastElementIsConditional() || r.LastElementIsUnconditional())
      && ((forall q :: !MatchOf(doc, names, false, q)) && (exists q :: MatchOf(doc, names, true, q)) ==>
            r.LastElementIsConditional())
      && (!r.FoundAny() ==> !r.LastElementIsConditional() && !r.LastElementIsUnconditional())
  {
    var r := ExistingElements(doc, names);
    FindLasts(doc, names);
    var lu, lc := r.lastUnconditional, r.lastConditional;
    if exists q :: ValidPos(doc, q) && ElementAt(doc, q).name in names {
      var q :| ValidPos(doc, q) && ElementAt(doc, q).name in names;
      assert MatchOf(doc, names, PropertyCondition(doc, q), q);
    }
    if lu.Some? && lc.Some? {
      assert MatchOf(doc, names, false, lu.value) && MatchOf(doc, names, true, lc.value);
      assert lu.value != lc.value;
    }
  }

  /** FindExistingElements finds something exactly when some element has one of the names. */
  lemma FoundAnyIff(doc: Document, names: seq<string>)
    ensures ExistingElements(doc, names).FoundAny() <==> exists q :: ValidPos(doc, q) && ElementAt(doc, q).name in names
  {
    FindFlags(doc, names);
  }

  /** All holds every match of every name, once per time FindExistingElements
      visited it. */
  lemma AllCount(doc: Document, names: seq<string>)
    ensures multiset(All(ExistingElements(doc, names)))
      == multiset(AllMatches(doc, names, false)) + multiset(AllMatches(doc, names, true))
  {
    var r := ExistingElements(doc, names);
    ExistingElementsInvariant(doc, names);
    assert multiset(All(r)) == multiset(AllUnconditional(r)) + multiset(AllConditional(r));
  }

  /** All is empty exactly when nothing was found, and refers to elements of the document. */
  lemma AllValid(doc: Document, names: seq<string>)
    ensures ExistingElements(doc, names).FoundAny() <==> All(ExistingElements(doc, names)) != []
    ensures forall p :: p in All(ExistingElements(doc, names)) ==> ValidPos(doc, p)
  {
    AllMembers(doc, names);
  }

  /** All holds exactly the elements that have one of the names. */
  lemma AllMembers(doc: Document, names: seq<string>)
    ensures forall p :: p in All(ExistingElements(doc, names)) <==> ValidPos(doc, p) && ElementAt(doc, p).name in names
  {
    var all := All(ExistingElements(doc, names));
    var u, c := AllMatches(doc, names, false), AllMatches(doc, names, true);
    AllCount(doc, names);
    AllMatchesMembers(doc, names, false);
    AllMatchesMembers(doc, names, true);
    forall p ensures p in all <==> ValidPos(doc, p) && ElementAt(doc, p).name in names {
      calc {
        p in all;
        multiset(all)[p] > 0;
        multiset(u)[p] + multiset(c)[p] > 0;
        p in u || p in c;
        MatchOf(doc, names, false, p) || MatchOf(doc, names, true, p);
      }
    }
  }

  /** With distinct names, All visits each match exactly once. */
  lemma AllDistinct(doc: Document, names: seq<string>)
    requires NoDuplicates(names)
    ensures NoDuplicates(All(ExistingElements(doc, names)))
  {
    var all := All(ExistingElements(doc, names));
    AllCount(doc, names);
    var u, c := AllMatches(doc, names, false), AllMatches(doc, names, true);
    AllMatchesDistinct(doc, names, false);
    AllMatchesDistinct(doc, names, true);
    NoDuplicatesCount(u);
    NoDuplicatesCount(c);
    AllMatchesMembers(doc, names, false);
    AllMatchesMembers(doc, names, true);
    forall x ensures multiset(all)[x] <= 1 {
      if x in u {
        assert x !in c;
      }
    }
    CountNoDuplicates(all);
  }

  /** Some element of one of `names` has PropertyCondition `conditional`. */
  ghost predicate HasMatch(doc: Document, names: seq<string>, conditional: bool) {
    exists q :: MatchOf(doc, names, conditional, q)
  }

  /** Some element of one of `names` whose PropertyCondition is `conditional` comes after `p`. */
  ghost predicate MatchAfter(doc: Document, names: seq<string>, conditional: bool, p: Pos) {
    exists q :: MatchOf(doc, names, conditional, q) && Later(q, p)
  }

  /** The element All ends with, which ReplacePropertiesWith keeps (or
      replaces): when both classes matched, it is the EARLIER of the two
      class-last elements in document order; when one class matched, it is
      that class's last element. */
  lemma AllFinal(doc: Document, names: seq<string>)
    ensures var r := ExistingElements(doc, names);
      var all := All(r);
      && (r.FoundAny() <==> all != [])
      && (r.lastUnconditional.Some? && r.lastConditional.Some? ==>
            all[|all| - 1] == if Later(r.lastConditional.value, r.lastUnconditional.value)
                             then r.lastUnconditional.value else r.lastConditional.value)
      && (r.lastUnconditional.Some? && r.lastConditional.None? ==> all[|all| - 1] == r.lastUnconditional.value)
      && (r.lastUnconditional.None? && r.lastConditional.Some? ==> all[|all| - 1] == r.lastConditional.value)
  {
  }

  /** So the element All ends with is the document-last match of its own
      class, and whenever the other class matched too, a match of the other
      class comes after it. */
  lemma AllFinalIsLastOfItsClass(doc: Document, names: seq<string>)
    requires ExistingElements(doc, names).FoundAny()
    ensures var all := All(ExistingElements(doc, names));
      var last := all[|all| - 1];
      && ValidPos(doc, last)
      && IsLastMatch(doc, names, PropertyCondition(doc, last), last)
      && (HasMatch(doc, names, !PropertyCondition(doc, last)) ==>
            MatchAfter(doc, names, !PropertyCondition(doc, last), last))
  {
    var r := ExistingElements(doc, names);
    FindLasts(doc, names);
    AllFinal(doc, names);
    var lu, lc := r.lastUnconditional, r.lastConditional;
    if lu.Some? && lc.Some? {
      assert MatchOf(doc, names, false, lu.value) && MatchOf(doc, names, true, lc.value);
      assert lu.value != lc.value;
    }
  }

  /** A strictly increasing sequence of references has no duplicates. */
  lemma IncreasingNoDuplicates(ps: seq<Pos>)
    requires Increasing(ps)
    ensures NoDuplicates(ps)
  {
    forall i, j | 0 <= i < j < |ps| ensures ps[i] != ps[j] {
      assert Later(ps[j], ps[i]);
    }
  }

  /** Matches holds each match once and nothing else. */
  lemma MatchesCount(doc: Document, name: string, conditional: bool, p: Pos)
    ensures multiset(Matches(doc, name, conditional))[p] ==
      if ValidPos(doc, p) && PropertyCondition(doc, p) == conditional && ElementAt(doc, p).name == name then 1 else 0
  {
    var m := Matches(doc, name, conditional);
    PropertyAllPartition(doc, name);
    IncreasingNoDuplicates(m);
    NoDuplicatesCount(m);
    if p in m {
      assert multiset(m)[p] >= 1;
    }
  }

  /** An element of the given class occurs in AllMatches once per occurrence
      of its name in `names`; nothing else occurs. */
  lemma {:induction false} AllMatchesCount(doc: Document, names: seq<string>, conditional: bool, p: Pos)
    ensures multiset(AllMatches(doc, names, conditional))[p] ==
      if ValidPos(doc, p) && PropertyCondition(doc, p) == conditional then multiset(names)[ElementAt(doc, p).name] else 0
  {
    if names != [] {
      var init, name := names[..|names| - 1], names[|names| - 1];
      AllMatchesCount(doc, init, conditional, p);
      MultisetSnoc(names);
      MatchesCount(doc, name, conditional, p);
    }
  }

  /** With distinct names, the last element of each class is strictly after
      every other element of that class. */
  lemma FindStrict(doc: Document, names: seq<string>)
    requires NoDuplicates(names)
    ensures var r := ExistingElements(doc, names);
      && (forall k :: 0 <= k < |r.otherUnconditional| ==>
            r.lastUnconditional.Some? && Later(r.lastUnconditional.value, r.otherUnconditional[k]))
      && (forall k :: 0 <= k < |r.otherConditional| ==>
            r.lastConditional.Some? && Later(r.lastConditional.value, r.otherConditional[k]))
  {
    var r := ExistingElements(doc, names);
    ExistingElementsInvariant(doc, names);
    StrictClass(doc, names, false, r.lastUnconditional, r.otherUnconditional);
    StrictClass(doc, names, true, r.lastConditional, r.otherConditional);
  }

  lemma StrictClass(doc: Document, names: seq<string>, conditional: bool, last: Option<Pos>, others: seq<Pos>)
    requires NoDuplicates(names)
    requires multiset(if last.Some? then others + [last.value] else []) == multiset(AllMatches(doc, names, conditional))
    requires Dominates(last, others) && (last.None? ==> others == [])
    ensures forall k :: 0 <= k < |others| ==> last.Some? && Later(last.value, others[k])
  {
    if last.Some? {
      var all := others + [last.value];
      AllMatchesDistinct(doc, names, conditional);
      NoDuplicatesCount(AllMatches(doc, names, conditional));
      assert multiset(all) == multiset(AllMatches(doc, names, conditional));
      assert forall x :: multiset(all)[x] <= 1;
      CountNoDuplicates(all);
      forall k | 0 <= k < |others| ensures Later(last.value, others[k]) {
        assert all[k] == others[k] && all[|others|] == last.value;
        assert others[k] != last.value;
        assert !Later(others[k], last.value);
      }
    }
  }
}
