/**
 * The project document as the property code sees it: an ordered list of
 * PropertyGroup elements, each holding ordered property elements.  The XML
 * tree operations it relies on (document order, Remove, ReplaceWith, Add) are
 * modelled as edits of this value.
 */
module ProjectModel {
  import opened Wrappers

  /** A property element.  `id` stands for the element's object identity,
      `hasCondition` for a Condition attribute on the element itself. */
  datatype Element = Element(id: nat, name: string, value: string, hasCondition: bool)

  /** A PropertyGroup; `hasCondition` says whether it carries a Condition attribute. */
  datatype PropertyGroup = PropertyGroup(hasCondition: bool, elements: seq<Element>)

  type Document = seq<PropertyGroup>

  /** A reference to the element at `index` of group `group` of a document
      that does not change while the reference is in use. */
  datatype Pos = Pos(group: nat, index: nat)

  predicate ValidPos(doc: Document, p: Pos) {
    p.group < |doc| && p.index < |doc[p.group].elements|
  }

  function ElementAt(doc: Document, p: Pos): Element
    requires ValidPos(doc, p)
  {
    doc[p.group].elements[p.index]
  }

  /** Strict document order: group index first, then position in the group. */
  predicate Later(a: Pos, b: Pos) {
    a.group > b.group || (a.group == b.group && a.index > b.index)
  }

  /** XNode.IsAfter, with the convention that every node is after null. */
  predicate IsAfter(a: Pos, b: Option<Pos>) {
    b.None? || Later(a, b.value)
  }

  /** Strictly increasing in document order. */
  predicate Increasing(ps: seq<Pos>) {
    forall i, j :: 0 <= i < j < |ps| ==> Later(ps[j], ps[i])
  }

  /** The element, or the group holding it, carries a Condition attribute. */
  predicate PropertyCondition(doc: Document, p: Pos)
    requires ValidPos(doc, p)
  {
    doc[p.group].hasCondition || ElementAt(doc, p).hasCondition
  }

  /** `p` refers to an element whose (local) name is `name`. */
  predicate IsMatch(doc: Document, name: string, p: Pos) {
    ValidPos(doc, p) && ElementAt(doc, p).name == name
  }

  /** The elements named `name` at or after position (g, i), in document order. */
  function MatchesFrom(doc: Document, name: string, g: nat, i: nat): (r: seq<Pos>)
    requires g <= |doc| && (g < |doc| ==> i <= |doc[g].elements|)
    ensures forall k :: 0 <= k < |r| ==> IsMatch(doc, name, r[k]) && !Later(Pos(g, i), r[k])
    ensures forall p :: IsMatch(doc, name, p) && !Later(Pos(g, i), p) ==> p in r
    ensures Increasing(r)
    decreases |doc| - g, if g < |doc| then |doc[g].elements| - i else 0
  {
    if g == |doc| then []
    else if i == |doc[g].elements| then MatchesFrom(doc, name, g + 1, 0)
    else (if doc[g].elements[i].name == name then [Pos(g, i)] else []) + MatchesFrom(doc, name, g, i + 1)
  }

  /** Every element of every group whose local name is `name`, groups in
      order and the children of each group in order. */
  function ElementsAnyNamespace(doc: Document, name: string): (r: seq<Pos>)
    ensures forall p :: p in r <==> IsMatch(doc, name, p)
    ensures Increasing(r)
  {
    MatchesFrom(doc, name, 0, 0)
  }

  /** The ids of the elements of a sequence. */
  function IdSet(es: seq<Element>): set<nat> {
    set e | e in es :: e.id
  }

  /** The ids of every element of the document. */
  function Ids(doc: Document): set<nat> {
    set g, e | 0 <= g < |doc| && e in doc[g].elements :: e.id
  }

  /** The ids of every element named by one of `names`. */
  function NamedIds(doc: Document, names: seq<string>): set<nat> {
    set g, e | 0 <= g < |doc| && e in doc[g].elements && e.name in names :: e.id
  }

  /** The ids of the elements the references in `ps` point to. */
  function IdsAt(doc: Document, ps: seq<Pos>): set<nat> {
    set p | p in ps && ValidPos(doc, p) :: ElementAt(doc, p).id
  }

  predicate NoDuplicateIds(es: seq<Element>) {
    forall i, j :: 0 <= i < j < |es| ==> es[i].id != es[j].id
  }

  /** Each element object occurs at most once in the document. */
  predicate UniqueIds(doc: Document) {
    && (forall g :: 0 <= g < |doc| ==> NoDuplicateIds(doc[g].elements))
    && (forall g, h :: 0 <= g < h < |doc| ==> IdSet(doc[g].elements) !! IdSet(doc[h].elements))
  }

  /** In a document with unique ids, an id identifies one position. */
  lemma IdIdentifiesPosition(doc: Document, p: Pos, q: Pos)
    requires UniqueIds(doc) && ValidPos(doc, p) && ValidPos(doc, q)
    requires ElementAt(doc, p).id == ElementAt(doc, q).id
    ensures p == q
  {
    var ep, eq := ElementAt(doc, p), ElementAt(doc, q);
    assert ep in doc[p.group].elements && eq in doc[q.group].elements;
    assert ep.id in IdSet(doc[p.group].elements) && eq.id in IdSet(doc[q.group].elements);
    assert NoDuplicateIds(doc[p.group].elements);
  }

  lemma IdsMember(doc: Document, p: Pos)
    requires ValidPos(doc, p)
    ensures ElementAt(doc, p).id in Ids(doc)
  {
    assert ElementAt(doc, p) in doc[p.group].elements;
  }

  // ---------------------------------------------------------------------------
  // Removing elements (XNode.Remove)

  /** `es` without the elements whose id is in `ids`, order kept. */
  function Without(es: seq<Element>, ids: set<nat>): (r: seq<Element>)
    ensures forall e :: e in r <==> e in es && e.id !in ids
    ensures |r| <= |es|
  {
    if es == [] then []
    else (if es[0].id in ids then [] else [es[0]]) + Without(es[1..], ids)
  }

  lemma {:induction false} WithoutIds(es: seq<Element>, ids: set<nat>)
    ensures IdSet(Without(es, ids)) == IdSet(es) - ids
  {
    var r := Without(es, ids);
    forall x ensures x in IdSet(r) <==> x in IdSet(es) - ids {
      if x in IdSet(r) {
        var e :| e in r && e.id == x;
      }
      if x in IdSet(es) - ids {
        var e :| e in es && e.id == x;
        assert e in r;
      }
    }
  }

  lemma {:induction false} WithoutNoDuplicates(es: seq<Element>, ids: set<nat>)
    requires NoDuplicateIds(es)
    ensures NoDuplicateIds(Without(es, ids))
  {
    if es != [] {
      var rest := Without(es[1..], ids);
      assert NoDuplicateIds(es[1..]) by {
        forall i, j | 0 <= i < j < |es[1..]| ensures es[1..][i].id != es[1..][j].id {
          assert es[1..][i] == es[i + 1] && es[1..][j] == es[j + 1];
        }
      }
      WithoutNoDuplicates(es[1..], ids);
      if es[0].id !in ids {
        forall e | e in rest ensures e.id != es[0].id {
          var k :| 0 <= k < |es[1..]| && es[1..][k] == e;
          assert es[k + 1] == e;
        }
        NoDuplicateIdsCons(es[0], rest);
      }
    }
  }

  lemma NoDuplicateIdsCons(x: Element, t: seq<Element>)
    requires NoDuplicateIds(t)
    requires forall e :: e in t ==> e.id != x.id
    ensures NoDuplicateIds([x] + t)
  {
    var s := [x] + t;
    forall i, j | 0 <= i < j < |s| ensures s[i].id != s[j].id {
      assert s[j] == t[j - 1];
      if i > 0 {
        assert s[i] == t[i - 1];
      } else {
        assert t[j - 1] in t;
      }
    }
  }

  lemma {:induction false} WithoutWithout(es: seq<Element>, a: set<nat>, b: set<nat>)
    ensures Without(Without(es, a), b) == Without(es, a + b)
  {
    if es != [] {
      WithoutWithout(es[1..], a, b);
      var head := if es[0].id in a then [] else [es[0]];
      assert Without(es, a) == head + Without(es[1..], a);
      WithoutConcat(head, Without(es[1..], a), b);
      assert Without(head, b) == if es[0].id in a + b then [] else [es[0]] by {
        if head != [] {
          assert head[1..] == [];
        }
      }
    }
  }

  lemma {:induction false} WithoutConcat(xs: seq<Element>, ys: seq<Element>, ids: set<nat>)
    ensures Without(xs + ys, ids) == Without(xs, ids) + Without(ys, ids)
  {
    if xs != [] {
      assert (xs + ys)[0] == xs[0];
      assert (xs + ys)[1..] == xs[1..] + ys;
      WithoutConcat(xs[1..], ys, ids);
    } else {
      assert xs + ys == ys;
    }
  }

  /** Removing ids that do not occur changes nothing. */
  lemma {:induction false} WithoutAbsent(es: seq<Element>, ids: set<nat>)
    requires IdSet(es) !! ids
    ensures Without(es, ids) == es
  {
    if es != [] {
      assert es[0].id in IdSet(es);
      assert IdSet(es[1..]) <= IdSet(es) by {
        forall x | x in IdSet(es[1..]) ensures x in IdSet(es) {
          var e :| e in es[1..] && e.id == x;
        }
      }
      WithoutAbsent(es[1..], ids);
      assert [es[0]] + es[1..] == es;
    }
  }

  /** The document with every element whose id is in `ids` removed. */
  function RemoveIds(doc: Document, ids: set<nat>): (r: Document)
    ensures |r| == |doc|
    ensures forall g :: 0 <= g < |doc| ==>
      r[g].hasCondition == doc[g].hasCondition && r[g].elements == Without(doc[g].elements, ids)
  {
    seq(|doc|, g requires 0 <= g < |doc| => PropertyGroup(doc[g].hasCondition, Without(doc[g].elements, ids)))
  }

  lemma RemoveIdsFacts(doc: Document, ids: set<nat>)
    ensures Ids(RemoveIds(doc, ids)) == Ids(doc) - ids
    ensures UniqueIds(doc) ==> UniqueIds(RemoveIds(doc, ids))
  {
    var r := RemoveIds(doc, ids);
    forall g | 0 <= g < |doc| ensures IdSet(r[g].elements) == IdSet(doc[g].elements) - ids {
      WithoutIds(doc[g].elements, ids);
    }
    forall x ensures x in Ids(r) <==> x in Ids(doc) - ids {
      if x in Ids(r) {
        var g, e :| 0 <= g < |r| && e in r[g].elements && e.id == x;
        assert e in doc[g].elements;
      }
      if x in Ids(doc) - ids {
        var g, e :| 0 <= g < |doc| && e in doc[g].elements && e.id == x;
        assert e in r[g].elements;
      }
    }
    if UniqueIds(doc) {
      forall g | 0 <= g < |r| ensures NoDuplicateIds(r[g].elements) {
        WithoutNoDuplicates(doc[g].elements, ids);
      }
    }
  }

  lemma RemoveIdsTwice(doc: Document, a: set<nat>, b: set<nat>)
    ensures RemoveIds(RemoveIds(doc, a), b) == RemoveIds(doc, a + b)
  {
    var l, r := RemoveIds(RemoveIds(doc, a), b), RemoveIds(doc, a + b);
    forall g | 0 <= g < |doc| ensures l[g] == r[g] {
      WithoutWithout(doc[g].elements, a, b);
    }
  }

  lemma RemoveIdsNone(doc: Document)
    ensures RemoveIds(doc, {}) == doc
  {
    forall g | 0 <= g < |doc| ensures RemoveIds(doc, {})[g] == doc[g] {
      WithoutAbsent(doc[g].elements, {});
    }
  }

  // ---------------------------------------------------------------------------
  // Replacing an element in place (XNode.ReplaceWith)

  /** `es` with the element whose id is `id` replaced by `n`. */
  function ReplaceIn(es: seq<Element>, id: nat, n: Element): (r: seq<Element>)
    ensures |r| == |es|
    ensures forall k :: 0 <= k < |es| ==> r[k] == if es[k].id == id then n else es[k]
  {
    if es == [] then []
    else [if es[0].id == id then n else es[0]] + ReplaceIn(es[1..], id, n)
  }

  /** The document with the element whose id is `id` replaced by `n`. */
  function ReplaceId(doc: Document, id: nat, n: Element): (r: Document)
    ensures |r| == |doc|
    ensures forall g :: 0 <= g < |doc| ==>
      r[g].hasCondition == doc[g].hasCondition && r[g].elements == ReplaceIn(doc[g].elements, id, n)
  {
    seq(|doc|, g requires 0 <= g < |doc| => PropertyGroup(doc[g].hasCondition, ReplaceIn(doc[g].elements, id, n)))
  }

  /** Replacing an id that does not occur changes nothing. */
  lemma ReplaceInAbsent(es: seq<Element>, id: nat, n: Element)
    requires id !in IdSet(es)
    ensures ReplaceIn(es, id, n) == es
  {
    forall k | 0 <= k < |es| ensures es[k].id != id {
      assert es[k] in es;
    }
  }

  /** Taking the new element out again leaves the old one taken out. */
  lemma {:induction false} WithoutReplaced(es: seq<Element>, id: nat, n: Element)
    requires n.id !in IdSet(es)
    ensures Without(ReplaceIn(es, id, n), {n.id}) == Without(es, {id})
  {
    if es != [] {
      assert es[0] in es;
      assert IdSet(es[1..]) <= IdSet(es) by {
        forall x | x in IdSet(es[1..]) ensures x in IdSet(es) {
          var e :| e in es[1..] && e.id == x;
        }
      }
      WithoutReplaced(es[1..], id, n);
      var r := ReplaceIn(es, id, n);
      assert r[1..] == ReplaceIn(es[1..], id, n);
    }
  }

  lemma ReplaceInNoDuplicates(es: seq<Element>, id: nat, n: Element)
    requires NoDuplicateIds(es) && n.id !in IdSet(es)
    ensures NoDuplicateIds(ReplaceIn(es, id, n))
  {
    var r := ReplaceIn(es, id, n);
    forall i, j | 0 <= i < j < |r| ensures r[i].id != r[j].id {
      assert es[i] in es && es[j] in es;
    }
  }

  lemma ReplaceInIds(es: seq<Element>, id: nat, n: Element)
    ensures IdSet(ReplaceIn(es, id, n)) == if id in IdSet(es) then IdSet(es) - {id} + {n.id} else IdSet(es)
  {
    var r := ReplaceIn(es, id, n);
    var want := if id in IdSet(es) then IdSet(es) - {id} + {n.id} else IdSet(es);
    forall x | x in IdSet(r) ensures x in want {
      var e :| e in r && e.id == x;
      var k :| 0 <= k < |r| && r[k] == e;
      assert es[k] in es;
    }
    forall x | x in want ensures x in IdSet(r) {
      if id in IdSet(es) && x == n.id {
        var e :| e in es && e.id == id;
        var k :| 0 <= k < |es| && es[k] == e;
        assert r[k] == n;
      } else {
        var e :| e in es && e.id == x;
        var k :| 0 <= k < |es| && es[k] == e;
        assert r[k] == e;
      }
    }
  }

  lemma GroupIdsInIds(doc: Document, g: nat)
    requires g < |doc|
    ensures IdSet(doc[g].elements) <= Ids(doc)
  {
    forall e | e in doc[g].elements ensures e.id in Ids(doc) { }
  }

  /** An id that occurs in one group only leaves the other groups untouched. */
  lemma ReplaceIdOneGroup(doc: Document, id: nat, n: Element, g0: nat)
    requires UniqueIds(doc) && g0 < |doc| && id in IdSet(doc[g0].elements)
    ensures forall g :: 0 <= g < |doc| && g != g0 ==> ReplaceId(doc, id, n)[g] == doc[g]
  {
    forall g | 0 <= g < |doc| && g != g0 ensures ReplaceId(doc, id, n)[g] == doc[g] {
      assert id !in IdSet(doc[g].elements) by {
        if g < g0 {
          assert IdSet(doc[g].elements) !! IdSet(doc[g0].elements);
        } else {
          assert IdSet(doc[g0].elements) !! IdSet(doc[g].elements);
        }
      }
      ReplaceInAbsent(doc[g].elements, id, n);
    }
  }

  lemma ReplaceIdUnique(doc: Document, id: nat, n: Element)
    requires UniqueIds(doc) && id in Ids(doc) && n.id !in Ids(doc)
    ensures UniqueIds(ReplaceId(doc, id, n))
  {
    var r := ReplaceId(doc, id, n);
    var g0, e0 :| 0 <= g0 < |doc| && e0 in doc[g0].elements && e0.id == id;
    assert id in IdSet(doc[g0].elements);
    ReplaceIdOneGroup(doc, id, n, g0);
    var es := doc[g0].elements;
    GroupIdsInIds(doc, g0);
    ReplaceInNoDuplicates(es, id, n);
    ReplaceInIds(es, id, n);
    assert IdSet(r[g0].elements) <= IdSet(es) + {n.id};
    forall h | 0 <= h < |doc| && h != g0 ensures IdSet(r[g0].elements) !! IdSet(r[h].elements) {
      GroupIdsInIds(doc, h);
      assert n.id !in IdSet(doc[h].elements);
      assert IdSet(es) !! IdSet(doc[h].elements) by {
        if h < g0 {
          assert IdSet(doc[h].elements) !! IdSet(es);
        }
      }
    }
    assert forall g :: 0 <= g < |doc| ==> NoDuplicateIds(r[g].elements);
    forall g, h | 0 <= g < h < |doc| ensures IdSet(r[g].elements) !! IdSet(r[h].elements) {
      if g != g0 && h != g0 {
        assert IdSet(doc[g].elements) !! IdSet(doc[h].elements);
      }
    }
  }

  // ---------------------------------------------------------------------------
  // Appending an element to a group (XContainer.Add)

  /** The document with `n` appended to group `g`. */
  function Append(doc: Document, g: nat, n: Element): (r: Document)
    requires g < |doc|
    ensures |r| == |doc|
    ensures forall h :: 0 <= h < |doc| ==> r[h].hasCondition == doc[h].hasCondition
    ensures r[g].elements == doc[g].elements + [n]
    ensures forall h :: 0 <= h < |doc| && h != g ==> r[h] == doc[h]
  {
    doc[g := PropertyGroup(doc[g].hasCondition, doc[g].elements + [n])]
  }

  lemma AppendFacts(doc: Document, g: nat, n: Element)
    requires g < |doc| && UniqueIds(doc) && n.id !in Ids(doc)
    ensures Ids(Append(doc, g, n)) == Ids(doc) + {n.id}
    ensures UniqueIds(Append(doc, g, n))
  {
    var r := Append(doc, g, n);
    var es := doc[g].elements;
    assert IdSet(es + [n]) == IdSet(es) + {n.id} by {
      forall x ensures x in IdSet(es + [n]) <==> x in IdSet(es) + {n.id} {
        if x in IdSet(es) {
          var e :| e in es && e.id == x;
          assert e in es + [n];
        }
        assert n in es + [n];
      }
    }
    forall e | e in es ensures e.id != n.id {
      assert e.id in Ids(doc);
    }
    forall h | 0 <= h < |doc| ensures IdSet(doc[h].elements) <= Ids(doc) {
      forall e | e in doc[h].elements ensures e.id in Ids(doc) { }
    }
    assert NoDuplicateIds(r[g].elements) by {
      forall i, j | 0 <= i < j < |es + [n]| ensures (es + [n])[i].id != (es + [n])[j].id {
        assert es[i] in es;
        if j < |es| {
          assert NoDuplicateIds(es);
        }
      }
    }
    forall h, k | 0 <= h < k < |doc| ensures IdSet(r[h].elements) !! IdSet(r[k].elements) {
      assert IdSet(doc[h].elements) !! IdSet(doc[k].elements);
    }
    forall x ensures x in Ids(r) <==> x in Ids(doc) + {n.id} {
      if x in Ids(r) {
        var h, e :| 0 <= h < |r| && e in r[h].elements && e.id == x;
        if h != g || e != n {
          assert h == g ==> e in es;
          assert e in doc[h].elements;
        }
      }
      if x in Ids(doc) {
        var h, e :| 0 <= h < |doc| && e in doc[h].elements && e.id == x;
        assert h == g ==> e in r[g].elements;
        assert e in r[h].elements;
      }
      if x == n.id {
        assert n in r[g].elements;
      }
    }
  }

  /** One more than the largest id in use: the identity of a newly created element. */
  function FreshId(doc: Document): (r: nat)
    ensures r !in Ids(doc)
  {
    var m := MaxId(doc);
    m + 1
  }

  function MaxId(doc: Document): (m: nat)
    ensures forall x :: x in Ids(doc) ==> x <= m
  {
    if doc == [] then 0
    else
      var rest := MaxId(doc[1..]);
      var here := MaxIdIn(doc[0].elements);
      assert forall x :: x in Ids(doc) ==> x in Ids(doc[1..]) || x in IdSet(doc[0].elements) by {
        forall x | x in Ids(doc) ensures x in Ids(doc[1..]) || x in IdSet(doc[0].elements) {
          var g, e :| 0 <= g < |doc| && e in doc[g].elements && e.id == x;
          if g > 0 {
            assert doc[1..][g - 1] == doc[g];
          }
        }
      }
      if rest < here then here else rest
  }

  function MaxIdIn(es: seq<Element>): (m: nat)
    ensures forall x :: x in IdSet(es) ==> x <= m
  {
    if es == [] then 0
    else
      var rest := MaxIdIn(es[1..]);
      assert forall x :: x in IdSet(es) ==> x == es[0].id || x in IdSet(es[1..]) by {
        forall x | x in IdSet(es) ensures x == es[0].id || x in IdSet(es[1..]) {
          var e :| e in es && e.id == x;
          var k :| 0 <= k < |es| && es[k] == e;
          if k > 0 {
            assert es[1..][k - 1] == e;
          }
        }
      }
      if rest < es[0].id then es[0].id else rest
  }

  // ---------------------------------------------------------------------------
  // Removing a set of elements and placing one new element

  /** The document with every element whose id is in `ids` removed and `n`
      placed where index `k` of group `g` was. */
  function PlaceAt(doc: Document, ids: set<nat>, g: nat, k: nat, n: Element): (r: Document)
    requires g < |doc| && k <= |doc[g].elements|
    ensures |r| == |doc|
    ensures forall h :: 0 <= h < |doc| ==> r[h].hasCondition == doc[h].hasCondition
    ensures forall h :: 0 <= h < |doc| && h != g ==> r[h].elements == Without(doc[h].elements, ids)
  {
    var es := doc[g].elements;
    RemoveIds(doc, ids)[g := PropertyGroup(doc[g].hasCondition, Without(es[..k], ids) + [n] + Without(es[k..], ids))]
  }

  /** Appending to a group after removing is placing at the group's end. */
  lemma AppendIsPlaceAtEnd(doc: Document, ids: set<nat>, g: nat, n: Element)
    requires g < |doc|
    ensures Append(RemoveIds(doc, ids), g, n) == PlaceAt(doc, ids, g, |doc[g].elements|, n)
  {
    var es := doc[g].elements;
    assert es[..|es|] == es && es[|es|..] == [];
    var l, r := Append(RemoveIds(doc, ids), g, n), PlaceAt(doc, ids, g, |es|, n);
    assert l[g] == r[g];
  }

  /** Removing an id that does not occur in `es` along with others changes nothing more. */
  lemma WithoutAbsentId(es: seq<Element>, a: set<nat>, id: nat)
    requires id !in IdSet(es)
    ensures Without(es, a + {id}) == Without(es, a)
  {
    WithoutWithout(es, a, {id});
    WithoutIds(es, a);
    WithoutAbsent(Without(es, a), {id});
  }

  /** Replacing element `p` after removing other elements `a` is placing the
      new element where `p` was, with `p` removed as well. */
  lemma ReplaceIsPlaceAt(doc: Document, a: set<nat>, p: Pos, n: Element)
    requires UniqueIds(doc) && ValidPos(doc, p) && ElementAt(doc, p).id !in a
    ensures ReplaceId(RemoveIds(doc, a), ElementAt(doc, p).id, n)
      == PlaceAt(doc, a + {ElementAt(doc, p).id}, p.group, p.index, n)
  {
    var id := ElementAt(doc, p).id;
    var l, r := ReplaceId(RemoveIds(doc, a), id, n), PlaceAt(doc, a + {id}, p.group, p.index, n);
    forall h | 0 <= h < |doc| && h != p.group ensures l[h] == r[h] {
      assert id in IdSet(doc[p.group].elements) by {
        assert ElementAt(doc, p) in doc[p.group].elements;
      }
      var es := doc[h].elements;
      assert id !in IdSet(es) by {
        if h < p.group {
          assert IdSet(doc[h].elements) !! IdSet(doc[p.group].elements);
        } else {
          assert IdSet(doc[p.group].elements) !! IdSet(doc[h].elements);
        }
      }
      WithoutIds(es, a);
      ReplaceInAbsent(Without(es, a), id, n);
      WithoutAbsentId(es, a, id);
    }
    assert l[p.group] == r[p.group] by {
      PlacedGroup(doc[p.group].elements, a, p.index, n);
    }
  }

  /** The group-level step of ReplaceIsPlaceAt. */
  lemma PlacedGroup(es: seq<Element>, a: set<nat>, k: nat, n: Element)
    requires NoDuplicateIds(es) && k < |es| && es[k].id !in a
    ensures ReplaceIn(Without(es, a), es[k].id, n) == Without(es[..k], a + {es[k].id}) + [n] + Without(es[k..], a + {es[k].id})
  {
    IdOnlyAt(es, k);
    ReplacedInGroup(es, a, k, n);
    RemovedAround(es, a, k);
  }

  /** In a group without repeated ids, the id of element `k` occurs nowhere else. */
  lemma IdOnlyAt(es: seq<Element>, k: nat)
    requires NoDuplicateIds(es) && k < |es|
    ensures es[k].id !in IdSet(es[..k]) && es[k].id !in IdSet(es[k + 1..])
  {
    var id, xs, ys := es[k].id, es[..k], es[k + 1..];
    forall i | 0 <= i < k ensures xs[i].id != id { }
    forall i | 0 <= i < |ys| ensures ys[i].id != id {
      assert ys[i] == es[k + 1 + i];
    }
  }

  lemma ReplacedInGroup(es: seq<Element>, a: set<nat>, k: nat, n: Element)
    requires k < |es| && es[k].id !in a
    requires es[k].id !in IdSet(es[..k]) && es[k].id !in IdSet(es[k + 1..])
    ensures ReplaceIn(Without(es, a), es[k].id, n) == Without(es[..k], a) + [n] + Without(es[k + 1..], a)
  {
    var e, xs, ys := es[k], es[..k], es[k + 1..];
    var wx, wy := Without(xs, a), Without(ys, a);
    assert Without(es, a) == wx + [e] + wy by {
      WithoutAround(es, a, k);
      WithoutSingle(e, a);
    }
    WithoutIds(xs, a);
    WithoutIds(ys, a);
    ReplaceInMiddle(wx, e, wy, n);
  }

  lemma RemovedAround(es: seq<Element>, a: set<nat>, k: nat)
    requires k < |es| && es[k].id !in IdSet(es[..k]) && es[k].id !in IdSet(es[k + 1..])
    ensures Without(es[..k], a + {es[k].id}) == Without(es[..k], a)
    ensures Without(es[k..], a + {es[k].id}) == Without(es[k + 1..], a)
  {
    var e, id, ys := es[k], es[k].id, es[k + 1..];
    WithoutAbsentId(es[..k], a, id);
    assert es[k..] == [e] + ys;
    WithoutConcat([e], ys, a + {id});
    WithoutSingle(e, a + {id});
    WithoutAbsentId(ys, a, id);
  }

  lemma WithoutSingle(e: Element, a: set<nat>)
    ensures Without([e], a) == if e.id in a then [] else [e]
  {
    assert [e][1..] == [];
  }

  /** Removing from `es` around its element `k`. */
  lemma WithoutAround(es: seq<Element>, a: set<nat>, k: nat)
    requires k < |es|
    ensures Without(es, a) == Without(es[..k], a) + Without([es[k]], a) + Without(es[k + 1..], a)
  {
    assert es == es[..k] + [es[k]] + es[k + 1..];
    WithoutConcat(es[..k] + [es[k]], es[k + 1..], a);
    WithoutConcat(es[..k], [es[k]], a);
  }

  /** Replacing the one element with the id of `e`, which sits between `xs` and `ys`. */
  lemma ReplaceInMiddle(xs: seq<Element>, e: Element, ys: seq<Element>, n: Element)
    requires e.id !in IdSet(xs) && e.id !in IdSet(ys)
    ensures ReplaceIn(xs + [e] + ys, e.id, n) == xs + [n] + ys
  {
    var s := xs + [e] + ys;
    var r := ReplaceIn(s, e.id, n);
    forall i | 0 <= i < |s| ensures r[i] == (xs + [n] + ys)[i] {
      if i < |xs| {
        assert s[i] == xs[i] && xs[i] in xs;
      } else if i > |xs| {
        assert s[i] == ys[i - |xs| - 1] && ys[i - |xs| - 1] in ys;
      }
    }
  }
}
