/**
 * Menu: the on-screen menu of the simple viewer, a tree of named entries with
 * parent, previous-sibling and next-sibling links and a selection flag per
 * entry. The entries live in an arena: an entry is its index, and every link
 * is an index (None for a null link).
 */
module Menus {
  import opened Wrappers

  /** What an entry's action listener does: recolour the teapot. */
  datatype MenuAction = SetTeapotColor(rgba: seq<real>)

  const BLUE: seq<real> := [0.0, 0.0, 1.0, 1.0]
  const RED: seq<real> := [1.0, 0.0, 0.0, 1.0]

  /** The root entry of the menu built by create. */
  const ROOT: nat := 0

  /** No entry occurs twice in a list of children. */
  predicate Distinct(kids: seq<nat>)
  {
    forall i, j :: 0 <= i < j < |kids| ==> kids[i] != kids[j]
  }

  /** Entry c is selected under the selection flags sel. */
  predicate Sel(sel: seq<bool>, c: nat)
  {
    c < |sel| && sel[c]
  }

  /** Of the entries kids, at most one is selected under sel. */
  predicate AtMostOneSelected(sel: seq<bool>, kids: seq<nat>)
  {
    forall i, j :: 0 <= i < j < |kids| && Sel(sel, kids[i]) ==> !Sel(sel, kids[j])
  }

  /** The index in kids of the first selected entry, if any (the loop of getSelectedMenu). */
  function FirstSelected(sel: seq<bool>, kids: seq<nat>): (r: Option<nat>)
    ensures r.Some? ==> r.value < |kids| && Sel(sel, kids[r.value])
    ensures r.Some? ==> forall j :: 0 <= j < r.value ==> !Sel(sel, kids[j])
    ensures r.None? <==> forall j :: 0 <= j < |kids| ==> !Sel(sel, kids[j])
  {
    if |kids| == 0 then None
    else if Sel(sel, kids[0]) then Some(0)
    else match FirstSelected(sel, kids[1..])
      case None => None
      case Some(k) => Some(k + 1)
  }

  class MenuTree {
    var names: seq<string>
    var superMenu: seq<Option<nat>>
    var previousMenu: seq<Option<nat>>
    var nextMenu: seq<Option<nat>>
    var subMenus: seq<seq<nat>>
    var selected: seq<bool>
    var actions: seq<Option<MenuAction>>

    /**
     * create: a selected root with children menu1 and menu2; menu2 has children
     * subMenu21, which turns the teapot blue, and subMenu22, which turns it red.
     */
    constructor Create()
      ensures Valid() && OneSelectedChild()
      ensures names == ["rootMenu", "menu1", "menu2", "subMenu21", "subMenu22"]
      ensures subMenus == [[1, 2], [], [3, 4], [], []]
      ensures superMenu == [None, Some(ROOT), Some(ROOT), Some(2), Some(2)]
      ensures previousMenu == [None, None, Some(1), None, Some(3)]
      ensures nextMenu == [None, Some(2), None, Some(4), None]
      ensures selected == [true, false, false, false, false]
      ensures actions == [None, None, None, Some(SetTeapotColor(BLUE)), Some(SetTeapotColor(RED))]
      ensures SelectedMenu(ROOT) == ROOT
    {
      names, superMenu, previousMenu, nextMenu := [], [], [], [];
      subMenus, selected, actions := [], [], [];
      new;
      CreateTopEntries();
      CreateSubEntries();
      LinkEntries();
      assert FirstSelected(selected, subMenus[ROOT]).None?;
    }

    /** The three entries of create's top level, the root selected. */
    method CreateTopEntries()
      requires Sized() && names == []
      modifies this
      ensures Valid() && OneSelectedChild()
      ensures names == ["rootMenu", "menu1", "menu2"]
      ensures subMenus == [[], [], []] && superMenu == [None, None, None]
      ensures previousMenu == [None, None, None] && nextMenu == [None, None, None]
      ensures selected == [true, false, false] && actions == [None, None, None]
    {
      var rootMenu := NewMenu("rootMenu");
      var menu1 := NewMenu("menu1");
      var menu2 := NewMenu("menu2");
      selected := selected[rootMenu := true];
    }

    /** The two entries of create's sub-menu, each with its action. */
    method CreateSubEntries()
      requires Valid() && OneSelectedChild() && |names| == 3
      requires forall p :: 0 <= p < 3 ==> subMenus[p] == []
      modifies this
      ensures Valid() && OneSelectedChild()
      ensures names == old(names) + ["subMenu21", "subMenu22"]
      ensures subMenus == old(subMenus) + [[], []] && superMenu == old(superMenu) + [None, None]
      ensures previousMenu == old(previousMenu) + [None, None] && nextMenu == old(nextMenu) + [None, None]
      ensures selected == old(selected) + [false, false]
      ensures actions == old(actions) + [Some(SetTeapotColor(BLUE)), Some(SetTeapotColor(RED))]
    {
      var subMenu21 := NewMenu("subMenu21");
      var subMenu22 := NewMenu("subMenu22");
      actions := actions[subMenu21 := Some(SetTeapotColor(BLUE))][subMenu22 := Some(SetTeapotColor(RED))];
      assert forall p :: 0 <= p < 5 ==> subMenus[p] == [];
    }

    /** The four addMenu calls of create. */
    method LinkEntries()
      requires Valid() && OneSelectedChild()
      requires names == ["rootMenu", "menu1", "menu2", "subMenu21", "subMenu22"]
      requires subMenus == [[], [], [], [], []] && superMenu == [None, None, None, None, None]
      requires selected == [true, false, false, false, false]
      modifies this`subMenus, this`superMenu, this`previousMenu, this`nextMenu
      ensures Valid() && OneSelectedChild()
      ensures subMenus == [[1, 2], [], [3, 4], [], []]
      ensures superMenu == [None, Some(ROOT), Some(ROOT), Some(2), Some(2)]
      ensures previousMenu == old(previousMenu)[2 := Some(1)][4 := Some(3)]
      ensures nextMenu == old(nextMenu)[1 := Some(2)][3 := Some(4)]
    {
      AddMenu(ROOT, 1);
      assert subMenus[ROOT] == [1];
      AddMenu(ROOT, 2);
      AddMenu(2, 3);
      assert subMenus[2] == [3];
      AddMenu(2, 4);
      assert subMenus[ROOT] == [1, 2] && subMenus[2] == [3, 4];
      assert subMenus[1] == [] && subMenus[3] == [] && subMenus[4] == [];
    }

    /** Every per-entry sequence has one slot per entry. */
    predicate Sized()
      reads this
    {
      Shaped() && |selected| == |names| && |actions| == |names|
    }

    /** Every link sequence has one slot per entry. */
    predicate Shaped()
      reads this`names, this`superMenu, this`previousMenu, this`nextMenu, this`subMenus
    {
      |superMenu| == |names| && |previousMenu| == |names| && |nextMenu| == |names| && |subMenus| == |names|
    }

    /**
     * The k-th child c of p links back to p, its previous and next links are its
     * neighbours in p's list (None at either end), and it comes after p in the
     * arena, so the tree has no cycles.
     */
    ghost predicate ChildLinked(p: nat, k: nat)
      reads this`names, this`superMenu, this`previousMenu, this`nextMenu, this`subMenus
      requires Shaped() && p < |names| && k < |subMenus[p]|
    {
      var kids := subMenus[p];
      var c := kids[k];
      && p < c < |names|
      && superMenu[c] == Some(p)
      && previousMenu[c] == (if k == 0 then None else Some(kids[k - 1]))
      && nextMenu[c] == (if k + 1 == |kids| then None else Some(kids[k + 1]))
    }

    /** An entry without a parent has no siblings; one with a parent is among its children. */
    ghost predicate Placed(c: nat)
      reads this`names, this`superMenu, this`previousMenu, this`nextMenu, this`subMenus
      requires Shaped() && c < |names|
    {
      match superMenu[c]
      case None => previousMenu[c].None? && nextMenu[c].None?
      case Some(p) => p < |names| && c in subMenus[p]
    }

    /** The links are those addMenu builds. */
    ghost predicate Valid()
      reads this
    {
      Sized() && Linked()
    }

    ghost predicate Linked()
      reads this`names, this`superMenu, this`previousMenu, this`nextMenu, this`subMenus
      requires Shaped()
    {
      && (forall p, k :: 0 <= p < |names| && 0 <= k < |subMenus[p]| ==> ChildLinked(p, k))
      && (forall p :: 0 <= p < |names| ==> Distinct(subMenus[p]))
      && (forall c :: 0 <= c < |names| ==> Placed(c))
    }

    /** Under sel, no entry has two selected children. */
    ghost predicate OneSelectedChildUnder(sel: seq<bool>)
      reads this
    {
      forall p :: 0 <= p < |subMenus| ==> AtMostOneSelected(sel, subMenus[p])
    }

    ghost predicate OneSelectedChild()
      reads this
    {
      OneSelectedChildUnder(selected)
    }

    /** No child of m is selected. */
    predicate NoSelectedChild(m: nat)
      reads this
      requires m < |subMenus|
    {
      forall k :: 0 <= k < |subMenus[m]| ==> !Sel(selected, subMenus[m][k])
    }

    /**
     * m is where getSelectedMenu can stop when started from a root: a root or a
     * selected entry, with no selected child.
     */
    predicate Navigable(m: nat)
      reads this
      requires Sized() && m < |names|
    {
      (superMenu[m].None? || Sel(selected, m)) && NoSelectedChild(m)
    }

    /**
     * The entry getSelectedMenu returns from m: the selected menu of m's first
     * selected child, or m itself when no child is selected.
     */
    function SelectedMenu(m: nat): (r: nat)
      reads this
      requires Valid() && m < |names|
      ensures m <= r < |names|
      ensures r == m || Sel(selected, r)
      ensures NoSelectedChild(r)
      ensures superMenu[m].None? ==> Navigable(r)
      decreases |names| - m
    {
      match FirstSelected(selected, subMenus[m])
      case None => m
      case Some(k) =>
        assert ChildLinked(m, k);
        SelectedMenu(subMenus[m][k])
    }

    /** getSelectedMenu: the deepest selected entry below m. */
    method GetSelectedMenu(m: nat) returns (r: nat)
      requires Valid() && m < |names|
      ensures r == SelectedMenu(m)
      decreases |names| - m
    {
      var kids := subMenus[m];
      for i := 0 to |kids|
        invariant forall j :: 0 <= j < i ==> !Sel(selected, kids[j])
      {
        if Sel(selected, kids[i]) {
          assert ChildLinked(m, i);
          r := GetSelectedMenu(kids[i]);
          return;
        }
      }
      r := m;
    }

    /** The sibling links of a child entry point into its parent's list of children. */
    lemma SiblingsOf(c: nat) returns (p: nat, k: nat)
      requires Valid() && c < |names| && superMenu[c].Some?
      ensures superMenu[c] == Some(p) && p < |names| && k < |subMenus[p]| && subMenus[p][k] == c
      ensures nextMenu[c].Some? ==> k + 1 < |subMenus[p]| && nextMenu[c] == Some(subMenus[p][k + 1])
      ensures previousMenu[c].Some? ==> 0 < k && previousMenu[c] == Some(subMenus[p][k - 1])
    {
      p := superMenu[c].value;
      assert Placed(c);
      k :| 0 <= k < |subMenus[p]| && subMenus[p][k] == c;
      assert ChildLinked(p, k);
    }

    /** An entry with a sibling link has a parent. */
    lemma LinkedHasParent(c: nat)
      requires Valid() && c < |names|
      ensures nextMenu[c].Some? || previousMenu[c].Some? ==> superMenu[c].Some?
    {
      assert Placed(c);
    }

    /**
     * Moving the selection from a selected entry m to a sibling s keeps at most
     * one selected child per entry.
     */
    lemma MoveKeepsOneSelected(sel: seq<bool>, p: nat, i: nat, j: nat)
      requires Valid() && p < |names| && i < |subMenus[p]| && j < |subMenus[p]|
      requires subMenus[p][i] < |names| && subMenus[p][j] < |names|
      requires |sel| == |names| && OneSelectedChildUnder(sel) && Sel(sel, subMenus[p][i])
      ensures OneSelectedChildUnder(sel[subMenus[p][i] := false][subMenus[p][j] := true])
    {
      var m, s := subMenus[p][i], subMenus[p][j];
      var sel' := sel[m := false][s := true];
      forall q, a, b | 0 <= q < |subMenus| && 0 <= a < b < |subMenus[q]|
        ensures Sel(sel', subMenus[q][a]) ==> !Sel(sel', subMenus[q][b])
      {
        assert ChildLinked(q, a) && ChildLinked(q, b) && ChildLinked(p, i) && ChildLinked(p, j);
        assert Distinct(subMenus[q]) && AtMostOneSelected(sel, subMenus[q]);
      }
    }

    /** The previous link of an entry's next sibling leads back to it, and the other way round. */
    lemma SiblingLinksInverse(c: nat)
      requires Valid() && c < |names|
      ensures nextMenu[c].Some? ==> nextMenu[c].value < |names| && previousMenu[nextMenu[c].value] == Some(c)
      ensures previousMenu[c].Some? ==> previousMenu[c].value < |names| && nextMenu[previousMenu[c].value] == Some(c)
    {
      LinkedHasParent(c);
      if superMenu[c].Some? {
        var p, k := SiblingsOf(c);
        if nextMenu[c].Some? {
          assert ChildLinked(p, k + 1);
        }
        if previousMenu[c].Some? {
          assert ChildLinked(p, k - 1);
        }
      }
    }

    /** new Menu(name): a detached, unselected entry without an action. */
    method NewMenu(name: string) returns (id: nat)
      requires Valid()
      modifies this
      ensures Valid() && id == old(|names|)
      ensures names == old(names) + [name] && subMenus == old(subMenus) + [[]]
      ensures superMenu == old(superMenu) + [None]
      ensures previousMenu == old(previousMenu) + [None] && nextMenu == old(nextMenu) + [None]
      ensures selected == old(selected) + [false] && actions == old(actions) + [None]
      ensures old(OneSelectedChild()) ==> OneSelectedChild()
    {
      id := |names|;
      names := names + [name];
      superMenu := superMenu + [None];
      previousMenu := previousMenu + [None];
      nextMenu := nextMenu + [None];
      subMenus := subMenus + [[]];
      selected := selected + [false];
      actions := actions + [None];
      forall p, k | 0 <= p < |names| && 0 <= k < |subMenus[p]|
        ensures ChildLinked(p, k)
      {
        assert old(ChildLinked(p, k));
      }
      forall c | 0 <= c < |names|
        ensures Placed(c)
      {
        if c < id {
          assert old(Placed(c));
        }
      }
    }

    /**
     * addMenu: c becomes the last child of p, with p as its parent, linked after
     * the previous last child; the other children keep their order and links.
     * c is a new, detached entry placed after p, as create uses it.
     */
    method AddMenu(p: nat, c: nat)
      requires Valid() && p < c < |names| && superMenu[c].None?
      modifies this`subMenus, this`superMenu, this`previousMenu, this`nextMenu
      ensures Valid()
      ensures subMenus == old(subMenus)[p := old(subMenus[p]) + [c]]
      ensures superMenu == old(superMenu)[c := Some(p)]
      ensures old(subMenus[p]) == [] ==> previousMenu == old(previousMenu) && nextMenu == old(nextMenu)
      ensures old(subMenus[p]) != [] ==>
        var last := old(subMenus[p])[|old(subMenus[p])| - 1];
        && p < last < |names|
        && previousMenu == old(previousMenu)[c := Some(last)]
        && nextMenu == old(nextMenu)[last := Some(c)]
      ensures old(OneSelectedChild()) && !Sel(selected, c) ==> OneSelectedChild()
    {
      var kids := subMenus[p];
      assert Placed(c);
      forall q, k | 0 <= q < |names| && 0 <= k < |subMenus[q]|
        ensures subMenus[q][k] != c
      {
        assert ChildLinked(q, k);
      }
      if |kids| > 0 {
        var last := kids[|kids| - 1];
        assert ChildLinked(p, |kids| - 1);
        nextMenu := nextMenu[last := Some(c)];
        previousMenu := previousMenu[c := Some(last)];
      }
      superMenu := superMenu[c := Some(p)];
      subMenus := subMenus[p := kids + [c]];
      forall q, k | 0 <= q < |names| && 0 <= k < |subMenus[q]|
        ensures ChildLinked(q, k)
      {
        if q != p || k < |kids| {
          assert old(ChildLinked(q, k));
          if q != p && |kids| > 0 {
            assert old(ChildLinked(p, |kids| - 1));
          }
        }
      }
      forall x | 0 <= x < |names|
        ensures Placed(x)
      {
        assert old(Placed(x));
        if |kids| > 0 {
          assert old(ChildLinked(p, |kids| - 1));
        }
      }
      assert Distinct(old(subMenus[p]));
    }

    /**
     * goPreviousMenu: when m has a previous sibling, the selection moves from m
     * to it; otherwise nothing changes. Applied where getSelectedMenu stops, it
     * keeps at most one selected child per entry.
     */
    method GoPreviousMenu(m: nat)
      requires Valid() && m < |names|
      modifies this`selected
      ensures Valid()
      ensures previousMenu[m].None? ==> selected == old(selected)
      ensures previousMenu[m].Some? ==>
        previousMenu[m].value < |names| && selected == old(selected)[m := false][previousMenu[m].value := true]
      ensures old(OneSelectedChild()) && old(Navigable(m)) ==> OneSelectedChild()
    {
      SiblingLinksInverse(m);
      if previousMenu[m].Some? {
        ghost var before := selected;
        selected := selected[m := false][previousMenu[m].value := true];
        LinkedHasParent(m);
        var p, k := SiblingsOf(m);
        if OneSelectedChildUnder(before) && Sel(before, m) {
          MoveKeepsOneSelected(before, p, k, k - 1);
        }
      }
    }

    /**
     * goNextMenu: when m has a next sibling, the selection moves from m to it;
     * otherwise nothing changes. Applied where getSelectedMenu stops, it keeps at
     * most one selected child per entry.
     */
    method GoNextMenu(m: nat)
      requires Valid() && m < |names|
      modifies this`selected
      ensures Valid()
      ensures nextMenu[m].None? ==> selected == old(selected)
      ensures nextMenu[m].Some? ==>
        nextMenu[m].value < |names| && selected == old(selected)[m := false][nextMenu[m].value := true]
      ensures old(OneSelectedChild()) && old(Navigable(m)) ==> OneSelectedChild()
    {
      SiblingLinksInverse(m);
      if nextMenu[m].Some? {
        ghost var before := selected;
        selected := selected[m := false][nextMenu[m].value := true];
        LinkedHasParent(m);
        var p, k := SiblingsOf(m);
        if OneSelectedChildUnder(before) && Sel(before, m) {
          MoveKeepsOneSelected(before, p, k, k + 1);
        }
      }
    }

    /**
     * goSubMenu: when m has children, its first child becomes selected as well;
     * m stays selected. Applied where getSelectedMenu stops, it keeps at most one
     * selected child per entry.
     */
    method GoSubMenu(m: nat)
      requires Valid() && m < |names|
      modifies this`selected
      ensures Valid()
      ensures subMenus[m] == [] ==> selected == old(selected)
      ensures subMenus[m] != [] ==> subMenus[m][0] < |names| && selected == old(selected)[subMenus[m][0] := true]
      ensures old(OneSelectedChild()) && old(NoSelectedChild(m)) ==> OneSelectedChild()
    {
      if |subMenus[m]| != 0 {
        assert ChildLinked(m, 0);
        ghost var before := selected;
        var first := subMenus[m][0];
        selected := selected[first := true];
        if OneSelectedChildUnder(before) && old(NoSelectedChild(m)) {
          forall q, a, b | 0 <= q < |subMenus| && 0 <= a < b < |subMenus[q]|
            ensures Sel(selected, subMenus[q][a]) ==> !Sel(selected, subMenus[q][b])
          {
            assert ChildLinked(q, a) && ChildLinked(q, b);
            assert Distinct(subMenus[q]) && AtMostOneSelected(before, subMenus[q]);
          }
        }
      }
    }

    /**
     * goSuperMenu: m is deselected unless it has no parent, so a root stays
     * selected. Deselecting keeps at most one selected child per entry.
     */
    method GoSuperMenu(m: nat)
      requires Valid() && m < |names|
      modifies this`selected
      ensures Valid()
      ensures superMenu[m].None? ==> selected == old(selected)
      ensures superMenu[m].Some? ==> selected == old(selected)[m := false]
      ensures old(OneSelectedChild()) ==> OneSelectedChild()
    {
      if superMenu[m].Some? {
        selected := selected[m := false];
      }
    }

    /**
     * doMenuAction: the teapot colour after m's action, given the colour before;
     * an entry without an action leaves it unchanged.
     */
    function DoMenuAction(m: nat, teapotColor: seq<real>): (after: seq<real>)
      reads this
      requires Sized() && m < |names|
      ensures actions[m].None? ==> after == teapotColor
      ensures actions[m].Some? ==> after == actions[m].value.rgba
    {
      match actions[m]
      case None => teapotColor
      case Some(SetTeapotColor(rgba)) => rgba
    }
  }

  /** goNextMenu followed by goPreviousMenu from the new selection restores the selection. */
  method NextThenPrevious(t: MenuTree, m: nat)
    requires t.Valid() && m < |t.names| && t.nextMenu[m].Some?
    requires Sel(t.selected, m) && !Sel(t.selected, t.nextMenu[m].value)
    modifies t
    ensures t.selected == old(t.selected)
  {
    t.SiblingLinksInverse(m);
    var n := t.nextMenu[m].value;
    t.GoNextMenu(m);
    t.GoPreviousMenu(n);
  }

  /** goSubMenu followed by goSuperMenu from the child it selected restores the selection. */
  method SubThenSuper(t: MenuTree, m: nat)
    requires t.Valid() && m < |t.names| && t.subMenus[m] != []
    requires !Sel(t.selected, t.subMenus[m][0])
    modifies t
    ensures t.selected == old(t.selected)
  {
    assert t.ChildLinked(m, 0);
    var first := t.subMenus[m][0];
    t.GoSubMenu(m);
    t.GoSuperMenu(first);
  }
}
