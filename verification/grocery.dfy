/**
  The grocery list (`extractList` in script.js): the ingredient lists of
  the menu's dishes are concatenated in menu order, exact duplicates are
  removed through a `Set` (first occurrence wins), and the result is joined
  with line feeds.
 */
module Grocery {
  import opened Strings
  import opened Deduplication
  import opened Dishes
  import opened WeeklyMenu

  /** The line separator of the exported list. */
  const Newline: char := '\n'

  /** Some dish of `menu` lists `x` among its ingredients. */
  ghost predicate OnMenu(menu: seq<Dish>, x: string) {
    exists k :: 0 <= k < |menu| && x in menu[k].ingredients
  }

  /** `menu.flatMap((d) => d.ingredients)` */
  function Flatten(menu: seq<Dish>): (r: seq<string>)
    ensures forall x :: x in r <==> OnMenu(menu, x)
  {
    if |menu| == 0 then []
    else
      var r := menu[0].ingredients + Flatten(menu[1..]);
      assert forall x :: OnMenu(menu, x) <==> x in menu[0].ingredients || OnMenu(menu[1..], x) by {
        forall x ensures OnMenu(menu, x) <==> x in menu[0].ingredients || OnMenu(menu[1..], x) {
          if OnMenu(menu[1..], x) {
            var k :| 0 <= k < |menu[1..]| && x in menu[1..][k].ingredients;
            assert x in menu[k + 1].ingredients;
          }
          if OnMenu(menu, x) && x !in menu[0].ingredients {
            var k :| 0 <= k < |menu| && x in menu[k].ingredients;
            assert x in menu[1..][k - 1].ingredients;
          }
        }
      }
      r
  }

  lemma {:induction false} FlattenSnoc(menu: seq<Dish>, dish: Dish)
    ensures Flatten(menu + [dish]) == Flatten(menu) + dish.ingredients
  {
    if |menu| > 0 {
      assert (menu + [dish])[1..] == menu[1..] + [dish];
      FlattenSnoc(menu[1..], dish);
    } else {
      assert Flatten([dish]) == dish.ingredients + Flatten([]);
    }
  }

  /** The grocery list as a sequence: every ingredient on the menu once, in
      the order of its first appearance going through the menu's dishes in
      order. Equality is exact: no case folding, no counting. */
  function ExtractList(menu: seq<Dish>): (r: seq<string>)
    ensures NoDup(r)
    ensures forall x :: x in r <==> OnMenu(menu, x)
    ensures InFirstOccurrenceOrder(r, Flatten(menu))
  {
    var items := Flatten(menu);
    var r := Dedupe(items);
    assert forall x :: x in r <==> x in items by {
      forall x ensures x in r <==> x in items {
        if x in items {
          var k :| 0 <= k < |items| && items[k] == x;
        }
      }
    }
    r
  }

  /** `xs.join("\n")` */
  function JoinLines(xs: seq<string>): (r: string)
    ensures xs == [] ==> r == []
    ensures xs != [] && (forall k :: 0 <= k < |xs| ==> Newline !in xs[k]) ==> Split(r, Newline) == xs
  {
    if xs != [] && (forall k :: 0 <= k < |xs| ==> Newline !in xs[k]) then
      SplitJoin(xs, Newline);
      Join(xs, Newline)
    else
      Join(xs, Newline)
  }

  /** The text `extractList` copies to the clipboard: empty exactly when
      the menu lists no ingredient, or only the empty one. */
  function ExtractText(menu: seq<Dish>): (r: string)
    ensures r == [] <==> forall x :: OnMenu(menu, x) ==> x == []
  {
    var list := ExtractList(menu);
    JoinEmpty(list, Newline);
    assert list == [] || list == [[]] <==> forall x :: x in list ==> x == [] by {
      assert |list| > 1 ==> list[0] in list && list[1] in list && list[0] != list[1];
    }
    JoinLines(list)
  }

  /** The empty menu exports the empty string. */
  lemma ExtractTextInitial()
    ensures ExtractText(Initial) == []
  {
    assert Flatten(Initial) == [];
  }

  /** Reading the exported text line by line gives the grocery list back,
      as long as no ingredient contains a line feed and there is at least
      one. */
  lemma ExtractTextLines(menu: seq<Dish>)
    requires forall k, m :: 0 <= k < |menu| && 0 <= m < |menu[k].ingredients| ==> Newline !in menu[k].ingredients[m]
    requires ExtractList(menu) != []
    ensures Split(ExtractText(menu), Newline) == ExtractList(menu)
  {
    var r := ExtractList(menu);
    forall i | 0 <= i < |r| ensures Newline !in r[i] {
      assert r[i] in r;
      var k, m :| 0 <= k < |menu| && 0 <= m < |menu[k].ingredients| && menu[k].ingredients[m] == r[i];
    }
  }

  /** Adding a dish to the menu never drops or reorders what the grocery
      list already held; it can only append. */
  lemma ExtractListGrows(menu: seq<Dish>, dish: Dish)
    ensures ExtractList(menu) <= ExtractList(AddToMenu(menu, dish))
  {
    if dish.title !in Titles(menu) {
      FlattenSnoc(menu, dish);
      DedupePrefix(Flatten(menu), dish.ingredients);
    }
  }

  /** With dishes whose ingredients came through the form, the exported
      text never ends with a line feed. */
  lemma ExtractTextNoTrailingNewline(menu: seq<Dish>)
    requires forall k, m :: 0 <= k < |menu| && 0 <= m < |menu[k].ingredients| ==> IsIngredient(menu[k].ingredients[m])
    ensures ExtractText(menu) == [] || ExtractText(menu)[|ExtractText(menu)| - 1] != Newline
  {
    var r := ExtractList(menu);
    if r != [] {
      var last := r[|r| - 1];
      assert last in r;
      var k, m :| 0 <= k < |menu| && 0 <= m < |menu[k].ingredients| && menu[k].ingredients[m] == last;
      assert IsIngredient(last);
      JoinEndsWithLast(r, Newline);
      var text := Join(r, Newline);
      assert text[|text| - 1] == text[|text| - |last|..][|last| - 1];
      assert IsWhitespace(Newline);
    }
  }
}
