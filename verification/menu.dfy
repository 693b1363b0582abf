/**
  The weekly menu (`menu` and `addToMenu` in script.js): an ordered list of
  dishes, starting empty, to which a clicked dish is appended unless a dish
  with the same title is already on it.
 */
module WeeklyMenu {
  import opened Dishes
  import opened Deduplication
  import opened Sequences

  datatype Option<T> = None | Some(value: T)

  /** The titles on the menu, in menu order. */
  function Titles(menu: seq<Dish>): (r: seq<string>)
    ensures |r| == |menu|
    ensures forall k :: 0 <= k < |menu| ==> r[k] == menu[k].title
  {
    if |menu| == 0 then [] else [menu[0].title] + Titles(menu[1..])
  }

  /** The menu invariant: no title is listed twice. */
  predicate TitlesDistinct(menu: seq<Dish>) {
    NoDup(Titles(menu))
  }

  /** The menu the page starts with. */
  const Initial: seq<Dish> := []

  /** `menu.find((m) => m.title === title)`: the first dish with that
      title, if any. */
  function Find(menu: seq<Dish>, title: string): (r: Option<Dish>)
    ensures r.None? <==> title !in Titles(menu)
    ensures r.Some? ==> r.value.title == title
    ensures r.Some? ==> r.value == menu[FirstIndex(Titles(menu), title)]
  {
    if |menu| == 0 then None
    else if menu[0].title == title then Some(menu[0])
    else
      assert Titles(menu) == [menu[0].title] + Titles(menu[1..]);
      Find(menu[1..], title)
  }

  /** `addToMenu`: append the dish unless its title is already on the
      menu. The source's UI refresh after a change is not modelled. */
  function AddToMenu(menu: seq<Dish>, dish: Dish): (r: seq<Dish>)
    ensures dish.title in Titles(menu) ==> r == menu
    ensures dish.title !in Titles(menu) ==> r == menu + [dish]
    ensures dish.title in Titles(r)
    ensures TitlesDistinct(menu) ==> TitlesDistinct(r)
  {
    if Find(menu, dish.title).None? then
      TitlesSnoc(menu, dish);
      menu + [dish]
    else menu
  }

  lemma TitlesSnoc(menu: seq<Dish>, dish: Dish)
    ensures Titles(menu + [dish]) == Titles(menu) + [dish.title]
  {
  }

  /** Adding a dish whose title was just added changes nothing, whatever
      its ingredients. */
  lemma AddToMenuIdempotent(menu: seq<Dish>, dish: Dish, again: Dish)
    requires again.title == dish.title
    ensures AddToMenu(AddToMenu(menu, dish), again) == AddToMenu(menu, dish)
  {
  }

  /** The menu after clicking `clicks` in order, starting from the empty
      menu. */
  function Replay(clicks: seq<Dish>): seq<Dish>
  {
    if |clicks| == 0 then Initial
    else AddToMenu(Replay(clicks[..|clicks| - 1]), clicks[|clicks| - 1])
  }

  /** Whatever was clicked, no title is on the menu twice. */
  lemma {:induction false} ReplayTitlesDistinct(clicks: seq<Dish>)
    ensures TitlesDistinct(Replay(clicks))
  {
    if |clicks| > 0 {
      ReplayTitlesDistinct(clicks[..|clicks| - 1]);
    }
  }

  /** The titles on the menu are the clicked titles, each at its first
      click, in click order. */
  lemma {:induction false} ReplayTitles(clicks: seq<Dish>)
    ensures Titles(Replay(clicks)) == Dedupe(Titles(clicks))
  {
    if |clicks| > 0 {
      var before, d := clicks[..|clicks| - 1], clicks[|clicks| - 1];
      var m := Replay(before);
      assert clicks == before + [d];
      TitlesSnoc(before, d);
      ReplayTitles(before);
      DedupeSnoc(Titles(before), d.title);
      if d.title !in Titles(m) {
        TitlesSnoc(m, d);
      }
    }
  }

  /** Every dish of `menu` is the first of `clicks` with its title. */
  ghost predicate FirstClicks(menu: seq<Dish>, clicks: seq<Dish>) {
    forall k :: 0 <= k < |menu| ==>
      && FirstIndex(Titles(clicks), menu[k].title) < |clicks|
      && menu[k] == clicks[FirstIndex(Titles(clicks), menu[k].title)]
  }

  /** Every dish on the menu is the first dish clicked with its title: a
      later click on a same-titled dish never replaces it. */
  lemma {:induction false} ReplayKeepsFirstClick(clicks: seq<Dish>)
    ensures FirstClicks(Replay(clicks), clicks)
  {
    if |clicks| > 0 {
      var before, d := clicks[..|clicks| - 1], clicks[|clicks| - 1];
      assert clicks == before + [d];
      ReplayKeepsFirstClick(before);
      ReplayTitles(before);
      assert d.title in Titles(before) ==> d.title in Titles(Replay(before));
      FirstClicksStep(Replay(before), before, d);
    }
  }

  lemma FirstClicksStep(m: seq<Dish>, before: seq<Dish>, d: Dish)
    requires FirstClicks(m, before)
    requires d.title in Titles(before) ==> d.title in Titles(m)
    ensures FirstClicks(AddToMenu(m, d), before + [d])
  {
    var clicks := before + [d];
    var r := AddToMenu(m, d);
    TitlesSnoc(before, d);
    forall k | 0 <= k < |r| ensures
      && FirstIndex(Titles(clicks), r[k].title) < |clicks|
      && r[k] == clicks[FirstIndex(Titles(clicks), r[k].title)]
    {
      if k < |m| {
        var i := FirstIndex(Titles(before), m[k].title);
        assert r[k] == m[k];
        FirstIndexSnoc(Titles(before), d.title, m[k].title);
        assert clicks[i] == before[i];
      } else {
        assert r[k] == d;
        FirstIndexAt(Titles(clicks), d.title, |before|);
      }
    }
  }
}
