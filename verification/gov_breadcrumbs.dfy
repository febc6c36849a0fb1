/**
 * `GovBreadcrumbs`: an ordered trail in which every crumb but the last is a
 * link and the last is the current page.
 */
module GovBreadcrumbs {

  datatype Crumb = Crumb(href: string, text: string)

  /** What one list item holds: a link, or the current page marked `aria-current="page"`. */
  datatype Content = Link(href: string, text: string) | CurrentPage(text: string)

  datatype Item = Item(className: string, content: Content)

  const ItemClass := "govuk-breadcrumbs__list-item"
  const ActiveItemClass := "govuk-breadcrumbs__list-item govuk-breadcrumbs__list-item--active"

  /** The list item for the crumb at `idx` of a trail of `count` crumbs. */
  function RenderItem(crumb: Crumb, idx: nat, count: nat): (it: Item)
    ensures it.content.text == crumb.text
    ensures it.content.Link? ==> it.content.href == crumb.href
  {
    Item(if idx == count - 1 then ActiveItemClass else ItemClass,
         if idx < count - 1 then Link(crumb.href, crumb.text) else CurrentPage(crumb.text))
  }

  function Render(items: seq<Crumb>): (r: seq<Item>)
    ensures |r| == |items|
  {
    seq(|items|, i requires 0 <= i < |items| => RenderItem(items[i], i, |items|))
  }

  /** How many items are marked as the current page. */
  function CountCurrent(r: seq<Item>): nat
    decreases |r|
  {
    if r == [] then 0 else (if r[0].content.CurrentPage? then 1 else 0) + CountCurrent(r[1..])
  }

  /** Every crumb keeps its text and its position; all but the last link to their href. */
  lemma LinksBeforeLast(items: seq<Crumb>, i: nat)
    requires i < |items|
    ensures var it := Render(items)[i];
            it.content.text == items[i].text
            && (i < |items| - 1 <==> it.content == Link(items[i].href, items[i].text))
  {
  }

  /** The active-item class is on exactly the item marked as the current page. */
  lemma ActiveIffCurrent(items: seq<Crumb>, i: nat)
    requires i < |items|
    ensures var it := Render(items)[i];
            it.className == ActiveItemClass <==> it.content.CurrentPage?
  {
    assert ActiveItemClass != ItemClass by {
      assert |ActiveItemClass| != |ItemClass|;
    }
  }

  /** A list whose only current item is its last one counts one current item. */
  lemma {:induction false} CountCurrentLastOnly(r: seq<Item>)
    requires r != []
    requires forall i :: 0 <= i < |r| ==> (r[i].content.CurrentPage? <==> i == |r| - 1)
    ensures CountCurrent(r) == 1
    decreases |r|
  {
    if |r| > 1 {
      assert !r[0].content.CurrentPage?;
      CountCurrentLastOnly(r[1..]);
    }
  }

  /** A non-empty trail marks exactly one item, its last, as the current page. */
  lemma ExactlyOneCurrent(items: seq<Crumb>)
    requires items != []
    ensures CountCurrent(Render(items)) == 1
    ensures Render(items)[|items| - 1].content == CurrentPage(items[|items| - 1].text)
  {
    CountCurrentLastOnly(Render(items));
  }

  /** An empty trail renders an empty list. */
  lemma EmptyTrail()
    ensures Render([]) == [] && CountCurrent(Render([])) == 0
  {
  }
}
