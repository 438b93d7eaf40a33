/** The index page once loaded in a browser: the embedded image list, the
    displayed image, the thumbnail grid, and the three controls the script
    offers (next, previous, click on a thumbnail). */
module IndexPage {
  import opened Routes
  import opened Navigation
  import opened Grid

  /** The script's state: `images`, `current`, `img.src` and the rows of the
      `thumbs` table. */
  datatype Page = Page(images: seq<string>, current: JsNumber, src: string, table: seq<seq<Cell>>)

  /** `"images/" + images[current]`; an index outside the array reads `undefined`. */
  function ImageSrc(images: seq<string>, current: JsNumber): (src: string)
    ensures "images/" <= src
    ensures InRange(current, |images|) ==> src[7..] == images[current.v]
    ensures !InRange(current, |images|) ==> src[7..] == "undefined"
  {
    var src := if InRange(current, |images|) then "images/" + images[current.v] else "images/undefined";
    assert src[..7] == "images/";
    src
  }

  /** The displayed image is the one `current` points at. */
  ghost predicate Showing(p: Page) {
    InRange(p.current, |p.images|) && p.src == "images/" + p.images[p.current.v]
  }

  /** The script run at page load over the template's values. */
  method LoadPage(values: IndexValues) returns (page: Page)
    ensures page.images == values.images
    ensures page.current == Num(0)
    ensures |values.images| > 0 ==> Showing(page)
    ensures |values.images| == 0 ==> page.src == "images/undefined" && page.table == []
    ensures |page.images| % 5 != 0 ==> |page.table| == (|page.images| + 4) / 5
    ensures |page.images| % 5 == 0 && |page.images| > 0 ==> |page.table| == |page.images| / 5 - 1
    ensures forall r :: 0 <= r < |page.table| ==> 1 <= |page.table[r]| <= 5
    ensures forall r, k :: 0 <= r < |page.table| && 0 <= k < |page.table[r]| ==>
      5 * r + k < |page.images| && page.table[r][k] == CellFor(page.images, 5 * r + k)
  {
    var images := values.images;
    var current := Num(0);
    var src := ImageSrc(images, current);
    var table, after := BuildGrid(images);
    page := Page(after, current, src, table);
  }

  /** The "Next" button. */
  function PressNext(p: Page): (q: Page)
    ensures q.images == p.images && q.table == p.table
    ensures q.current == Next(p.current, |p.images|)
    ensures q.src == ImageSrc(q.images, q.current)
  {
    var c := Next(p.current, |p.images|);
    p.(current := c, src := ImageSrc(p.images, c))
  }

  /** The "Previous" button. */
  function PressPrevious(p: Page): (q: Page)
    ensures q.images == p.images && q.table == p.table
    ensures q.current == Previous(p.current, |p.images|)
    ensures q.src == ImageSrc(q.images, q.current)
  {
    var c := Previous(p.current, |p.images|);
    p.(current := c, src := ImageSrc(p.images, c))
  }

  /** A click on the thumbnail whose handler holds `id`: `change(id)` sets
      `img.src` only; `current` keeps its value. */
  function ClickThumb(p: Page, id: nat): (q: Page)
    ensures q.images == p.images && q.table == p.table
    ensures q.current == p.current
    ensures id < |p.images| ==> q.src == "images/" + p.images[id]
    ensures id >= |p.images| ==> q.src == "images/undefined"
  {
    p.(src := ImageSrc(p.images, Num(id)))
  }

  /** Both buttons keep the displayed image in step with `current`; next
      then previous (or previous then next) returns to the same image. */
  lemma ButtonsKeepShowing(p: Page)
    requires Showing(p)
    ensures Showing(PressNext(p)) && Showing(PressPrevious(p))
    ensures PressPrevious(PressNext(p)) == p
    ensures PressNext(PressPrevious(p)) == p
  {
    NextPreviousInverse(p.current.v, |p.images|);
  }

  /** A click shows the clicked thumbnail's image but does not move
      `current`, so the next "Next" continues from the image shown before. */
  lemma ClickKeepsCurrent(p: Page, id: nat)
    requires Showing(p) && id < |p.images|
    ensures ClickThumb(p, id).src == "images/" + p.images[id]
    ensures ClickThumb(p, id).current == p.current
    ensures PressNext(ClickThumb(p, id)) == PressNext(p)
  {
  }

  /** With no images the first press of a button makes `current` NaN and the
      image source `images/undefined`. */
  lemma EmptyGalleryGoesNaN(p: Page)
    requires p.images == [] && p.current == Num(0)
    ensures PressNext(p).current == NaN && PressNext(p).src == "images/undefined"
    ensures PressPrevious(p).current == NaN && PressPrevious(p).src == "images/undefined"
  {
  }
}
