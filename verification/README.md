# Image gallery core, modelled in Dafny

The gallery is one Go program (`main.go`) that serves a directory `imgs/` of
GIF images as a browsable page, serves single images and thumbnails through
two file routes, and has a `-thumb` batch mode that writes one 128-pixel-wide
JPEG thumbnail per source image into `thumbs/`. The page itself carries a
small JavaScript program that cycles through the images and lays the
thumbnails out in a grid.

This project models the parts of that program that are pure logic:

- `GoFilepath` — Go's `path/filepath.Base` on a Unix host.
- `Routes` — the path guard shared by `routeImage` and `routeThumbs`
  (`Base`, then refuse `".."`), the two file routes over a directory
  modelled as a map from entry name to bytes, or as absent when it does not
  exist (`thumbs/` exists only after a `-thumb` run), `handleError`'s JSON error
  envelope, and `routeIndex` up to template execution.
- `StringOrder` — Go's string order and `sort.Strings`, as an insertion sort
  together with the proof that a sorted permutation is unique, so any sorting
  algorithm gives the same listing.
- `GoStrings` — `strings.HasSuffix` and `strings.TrimSuffix`.
- `Thumbnails` — the thumbnail name `TrimSuffix(name, ".gif") + ".jpeg"`, the
  batch pass as a function over a thumbnail directory held as a set of names,
  and the `main` loop as a method proved equal to it.
- `Navigation` — the script's `next()`/`previous()` on JavaScript numbers
  (integers or NaN, with JavaScript's truncating `%`).
- `Grid` — the script's `split('.')`/`join('.')` and the five-per-row grid loop.
- `IndexPage` — the loaded page and its three controls.
- `Results` — `Option` and `Result` for absent values and Go errors.

Decoding, Lanczos-3 resizing and JPEG encoding are one oracle
`convert: string -> Stage` per source name. It has three outcomes because
`os.Create` runs before `jpeg.Encode` (`main.go:178-185`): a failure during
encoding leaves the created file in `thumbs/`, and later runs skip it.

Behaviours kept as the code has them:

- With a positive multiple of five images, the grid loop never appends its
  last full row (`main.go:98-101`).
- The script asks for `thumbs/` + text before the first dot + `.jpeg`
  (`main.go:90-91`). That matches the generator's name (`main.go:162`)
  exactly when the name is `stem.gif` with a dot-free stem, or has no dot at
  all (`Grid.ThumbNamesAgree`).
- Clicking a thumbnail calls `change(id)`, which shows that image but leaves
  `current` at its value (`main.go:72-78`). "Next" then continues from the
  image shown before the click.
- The thumbnail route is `/thumbs/:image` (`main.go:194`).
- Only a trailing `.gif` is stripped. `a.png` gets `a.png.jpeg`, and both `a`
  and `a.gif` map to `a.jpeg` (`Thumbnails.ThumbNameCollision`).
- An empty gallery makes `current` NaN on the first button press, and the
  image source becomes `images/undefined`.
- Errors are answered with the JSON envelope and status 200.

## Model

| member | source | states |
|---|---|---|
| `GoFilepath.Base` | main.go:252 | The base name is never empty. It is "." for the empty path. It is either "/" or contains no separator. |
| `GoFilepath.BaseOfElement` | main.go:252 | Reference reading: a path made of a prefix ending at an element boundary, one non-empty element and trailing separators has exactly that element as base. |
| `GoFilepath.BaseOfSlashes` | main.go:252 | A non-empty path of separators only has base "/". |
| `GoFilepath.BaseDecomposes` | main.go:252 | Converse of BaseOfElement: every path that is not all separators splits around its base as prefix + base + trailing separators. |
| `GoFilepath.BaseIdempotent` | main.go:268 | `Base(Base(p)) == Base(p)`. |
| `Routes.GuardName` | main.go:252-255 | A parameter is refused exactly when its base is "..", with "file not found". Otherwise the guard yields `filepath.Base` of the parameter, which is non-empty, is not "..", and is "/" or separator-free. |
| `Routes.GuardAcceptsPlainName` | main.go:252-253 | A non-empty name without "/" other than ".." is accepted unchanged. |
| `Routes.GuardAcceptsLastElement` | main.go:252-255 | Any path whose last element is not "..", whatever leads up to it and with any trailing separators, passes the guard as exactly that element. |
| `Routes.GuardRejectsTraversal` | main.go:268-271 | Any leading elements followed by "..", with or without trailing separators ("..", "../../..", "a/../"), are refused. |
| `Routes.GuardStable` | main.go:268-271 | A name the guard accepted passes the guard again unchanged. |
| `Routes.HandleError` | main.go:214-226 | A handler error becomes an error envelope carrying the error text. A success is served with its content type and data. |
| `Routes.ReadEntry` | main.go:258-261 | Reading `dir/name` succeeds exactly when the directory exists and `name` is one of its entries, and yields that entry's bytes. In an existing directory, "." and "/" name the directory itself and fail with "read dir/name: is a directory". Any other missing entry, and every name when the directory itself is missing, fails with Go's "open dir/name: no such file or directory". |
| `Routes.ServeFile` | main.go:251-265 | A file route serves something exactly when its directory exists and the parameter's base is one of its entries. It serves that entry with the route's content type. A base of ".." gives the "file not found" envelope. A missing directory, or a missing entry, gives an envelope naming the failed open of `dir/base`. |
| `Routes.TraversalStaysInDirectory` | main.go:267-281 | "prefix/name" is served exactly when `name` is an entry of the route's own directory, and the result is that entry. |
| `Routes.RouteIndex` | main.go:228-249 | A directory read error is passed through. Otherwise the page values are ascending and a permutation of the entries. |
| `Routes.RouteIndexListsEntries` | main.go:235-242 | The listing holds exactly the directory's entries, and does not depend on the order the directory was read in. |
| `Routes.RouteIndexExample` | main.go:239-242 | Entries `a.gif`, `c.gif`, `b.gif` give the images array `["a.gif", "b.gif", "c.gif"]`. |
| `StringOrder.Le` | main.go:239 | Go's string order: a prefix sorts no later than the strings it begins, and a string sorts no later than another only if its first character does not exceed the other's. |
| `StringOrder.SortStrings` | main.go:153 | The result is ascending in Go's string order and is a permutation of the input. |
| `StringOrder.SortedPermutationUnique` | main.go:239 | Two ascending permutations of the same names are equal, so the model's sort and `sort.Strings` give the same sequence. |
| `StringOrder.SortIsTheSortedPermutation` | main.go:239 | Any ascending permutation of the input is exactly SortStrings of it. |
| `StringOrder.SortIgnoresInputOrder` | main.go:149-153 | Inputs that are permutations of each other sort to the same sequence. |
| `StringOrder.LeTransitive` | main.go:239 | Go's string order is transitive. |
| `StringOrder.LeAntisymmetric` | main.go:239 | Go's string order is antisymmetric. |
| `StringOrder.LeTotal` | main.go:239 | Go's string order is total. |
| `Thumbnails.ThumbName` | main.go:162 | The derived name ends in ".jpeg". For a `.gif` source it is the stem + ".jpeg". For any other source it is the name + ".jpeg". |
| `GoStrings.HasSuffix` | main.go:162 | `strings.HasSuffix`: true exactly when the string is some prefix followed by the suffix. |
| `GoStrings.TrimSuffix` | main.go:162 | `strings.TrimSuffix`: with the suffix present, the result followed by the suffix is the string. Without it, the string is unchanged. |
| `Thumbnails.ThumbNameOfGif` | main.go:162 | `stem + ".gif"` maps to `stem + ".jpeg"`. |
| `Thumbnails.ThumbNameStripsOneSuffix` | main.go:162 | Only one ".gif" is stripped: `x.gif.gif` gives `x.gif.jpeg`. |
| `Thumbnails.ThumbNameCollision` | main.go:162 | Two sources share a thumbnail exactly when they agree after one trailing ".gif" is trimmed. |
| `Thumbnails.ThumbNameCollisionExample` | main.go:162 | `a` and `a.gif` both map to `a.jpeg`. |
| `Thumbnails.Pass` | main.go:161-187 | The loop over the sorted names never removes a thumbnail, and a failure it reports names one of the sources. |
| `Thumbnails.ThumbMode` | main.go:144-160 | The `-thumb` mode, which sorts the entries and makes a missing directory empty, keeps every thumbnail already present, and a failure it reports names one of the directory's entries. |
| `Thumbnails.RunPass` | main.go:161-187 | The `for` loop of `main`, with `continue` on an existing thumbnail and a stop at the first failure, computes Pass. |
| `Thumbnails.PassOnlyAdds` | main.go:161-187 | The thumbnail set only grows, and only by the files the run created. Each created file was missing before, is the thumbnail of some source, and is created once: present thumbnails are never rewritten. |
| `Thumbnails.PassCompletes` | main.go:161-187 | After a run with no failure, every source's thumbnail is in the set. |
| `Thumbnails.PassSkipsPresent` | main.go:163-166 | When every thumbnail is already present, the pass converts nothing, writes nothing and leaves the set unchanged, whatever the converter would do. |
| `Thumbnails.PassIdempotent` | main.go:161-166 | After a run with no failure, a second run over the same names performs zero writes and leaves the set unchanged. |
| `Thumbnails.PassStopsAtFailure` | main.go:161-185 | A failing run stops at some `names[k]`. The run over the sources before it finishes without failure, so it is the first failure. The thumbnail of `names[k]` was missing from the directory that earlier run left (what `os.Stat` sees), and its conversion failed. The thumbnails of all sources before it are still present. Every file the run created belongs to `names[k]` or an earlier source, so nothing is written after the failure. |
| `Thumbnails.PassFailsAtFailedConversion` | main.go:161-185 | The converse: when `names[k]` is the first source whose conversion fails while its thumbnail is missing, the run fails there, reporting `names[k]`. That thumbnail is present afterwards exactly when the failure came after `os.Create`, in `jpeg.Encode`. |
| `Thumbnails.PassFailureWrites` | main.go:161-185 | A run that fails at `names[k]` writes exactly what the sources before it wrote, then the thumbnail of `names[k]` if the failure came after `os.Create`, and nothing for the sources after it. |
| `Thumbnails.FinishRun` | main.go:144-187 | For the result of the `-thumb` mode: every entry's thumbnail is present when no source failed; a failed run stopped at its first failing source; existing thumbnails are kept. |
| `Thumbnails.GenerateThumbnails` | main.go:144-188 | The `-thumb` mode sorts the names, treats a missing directory as created empty, and runs the loop; the result is ThumbMode. Without a failure, every entry's thumbnail is present. A failure is reported only at the first failing source, as PassStopsAtFailure states. Conversely, when some source's conversion fails while its thumbnail is missing, the run ends at the first such source: it reports that source, and holds its thumbnail exactly when encoding failed after `os.Create`. An existing thumbnail is never removed. |
| `Thumbnails.ThumbModeAbortsAtFailure` | main.go:144-187 | In the `-thumb` mode, the first sorted source whose conversion fails while its thumbnail is missing ends the run: the run reports it, and holds its thumbnail exactly when the failure came after `os.Create`. |
| `Navigation.JsRem` | main.go:65 | JavaScript `%`: NaN exactly for a zero divisor. Otherwise the result differs from the dividend by a multiple of the divisor, is smaller in magnitude than the divisor, and has the dividend's sign: the truncating remainder. |
| `Navigation.Next` | main.go:64-67 | `next()` keeps a valid index valid. With no images it yields NaN. |
| `Navigation.Previous` | main.go:68-71 | `previous()` keeps a valid index valid. With no images it yields NaN. |
| `Navigation.NextWraps` | main.go:64-67 | `next()` moves forward by one and wraps from the last image to the first. |
| `Navigation.PreviousWraps` | main.go:68-71 | `previous()` moves back by one and wraps from the first image to the last. |
| `Navigation.NextPreviousInverse` | main.go:64-71 | `previous(next(c)) == c` and `next(previous(c)) == c` for every valid index. |
| `Navigation.NextTimesAdvances` | main.go:64-67 | k presses of `next()` from c reach `(c + k) % n`. |
| `Navigation.NextCycles` | main.go:64-67 | n presses of `next()` return to the starting image. |
| `Grid.Split` | main.go:90 | `split('.')` yields at least one piece, and no piece contains a dot. |
| `Grid.JoinSplit` | main.go:90-92 | `join('.')` after `split('.')` gives back the name, so `images[i]` is unchanged. |
| `Grid.SplitJoin` | main.go:90-92 | `split('.')` after `join('.')` gives back dot-free pieces. |
| `Grid.Join` | main.go:92 | `join('.')` starts with the first piece. With more pieces a dot follows it; one piece joins to itself. |
| `Grid.FirstField` | main.go:90-91 | `parts[0]` is a dot-free prefix of the name that ends at the first dot or at the end of the name. |
| `Grid.FirstFieldIsTextBeforeFirstDot` | main.go:90-91 | `parts[0]` is the longest dot-free prefix of the name. |
| `Grid.FirstFieldUnique` | main.go:90-91 | A dot-free prefix that stops at a dot or at the end is `parts[0]`. |
| `Grid.ThumbNamesAgree` | main.go:90-91 | The script's thumbnail name equals the generator's exactly when the name is a dot-free stem + ".gif", or a name that does not end in ".gif" and has no dot. |
| `Grid.ScriptThumbName` | main.go:91 | The script's thumbnail name ends in ".jpeg", and what precedes it is the name's text before its first dot. |
| `Grid.CellFor` | main.go:88-96 | The cell of thumbnail i has handler index i and source `thumbs/` + the script's thumbnail name of image i. |
| `Grid.StartRow` | main.go:80-86 | At a multiple of five the row under construction, if any, goes to the table and an empty row starts. Afterwards the current row is empty exactly when `i % 5 == 0`, and it holds fewer than five cells. Every table row is full and in place. |
| `Grid.PlaceCell` | main.go:80-96 | One loop body places thumbnail i's cell at position i: the row under construction then holds 1 to 5 cells, and every cell is in place. |
| `Grid.GridLoop` | main.go:79-97 | The grid `for` loop leaves `images` unchanged. It appends full rows of 5 as each next row starts, every cell at its thumbnail's position. The row under construction holds the remaining 1 to 5 thumbnails (none for an empty list). |
| `Grid.BuildGrid` | main.go:79-101 | Thumbnail i sits in row i/5, column i%5. Its cell asks for `thumbs/` + text before the first dot + `.jpeg` and shows image i. Rows hold 1 to 5 cells. After the final `length % 5 != 0` test the table has ceil(n/5) rows when n%5 != 0, n/5 - 1 rows for a positive multiple of 5, and none for n = 0. The images array comes out unchanged. |
| `IndexPage.LoadPage` | main.go:56-101 | The page embeds the listing in order and starts at index 0, showing the first image, or `images/undefined` for an empty listing. The grid is the one the script builds: cell k of row r is thumbnail 5r+k, asking for its script thumbnail name with handler index 5r+k. Rows hold 1 to 5 cells. There are ceil(n/5) rows when n%5 != 0, and n/5 - 1 for a positive multiple of five, whose last full row is never shown. |
| `IndexPage.ImageSrc` | main.go:63 | `"images/" + images[current]`, or `images/undefined` when `current` is not a valid index. |
| `IndexPage.PressNext` | main.go:64-67 | "Next" applies `next()` to `current` and shows the image at the new index. It changes nothing else. |
| `IndexPage.PressPrevious` | main.go:68-71 | "Previous" applies `previous()` to `current` and shows the image at the new index. It changes nothing else. |
| `IndexPage.ClickThumb` | main.go:72-78 | A thumbnail click shows image id (or `images/undefined` past the end) and leaves `current`, the images and the grid unchanged. |
| `IndexPage.ButtonsKeepShowing` | main.go:64-71 | Both buttons keep the displayed image equal to `images[current]`. Next then previous, and previous then next, restore the page. |
| `IndexPage.ClickKeepsCurrent` | main.go:72-78 | A click shows the clicked image without changing `current`, so "Next" afterwards behaves as if there had been no click. |
| `IndexPage.EmptyGalleryGoesNaN` | main.go:61-71 | With no images, either button makes `current` NaN and the image source `images/undefined`. |

## Left out

- The HTTP server, router wiring, timeouts and signal-driven shutdown (`main.go:191-211`): I/O and concurrency plumbing.
- The `-fetch` debug mode (`main.go:130-142`): a network client.
- Image decoding, the Lanczos-3 resize to width 128 and JPEG encoding (`main.go:171-186`): these are library code and floating-point numerics. They are the `convert` oracle, so the thumbnail's pixel size and content are not modelled.
- The batch mode's panics on a failing `os.Open("imgs/")` or `Readdirnames` (`main.go:145-152`) and on a failing `os.Mkdir("thumbs")` (`main.go:156-159`), and a `thumbs` path that exists but is not a directory: these come from the environment. The batch model starts from the names already read; a missing `thumbs/` (a failing `os.Stat`) is created empty.
- Template parsing and execution (`main.go:119-125`, `main.go:243`), including html/template's escaping of names: this is library behaviour. `Routes.RouteIndex` stops at the values handed to the template, and `IndexPage.LoadPage` starts from them.
- JSON encoding of the error envelope (`main.go:218-221`): the envelope keeps the error text, not its bytes.
- Content-Type headers on error responses, `console.log` output (`main.go:74`, `main.go:102-104`), and the DOM beyond the table rows and `img.src`.
- Routes.ReadEntry: models three causes of a read failure: a missing directory, a missing entry, and the directory itself ("." or "/"). Other operating-system errors, such as permissions, are not modelled. The error texts follow Go's `*PathError` format.
- Go strings are bytes; names here are sequences of characters, and character order stands for byte order (the two agree for UTF-8 text).
- `filepath.Base` is modelled for Unix only: separator '/' and no volume names.
- Concurrent runs of the batch mode racing on the thumbnail directory: the model is single-runner.
