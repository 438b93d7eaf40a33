/** The thumbnail grid the index page script builds: `split('.')` and
    `join('.')` on each name, and rows of five cells. */
module Grid {
  import opened GoStrings
  import opened Thumbnails

  /** JavaScript `s.split('.')`: the pieces between dots, at least one. */
  function Split(s: string): (parts: seq<string>)
    ensures |parts| >= 1
    ensures forall i :: 0 <= i < |parts| ==> '.' !in parts[i]
    decreases |s|
  {
    if |s| == 0 then [""]
    else
      var rest := Split(s[1..]);
      if s[0] == '.' then [""] + rest
      else [[s[0]] + rest[0]] + rest[1..]
  }

  /** JavaScript `parts.join('.')`. */
  function Join(parts: seq<string>): (r: string)
    requires |parts| >= 1
    ensures parts[0] <= r
    ensures |parts| == 1 ==> r == parts[0]
    ensures |parts| > 1 ==> |parts[0]| < |r| && r[|parts[0]|] == '.'
  {
    if |parts| == 1 then parts[0] else parts[0] + "." + Join(parts[1..])
  }

  /** `split` then `join` gives back the name unchanged, so the script's
      `images[i] = parts.join('.')` leaves `images` as it was. */
  lemma {:induction false} JoinSplit(s: string)
    ensures Join(Split(s)) == s
    decreases |s|
  {
    if |s| > 0 {
      var rest := Split(s[1..]);
      JoinSplit(s[1..]);
      if s[0] == '.' {
        assert Join(Split(s)) == "" + "." + Join(rest);
      } else if |rest| == 1 {
        assert Join(Split(s)) == [s[0]] + rest[0];
      } else {
        assert Join(rest) == rest[0] + "." + Join(rest[1..]);
        assert Join(Split(s)) == ([s[0]] + rest[0]) + "." + Join(rest[1..]);
      }
      assert s == [s[0]] + s[1..];
    }
  }

  /** Splitting text that starts with a dot-free piece `a`. */
  lemma {:induction false} SplitAfterPiece(a: string, rest: string)
    requires '.' !in a
    ensures Split(a + rest) == [a + Split(rest)[0]] + Split(rest)[1..]
    decreases |a|
  {
    if |a| > 0 {
      assert a[0] in a;
      assert '.' !in a[1..] by {
        assert forall c | c in a[1..] :: c in a;
      }
      var r := Split(rest);
      assert (a + rest)[0] == a[0];
      assert (a + rest)[1..] == a[1..] + rest;
      SplitAfterPiece(a[1..], rest);
      assert Split(a + rest) == [[a[0]] + (a[1..] + r[0])] + r[1..];
      assert [a[0]] + (a[1..] + r[0]) == a + r[0];
    } else {
      var r := Split(rest);
      assert a + rest == rest;
      assert a + r[0] == r[0];
      assert r == [r[0]] + r[1..];
    }
  }

  /** `join` then `split` gives back dot-free pieces. */
  lemma {:induction false} SplitJoin(parts: seq<string>)
    requires |parts| >= 1
    requires forall i :: 0 <= i < |parts| ==> '.' !in parts[i]
    ensures Split(Join(parts)) == parts
    decreases |parts|
  {
    if |parts| == 1 {
      SplitAfterPiece(parts[0], "");
      assert Split("") == [""];
      assert parts[0] + "" == parts[0];
    } else {
      var tail := Join(parts[1..]);
      SplitJoin(parts[1..]);
      SplitAfterPiece(parts[0], "." + tail);
      assert Join(parts) == parts[0] + ("." + tail);
      assert ("." + tail)[0] == '.' && ("." + tail)[1..] == tail;
      assert Split("." + tail) == [""] + parts[1..];
      assert parts[0] + "" == parts[0];
      assert parts == [parts[0]] + parts[1..];
    }
  }

  /** The first piece of `split('.')` is the longest dot-free prefix of `s`. */
  lemma {:induction false} FirstFieldIsTextBeforeFirstDot(s: string)
    ensures Split(s)[0] <= s
    ensures '.' !in Split(s)[0]
    ensures |Split(s)[0]| == |s| || s[|Split(s)[0]|] == '.'
    decreases |s|
  {
    if |s| > 0 && s[0] != '.' {
      FirstFieldIsTextBeforeFirstDot(s[1..]);
      assert Split(s)[0] == [s[0]] + Split(s[1..])[0];
    }
  }

  /** `parts[0]`: the text before the first dot, or all of `s` if it has none. */
  function FirstField(s: string): (f: string)
    ensures f <= s && '.' !in f
    ensures |f| == |s| || s[|f|] == '.'
  {
    FirstFieldIsTextBeforeFirstDot(s);
    Split(s)[0]
  }

  /** A dot-free prefix of `s` that stops at a dot or at the end is `FirstField(s)`. */
  lemma FirstFieldUnique(s: string, f: string)
    requires f <= s && '.' !in f
    requires |f| == |s| || s[|f|] == '.'
    ensures FirstField(s) == f
  {
    var g := FirstField(s);
    assert |g| == |f|;
  }

  /** The thumbnail name the page script asks for: `parts[0] + ".jpeg"`. */
  function ScriptThumbName(name: string): (t: string)
    ensures HasSuffix(t, ".jpeg")
    ensures t[..|t| - 5] <= name && '.' !in t[..|t| - 5]
    ensures |t| - 5 == |name| || name[|t| - 5] == '.'
  {
    var t := FirstField(name) + ".jpeg";
    assert t[..|t| - 5] == FirstField(name);
    assert t[|t| - 5..] == ".jpeg";
    t
  }

  /** The script's thumbnail name and the generator's agree exactly when the
      name is `stem + ".gif"` with a dot-free `stem`, or has no dot at all.
      `a.b.gif` (script asks for `a.jpeg`, generator writes `a.b.jpeg`) and
      `a.png` (`a.jpeg` against `a.png.jpeg`) do not. */
  lemma ThumbNamesAgree(name: string)
    ensures ScriptThumbName(name) == ThumbName(name) <==>
      if HasSuffix(name, ".gif") then '.' !in name[..|name| - 4] else '.' !in name
  {
    var f := FirstField(name);
    var g := TrimSuffix(name, ".gif");
    FirstFieldIsTextBeforeFirstDot(name);
    if f + ".jpeg" == g + ".jpeg" {
      assert f == (f + ".jpeg")[..|f|] == (g + ".jpeg")[..|g|] == g;
    }
    if HasSuffix(name, ".gif") {
      var stem := name[..|name| - 4];
      assert name[|stem|] == '.';
      if '.' !in stem {
        FirstFieldUnique(name, stem);
      } else if f == stem {
        assert false;
      }
    } else {
      if '.' !in name {
        FirstFieldUnique(name, name);
      } else if f == name {
        assert false;
      }
    }
  }

  /** One grid cell: the thumbnail's `src` and the index its click handler shows. */
  datatype Cell = Cell(src: string, index: nat)

  /** The cell the script builds for thumbnail `i`. */
  function CellFor(images: seq<string>, i: nat): (c: Cell)
    requires i < |images|
    ensures c.index == i
    ensures "thumbs/" <= c.src && c.src[7..] == ScriptThumbName(images[i])
  {
    var c := Cell("thumbs/" + ScriptThumbName(images[i]), i);
    assert c.src[7..] == ScriptThumbName(images[i]);
    c
  }

  /** Every cell of `row` is the cell of thumbnail `base + column`. */
  ghost predicate RowHolds(images: seq<string>, base: int, row: seq<Cell>) {
    forall k :: 0 <= k < |row| ==> 0 <= base + k < |images| && row[k] == CellFor(images, base + k)
  }

  /** Row `r` of `table` holds thumbnails `5 * r` onwards. */
  ghost predicate RowsHold(images: seq<string>, table: seq<seq<Cell>>) {
    forall r :: 0 <= r < |table| ==> RowHolds(images, 5 * r, table[r])
  }

  lemma AppendRow(images: seq<string>, table: seq<seq<Cell>>, row: seq<Cell>)
    requires RowsHold(images, table) && RowHolds(images, 5 * |table|, row)
    ensures RowsHold(images, table + [row])
  {
    var t := table + [row];
    assert forall r :: 0 <= r < |table| ==> t[r] == table[r];
    assert t[|table|] == row;
  }

  lemma ExtendRow(images: seq<string>, base: nat, row: seq<Cell>)
    requires RowHolds(images, base, row) && base + |row| < |images|
    ensures RowHolds(images, base, row + [CellFor(images, base + |row|)])
  {
  }

  /** The cell the loop body builds from `parts = images[i].split('.')`. */
  lemma ScriptCell(images: seq<string>, i: nat)
    requires i < |images|
    ensures Cell("thumbs/" + Split(images[i])[0] + ".jpeg", i) == CellFor(images, i)
  {
    assert "thumbs/" + Split(images[i])[0] + ".jpeg" == "thumbs/" + (Split(images[i])[0] + ".jpeg");
  }

  /** Where the loop stands after `5 * rows + filled` thumbnails: the next
      thumbnail starts a new row exactly when the current one is full. */
  lemma RowBoundary(i: int, rows: int, filled: int)
    requires 0 <= rows && 1 <= filled <= 5 && i == 5 * rows + filled
    ensures i % 5 == 0 <==> filled == 5
  {
    if filled == 5 {
      assert i == 5 * (rows + 1);
    } else {
      assert i == 5 * rows + filled;
    }
  }

  /** The `if ((i % 5) == 0)` block of the grid loop: when thumbnail `i`
      starts a row, the row under construction (if any) is appended to the
      table and an empty one begins. */
  method StartRow(images: seq<string>, i: nat, table: seq<seq<Cell>>, tr: seq<Cell>)
    returns (table': seq<seq<Cell>>, tr': seq<Cell>)
    requires i == 5 * |table| + |tr|
    requires i > 0 ==> 1 <= |tr| <= 5
    requires i == 0 ==> |tr| == 0
    requires forall r :: 0 <= r < |table| ==> |table[r]| == 5
    requires RowsHold(images, table) && RowHolds(images, 5 * |table|, tr)
    ensures i == 5 * |table'| + |tr'| && |tr'| < 5
    ensures |tr'| == 0 <==> i % 5 == 0
    ensures forall r :: 0 <= r < |table'| ==> |table'[r]| == 5
    ensures RowsHold(images, table') && RowHolds(images, 5 * |table'|, tr')
  {
    table', tr' := table, tr;
    if i > 0 {
      RowBoundary(i, |table|, |tr|);
    }
    if i % 5 == 0 {
      if i > 0 {
        AppendRow(images, table', tr');
        table' := table' + [tr'];
      }
      tr' := [];
    }
  }

  /** One pass of the grid loop body for thumbnail `i`: start a row if `i`
      is a multiple of five, then add the cell of thumbnail `i` to it. */
  method PlaceCell(images: seq<string>, i: nat, table: seq<seq<Cell>>, tr: seq<Cell>)
    returns (table': seq<seq<Cell>>, tr': seq<Cell>)
    requires i < |images|
    requires i == 5 * |table| + |tr|
    requires i > 0 ==> 1 <= |tr| <= 5
    requires i == 0 ==> |tr| == 0
    requires forall r :: 0 <= r < |table| ==> |table[r]| == 5
    requires RowsHold(images, table) && RowHolds(images, 5 * |table|, tr)
    ensures i + 1 == 5 * |table'| + |tr'|
    ensures 1 <= |tr'| <= 5
    ensures forall r :: 0 <= r < |table'| ==> |table'[r]| == 5
    ensures RowsHold(images, table') && RowHolds(images, 5 * |table'|, tr')
  {
    table', tr' := StartRow(images, i, table, tr);
    var parts := Split(images[i]);
    var cell := Cell("thumbs/" + parts[0] + ".jpeg", i);
    ScriptCell(images, i);
    ExtendRow(images, 5 * |table'|, tr');
    tr' := tr' + [cell];
  }

  /** The grid `for` loop, up to (not including) the final append. Each
      image name is split on '.' and joined back, which leaves it unchanged. */
  method GridLoop(images: seq<string>) returns (table: seq<seq<Cell>>, tr: seq<Cell>, after: seq<string>)
    ensures after == images
    ensures |images| == 5 * |table| + |tr|
    ensures |images| > 0 ==> 1 <= |tr| <= 5
    ensures |images| == 0 ==> |tr| == 0
    ensures forall r :: 0 <= r < |table| ==> |table[r]| == 5
    ensures RowsHold(images, table) && RowHolds(images, 5 * |table|, tr)
  {
    var imgs := images;
    tr := [];
    table := [];
    var i := 0;
    while i < |imgs|
      invariant 0 <= i <= |imgs|
      invariant imgs == images
      invariant i == 5 * |table| + |tr|
      invariant i > 0 ==> 1 <= |tr| <= 5
      invariant i == 0 ==> |tr| == 0
      invariant forall r :: 0 <= r < |table| ==> |table[r]| == 5
      invariant RowsHold(images, table)
      invariant RowHolds(images, 5 * |table|, tr)
    {
      table, tr := PlaceCell(images, i, table, tr);
      var parts := Split(imgs[i]);
      JoinSplit(imgs[i]);
      assert imgs[i := Join(parts)] == imgs;
      imgs := imgs[i := Join(parts)];
      i := i + 1;
    }
    after := imgs;
  }

  /** The grid script. Thumbnail `i` goes to row `i / 5`, column `i % 5`. A
      row is appended when the next one starts, and the last one after the
      loop only if `images.length % 5 != 0`: with a positive multiple of five
      images the last full row is never shown. */
  method BuildGrid(images: seq<string>) returns (table: seq<seq<Cell>>, after: seq<string>)
    ensures after == images
    ensures |images| % 5 != 0 ==> |table| == (|images| + 4) / 5
    ensures |images| % 5 == 0 && |images| > 0 ==> |table| == |images| / 5 - 1
    ensures |images| == 0 ==> |table| == 0
    ensures forall r :: 0 <= r < |table| ==> 1 <= |table[r]| <= 5
    ensures forall r, k :: 0 <= r < |table| && 0 <= k < |table[r]| ==>
      5 * r + k < |images| && table[r][k] == CellFor(images, 5 * r + k)
    ensures forall i :: 0 <= i < |images| && i / 5 < |table| ==>
      i % 5 < |table[i / 5]| && table[i / 5][i % 5] == CellFor(images, i)
  {
    var tr;
    table, tr, after := GridLoop(images);
    var n := |after|;
    if n % 5 != 0 {
      AppendRow(images, table, tr);
      table := table + [tr];
    }
    forall i | 0 <= i < n && i / 5 < |table|
      ensures i % 5 < |table[i / 5]| && table[i / 5][i % 5] == CellFor(images, i)
    {
      assert 5 * (i / 5) + i % 5 == i;
    }
  }
}
