/** The `-thumb` batch mode: one JPEG thumbnail per source image, skipping
    those already present and stopping the whole run at the first failure.

    The thumbnail directory is the set of its entry names. Decoding, the
    Lanczos-3 resize to width 128 and JPEG encoding are one oracle per source
    name that says how far the conversion got. */
module Thumbnails {
  import opened Results
  import opened GoStrings
  import opened StringOrder

  /** The thumbnail file name derived from a source name:
      `strings.TrimSuffix(name, ".gif") + ".jpeg"`. */
  function ThumbName(name: string): (t: string)
    ensures HasSuffix(t, ".jpeg")
    ensures HasSuffix(name, ".gif") ==> t == name[..|name| - 4] + ".jpeg"
    ensures !HasSuffix(name, ".gif") ==> t == name + ".jpeg"
  {
    var t := TrimSuffix(name, ".gif") + ".jpeg";
    assert t[|t| - 5..] == ".jpeg";
    t
  }

  /** A `.gif` source named `stem + ".gif"` gets `stem + ".jpeg"`; only one
      `.gif` is ever stripped, so `x.gif.gif` gives `x.gif.jpeg`. */
  lemma ThumbNameOfGif(stem: string)
    ensures ThumbName(stem + ".gif") == stem + ".jpeg"
  {
    TrimSuffixOfAppended(stem, ".gif");
  }

  lemma ThumbNameStripsOneSuffix()
    ensures ThumbName("x.gif.gif") == "x.gif.jpeg"
  {
    ThumbNameOfGif("x.gif");
    assert "x.gif" + ".gif" == "x.gif.gif";
  }

  /** Two sources share a thumbnail exactly when they agree once one trailing
      `.gif` is removed: distinct `.gif` sources never collide, but `a` and
      `a.gif` both map to `a.jpeg`. */
  lemma ThumbNameCollision(a: string, b: string)
    ensures ThumbName(a) == ThumbName(b) <==> TrimSuffix(a, ".gif") == TrimSuffix(b, ".gif")
  {
    var ta, tb := TrimSuffix(a, ".gif"), TrimSuffix(b, ".gif");
    if ThumbName(a) == ThumbName(b) {
      assert ta == (ta + ".jpeg")[..|ta|];
      assert tb == (tb + ".jpeg")[..|tb|];
    }
  }

  lemma ThumbNameCollisionExample()
    ensures ThumbName("a") == ThumbName("a.gif") == "a.jpeg"
  {
    ThumbNameOfGif("a");
    assert "a" + ".gif" == "a.gif";
    assert !HasSuffix("a", ".gif");
  }

  /** How far the conversion of one source got. `os.Create` comes before
      `jpeg.Encode`, so an encoding failure leaves the created file behind. */
  datatype Stage =
    | Converted            // opened, decoded, resized, created and encoded
    | FailedBeforeCreate   // open, decode or create failed: no file written
    | FailedAfterCreate    // the thumbnail file was created, then encoding failed

  /** The state a run leaves: the thumbnail directory, the files it created
      in order, and the source whose failure stopped it (if any). */
  datatype Run = Run(thumbs: set<string>, created: seq<string>, failed: Option<string>)

  /** The loop over the (already sorted) source names. */
  function Pass(names: seq<string>, thumbs: set<string>, convert: string -> Stage): (r: Run)
    ensures thumbs <= r.thumbs
    ensures r.failed.Some? ==> r.failed.value in names
  {
    if |names| == 0 then Run(thumbs, [], None)
    else
      var name := names[0];
      var t := ThumbName(name);
      if t in thumbs then Pass(names[1..], thumbs, convert)
      else
        match convert(name)
        case FailedBeforeCreate => Run(thumbs, [], Some(name))
        case FailedAfterCreate => Run(thumbs + {t}, [t], Some(name))
        case Converted =>
          var rest := Pass(names[1..], thumbs + {t}, convert);
          Run(rest.thumbs, [t] + rest.created, rest.failed)
  }

  /** The whole `-thumb` mode once the source directory has been read:
      sort the names, make the thumbnail directory if it is missing (`None`),
      then run the pass. */
  function ThumbMode(entries: seq<string>, thumbs: Option<set<string>>, convert: string -> Stage): (r: Run)
    ensures Existing(thumbs) <= r.thumbs
    ensures r.failed.Some? ==> r.failed.value in entries
  {
    var sorted := SortStrings(entries);
    assert forall n :: n in sorted ==> n in entries by {
      forall n | n in sorted ensures n in entries {
        assert n in multiset(sorted);
      }
    }
    Pass(sorted, Existing(thumbs), convert)
  }

  /** The thumbnail directory after `os.Stat`/`os.Mkdir`: a missing one is made empty. */
  function Existing(thumbs: Option<set<string>>): (s: set<string>)
    ensures thumbs.Some? ==> s == thumbs.value
    ensures thumbs.None? ==> s == {}
  {
    match thumbs case None => {} case Some(s) => s
  }

  /** The directory only grows, and only by the files the run created; each
      created file is the thumbnail of some source, was missing before, and is
      created once. Present thumbnails are never rewritten. */
  lemma {:induction false} PassOnlyAdds(names: seq<string>, thumbs: set<string>, convert: string -> Stage)
    ensures Pass(names, thumbs, convert).thumbs == thumbs + set t | t in Pass(names, thumbs, convert).created
    ensures forall t :: t in Pass(names, thumbs, convert).created ==> t !in thumbs
    ensures forall t :: t in Pass(names, thumbs, convert).created ==> exists n :: n in names && ThumbName(n) == t
    ensures forall i, j :: 0 <= i < j < |Pass(names, thumbs, convert).created| ==>
      Pass(names, thumbs, convert).created[i] != Pass(names, thumbs, convert).created[j]
    decreases |names|
  {
    if |names| > 0 {
      var name := names[0];
      var t := ThumbName(name);
      if t in thumbs {
        PassOnlyAdds(names[1..], thumbs, convert);
        InTail(names);
      } else if convert(name) == Converted {
        var rest := Pass(names[1..], thumbs + {t}, convert);
        PassOnlyAdds(names[1..], thumbs + {t}, convert);
        CreatedStep(names, thumbs, rest);
      }
    }
  }

  /** The converted-source case of PassOnlyAdds: a run over the remaining
      sources that only added files stays so once the new thumbnail of
      `names[0]` is put in front of its created files. */
  lemma CreatedStep(names: seq<string>, thumbs: set<string>, rest: Run)
    requires |names| > 0 && ThumbName(names[0]) !in thumbs
    requires rest.thumbs == (thumbs + {ThumbName(names[0])}) + set u | u in rest.created
    requires forall u :: u in rest.created ==> u !in thumbs + {ThumbName(names[0])}
    requires forall u :: u in rest.created ==> exists n :: n in names[1..] && ThumbName(n) == u
    requires forall i, j :: 0 <= i < j < |rest.created| ==> rest.created[i] != rest.created[j]
    ensures rest.thumbs == thumbs + set u | u in [ThumbName(names[0])] + rest.created
    ensures forall u :: u in [ThumbName(names[0])] + rest.created ==> u !in thumbs
    ensures forall u :: u in [ThumbName(names[0])] + rest.created ==> exists n :: n in names && ThumbName(n) == u
    ensures forall i, j :: 0 <= i < j < |rest.created| + 1 ==>
      ([ThumbName(names[0])] + rest.created)[i] != ([ThumbName(names[0])] + rest.created)[j]
  {
    var t := ThumbName(names[0]);
    var created := [t] + rest.created;
    InTail(names);
    assert forall i :: 1 <= i < |created| ==> created[i] == rest.created[i - 1];
    assert created[0] == t;
  }

  /** Every name after the first is a name of the whole sequence. */
  lemma InTail(names: seq<string>)
    requires |names| > 0
    ensures forall n :: n in names[1..] ==> n in names
  {
  }

  /** A run that hits no failure leaves every source's thumbnail in place. */
  lemma {:induction false} PassCompletes(names: seq<string>, thumbs: set<string>, convert: string -> Stage)
    requires Pass(names, thumbs, convert).failed.None?
    ensures forall n :: n in names ==> ThumbName(n) in Pass(names, thumbs, convert).thumbs
    decreases |names|
  {
    if |names| > 0 {
      var t := ThumbName(names[0]);
      var next := if t in thumbs then thumbs else thumbs + {t};
      PassCompletes(names[1..], next, convert);
      PassOnlyAdds(names[1..], next, convert);
      assert names == [names[0]] + names[1..];
    }
  }

  /** When every thumbnail is already present the pass converts nothing and
      writes nothing, whatever the converter would do. */
  lemma {:induction false} PassSkipsPresent(names: seq<string>, thumbs: set<string>, convert: string -> Stage)
    requires forall n :: n in names ==> ThumbName(n) in thumbs
    ensures Pass(names, thumbs, convert) == Run(thumbs, [], None)
    decreases |names|
  {
    if |names| > 0 {
      assert names[0] in names;
      InTail(names);
      PassSkipsPresent(names[1..], thumbs, convert);
    }
  }

  /** The pass is idempotent: after a run without failure, a second run over
      the same names performs no conversion and no write. */
  lemma PassIdempotent(names: seq<string>, thumbs: set<string>, convert: string -> Stage, again: string -> Stage)
    requires Pass(names, thumbs, convert).failed.None?
    ensures Pass(names, Pass(names, thumbs, convert).thumbs, again) ==
            Run(Pass(names, thumbs, convert).thumbs, [], None)
  {
    PassCompletes(names, thumbs, convert);
    PassSkipsPresent(names, Pass(names, thumbs, convert).thumbs, again);
  }

  /** `names[k]` is the first source whose conversion fails while its
      thumbnail is missing: the run over the sources before it finishes
      without failure, the thumbnail is absent from the directory that run
      leaves behind (what `os.Stat` sees), and the conversion fails. */
  ghost predicate FailsAt(names: seq<string>, thumbs: set<string>, convert: string -> Stage, k: int) {
    && 0 <= k < |names|
    && Pass(names[..k], thumbs, convert).failed.None?
    && ThumbName(names[k]) !in Pass(names[..k], thumbs, convert).thumbs
    && convert(names[k]) != Converted
  }

  /** The run stopped at `names[k]`: that is the first source whose
      conversion failed while its thumbnail was missing; the thumbnails of all sources
      before it are present in the directory the run left; and every file the
      run created belongs to `names[k]` or a source before it, so nothing was
      written after the failure. */
  ghost predicate StoppedAt(names: seq<string>, thumbs: set<string>, convert: string -> Stage, k: int) {
    && FailsAt(names, thumbs, convert, k)
    && Pass(names, thumbs, convert).failed == Some(names[k])
    && (forall j :: 0 <= j < k ==> ThumbName(names[j]) in Pass(names, thumbs, convert).thumbs)
    && (forall t :: t in Pass(names, thumbs, convert).created ==>
          exists j :: 0 <= j <= k && ThumbName(names[j]) == t)
  }

  /** The run `r` over `names` aborts at the first failing source, if there
      is one: it reports that source, and it has that source's thumbnail
      exactly when the failure came after `os.Create`. */
  ghost predicate AbortsAtFailure(names: seq<string>, thumbs: set<string>, convert: string -> Stage, r: Run) {
    forall k :: FailsAt(names, thumbs, convert, k) ==>
      r.failed == Some(names[k]) &&
      (ThumbName(names[k]) in r.thumbs <==> convert(names[k]) == FailedAfterCreate)
  }

  /** The run over `names` stopped at its first failing source. */
  ghost predicate StopsAtFirstFailure(names: seq<string>, thumbs: set<string>, convert: string -> Stage) {
    exists k :: StoppedAt(names, thumbs, convert, k)
  }

  /** A run that fails stops at the first source whose conversion fails:
      nothing is written for the sources after it, and what it wrote for the
      sources before it stays. */
  lemma {:induction false} PassStopsAtFailure(names: seq<string>, thumbs: set<string>, convert: string -> Stage)
    requires Pass(names, thumbs, convert).failed.Some?
    ensures exists k :: StoppedAt(names, thumbs, convert, k)
    decreases |names|
  {
    var r := Pass(names, thumbs, convert);
    var t := ThumbName(names[0]);
    if t !in thumbs && convert(names[0]) != Converted {
      assert names[..0] == [];
      assert StoppedAt(names, thumbs, convert, 0);
    } else {
      var next := if t in thumbs then thumbs else thumbs + {t};
      var tail := names[1..];
      var rest := Pass(tail, next, convert);
      PassStopsAtFailure(tail, next, convert);
      var k :| StoppedAt(tail, next, convert, k);
      assert r.thumbs == rest.thumbs && r.failed == rest.failed;
      assert t in thumbs ==> r.created == rest.created;
      assert t !in thumbs ==> r.created == [t] + rest.created;
      forall j | 0 <= j < k + 1 ensures ThumbName(names[j]) in r.thumbs {
        if j > 0 { assert names[j] == tail[j - 1]; }
      }
      forall u | u in r.created ensures exists j :: 0 <= j <= k + 1 && ThumbName(names[j]) == u {
        if u in rest.created {
          var j :| 0 <= j <= k && ThumbName(tail[j]) == u;
          assert names[j + 1] == tail[j];
        } else {
          assert u == t;
        }
      }
      assert names[..k + 1][1..] == tail[..k];
      assert Pass(names[..k + 1], thumbs, convert).failed == Pass(tail[..k], next, convert).failed;
      assert StoppedAt(names, thumbs, convert, k + 1);
    }
  }

  /** The converse of `PassStopsAtFailure`: a failing conversion of a missing
      thumbnail aborts the run right there. The run reports that source, and
      it has that source's thumbnail exactly when the failure came after
      `os.Create`. */
  lemma {:induction false} PassFailsAtFailedConversion(names: seq<string>, thumbs: set<string>, convert: string -> Stage, k: int)
    requires FailsAt(names, thumbs, convert, k)
    ensures Pass(names, thumbs, convert).failed == Some(names[k])
    ensures ThumbName(names[k]) in Pass(names, thumbs, convert).thumbs <==> convert(names[k]) == FailedAfterCreate
    decreases k
  {
    if k > 0 {
      var t := ThumbName(names[0]);
      var next := if t in thumbs then thumbs else thumbs + {t};
      var tail := names[1..];
      assert names[..k][0] == names[0];
      assert names[..k][1..] == tail[..k - 1];
      assert tail[k - 1] == names[k];
      PassFailsAtFailedConversion(tail, next, convert, k - 1);
    }
  }

  /** What an aborted run wrote: the files of the sources before the failing
      one, then that source's thumbnail when the failure came after
      `os.Create`, and nothing for the sources after it. */
  lemma {:induction false} PassFailureWrites(names: seq<string>, thumbs: set<string>, convert: string -> Stage, k: int)
    requires FailsAt(names, thumbs, convert, k)
    ensures Pass(names, thumbs, convert).created ==
      Pass(names[..k], thumbs, convert).created +
      (if convert(names[k]) == FailedAfterCreate then [ThumbName(names[k])] else [])
    decreases k
  {
    if k == 0 {
      assert names[..0] == [];
    } else {
      var t := ThumbName(names[0]);
      var next := if t in thumbs then thumbs else thumbs + {t};
      var tail := names[1..];
      assert names[..k][0] == names[0];
      assert names[..k][1..] == tail[..k - 1];
      assert tail[k - 1] == names[k];
      PassFailureWrites(tail, next, convert, k - 1);
    }
  }

  /** The `-thumb` loop of `main`, written as the source writes it: skip a
      present thumbnail, otherwise convert, and stop at the first failure. */
  method RunPass(names: seq<string>, initial: set<string>, convert: string -> Stage) returns (run: Run)
    ensures run == Pass(names, initial, convert)
  {
    var thumbs := initial;
    var created: seq<string> := [];
    var i := 0;
    while i < |names|
      invariant 0 <= i <= |names|
      invariant Pass(names, initial, convert) ==
        Run(Pass(names[i..], thumbs, convert).thumbs,
            created + Pass(names[i..], thumbs, convert).created,
            Pass(names[i..], thumbs, convert).failed)
    {
      var name := names[i];
      var thumb := ThumbName(name);
      assert names[i..][1..] == names[i + 1..];
      if thumb in thumbs {
        i := i + 1;
        continue;
      }
      match convert(name)
      case FailedBeforeCreate =>
        return Run(thumbs, created, Some(name));
      case FailedAfterCreate =>
        return Run(thumbs + {thumb}, created + [thumb], Some(name));
      case Converted =>
        thumbs := thumbs + {thumb};
        created := created + [thumb];
        i := i + 1;
    }
    run := Run(thumbs, created, None);
  }

  /** The `-thumb` mode of `main`: sort the names, make the thumbnail
      directory if it is missing, then run the pass. */
  method GenerateThumbnails(entries: seq<string>, thumbsDir: Option<set<string>>, convert: string -> Stage)
    returns (run: Run)
    ensures run == ThumbMode(entries, thumbsDir, convert)
    ensures run.failed.None? ==> forall n :: n in entries ==> ThumbName(n) in run.thumbs
    ensures run.failed.Some? ==> StopsAtFirstFailure(SortStrings(entries), Existing(thumbsDir), convert)
    ensures AbortsAtFailure(SortStrings(entries), Existing(thumbsDir), convert, run)
    ensures thumbsDir.Some? ==> thumbsDir.value <= run.thumbs
  {
    var names := SortStrings(entries);
    var thumbs := if thumbsDir.None? then {} else thumbsDir.value;
    run := RunPass(names, thumbs, convert);
    FinishRun(entries, thumbsDir, convert, run);
    ThumbModeAbortsAtFailure(entries, thumbsDir, convert);
  }

  /** The `-thumb` mode panics at the first source whose conversion fails
      while its thumbnail is missing: the run ends there, reporting it. */
  lemma ThumbModeAbortsAtFailure(entries: seq<string>, thumbsDir: Option<set<string>>, convert: string -> Stage)
    ensures AbortsAtFailure(SortStrings(entries), Existing(thumbsDir), convert, ThumbMode(entries, thumbsDir, convert))
  {
    var names := SortStrings(entries);
    var existing := Existing(thumbsDir);
    forall k | FailsAt(names, existing, convert, k)
      ensures ThumbMode(entries, thumbsDir, convert).failed == Some(names[k])
      ensures ThumbName(names[k]) in ThumbMode(entries, thumbsDir, convert).thumbs <==> convert(names[k]) == FailedAfterCreate
    {
      PassFailsAtFailedConversion(names, existing, convert, k);
    }
  }

  /** The promises of `GenerateThumbnails`, derived from the pass lemmas. */
  lemma FinishRun(entries: seq<string>, thumbsDir: Option<set<string>>, convert: string -> Stage, run: Run)
    requires run == ThumbMode(entries, thumbsDir, convert)
    ensures run.failed.None? ==> forall n :: n in entries ==> ThumbName(n) in run.thumbs
    ensures run.failed.Some? ==> StopsAtFirstFailure(SortStrings(entries), Existing(thumbsDir), convert)
    ensures thumbsDir.Some? ==> thumbsDir.value <= run.thumbs
  {
    var names := SortStrings(entries);
    var existing := Existing(thumbsDir);
    if run.failed.Some? {
      PassStopsAtFailure(names, existing, convert);
    }
    if run.failed.None? {
      PassCompletes(names, existing, convert);
      forall n | n in entries ensures n in names {
        assert n in multiset(entries);
      }
    }
  }
}
