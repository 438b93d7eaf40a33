/** `path/filepath.Base` on a Unix host, where the separator is '/' and
    there are no volume names. */
module GoFilepath {

  /** Every character is a separator. */
  predicate AllSlashes(s: string) {
    forall i :: 0 <= i < |s| ==> s[i] == '/'
  }

  /** `s` is empty or ends in a separator: the place where a path element may start. */
  predicate ElementBoundary(s: string) {
    |s| == 0 || s[|s| - 1] == '/'
  }

  /** Drops every trailing separator. */
  function TrimTrailingSlashes(p: string): (r: string)
    ensures r <= p
    ensures !(|r| > 0 && r[|r| - 1] == '/')
    ensures AllSlashes(p[|r|..])
    decreases |p|
  {
    if |p| > 0 && p[|p| - 1] == '/' then
      var r := TrimTrailingSlashes(p[..|p| - 1]);
      assert p[|r|..] == p[..|p| - 1][|r|..] + "/";
      r
    else p
  }

  /** The text after the last separator. */
  function LastElement(p: string): (r: string)
    ensures |r| <= |p| && r == p[|p| - |r|..]
    ensures '/' !in r
    ensures ElementBoundary(p[..|p| - |r|])
    decreases |p|
  {
    if ElementBoundary(p) then ""
    else
      var r := LastElement(p[..|p| - 1]);
      assert p[..|p| - 1][..|p| - 1 - |r|] == p[..|p| - (|r| + 1)];
      r + [p[|p| - 1]]
  }

  /** `filepath.Base`: the last element of `p` once trailing separators are
      removed; "." for the empty path and "/" for a path of separators only. */
  function Base(p: string): (r: string)
    ensures r != ""
    ensures r == "/" || '/' !in r
    ensures p == "" ==> r == "."
  {
    if p == "" then "."
    else
      var e := LastElement(TrimTrailingSlashes(p));
      if e == "" then "/" else e
  }

  lemma {:induction false} TrimSlashesAfterElement(q: string, post: string)
    requires |q| > 0 && q[|q| - 1] != '/'
    requires AllSlashes(post)
    ensures TrimTrailingSlashes(q + post) == q
    decreases |post|
  {
    if |post| > 0 {
      assert (q + post)[..|q + post| - 1] == q + post[..|post| - 1];
      TrimSlashesAfterElement(q, post[..|post| - 1]);
    } else {
      assert q + post == q;
    }
  }

  lemma LastElementStep(p: string)
    requires !ElementBoundary(p)
    ensures LastElement(p) == LastElement(p[..|p| - 1]) + [p[|p| - 1]]
  {
  }

  lemma {:induction false} LastElementAfterBoundary(pre: string, e: string)
    requires ElementBoundary(pre)
    requires '/' !in e
    ensures LastElement(pre + e) == e
    decreases |e|
  {
    var p := pre + e;
    if |e| == 0 {
      assert p == pre;
    } else {
      var init := e[..|e| - 1];
      var last := e[|e| - 1];
      assert p[|p| - 1] == last && last != '/' by {
        assert last in e;
      }
      assert p[..|p| - 1] == pre + init;
      assert '/' !in init by {
        assert forall c | c in init :: c in e;
      }
      LastElementAfterBoundary(pre, init);
      LastElementStep(p);
      assert e == init + [last];
    }
  }

  /** Reference reading of `Base`: for a path made of any prefix that ends at
      an element boundary, one non-empty element, and any run of trailing
      separators, `Base` returns that element. */
  lemma BaseOfElement(pre: string, e: string, post: string)
    requires ElementBoundary(pre)
    requires e != "" && '/' !in e
    requires AllSlashes(post)
    ensures Base(pre + e + post) == e
  {
    assert e[|e| - 1] in e;
    assert (pre + e)[|pre + e| - 1] == e[|e| - 1];
    TrimSlashesAfterElement(pre + e, post);
    LastElementAfterBoundary(pre, e);
  }

  /** Trimming a path of separators only leaves nothing. */
  lemma {:induction false} TrimAllSlashes(p: string)
    requires AllSlashes(p)
    ensures TrimTrailingSlashes(p) == ""
    decreases |p|
  {
    if |p| > 0 {
      assert p[|p| - 1] == '/';
      TrimAllSlashes(p[..|p| - 1]);
    }
  }

  /** A path of separators only has base "/". */
  lemma BaseOfSlashes(p: string)
    requires p != "" && AllSlashes(p)
    ensures Base(p) == "/"
  {
    TrimAllSlashes(p);
  }

  /** Conversely, every path that is not all separators splits as in
      `BaseOfElement` around its base. */
  lemma BaseDecomposes(p: string)
    requires !AllSlashes(p)
    ensures exists pre, post ::
      p == pre + Base(p) + post && ElementBoundary(pre) && AllSlashes(post)
  {
    var t := TrimTrailingSlashes(p);
    var e := LastElement(t);
    assert t[|t| - 1] != '/';
    var pre := t[..|t| - |e|];
    var post := p[|t|..];
    assert p == pre + e + post;
  }

  /** `Base` is idempotent. */
  lemma BaseIdempotent(p: string)
    ensures Base(Base(p)) == Base(p)
  {
    var r := Base(p);
    if r == "/" {
      BaseOfSlashes(r);
    } else {
      BaseOfElement("", r, "");
      assert "" + r + "" == r;
    }
  }
}
