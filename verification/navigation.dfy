/** The index page's `next()` and `previous()`: index arithmetic on a
    JavaScript number, which is NaN once the image list is empty. */
module Navigation {

  /** A JavaScript number as the page script produces it: an integer or NaN. */
  datatype JsNumber = Num(v: int) | NaN

  function Abs(x: int): (r: int)
    ensures r >= 0 && (r == x || r == -x)
  {
    if x < 0 then -x else x
  }

  /** JavaScript's `%`: the remainder of truncating division, which takes
      the sign of the dividend; NaN for a zero divisor. */
  function JsRem(a: int, b: int): (r: JsNumber)
    ensures r.NaN? <==> b == 0
    ensures r.Num? ==> -Abs(b) < r.v < Abs(b)
    ensures r.Num? && a >= 0 ==> r.v >= 0
    ensures r.Num? && a < 0 ==> r.v <= 0
    ensures r.Num? ==> exists q :: a == Abs(b) * q + r.v
  {
    if b == 0 then NaN
    else if a >= 0 then
      assert a == Abs(b) * (a / Abs(b)) + a % Abs(b);
      Num(a % Abs(b))
    else
      assert a == Abs(b) * -((-a) / Abs(b)) + -((-a) % Abs(b));
      Num(-((-a) % Abs(b)))
  }

  /** `current` is a valid index of a list of `length` images. */
  predicate InRange(current: JsNumber, length: int) {
    current.Num? && 0 <= current.v < length
  }

  /** `next()`: `current = (current + 1) % images.length`. */
  function Next(current: JsNumber, length: nat): (r: JsNumber)
    ensures InRange(current, length) ==> InRange(r, length)
    ensures length == 0 ==> r.NaN?
  {
    match current
    case NaN => NaN
    case Num(c) => JsRem(c + 1, length)
  }

  /** `previous()`: `current = (images.length + current - 1) % images.length`. */
  function Previous(current: JsNumber, length: nat): (r: JsNumber)
    ensures InRange(current, length) ==> InRange(r, length)
    ensures length == 0 ==> r.NaN?
  {
    match current
    case NaN => NaN
    case Num(c) => JsRem(length + c - 1, length)
  }

  /** `next()` moves one image forward and wraps from the last to the first. */
  lemma NextWraps(c: int, length: nat)
    requires 0 <= c < length
    ensures Next(Num(c), length) == Num(if c + 1 == length then 0 else c + 1)
  {
  }

  /** `previous()` moves one image back and wraps from the first to the last. */
  lemma PreviousWraps(c: int, length: nat)
    requires 0 <= c < length
    ensures Previous(Num(c), length) == Num(if c == 0 then length - 1 else c - 1)
  {
    if c > 0 {
      DivModUnique(length + c - 1, length, 1, c - 1);
    } else {
      DivModUnique(length - 1, length, 0, length - 1);
    }
  }

  /** `previous()` undoes `next()` and `next()` undoes `previous()`. */
  lemma NextPreviousInverse(c: int, length: nat)
    requires 0 <= c < length
    ensures Previous(Next(Num(c), length), length) == Num(c)
    ensures Next(Previous(Num(c), length), length) == Num(c)
  {
    NextWraps(c, length);
    PreviousWraps(c, length);
    var n := Next(Num(c), length).v;
    var p := Previous(Num(c), length).v;
    PreviousWraps(n, length);
    NextWraps(p, length);
  }

  /** `k` presses of `next()`. */
  function NextTimes(current: JsNumber, length: nat, k: nat): (r: JsNumber) {
    if k == 0 then current else Next(NextTimes(current, length, k - 1), length)
  }

  lemma {:induction false} NextTimesAdvances(c: int, length: nat, k: nat)
    requires 0 <= c < length
    ensures NextTimes(Num(c), length, k) == Num((c + k) % length)
  {
    if k > 0 {
      NextTimesAdvances(c, length, k - 1);
      var m := (c + k - 1) % length;
      NextWraps(m, length);
      ModStep(c + k - 1, length);
    }
  }

  lemma {:induction false} MulGrows(n: int, k: int)
    requires n > 0 && k >= 1
    ensures n * k >= n
    decreases k
  {
    if k > 1 {
      MulGrows(n, k - 1);
      assert n * k == n * (k - 1) + n;
    }
  }

  /** Euclidean division is determined by its defining equation. */
  lemma DivModUnique(x: int, n: int, q: int, m: int)
    requires n > 0 && 0 <= m < n && x == n * q + m
    ensures x / n == q && x % n == m
  {
    var q', m' := x / n, x % n;
    assert x == n * q' + m';
    if q > q' {
      MulGrows(n, q - q');
      assert false;
    } else if q < q' {
      MulGrows(n, q' - q);
      assert false;
    }
  }

  lemma ModStep(x: nat, length: nat)
    requires length > 0
    ensures (if x % length + 1 == length then 0 else x % length + 1) == (x + 1) % length
  {
    var q := x / length;
    var m := x % length;
    if m + 1 == length {
      DivModUnique(x + 1, length, q + 1, 0);
    } else {
      DivModUnique(x + 1, length, q, m + 1);
    }
  }

  /** `images.length` presses of `next()` come back to the same image. */
  lemma NextCycles(c: int, length: nat)
    requires 0 <= c < length
    ensures NextTimes(Num(c), length, length) == Num(c)
  {
    NextTimesAdvances(c, length, length);
    DivModUnique(c + length, length, 1, c);
  }
}
