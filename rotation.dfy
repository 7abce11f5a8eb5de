/**
 Wrap-around cursors as the portfolio page computes them: the JavaScript
 remainder operator, one step forward or back over a gallery of `n` items,
 and the updater lambdas that rewrite one entry of the per-gallery cursor
 record while spreading the rest of it unchanged.
 */
module Rotation {

  /** JavaScript's `a % n`: the remainder truncates toward zero, so it takes
      the sign of `a` (Dafny's own `%` is Euclidean and never negative). */
  function JsRem(a: int, n: int): (r: int)
    requires n > 0
    ensures (a - r) % n == 0
    ensures a >= 0 ==> 0 <= r < n
    ensures a < 0 ==> -n < r <= 0
  {
    if a >= 0 then
      PosRem(a, n);
      a % n
    else
      NegRem(a, n);
      -((-a) % n)
  }

  /** Euclidean division in product form: `a == (a / n) * n + a % n`. */
  lemma DivMod(a: int, n: int)
    requires n > 0
    ensures a == (a / n) * n + a % n && 0 <= a % n < n
  {
  }

  /** The quotient and remainder are the only pair with `a == q * n + r`
      and `0 <= r < n`. */
  lemma ModUnique(a: int, n: int, q: int, r: int)
    requires n > 0 && 0 <= r < n && a == q * n + r
    ensures a % n == r && a / n == q
  {
    DivMod(a, n);
    var d := q - a / n;
    assert d * n == a % n - r by {
      assert d * n == q * n - (a / n) * n;
    }
    if d >= 1 {
      MulAtLeast(d, n);
    } else if d <= -1 {
      MulAtLeast(-d, n);
    }
  }

  lemma MulAtLeast(d: int, n: int)
    requires d >= 1 && n > 0
    ensures d * n >= n
  {
    assert d * n == (d - 1) * n + n;
    assert (d - 1) * n >= 0;
  }

  /** Subtracting its remainder leaves a multiple of `n`. */
  lemma PosRem(a: int, n: int)
    requires n > 0
    ensures (a - a % n) % n == 0 && 0 <= a % n < n
  {
    DivMod(a, n);
    MulMod(a / n, n);
  }

  /** For negative `a`, the negated remainder of `-a` differs from `a` by a
      multiple of `n`. */
  lemma NegRem(a: int, n: int)
    requires n > 0 && a < 0
    ensures (a + (-a) % n) % n == 0
  {
    var q := (-a) / n;
    DivMod(-a, n);
    assert a + (-a) % n == (-q) * n;
    MulMod(-q, n);
  }

  /** A multiple of `n` leaves no remainder. */
  lemma MulMod(q: int, n: int)
    requires n > 0
    ensures (q * n) % n == 0
  {
    ModUnique(q * n, n, q, 0);
  }

  /** The effective cursor of gallery `i`: `prev[i] || 0`. A missing entry
      reads as `undefined`, which `|| 0` turns into 0; a stored 0 stays 0,
      and any other stored number is returned as it is. */
  function Cur(m: map<int, int>, i: int): (r: int)
    ensures i !in m ==> r == 0
    ensures i in m ==> r == m[i]
  {
    if i in m && m[i] != 0 then m[i] else 0
  }

  /** `(c + 1) % n`: one step forward, wrapping from the last item to the first. */
  function NextIdx(c: int, n: int): (r: int)
    requires n > 0
    ensures c >= -1 ==> 0 <= r < n
    ensures 0 <= c < n ==> r == if c == n - 1 then 0 else c + 1
  {
    JsRem(c + 1, n)
  }

  /** `((c - 1) + n) % n`: one step back, wrapping from the first item to the
      last; adding `n` first keeps the truncating remainder non-negative. */
  function PrevIdx(c: int, n: int): (r: int)
    requires n > 0
    ensures c >= 1 - n ==> 0 <= r < n
    ensures 0 <= c < n ==> r == if c == 0 then n - 1 else c - 1
  {
    JsRem((c - 1) + n, n)
  }

  /** The updater of the "next" button: `{...prev, [i]: (Cur + 1) % n}`. */
  function NextUpdate(m: map<int, int>, i: int, n: int): (r: map<int, int>)
    requires n > 0
    ensures r.Keys == m.Keys + {i}
    ensures Cur(r, i) == NextIdx(Cur(m, i), n)
    ensures forall j :: j != i ==> Cur(r, j) == Cur(m, j)
  {
    m[i := NextIdx(Cur(m, i), n)]
  }

  /** The updater of the "previous" button: `{...prev, [i]: ((Cur - 1) + n) % n}`. */
  function PrevUpdate(m: map<int, int>, i: int, n: int): (r: map<int, int>)
    requires n > 0
    ensures r.Keys == m.Keys + {i}
    ensures Cur(r, i) == PrevIdx(Cur(m, i), n)
    ensures forall j :: j != i ==> Cur(r, j) == Cur(m, j)
  {
    m[i := PrevIdx(Cur(m, i), n)]
  }

  /** `k` forward steps from cursor `c`. */
  function NextN(c: int, n: int, k: nat): (r: int)
    requires n > 0
    ensures 0 <= c < n ==> 0 <= r < n
  {
    if k == 0 then c else NextIdx(NextN(c, n, k - 1), n)
  }

  /** Stepping back undoes stepping forward, and the other way round, for
      every cursor inside the gallery. */
  lemma PrevNextInverse(c: int, n: int)
    requires 0 <= c < n
    ensures PrevIdx(NextIdx(c, n), n) == c
    ensures NextIdx(PrevIdx(c, n), n) == c
  {
  }

  /** On a record: a "next" click followed by a "previous" click on the same
      gallery (or the reverse order) leaves every gallery's effective cursor
      as it was, and the record itself unchanged when `i` already had an entry. */
  lemma UpdatesInverse(m: map<int, int>, i: int, n: int)
    requires n > 0 && 0 <= Cur(m, i) < n
    ensures forall j :: Cur(PrevUpdate(NextUpdate(m, i, n), i, n), j) == Cur(m, j)
    ensures forall j :: Cur(NextUpdate(PrevUpdate(m, i, n), i, n), j) == Cur(m, j)
    ensures i in m ==> PrevUpdate(NextUpdate(m, i, n), i, n) == m
    ensures i in m ==> NextUpdate(PrevUpdate(m, i, n), i, n) == m
  {
  }

  /** `k` forward steps from an in-range cursor land on `(c + k) mod n`. */
  lemma {:induction false} NextNIsShift(c: int, n: int, k: nat)
    requires 0 <= c < n
    ensures NextN(c, n, k) == (c + k) % n
  {
    if k > 0 {
      NextNIsShift(c, n, k - 1);
      StepMod(c + k - 1, n);
    }
  }

  /** One forward step from `a mod n` is `(a + 1) mod n`. */
  lemma StepMod(a: int, n: int)
    requires n > 0
    ensures NextIdx(a % n, n) == (a + 1) % n
  {
    var x, q := a % n, a / n;
    DivMod(a, n);
    if x == n - 1 {
      assert a + 1 == (q + 1) * n + 0;
      ModUnique(a + 1, n, q + 1, 0);
    } else {
      ModUnique(a + 1, n, q, x + 1);
    }
  }

  /** `n` forward steps over a gallery of `n` items come back to the start. */
  lemma NextNCycle(c: int, n: int)
    requires 0 <= c < n
    ensures NextN(c, n, n) == c
  {
    NextNIsShift(c, n, n);
    ModUnique(c + n, n, 1, c);
  }
}
