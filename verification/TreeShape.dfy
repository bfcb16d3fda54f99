/**
  The broadcast tree over positions 0 to n - 1: the children of position p are
  the next width positions from p * width + 1 on. A position that is not alive is
  replaced by its own children.
 */
module TreeShape {
  import opened Prelude

  lemma {:induction false} ProductMonotonic(a: nat, b: nat, width: nat)
    requires a < b
    ensures a * width + width <= b * width
    decreases b
  {
    assert b * width == (b - 1) * width + width;
    if a < b - 1 {
      ProductMonotonic(a, b - 1, width);
    }
  }

  lemma ProductGrows(p: nat, width: nat)
    requires width > 0
    ensures p <= p * width
  {
  }

  lemma QuotientSmaller(a: nat, width: nat)
    requires width > 0
    ensures a == a / width * width + a % width && a / width <= a
  {
    ProductGrows(a / width, width);
  }

  function Up(width: nat, b: nat): (p: nat)
    requires width > 0 && b > 0
    ensures p < b
  {
    QuotientSmaller(b - 1, width);
    (b - 1) / width
  }

  lemma UpBounds(width: nat, b: nat)
    requires width > 0 && b > 0
    ensures Up(width, b) * width < b <= Up(width, b) * width + width
  {
    QuotientSmaller(b - 1, width);
  }

  lemma QuotientUnique(a: nat, width: nat, q: nat, r: nat)
    requires r < width && a == q * width + r
    ensures a / width == q && a % width == r
  {
    QuotientSmaller(a, width);
    if a / width < q {
      ProductMonotonic(a / width, q, width);
    } else if q < a / width {
      ProductMonotonic(q, a / width, width);
    }
  }

  lemma UpOfChild(width: nat, p: nat, i: nat, e: nat)
    requires i < width && e == p * width + i + 1
    ensures p < e && Up(width, e) == p
  {
    QuotientUnique(e - 1, width, p, i);
    ProductGrows(p, width);
  }

  /** The child of p on the way up from b, if no position strictly between b and p is alive. */
  function Top(live: nat -> bool, width: nat, p: nat, b: nat): (e: Option<nat>)
    requires width > 0
    ensures e.Some? ==> 0 < e.value <= b && Up(width, e.value) == p
    decreases b
  {
    if b == 0 then None
    else if Up(width, b) == p then Some(b)
    else if live(Up(width, b)) then None
    else Top(live, width, p, Up(width, b))
  }

  /** The nearest position above b that is alive. */
  function Nearest(live: nat -> bool, width: nat, b: nat): (a: Option<nat>)
    requires width > 0
    ensures a.Some? ==> a.value < b && live(a.value)
    decreases b
  {
    if b == 0 then None
    else if live(Up(width, b)) then Some(Up(width, b))
    else Nearest(live, width, Up(width, b))
  }

  lemma {:induction false} TopIsNearest(live: nat -> bool, width: nat, a: nat, b: nat)
    requires width > 0 && live(a)
    ensures Top(live, width, a, b).Some? <==> Nearest(live, width, b) == Some(a)
    decreases b
  {
    if b > 0 && Up(width, b) != a && !live(Up(width, b)) {
      TopIsNearest(live, width, a, Up(width, b));
    }
  }

  /** Below a position e that is not alive the way up goes on from e. */
  lemma {:induction false} TopThrough(live: nat -> bool, width: nat, p: nat, e: nat, b: nat)
    requires width > 0 && e > 0 && Up(width, e) == p
    ensures Top(live, width, p, b) == Some(e) <==> b == e || (!live(e) && Top(live, width, e, b).Some?)
    decreases b
  {
    if b > 0 && b != e && Up(width, b) != p && !live(Up(width, b)) {
      TopThrough(live, width, p, e, Up(width, b));
    }
  }

  /** e * width, as a repeated sum. */
  function Times(e: nat, width: nat): nat {
    if e == 0 then 0 else Times(e - 1, width) + width
  }

  lemma {:induction false} TimesIs(e: nat, width: nat)
    ensures Times(e, width) == e * width
  {
    if e == 0 {
    } else {
      TimesIs(e - 1, width);
      assert e * width == (e - 1) * width + width;
    }
  }

  lemma TimesGrow(e: nat, width: nat)
    requires width > 0
    ensures Times(e, width) >= e
  {
    TimesIs(e, width);
    ProductGrows(e, width);
  }

  /** The children of p are the positions from p * width + 1 to p * width + width. */
  lemma ChildOf(width: nat, p: nat, e: nat)
    requires width > 0 && Times(p, width) < e <= Times(p, width) + width
    ensures Up(width, e) == p
  {
    TimesIs(p, width);
    UpOfChild(width, p, e - p * width - 1, e);
  }

  lemma ChildBounds(width: nat, b: nat)
    requires width > 0 && b > 0
    ensures Times(Up(width, b), width) < b <= Times(Up(width, b), width) + width
  {
    TimesIs(Up(width, b), width);
    UpBounds(width, b);
  }

  /** What is selected for the positions from e to last, in order. */
  function Range(live: nat -> bool, width: nat, n: nat, e: nat, last: nat): seq<nat>
    requires width > 0
    decreases if e < n then n - e else 0, 1
  {
    if e > last || e >= n then [] else Here(live, width, n, e) + Range(live, width, n, e + 1, last)
  }

  /** A position itself if it is alive, and its children otherwise. */
  function Here(live: nat -> bool, width: nat, n: nat, e: nat): seq<nat>
    requires width > 0 && e < n
    decreases n - e, 0
  {
    TimesGrow(e, width);
    if live(e) then [e] else Range(live, width, n, Times(e, width) + 1, Times(e, width) + width)
  }

  /** The children of p. */
  function Children(live: nat -> bool, width: nat, n: nat, p: nat): seq<nat>
    requires width > 0
  {
    Range(live, width, n, Times(p, width) + 1, Times(p, width) + width)
  }

  /** b is alive, and reached from p with nothing alive in between. */
  predicate Covers(live: nat -> bool, width: nat, n: nat, p: nat, b: nat)
    requires width > 0
  {
    b < n && live(b) && Top(live, width, p, b).Some?
  }

  /** The children of p from e on are exactly the live positions reached through e or a later one. */
  lemma {:induction false} RangeExactly(live: nat -> bool, width: nat, n: nat, p: nat, e: nat, last: nat, b: nat)
    requires width > 0 && last == Times(p, width) + width && Times(p, width) < e <= last + 1
    ensures b in Range(live, width, n, e, last)
       <==> Covers(live, width, n, p, b) && Top(live, width, p, b).value >= e
    decreases if e < n then n - e else 0, 1
  {
    if e <= last && e < n {
      ChildOf(width, p, e);
      HereExactly(live, width, n, p, e, b);
      RangeExactly(live, width, n, p, e + 1, last, b);
    } else if Covers(live, width, n, p, b) {
      ChildBounds(width, Top(live, width, p, b).value);
    }
  }

  lemma {:induction false} HereExactly(live: nat -> bool, width: nat, n: nat, p: nat, e: nat, b: nat)
    requires width > 0 && 0 < e < n && Up(width, e) == p
    ensures b in Here(live, width, n, e) <==> b < n && live(b) && Top(live, width, p, b) == Some(e)
    decreases n - e, 0
  {
    TopThrough(live, width, p, e, b);
    if !live(e) {
      TimesGrow(e, width);
      RangeExactly(live, width, n, e, Times(e, width) + 1, Times(e, width) + width, b);
      if Covers(live, width, n, e, b) {
        ChildBounds(width, Top(live, width, e, b).value);
      }
    }
  }

  /** b is selected by a exactly when a is the nearest live position above b. */
  lemma SelectedExactly(live: nat -> bool, width: nat, n: nat, a: nat, b: nat)
    requires width > 0 && live(a)
    ensures b in Children(live, width, n, a) <==> b < n && live(b) && Nearest(live, width, b) == Some(a)
  {
    RangeExactly(live, width, n, a, Times(a, width) + 1, Times(a, width) + width, b);
    TopIsNearest(live, width, a, b);
    if Covers(live, width, n, a, b) {
      ChildBounds(width, Top(live, width, a, b).value);
    }
  }

  lemma DistinctJoin(s: seq<nat>, t: seq<nat>)
    requires Distinct(s) && Distinct(t) && forall x :: x in s ==> x !in t
    ensures Distinct(s + t)
  {
    forall i, j | 0 <= i < j < |s + t|
      ensures (s + t)[i] != (s + t)[j]
    {
      if i < |s| <= j {
        assert s[i] in s && t[j - |s|] in t;
      }
    }
  }

  lemma HereApart(live: nat -> bool, width: nat, n: nat, p: nat, e: nat, last: nat)
    requires width > 0 && last == Times(p, width) + width && Times(p, width) < e <= last && e < n
    ensures forall b :: b in Here(live, width, n, e) ==> b !in Range(live, width, n, e + 1, last)
  {
    ChildOf(width, p, e);
    forall b | b in Here(live, width, n, e)
      ensures b !in Range(live, width, n, e + 1, last)
    {
      HereExactly(live, width, n, p, e, b);
      RangeExactly(live, width, n, p, e + 1, last, b);
    }
  }

  /** Nothing is selected twice. */
  lemma {:induction false} RangeOnce(live: nat -> bool, width: nat, n: nat, p: nat, e: nat, last: nat)
    requires width > 0 && last == Times(p, width) + width && Times(p, width) < e <= last + 1
    ensures Distinct(Range(live, width, n, e, last))
    decreases if e < n then n - e else 0
  {
    if e <= last && e < n {
      if !live(e) {
        TimesGrow(e, width);
        RangeOnce(live, width, n, e, Times(e, width) + 1, Times(e, width) + width);
      }
      RangeOnce(live, width, n, p, e + 1, last);
      HereApart(live, width, n, p, e, last);
      DistinctJoin(Here(live, width, n, e), Range(live, width, n, e + 1, last));
    }
  }

  lemma SelectedOnce(live: nat -> bool, width: nat, n: nat, p: nat)
    requires width > 0
    ensures Distinct(Children(live, width, n, p))
  {
    RangeOnce(live, width, n, p, Times(p, width) + 1, Times(p, width) + width);
  }
}
