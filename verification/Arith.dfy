/** Facts about multiplication and division by a positive constant that the buffer geometry rests on. */
module Arith {

  lemma DivModUnique(x: int, q: int, r: int, d: int)
    requires 0 < d && 0 <= r < d && x == q * d + r
    ensures x / d == q && x % d == r
  {
    var k := x / d - q;
    assert x == (x / d) * d + x % d;
    assert k * d == r - x % d by {
      assert k * d == (x / d) * d - q * d;
    }
    if k >= 1 {
      MulLe(1, k, d);
    } else if k <= -1 {
      MulLe(k, -1, d);
    }
  }

  lemma MulLe(a: int, b: int, d: int)
    requires a <= b && 0 <= d
    ensures a * d <= b * d
  {
  }

  /** The block of an address is at most `q` exactly when the address lies below block `q + 1`. */
  lemma DivBound(x: nat, q: int, d: int)
    requires 0 < d
    ensures x / d <= q <==> x < (q + 1) * d
  {
    assert x == (x / d) * d + x % d;
    if x / d <= q {
      MulLe(x / d, q, d);
    } else {
      MulLe(q + 1, x / d, d);
    }
  }

  lemma MulDistrib(a: int, b: int, d: int)
    ensures (a + b) * d == a * d + b * d
    ensures (a - b) * d == a * d - b * d
  {
  }

  lemma ExactDiv(q: int, x: int, d: int)
    requires 0 < d && x == q * d
    ensures x / d == q && x % d == 0
  {
    DivModUnique(x, q, 0, d);
  }

  lemma DivLe(x: int, y: int, d: int)
    requires 0 < d && 0 <= x <= y
    ensures x / d <= y / d
  {
    DivBound(x, y / d, d);
    DivBound(y, y / d, d);
  }

  function Min(a: int, b: int): (m: int) {
    if a < b then a else b
  }

  /** `need` units fit in `room` units exactly when their sizes do. */
  lemma RoomFor(need: int, room: int, d: int)
    requires 0 < d
    ensures room >= need <==> need * d <= room * d
    ensures (need - room) * d == need * d - room * d
  {
    MulDistrib(need, room, d);
    if need <= room {
      MulLe(need, room, d);
    } else {
      MulLe(room + 1, need, d);
      MulDistrib(room, 1, d);
    }
  }
}
