/** The piece colours of the web front end: the hue `(id * 40) % 360`
    shared by the board and the piece list. JavaScript's `%` truncates
    toward zero, unlike Dafny's, so it is written out here. */
module Colors {
  /** The hue circle: hues are taken modulo 360 degrees. */
  const Turn: int := 360

  /** JavaScript's `a % 360`: the remainder has the sign of the dividend. */
  function JsRem(a: int): (r: int)
    ensures a >= 0 ==> 0 <= r < Turn
    ensures a < 0 ==> -Turn < r <= 0
    ensures (a - r) % Turn == 0
  {
    if a >= 0 then a % Turn else -((-a) % Turn)
  }

  /** The two remainders agree when the dividend is not negative or a
      multiple of 360; otherwise they differ by 360. */
  lemma JsRemVersusEuclid(a: int)
    ensures JsRem(a) == (if a >= 0 || a % Turn == 0 then a % Turn else a % Turn - Turn)
  {
    if a < 0 {
      var q, r := (-a) / Turn, (-a) % Turn;
      assert -a == Turn * q + r;
      if r == 0 {
        TurnRemainder(a, -q, 0);
      } else {
        TurnRemainder(a, -q - 1, Turn - r);
      }
    }
  }

  /** The remainder by 360 is the unique m in [0, 360) with a = 360 * k + m. */
  lemma TurnRemainder(a: int, k: int, m: int)
    requires a == Turn * k + m && 0 <= m < Turn
    ensures a % Turn == m && a / Turn == k
  {
  }

  /** The remainder by 9, characterised the same way. */
  lemma NineRemainder(a: int, k: int, m: int)
    requires a == 9 * k + m && 0 <= m < 9
    ensures a % 9 == m
  {
  }

  /** The hue of piece `id`: `(id * 40) % 360`. */
  function PieceHue(id: int): (h: int)
    ensures id >= 0 ==> 0 <= h < Turn && h % 40 == 0
    ensures -Turn < h < Turn
  {
    JsRem(id * 40)
  }

  /** Two pieces with non-negative ids share a colour exactly when their ids
      differ by a multiple of nine. */
  lemma SameHue(a: int, b: int)
    requires 0 <= a && 0 <= b
    ensures PieceHue(a) == PieceHue(b) <==> (a - b) % 9 == 0
  {
    var qa, ra := a / 9, a % 9;
    var qb, rb := b / 9, b % 9;
    TurnRemainder(a * 40, qa, 40 * ra);
    TurnRemainder(b * 40, qb, 40 * rb);
    assert PieceHue(a) == 40 * ra && PieceHue(b) == 40 * rb;
    if ra >= rb {
      NineRemainder(a - b, qa - qb, ra - rb);
    } else {
      NineRemainder(a - b, qa - qb - 1, 9 + ra - rb);
    }
  }

  /** A negative id that is not a multiple of nine gets a negative hue, 360
      below the hue `hsl` reads it as; a negative multiple of nine gets 0. */
  lemma NegativeHue(id: int)
    requires id < 0
    ensures PieceHue(id) == (if id % 9 == 0 then 0 else 40 * (id % 9) - Turn)
    ensures PieceHue(id) < 0 <==> id % 9 != 0
  {
    var q, m := id / 9, id % 9;
    TurnRemainder(id * 40, q, 40 * m);
    JsRemVersusEuclid(id * 40);
  }
}
