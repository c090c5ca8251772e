/** Tile names: "Tile_" + x + "_" + y, with the coordinates written in decimal as
    Swift's string interpolation writes an `Int`. `getTile(at:)` finds tiles by these
    names, so distinct positions must give distinct names. */
module Names {
  import opened Geometry

  predicate IsDigit(c: char)
  {
    '0' <= c <= '9'
  }

  predicate AllDigits(s: string)
  {
    forall i :: 0 <= i < |s| ==> IsDigit(s[i])
  }

  function DigitChar(d: int): (c: char)
    requires 0 <= d < 10
    ensures IsDigit(c) && c as int - '0' as int == d
  {
    ('0' as int + d) as char
  }

  /** Decimal digits of a natural number, most significant first, no leading zeros. */
  function NatToString(n: nat): (s: string)
    decreases n
  {
    if n < 10 then [DigitChar(n)] else NatToString(n / 10) + [DigitChar(n % 10)]
  }

  /** Decimal text of an integer, with a leading '-' when negative. */
  function IntToString(i: int): (s: string)
    ensures |s| > 0 && (s[0] == '-' <==> i < 0)
  {
    NatToStringRoundTrip(Abs(i));
    if i < 0 then "-" + NatToString(-i) else NatToString(i)
  }

  /** The value of a string of decimal digits. */
  function ParseDigits(s: string): nat
    requires AllDigits(s)
  {
    if s == [] then 0 else ParseDigits(s[..|s| - 1]) * 10 + (s[|s| - 1] as int - '0' as int)
  }

  /** Reading back the decimal text of a natural number gives the number. */
  lemma {:induction false} NatToStringRoundTrip(n: nat)
    ensures |NatToString(n)| > 0 && AllDigits(NatToString(n))
    ensures ParseDigits(NatToString(n)) == n
    decreases n
  {
    if n >= 10 {
      NatToStringRoundTrip(n / 10);
      var s := NatToString(n);
      assert s[..|s| - 1] == NatToString(n / 10);
    }
  }

  /** Distinct integers have distinct decimal texts. */
  lemma {:induction false} IntToStringInjective(i: int, j: int)
    requires IntToString(i) == IntToString(j)
    ensures i == j
  {
    NatToStringRoundTrip(Abs(i));
    NatToStringRoundTrip(Abs(j));
    assert (IntToString(i)[0] == '-') == (i < 0);
    assert (IntToString(j)[0] == '-') == (j < 0);
    if i < 0 {
      assert NatToString(-i) == IntToString(i)[1..] == NatToString(-j);
    }
  }

  lemma {:induction false} IntToStringHasNoUnderscore(i: int)
    ensures forall k :: 0 <= k < |IntToString(i)| ==> IntToString(i)[k] != '_'
  {
    NatToStringRoundTrip(Abs(i));
  }

  /** The name a tile is given when it is built. */
  function TileName(p: Point): (s: string)
    ensures |s| >= 8 && s[..5] == "Tile_"
  {
    "Tile_" + IntToString(p.x) + "_" + IntToString(p.y)
  }

  /** Splitting at the first '_': if `a + "_" + b == c + "_" + d` and neither `a`
      nor `c` holds a '_', then `a == c` and `b == d`. */
  lemma {:induction false} SplitAtSeparator(a: string, b: string, c: string, d: string)
    requires forall k :: 0 <= k < |a| ==> a[k] != '_'
    requires forall k :: 0 <= k < |c| ==> c[k] != '_'
    requires a + "_" + b == c + "_" + d
    ensures a == c && b == d
  {
    var l := a + "_" + b;
    assert |a| == |c| by {
      assert l[|a|] == '_';
      assert (c + "_" + d)[|c|] == '_';
    }
    assert a == l[..|a|] == c;
    assert b == l[|a| + 1..] == d;
  }

  /** Distinct positions have distinct tile names. */
  lemma {:induction false} TileNameInjective(p: Point, q: Point)
    requires TileName(p) == TileName(q)
    ensures p == q
  {
    var a, b, c, d := IntToString(p.x), IntToString(p.y), IntToString(q.x), IntToString(q.y);
    assert TileName(p) == "Tile_" + (a + "_" + b);
    assert TileName(q) == "Tile_" + (c + "_" + d);
    assert a + "_" + b == TileName(p)[5..] == c + "_" + d;
    IntToStringHasNoUnderscore(p.x);
    IntToStringHasNoUnderscore(q.x);
    SplitAtSeparator(a, b, c, d);
    IntToStringInjective(p.x, q.x);
    IntToStringInjective(p.y, q.y);
  }

  /** The name setExitTile builds for a draw, 0 being the top left corner and
      the others following clockwise: the name of the tile at that corner. */
  function ExitTileName(n: int, random: int): (s: string)
    requires 1 <= n
    ensures s == TileName(ExitCorner(n, random))
  {
    assert IntToString(0) == "0";
    match random
    case 0 => "Tile_0_" + IntToString(n - 1)
    case 1 => "Tile_" + IntToString(n - 1) + "_" + IntToString(n - 1)
    case 2 => "Tile_" + IntToString(n - 1) + "_0"
    case _ => "Tile_0_0"
  }
}
