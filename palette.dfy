/** The categorical colour choice `get_random_color`. */
module Palette {

  /** The three named pygame colours a tile can take. */
  datatype Color = YellowGreen | DarkGreen | RoyalBlue

  /** The colour for a draw of `random.randint(0, 10)`. */
  function RandomColor(draw: int): (c: Color)
    ensures c == YellowGreen <==> draw <= 6
    ensures c == DarkGreen <==> 7 <= draw <= 8
    ensures c == RoyalBlue <==> 9 <= draw
  {
    if draw <= 6 then YellowGreen
    else if draw <= 8 then DarkGreen
    else RoyalBlue
  }

  /** The draws in `0..10` that give colour `c`. */
  function DrawsOf(c: Color): set<int> {
    set d | 0 <= d <= 10 && RandomColor(d) == c
  }

  /** Over the eleven equally likely draws the colours come 7, 2 and 2 times. */
  lemma ColorWeights()
    ensures |DrawsOf(YellowGreen)| == 7
    ensures |DrawsOf(DarkGreen)| == 2
    ensures |DrawsOf(RoyalBlue)| == 2
  {
    var green := {0, 1, 2, 3, 4, 5, 6};
    assert DrawsOf(YellowGreen) == green by {
      forall d | d in DrawsOf(YellowGreen) ensures d in green { assert 0 <= d <= 6; }
    }
    assert |green| == 7;
    assert DrawsOf(DarkGreen) == {7, 8} by {
      forall d | d in DrawsOf(DarkGreen) ensures d in {7, 8} { assert 7 <= d <= 8; }
    }
    assert DrawsOf(RoyalBlue) == {9, 10} by {
      forall d | d in DrawsOf(RoyalBlue) ensures d in {9, 10} { assert 9 <= d <= 10; }
    }
  }
}
