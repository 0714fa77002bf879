/**
 * `MakePlainHexagonalIcons` of EmulateHexagonal.py: the icon strip of a hexagonal rule, one
 * 31-pixel-wide block per live state, each holding a hexagon at three sizes.
 */
module HexIcons {

  /** An RGB colour as the icon pixels hold it. */
  datatype Colour = Colour(r: int, g: int, b: int)

  const Bg: Colour := Colour(0, 0, 0)
  const Fg: Colour := Colour(255, 255, 255)

  /** The strip is 53 pixels high: a 31-pixel icon, a 15-pixel one and a 7-pixel one, stacked. */
  const IconHeight: nat := 53
  const HugeSize: nat := 31
  const BigSize: nat := 15
  const SmallSize: nat := 7
  const BigTop: nat := 31
  const SmallTop: nat := 46

  /** `31*(n_states-1)` columns: one 31-wide block per live state (none if that is negative). */
  function IconWidth(numStates: int): nat {
    if numStates >= 1 then HugeSize * (numStates - 1) else 0
  }

  /** A mask entry: the masks hold only the integers 0 and 1. */
  newtype Bit = x: int | 0 <= x <= 1

  /** A square mask of the given size. */
  predicate IsMask(m: seq<seq<Bit>>, size: nat) {
    |m| == size && forall y :: 0 <= y < size ==> |m[y]| == size
  }

  /** `[bg,fg][m]`. */
  function Shade(m: Bit): Colour {
    [Bg, Fg][m as int]
  }

  /**
   * What pixel `(y, x)` of the strip shows: within each 31-wide block the 31x31 mask at the
   * top, the 15x15 one below it and the 7x7 one at the bottom, all at the block's left edge,
   * and black wherever no mask reaches.
   */
  function IconPixel(huge: seq<seq<Bit>>, big: seq<seq<Bit>>, small: seq<seq<Bit>>, y: int, x: int): Colour
    requires IsMask(huge, HugeSize) && IsMask(big, BigSize) && IsMask(small, SmallSize)
    requires 0 <= y < IconHeight && 0 <= x
  {
    var c := x % HugeSize;
    if y < BigTop then Shade(huge[y][c])
    else if y < SmallTop then (if c < BigSize then Shade(big[y - BigTop][c]) else Bg)
    else if c < SmallSize then Shade(small[y - SmallTop][c]) else Bg
  }

  /** A grid of `height` rows of `width` pixels. */
  predicate IsGrid(p: seq<seq<Colour>>, height: nat, width: nat) {
    |p| == height && forall y :: 0 <= y < height ==> |p[y]| == width
  }

  /** One of the three `for row / for column` loops: `mask` copied into the block at (`top`, `left`). */
  method PaintMask(pixels: seq<seq<Colour>>, width: nat, mask: seq<seq<Bit>>, size: nat, top: nat, left: nat)
    returns (p: seq<seq<Colour>>)
    requires IsGrid(pixels, IconHeight, width) && IsMask(mask, size)
    requires top + size <= IconHeight && left + size <= width
    ensures IsGrid(p, IconHeight, width)
    ensures forall y, x :: 0 <= y < IconHeight && 0 <= x < width ==>
      p[y][x] == if top <= y < top + size && left <= x < left + size then Shade(mask[y - top][x - left]) else pixels[y][x]
  {
    p := pixels;
    var row := 0;
    while row < size
      invariant 0 <= row <= size
      invariant IsGrid(p, IconHeight, width)
      invariant forall y, x :: 0 <= y < IconHeight && 0 <= x < width ==>
        p[y][x] == if top <= y < top + row && left <= x < left + size then Shade(mask[y - top][x - left]) else pixels[y][x]
    {
      var column := 0;
      while column < size
        invariant 0 <= column <= size
        invariant IsGrid(p, IconHeight, width)
        invariant forall y, x :: 0 <= y < IconHeight && 0 <= x < width ==>
          p[y][x] == if (top <= y < top + row && left <= x < left + size) || (y == top + row && left <= x < left + column)
                     then Shade(mask[y - top][x - left]) else pixels[y][x]
      {
        p := p[top + row := p[top + row][left + column := Shade(mask[row][column])]];
        column := column + 1;
      }
      row := row + 1;
    }
  }

  /** Inside block `b` the column within the masks is the offset from the block's left edge. */
  lemma BlockColumn(x: int, b: nat)
    requires HugeSize * b <= x < HugeSize * b + HugeSize
    ensures x % HugeSize == x - HugeSize * b
  {
  }

  /** `MakePlainHexagonalIcons` with the three masks as parameters. */
  method PaintIcons(numStates: int, huge: seq<seq<Bit>>, big: seq<seq<Bit>>, small: seq<seq<Bit>>)
    returns (pixels: seq<seq<Colour>>)
    requires IsMask(huge, HugeSize) && IsMask(big, BigSize) && IsMask(small, SmallSize)
    ensures IsGrid(pixels, IconHeight, IconWidth(numStates))
    ensures forall y, x :: 0 <= y < IconHeight && 0 <= x < IconWidth(numStates) ==>
      pixels[y][x] == IconPixel(huge, big, small, y, x)
  {
    var width := IconWidth(numStates);
    pixels := seq(IconHeight, _ => seq(width, _ => Bg));
    var s := 1;
    while s < numStates
      invariant 1 <= s && (numStates >= 1 ==> s <= numStates)
      invariant IsGrid(pixels, IconHeight, width)
      invariant forall y, x :: 0 <= y < IconHeight && 0 <= x < width ==>
        pixels[y][x] == if x < HugeSize * (s - 1) then IconPixel(huge, big, small, y, x) else Bg
    {
      var left := HugeSize * (s - 1);
      var p0 := pixels;
      var p1 := PaintMask(p0, width, huge, HugeSize, 0, left);
      var p2 := PaintMask(p1, width, big, BigSize, BigTop, left);
      pixels := PaintMask(p2, width, small, SmallSize, SmallTop, left);
      forall y, x | 0 <= y < IconHeight && 0 <= x < width
        ensures pixels[y][x] == if x < HugeSize * s then IconPixel(huge, big, small, y, x) else Bg
      {
        if left <= x < left + HugeSize {
          BlockColumn(x, s - 1);
        }
      }
      s := s + 1;
    }
  }

  const Huge: seq<seq<Bit>> :=
    [HugeRow0, HugeRow1, HugeRow2, HugeRow3, HugeRow4, HugeRow5, HugeRow6, HugeRow7, HugeRow8,
     HugeRow9, HugeRow10, HugeRow11, HugeRow12, HugeRow13, HugeRow14, HugeRow15, HugeRow16,
     HugeRow17, HugeRow18, HugeRow19, HugeRow20, HugeRow21, HugeRow22, HugeRow23, HugeRow24,
     HugeRow25, HugeRow26, HugeRow27, HugeRow28, HugeRow29, HugeRow30]

  const HugeRow0: seq<Bit> := [0, 0, 0, 0, 0, 1, 1, 0, 0, 0, 0, 0, 0, 0, 0, 0, 0, 0, 0, 0, 0, 0, 0, 0, 0, 0, 0, 0, 0, 0, 0]
  const HugeRow1: seq<Bit> := [0, 0, 0, 0, 1, 1, 1, 1, 1, 0, 0, 0, 0, 0, 0, 0, 0, 0, 0, 0, 0, 0, 0, 0, 0, 0, 0, 0, 0, 0, 0]
  const HugeRow2: seq<Bit> := [0, 0, 0, 1, 1, 1, 1, 1, 1, 1, 1, 0, 0, 0, 0, 0, 0, 0, 0, 0, 0, 0, 0, 0, 0, 0, 0, 0, 0, 0, 0]
  const HugeRow3: seq<Bit> := [0, 0, 1, 1, 1, 1, 1, 1, 1, 1, 1, 1, 1, 0, 0, 0, 0, 0, 0, 0, 0, 0, 0, 0, 0, 0, 0, 0, 0, 0, 0]
  const HugeRow4: seq<Bit> := [0, 1, 1, 1, 1, 1, 1, 1, 1, 1, 1, 1, 1, 1, 1, 0, 0, 0, 0, 0, 0, 0, 0, 0, 0, 0, 0, 0, 0, 0, 0]
  const HugeRow5: seq<Bit> := [1, 1, 1, 1, 1, 1, 1, 1, 1, 1, 1, 1, 1, 1, 1, 1, 1, 0, 0, 0, 0, 0, 0, 0, 0, 0, 0, 0, 0, 0, 0]
  const HugeRow6: seq<Bit> := [1, 1, 1, 1, 1, 1, 1, 1, 1, 1, 1, 1, 1, 1, 1, 1, 1, 1, 1, 0, 0, 0, 0, 0, 0, 0, 0, 0, 0, 0, 0]
  const HugeRow7: seq<Bit> := [0, 1, 1, 1, 1, 1, 1, 1, 1, 1, 1, 1, 1, 1, 1, 1, 1, 1, 1, 1, 1, 0, 0, 0, 0, 0, 0, 0, 0, 0, 0]
  const HugeRow8: seq<Bit> := [0, 1, 1, 1, 1, 1, 1, 1, 1, 1, 1, 1, 1, 1, 1, 1, 1, 1, 1, 1, 1, 1, 1, 0, 0, 0, 0, 0, 0, 0, 0]
  const HugeRow9: seq<Bit> := [0, 0, 1, 1, 1, 1, 1, 1, 1, 1, 1, 1, 1, 1, 1, 1, 1, 1, 1, 1, 1, 1, 1, 0, 0, 0, 0, 0, 0, 0, 0]
  const HugeRow10: seq<Bit> := [0, 0, 1, 1, 1, 1, 1, 1, 1, 1, 1, 1, 1, 1, 1, 1, 1, 1, 1, 1, 1, 1, 1, 1, 0, 0, 0, 0, 0, 0, 0]
  const HugeRow11: seq<Bit> := [0, 0, 0, 1, 1, 1, 1, 1, 1, 1, 1, 1, 1, 1, 1, 1, 1, 1, 1, 1, 1, 1, 1, 1, 0, 0, 0, 0, 0, 0, 0]
  const HugeRow12: seq<Bit> := [0, 0, 0, 1, 1, 1, 1, 1, 1, 1, 1, 1, 1, 1, 1, 1, 1, 1, 1, 1, 1, 1, 1, 1, 1, 0, 0, 0, 0, 0, 0]
  const HugeRow13: seq<Bit> := [0, 0, 0, 0, 1, 1, 1, 1, 1, 1, 1, 1, 1, 1, 1, 1, 1, 1, 1, 1, 1, 1, 1, 1, 1, 0, 0, 0, 0, 0, 0]
  const HugeRow14: seq<Bit> := [0, 0, 0, 0, 1, 1, 1, 1, 1, 1, 1, 1, 1, 1, 1, 1, 1, 1, 1, 1, 1, 1, 1, 1, 1, 1, 0, 0, 0, 0, 0]
  const HugeRow15: seq<Bit> := [0, 0, 0, 0, 0, 1, 1, 1, 1, 1, 1, 1, 1, 1, 1, 1, 1, 1, 1, 1, 1, 1, 1, 1, 1, 1, 0, 0, 0, 0, 0]
  const HugeRow16: seq<Bit> := [0, 0, 0, 0, 0, 1, 1, 1, 1, 1, 1, 1, 1, 1, 1, 1, 1, 1, 1, 1, 1, 1, 1, 1, 1, 1, 1, 0, 0, 0, 0]
  const HugeRow17: seq<Bit> := [0, 0, 0, 0, 0, 0, 1, 1, 1, 1, 1, 1, 1, 1, 1, 1, 1, 1, 1, 1, 1, 1, 1, 1, 1, 1, 1, 0, 0, 0, 0]
  const HugeRow18: seq<Bit> := [0, 0, 0, 0, 0, 0, 1, 1, 1, 1, 1, 1, 1, 1, 1, 1, 1, 1, 1, 1, 1, 1, 1, 1, 1, 1, 1, 1, 0, 0, 0]
  const HugeRow19: seq<Bit> := [0, 0, 0, 0, 0, 0, 0, 1, 1, 1, 1, 1, 1, 1, 1, 1, 1, 1, 1, 1, 1, 1, 1, 1, 1, 1, 1, 1, 0, 0, 0]
  const HugeRow20: seq<Bit> := [0, 0, 0, 0, 0, 0, 0, 1, 1, 1, 1, 1, 1, 1, 1, 1, 1, 1, 1, 1, 1, 1, 1, 1, 1, 1, 1, 1, 1, 0, 0]
  const HugeRow21: seq<Bit> := [0, 0, 0, 0, 0, 0, 0, 0, 1, 1, 1, 1, 1, 1, 1, 1, 1, 1, 1, 1, 1, 1, 1, 1, 1, 1, 1, 1, 1, 0, 0]
  const HugeRow22: seq<Bit> := [0, 0, 0, 0, 0, 0, 0, 0, 1, 1, 1, 1, 1, 1, 1, 1, 1, 1, 1, 1, 1, 1, 1, 1, 1, 1, 1, 1, 1, 1, 0]
  const HugeRow23: seq<Bit> := [0, 0, 0, 0, 0, 0, 0, 0, 0, 0, 1, 1, 1, 1, 1, 1, 1, 1, 1, 1, 1, 1, 1, 1, 1, 1, 1, 1, 1, 1, 0]
  const HugeRow24: seq<Bit> := [0, 0, 0, 0, 0, 0, 0, 0, 0, 0, 0, 0, 1, 1, 1, 1, 1, 1, 1, 1, 1, 1, 1, 1, 1, 1, 1, 1, 1, 1, 1]
  const HugeRow25: seq<Bit> := [0, 0, 0, 0, 0, 0, 0, 0, 0, 0, 0, 0, 0, 0, 1, 1, 1, 1, 1, 1, 1, 1, 1, 1, 1, 1, 1, 1, 1, 1, 1]
  const HugeRow26: seq<Bit> := [0, 0, 0, 0, 0, 0, 0, 0, 0, 0, 0, 0, 0, 0, 0, 0, 1, 1, 1, 1, 1, 1, 1, 1, 1, 1, 1, 1, 1, 1, 0]
  const HugeRow27: seq<Bit> := [0, 0, 0, 0, 0, 0, 0, 0, 0, 0, 0, 0, 0, 0, 0, 0, 0, 0, 1, 1, 1, 1, 1, 1, 1, 1, 1, 1, 1, 0, 0]
  const HugeRow28: seq<Bit> := [0, 0, 0, 0, 0, 0, 0, 0, 0, 0, 0, 0, 0, 0, 0, 0, 0, 0, 0, 0, 1, 1, 1, 1, 1, 1, 1, 1, 0, 0, 0]
  const HugeRow29: seq<Bit> := [0, 0, 0, 0, 0, 0, 0, 0, 0, 0, 0, 0, 0, 0, 0, 0, 0, 0, 0, 0, 0, 0, 1, 1, 1, 1, 1, 0, 0, 0, 0]
  const HugeRow30: seq<Bit> := [0, 0, 0, 0, 0, 0, 0, 0, 0, 0, 0, 0, 0, 0, 0, 0, 0, 0, 0, 0, 0, 0, 0, 0, 1, 1, 0, 0, 0, 0, 0]

  const Big: seq<seq<Bit>> :=
    [BigRow0, BigRow1, BigRow2, BigRow3, BigRow4, BigRow5, BigRow6, BigRow7, BigRow8, BigRow9,
     BigRow10, BigRow11, BigRow12, BigRow13, BigRow14]

  const BigRow0: seq<Bit> := [0, 0, 0, 1, 1, 0, 0, 0, 0, 0, 0, 0, 0, 0, 0]
  const BigRow1: seq<Bit> := [0, 0, 1, 1, 1, 1, 1, 0, 0, 0, 0, 0, 0, 0, 0]
  const BigRow2: seq<Bit> := [0, 1, 1, 1, 1, 1, 1, 1, 1, 0, 0, 0, 0, 0, 0]
  const BigRow3: seq<Bit> := [1, 1, 1, 1, 1, 1, 1, 1, 1, 1, 1, 0, 0, 0, 0]
  const BigRow4: seq<Bit> := [1, 1, 1, 1, 1, 1, 1, 1, 1, 1, 1, 1, 0, 0, 0]
  const BigRow5: seq<Bit> := [0, 1, 1, 1, 1, 1, 1, 1, 1, 1, 1, 1, 0, 0, 0]
  const BigRow6: seq<Bit> := [0, 1, 1, 1, 1, 1, 1, 1, 1, 1, 1, 1, 1, 0, 0]
  const BigRow7: seq<Bit> := [0, 0, 1, 1, 1, 1, 1, 1, 1, 1, 1, 1, 1, 0, 0]
  const BigRow8: seq<Bit> := [0, 0, 1, 1, 1, 1, 1, 1, 1, 1, 1, 1, 1, 1, 0]
  const BigRow9: seq<Bit> := [0, 0, 0, 1, 1, 1, 1, 1, 1, 1, 1, 1, 1, 1, 0]
  const BigRow10: seq<Bit> := [0, 0, 0, 1, 1, 1, 1, 1, 1, 1, 1, 1, 1, 1, 1]
  const BigRow11: seq<Bit> := [0, 0, 0, 0, 1, 1, 1, 1, 1, 1, 1, 1, 1, 1, 1]
  const BigRow12: seq<Bit> := [0, 0, 0, 0, 0, 0, 1, 1, 1, 1, 1, 1, 1, 1, 0]
  const BigRow13: seq<Bit> := [0, 0, 0, 0, 0, 0, 0, 0, 1, 1, 1, 1, 1, 0, 0]
  const BigRow14: seq<Bit> := [0, 0, 0, 0, 0, 0, 0, 0, 0, 0, 1, 1, 0, 0, 0]

  const Small: seq<seq<Bit>> :=
    [SmallRow0, SmallRow1, SmallRow2, SmallRow3, SmallRow4, SmallRow5, SmallRow6]

  const SmallRow0: seq<Bit> := [0, 1, 1, 0, 0, 0, 0]
  const SmallRow1: seq<Bit> := [1, 1, 1, 1, 1, 0, 0]
  const SmallRow2: seq<Bit> := [1, 1, 1, 1, 1, 1, 0]
  const SmallRow3: seq<Bit> := [0, 1, 1, 1, 1, 1, 0]
  const SmallRow4: seq<Bit> := [0, 1, 1, 1, 1, 1, 1]
  const SmallRow5: seq<Bit> := [0, 0, 1, 1, 1, 1, 1]
  const SmallRow6: seq<Bit> := [0, 0, 0, 0, 1, 1, 0]

  lemma MasksAreMasks()
    ensures IsMask(Huge, HugeSize) && IsMask(Big, BigSize) && IsMask(Small, SmallSize)
  {
  }

  /** `MakePlainHexagonalIcons(n_states, rule_name)`: the strip of icons for states 1 to `n_states - 1`. */
  method MakePlainHexagonalIcons(numStates: int) returns (pixels: seq<seq<Colour>>)
    ensures IsMask(Huge, HugeSize) && IsMask(Big, BigSize) && IsMask(Small, SmallSize)
    ensures IsGrid(pixels, IconHeight, IconWidth(numStates))
    ensures forall y, x :: 0 <= y < IconHeight && 0 <= x < IconWidth(numStates) ==>
      pixels[y][x] == IconPixel(Huge, Big, Small, y, x)
  {
    MasksAreMasks();
    pixels := PaintIcons(numStates, Huge, Big, Small);
  }

  /**
   * Every pixel of the strip is black or white, and the parts of each block that no mask
   * covers (right of the 15- and 7-pixel masks) stay black.
   */
  lemma IconColours(y: int, x: int)
    requires 0 <= y < IconHeight && 0 <= x
    ensures IsMask(Huge, HugeSize) && IsMask(Big, BigSize) && IsMask(Small, SmallSize)
    ensures IconPixel(Huge, Big, Small, y, x) == Bg || IconPixel(Huge, Big, Small, y, x) == Fg
    ensures BigTop <= y < SmallTop && x % HugeSize >= BigSize ==> IconPixel(Huge, Big, Small, y, x) == Bg
    ensures SmallTop <= y && x % HugeSize >= SmallSize ==> IconPixel(Huge, Big, Small, y, x) == Bg
  {
    MasksAreMasks();
  }
}
