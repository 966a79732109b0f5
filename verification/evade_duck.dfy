/** The "evade duck" game state of `evade_duck/mod.rs`: the canvas size, the
    last input code and the duck's position, held by the Rust side in three
    `static` mutexes and read by the page as one packed `u32`. The globals are
    the fields of one `DuckGame` object here. The module is built as release
    WebAssembly, so `u16`/`u32` arithmetic wraps around; the wrapping is
    written out. */
module EvadeDuck {
  import opened Arith

  /** `GRAVITY: u16`. */
  const Gravity: nat := 1
  /** `2^16` and `2^32`: one past the largest `u16` and `u32`. */
  const U16: nat := 0x1_0000
  const U32: nat := 0x1_0000_0000

  /** Wrapping `u16` arithmetic: the exact result modulo `2^16`. */
  function WrapU16(n: int): (r: nat)
    ensures r < U16
    ensures 0 <= n < U16 ==> r == n
    ensures n == -1 ==> r == U16 - 1
    ensures n == U16 ==> r == 0
  {
    n % U16
  }

  /** Wrapping `u32` arithmetic: the exact result modulo `2^32`. */
  function WrapU32(n: int): (r: nat)
    ensures r < U32
    ensures 0 <= n < U32 ==> r == n
    ensures n < 0 && n + U32 >= 0 ==> r == n + U32
  {
    n % U32
  }

  /** `((duck_x as u32) << 16) | (duck_y as u32)`, the shift being a
      wrapping multiplication by `2^16`: it cannot lose a bit of a `u16`, and
      the `|` adds `y` below it. */
  function PackCo(x: nat, y: nat): (co: nat)
    requires x < U16 && y < U16
    ensures co < U32 && co == x * U16 + y
  {
    Pow2Of16();
    OrShifted(x, y, 16);
    BitOr((x * U16) % U32, y)
  }

  /** The `duck_y` that `apply_gravity` leaves: one step down, and back to
      `height - 50` when that line is reached. */
  function Fall(y: nat, height: nat): (y': nat)
    requires y < U16 && height < U32
    ensures y' < U16
    ensures height >= 50 ==> y' <= height - 50
    ensures height >= 50 && WrapU16(y + Gravity) < height - 50 ==> y' == WrapU16(y + Gravity)
    ensures height >= 50 && WrapU16(y + Gravity) >= height - 50 ==> y' == height - 50
    ensures height < 50 ==> y' == WrapU16(y + Gravity)
  {
    var down := WrapU16(y + Gravity);
    var updateHeight := WrapU32(height - 50);
    if down >= updateHeight then updateHeight % U16 else down
  }

  /** A step left followed by a step right (or the other way round) puts the
      duck back, even across the wrap-around at 0. */
  lemma LeftRight(x: nat)
    requires x < U16
    ensures WrapU16(WrapU16(x - 1) + 1) == x
    ensures WrapU16(WrapU16(x + 1) - 1) == x
  {
  }

  class DuckGame {
    /** `SCREEN`: `width` and `height` as `u32`. */
    var screenWidth: nat
    var screenHeight: nat
    /** `INPUT`: the last input code. */
    var input: nat
    /** `DUCK_STATE`: `duck_x` and `duck_y` as `u16`. */
    var duckX: nat
    var duckY: nat

    ghost predicate Valid()
      reads this
    {
      screenWidth < U32 && screenHeight < U32 && input < U32 && duckX < U16 && duckY < U16
    }

    /** The statics before any call: a 0 by 0 screen, input 1, the duck at
        (100, 100). */
    constructor ()
      ensures Valid()
      ensures screenWidth == 0 && screenHeight == 0 && input == 1
      ensures duckX == 100 && duckY == 100
    {
      screenWidth, screenHeight := 0, 0;
      input := 1;
      duckX, duckY := 100, 100;
    }

    /** `set_canvas_dimensions`: stores both sizes as given. */
    method SetCanvasDimensions(width: nat, height: nat)
      requires Valid() && width < U32 && height < U32
      modifies this
      ensures Valid()
      ensures screenWidth == width && screenHeight == height
      ensures input == old(input) && duckX == old(duckX) && duckY == old(duckY)
    {
      screenWidth := width;
      screenHeight := height;
    }

    /** `set_user_input`: 1 moves the duck one step left, 2 one step right,
        3 (lift) only records the code; any other code records 1. The height
        is never touched. */
    method SetUserInput(code: nat)
      requires Valid() && code < U32
      modifies this
      ensures Valid()
      ensures input == (if code == 2 || code == 3 then code else 1)
      ensures code == 1 ==> duckX == WrapU16(old(duckX) - 1)
      ensures code == 1 && old(duckX) > 0 ==> duckX == old(duckX) - 1
      ensures code == 2 ==> duckX == WrapU16(old(duckX) + 1)
      ensures code != 1 && code != 2 ==> duckX == old(duckX)
      ensures duckY == old(duckY)
      ensures screenWidth == old(screenWidth) && screenHeight == old(screenHeight)
    {
      if code == 1 {
        input := 1;
        duckX := WrapU16(duckX - 1);
      } else if code == 2 {
        input := 2;
        duckX := WrapU16(duckX + 1);
      } else if code == 3 {
        input := 3;
      } else {
        input := 1;
      }
    }

    /** `apply_gravity`: `duck_y += GRAVITY`, then the clamp to
        `height - 50` (a `u32` subtraction, cast back to `u16`). */
    method ApplyGravity()
      requires Valid()
      modifies this
      ensures Valid()
      ensures duckY == Fall(old(duckY), screenHeight)
      ensures duckX == old(duckX) && input == old(input)
      ensures screenWidth == old(screenWidth) && screenHeight == old(screenHeight)
    {
      duckY := WrapU16(duckY + Gravity);
      var updateHeight := WrapU32(screenHeight - 50);
      if duckY >= updateHeight {
        duckY := updateHeight % U16;
      }
    }

    /** `get_duck_co`: applies gravity, then packs the new position. */
    method GetDuckCo() returns (co: nat)
      requires Valid()
      modifies this
      ensures Valid()
      ensures duckY == Fall(old(duckY), screenHeight)
      ensures duckX == old(duckX) && input == old(input)
      ensures screenWidth == old(screenWidth) && screenHeight == old(screenHeight)
      ensures co == PackCo(duckX, duckY)
    {
      ApplyGravity();
      co := PackCo(duckX, duckY);
    }
  }
}
