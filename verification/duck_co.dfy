/** `extract_duck_co` of `revised-duck-hunt/utils/helper_function.ts`: the
    page's unpacking of the `u32` that `get_duck_co` returns. A JavaScript
    number is taken to hold an integer here. */
module DuckCo {
  import opened Arith
  import opened EvadeDuck

  /** `{x, y}`. */
  datatype Co = Co(x: int, y: int)

  /** ECMAScript `ToUint32`: the integer modulo `2^32`. `>>>` applies it to
      its left operand; `&` applies `ToInt32`, which has the same low 16
      bits. */
  function ToUint32(n: int): (r: nat)
    ensures r < U32
    ensures 0 <= n < U32 ==> r == n
  {
    n % U32
  }

  /** Reducing modulo `2^32` first does not change the remainder by `2^16`. */
  lemma LowBits(n: int)
    ensures ToUint32(n) % U16 == n % U16
  {
    var q := n / U32;
    var r := ToUint32(n);
    assert n == q * U32 + r;
    assert n == (q * U16 + r / U16) * U16 + r % U16;
    DivMod(n, U16, q * U16 + r / U16, r % U16);
  }

  /** `x = co >>> 16` and `y = co & 0xFFFF`. Both halves are `u16` values;
      `y` is the low 16 bits of `co`, and for a `u32` the two halves put
      together give `co` back. */
  function ExtractDuckCo(co: int): (r: Co)
    ensures 0 <= r.x < U16 && 0 <= r.y < U16
    ensures r.y == co % U16
    ensures 0 <= co < U32 ==> r.x == co / U16 && r.x * U16 + r.y == co
  {
    Pow2Of16();
    AndMask(ToUint32(co), 16);
    LowBits(co);
    Co(ToUint32(co) / U16, BitAnd(ToUint32(co), 0xFFFF))
  }

  /** The page reads back exactly the position the game packed. */
  lemma ExtractPacked(x: nat, y: nat)
    requires x < U16 && y < U16
    ensures ExtractDuckCo(PackCo(x, y)) == Co(x, y)
  {
    DivMod(PackCo(x, y), U16, x, y);
  }

  /** Packing what the page extracted from a `u32` gives the `u32` back. */
  lemma PackExtracted(co: nat)
    requires co < U32
    ensures var r := ExtractDuckCo(co); PackCo(r.x, r.y) == co
  {
  }
}
