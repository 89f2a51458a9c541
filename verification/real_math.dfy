/**
 The real-valued library calls the planners make (Python's `math.sqrt`,
 `math.sin`, `math.cos`, `math.tan`, `math.atan2` and the built-in `round`).
 They are not modelled numerically: a `MathLib` value carries them as
 uninterpreted functions, and `Valid` lists the few facts the proofs rely on.
 */
module RealMath {

  /** `math.pi` (the double 3.141592653589793), read as an exact real. */
  const Pi: real := 3.141592653589793

  /** The library functions, as opaque function values. */
  datatype MathLib = MathLib(
    sqrt: real -> real,
    sin: real -> real,
    cos: real -> real,
    tan: real -> real,
    atan2: (real, real) -> real,
    round: real -> int
  )

  /** The only assumptions made about the library: square roots are
      non-negative and exact at 0, 1 and 4, sine and cosine satisfy the
      Pythagorean identity, and `atan2` lands in (-Pi, Pi]. */
  ghost predicate Valid(m: MathLib)
  {
    && (forall v :: m.sqrt(v) >= 0.0)
    && m.sqrt(0.0) == 0.0 && m.sqrt(1.0) == 1.0 && m.sqrt(4.0) == 2.0
    && (forall t :: m.sin(t) * m.sin(t) + m.cos(t) * m.cos(t) == 1.0)
    && (forall y, x :: -Pi < m.atan2(y, x) <= Pi)
  }

  /** The assumptions are consistent: some library satisfies them. */
  lemma ValidIsSatisfiable()
    ensures exists m :: Valid(m)
  {
    var m := MathLib(v => if v == 4.0 then 2.0 else if v == 1.0 then 1.0 else 0.0,
                     v => 0.0, v => 1.0, v => 0.0, (y, x) => 0.0, v => 0);
    assert Valid(m);
  }

  /** Python's `abs` on a real. */
  function Abs(v: real): (r: real)
    ensures r >= 0.0
    ensures r == v || r == -v
  {
    if v < 0.0 then -v else v
  }

  /** `math.radians` on an integer number of degrees. */
  function Radians(degrees: int): real
  {
    degrees as real * Pi / 180.0
  }

  /** Euclidean distance between (x1, y1) and (x2, y2) through the library's
      square root. */
  function Distance(m: MathLib, x1: real, y1: real, x2: real, y2: real): (r: real)
    ensures Valid(m) ==> r >= 0.0
    ensures Valid(m) && x1 == x2 && y1 == y2 ==> r == 0.0
  {
    var sq := (x1 - x2) * (x1 - x2) + (y1 - y2) * (y1 - y2);
    assert x1 == x2 && y1 == y2 ==> sq == 0.0;
    m.sqrt(sq)
  }

  /** Moving 1 or 2 along a unit direction (c, s) covers exactly that
      distance. */
  lemma DistanceAlongUnitVector(m: MathLib, x1: real, y1: real, x2: real, y2: real,
                                len: real, c: real, s: real)
    requires Valid(m) && (len == 1.0 || len == 2.0)
    requires x1 - x2 == len * c && y1 - y2 == len * s && s * s + c * c == 1.0
    ensures Distance(m, x1, y1, x2, y2) == len
  {
    var sq := (x1 - x2) * (x1 - x2) + (y1 - y2) * (y1 - y2);
    assert sq == len * len * (s * s + c * c);
    assert Distance(m, x1, y1, x2, y2) == m.sqrt(sq);
    if len == 2.0 {
      assert sq == 4.0;
    } else {
      assert sq == 1.0;
    }
  }
}
