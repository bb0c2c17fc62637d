/** Failure-carrying datatypes and small facts shared by the models. */
module Common {

  datatype Option<+T> = None | Some(value: T) {
    function GetOr(default: T): T {
      if Some? then value else default
    }
  }

  datatype Result<+T, +E> = Ok(value: T) | Err(error: E)

  lemma SubsetSize<T>(a: set<T>, b: set<T>)
    requires a <= b
    ensures |a| <= |b|
  {
    assert b == a + (b - a);
  }

  lemma MulMonotone(a: int, b: int, c: int)
    requires a <= b && c >= 0
    ensures a * c <= b * c
  {
    assert (b - a) * c >= 0;
    assert b * c == a * c + (b - a) * c;
  }

  lemma ModUnique(a: nat, q: nat, r: nat, t: nat)
    requires r < t && a == q * t + r
    ensures a % t == r
  {
    var d := q - a / t;
    assert d * t == a % t - r;
    NoMultipleInside(d, t);
  }

  lemma NoMultipleInside(d: int, t: nat)
    requires t > 0
    ensures (0 - t) < d * t < t <==> d == 0
  {
    if d >= 1 { MulMonotone(1, d, t); }
    if d <= -1 { MulMonotone(d, -1, t); }
  }
}
