/**
 The affine cost function c + m*x of a message size x, the leaf value of every
 performance model (ucs_linear_func_t).
 */
module Linear {
  import opened Basics

  datatype LinearFunc = LinearFunc(c: real, m: real) {

    /** Value of the function at a (size) point. */
    function Apply(x: real): real {
      c + m * x
    }

    /** Pointwise sum, as ucs_linear_func_add_inplace. */
    function Add(other: LinearFunc): (r: LinearFunc)
      ensures forall x: real {:trigger r.Apply(x)} :: r.Apply(x) == Apply(x) + other.Apply(x)
    {
      LinearFunc(c + other.c, m + other.m)
    }
  }

  const Zero := LinearFunc(0.0, 0.0)

  lemma ZeroIsIdentity(f: LinearFunc)
    ensures f.Add(Zero) == f && Zero.Add(f) == f
    ensures forall x: real {:trigger Zero.Apply(x)} :: Zero.Apply(x) == 0.0
  {
  }

  /**
   ucs_linear_func_intersect, which is not part of this model: the crossover of
   two lines, undefined (the C code reports an error) when they are parallel.
   */
  function Intersect(f1: LinearFunc, f2: LinearFunc): (r: Option<real>)
    ensures r.Some? <==> f1.m != f2.m
    ensures r.Some? ==> f1.Apply(r.value) == f2.Apply(r.value)
  {
    if f1.m == f2.m then None
    else
      var x := (f2.c - f1.c) / (f1.m - f2.m);
      assert (f1.m - f2.m) * x == f2.c - f1.c;
      assert f1.m * x - f2.m * x == (f1.m - f2.m) * x;
      Some(x)
  }
}
