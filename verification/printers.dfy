/** The expression printers the implicit surfaces use to turn a symbolic
    function into device code: powers with a positive integer exponent
    become repeated products (`print_pow` and `Printer._print_Pow`), and
    polynomials become interval-arithmetic sums (`ia_poly`). */
module Printers {
  import opened Strings

  /** A power's exponent: an integer, or anything else, printed as text. */
  datatype Exponent = IntegerExp(n: int) | OtherExp(text: string)

  function ExponentText(e: Exponent): string {
    match e
    case IntegerExp(n) => IntToString(n)
    case OtherExp(t) => t
  }

  /** The parenthesised base that each factor of a product repeats. */
  function Factor(base: string): string {
    "(" + base + ")"
  }

  /** `print_pow(base**exp)`: `n` copies of `(base)` joined by `*` and
      parenthesised when `exp` is a positive integer `n`, otherwise
      `pow(base,exp)`. */
  function PrintPow(base: string, e: Exponent): (r: string)
    ensures e.IntegerExp? && e.n > 0 ==> |r| >= 2 && r[0] == '(' && r[|r| - 1] == ')'
    ensures !(e.IntegerExp? && e.n > 0) ==> StartsWith(r, "pow(") && r[|r| - 1] == ')'
  {
    if e.IntegerExp? && e.n > 0 then "(" + Join("*", Repeat(e.n, Factor(base))) + ")"
    else "pow(" + base + "," + ExponentText(e) + ")"
  }

  /** The product form splits back into exactly `n` factors `(base)` when
      the base contains no `*`: the printed text is a product of `n` equal
      factors and nothing else. */
  lemma PrintPowFactors(base: string, n: int)
    requires n > 0 && '*' !in base
    ensures var r := PrintPow(base, IntegerExp(n));
      SplitOn(r[1..|r| - 1], '*') == Repeat(n, Factor(base))
  {
    var r := PrintPow(base, IntegerExp(n));
    var parts := Repeat(n, Factor(base));
    var inner := Join("*", parts);
    assert r == "(" + inner + ")";
    assert r[1..|r| - 1] == inner;
    assert "*" == ['*'];
    forall i | 0 <= i < |parts|
      ensures '*' !in parts[i]
    {
      assert parts[i] == "(" + base + ")";
    }
    SplitOnJoin(parts, '*');
  }

  /** The two printed forms never coincide: a product starts with `(` and
      a call with `p`. */
  lemma PrintPowFormsDiffer(base: string, n: int, e: Exponent)
    requires n > 0 && !(e.IntegerExp? && e.n > 0)
    ensures PrintPow(base, IntegerExp(n)) != PrintPow(base, e)
  {
    var a := PrintPow(base, IntegerExp(n));
    var b := PrintPow(base, e);
    assert a[0] == '(';
    assert b[..4] == "pow(";
    assert b[0] == 'p';
  }

  /** Term `i` of `ia_poly(coeffs, n, x)`: `c_0`, then `ia_mul_exact(x,c_1)`,
      then `ia_mul_exact(ia_powI(x),c_I)`. */
  function PolyTerm(coeffs: string, x: string, i: nat): string {
    if i == 0 then coeffs + "_0"
    else
      var power := if i > 1 then "ia_pow" + NatToString(i) + "(" + x + ")" else x;
      "ia_mul_exact(" + power + "," + coeffs + "_" + NatToString(i) + ")"
  }

  function PolyTerms(coeffs: string, x: string, n: nat): (r: seq<string>)
    ensures |r| == n
    decreases n
  {
    if n == 0 then [] else PolyTerms(coeffs, x, n - 1) + [PolyTerm(coeffs, x, n - 1)]
  }

  /** `ia_poly(coeffs, n_coeff, var)`. */
  function IaPoly(coeffs: string, n: nat, x: string): string {
    Join(" + ", PolyTerms(coeffs, x, n))
  }

  /** The terms are listed in order of their degree. */
  lemma {:induction false} PolyTermsInOrder(coeffs: string, x: string, n: nat, i: nat)
    requires i < n
    ensures PolyTerms(coeffs, x, n)[i] == PolyTerm(coeffs, x, i)
    decreases n
  {
    var prev := PolyTerms(coeffs, x, n - 1);
    assert PolyTerms(coeffs, x, n) == prev + [PolyTerm(coeffs, x, n - 1)];
    if i < n - 1 {
      PolyTermsInOrder(coeffs, x, n - 1, i);
      assert (prev + [PolyTerm(coeffs, x, n - 1)])[i] == prev[i];
    }
  }

  /** One more coefficient appends ` + ` and the next term; with no
      coefficients the sum is empty and with one it is the constant. */
  lemma IaPolyGrows(coeffs: string, x: string, n: nat)
    ensures IaPoly(coeffs, 0, x) == ""
    ensures IaPoly(coeffs, 1, x) == coeffs + "_0"
    ensures n >= 1 ==> IaPoly(coeffs, n + 1, x) == IaPoly(coeffs, n, x) + " + " + PolyTerm(coeffs, x, n)
  {
    assert PolyTerms(coeffs, x, 1) == [PolyTerm(coeffs, x, 0)];
    if n >= 1 {
      JoinSnoc(" + ", PolyTerms(coeffs, x, n), PolyTerm(coeffs, x, n));
    }
  }

  /** The linear and higher terms multiply the variable (or its power) by
      the coefficient of their own index. */
  lemma PolyTermShapes(coeffs: string, x: string)
    ensures PolyTerm(coeffs, x, 1) == "ia_mul_exact(" + x + "," + coeffs + "_1)"
    ensures PolyTerm(coeffs, x, 2) == "ia_mul_exact(ia_pow2(" + x + ")," + coeffs + "_2)"
  {
    assert NatToString(1) == "1";
    assert NatToString(2) == "2";
  }
}
