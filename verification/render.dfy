/**
 * The printed form of instructions. Each instruction is one `print` call of
 * the generators, so the text of a program is every rendered instruction
 * followed by a newline. The C generator writes temporaries as `t_N` and gives
 * each definition its type; the TAC generator writes `tN`, no types, and puts
 * a blank line before `while` and `return`.
 */
module Render {
  import opened Decimal
  import opened Tokens
  import opened Ast
  import opened Lowering

  function TempPrefix(b: Backend): (r: string) {
    if b == C then "t_" else "t"
  }

  function LocName(b: Backend, l: Loc): (r: string) {
    match l
    case Temp(k) => TempPrefix(b) + NatToString(k)
    case Var(x) => x
  }

  // ---------------------------------------------------------------------------
  // Literals

  /** The digits without their leading zeros. */
  function DropLeadingZeros(s: string): (r: string)
    ensures |r| <= |s| && r == s[|s| - |r|..]
    ensures r == [] || r[0] != '0'
    decreases |s|
  {
    if s != [] && s[0] == '0' then DropLeadingZeros(s[1..]) else s
  }

  /** The digits without their trailing zeros. */
  function DropTrailingZeros(s: string): (r: string)
    ensures |r| <= |s| && r == s[..|r|]
    ensures r == [] || r[|r| - 1] != '0'
    decreases |s|
  {
    if s != [] && s[|s| - 1] == '0' then DropTrailingZeros(s[..|s| - 1]) else s
  }

  /** The integer part as Python prints a float: no leading zeros, but at least one digit. */
  function WholeText(s: string): (r: string) {
    var r := DropLeadingZeros(s);
    if r == [] then "0" else r
  }

  /** The fraction as Python prints a float: no trailing zeros, but at least one digit. */
  function FracText(s: string): (r: string) {
    var r := DropTrailingZeros(s);
    if r == [] then "0" else r
  }

  /**
   * How `str(float(num))` prints a literal that Python writes in positional
   * notation: `007.50` becomes `7.5`, `3.` becomes `3.0`.
   */
  function FloatText(f: FloatLexeme): (r: string) {
    WholeText(f.whole) + "." + FracText(f.frac)
  }

  function LitText(lit: Lit): (r: string) {
    match lit
    case IntL(v) => NatToString(v)
    case FloatL(f) => FloatText(f)
  }

  // ---------------------------------------------------------------------------
  // Instructions

  const IncludeLine := "#include <stdio.h>"
  const MainLine := "int main(void) {"

  function Render(b: Backend, i: Instr): (r: string) {
    match i
    case Include => IncludeLine
    case MainOpen => MainLine
    case VarDecl(t, x) => TypeName(t) + " " + x + ";"
    case LitDef(t, d, lit) =>
      (if b == C then TypeName(t) + " " else "") + LocName(b, d) + " = " + LitText(lit) + ";"
    case BinDef(t, d, l, op, r) =>
      (if b == C then TypeName(t) + " " else "")
      + LocName(b, d) + " = " + LocName(b, l) + " " + OpText(op) + " " + LocName(b, r) + ";"
    case Copy(x, src) => x + " = " + LocName(b, src) + ";"
    case Printf(flag, src) => "printf(\"%" + [flag] + "\\n\", " + LocName(b, src) + ");"
    case Scanf(flag, x) => "scanf(\"%" + [flag] + "\", &" + x + ");"
    case WhileOpen(g) => (if b == Tac then "\n" else "") + "while (" + LocName(b, g) + ") { "
    case ReturnOf(src) => (if b == Tac then "\n" else "") + "return " + LocName(b, src) + ";"
    case Close => "}"
  }

  /** The printed text: each instruction's line followed by a newline. */
  function Output(b: Backend, code: seq<Instr>): (r: string) {
    if code == [] then "" else Render(b, code[0]) + "\n" + Output(b, code[1..])
  }

  // ---------------------------------------------------------------------------
  // Properties

  lemma {:induction false} OutputAppend(b: Backend, a: seq<Instr>, c: seq<Instr>)
    ensures Output(b, a + c) == Output(b, a) + Output(b, c)
    decreases |a|
  {
    if a == [] {
      assert a + c == c;
    } else {
      assert (a + c)[1..] == a[1..] + c;
      OutputAppend(b, a[1..], c);
    }
  }

  /** Different temporaries get different names in either backend. */
  lemma TempNamesDistinct(b: Backend, j: nat, k: nat)
    ensures LocName(b, Temp(j)) == LocName(b, Temp(k)) <==> j == k
  {
    if LocName(b, Temp(j)) == LocName(b, Temp(k)) {
      var p := TempPrefix(b);
      assert NatToString(j) == LocName(b, Temp(j))[|p|..];
      assert NatToString(k) == LocName(b, Temp(k))[|p|..];
      NatToStringInjective(j, k);
    }
  }

  /** A name has the shape of a temporary: the prefix, then digits. */
  predicate TempShaped(b: Backend, x: string) {
    var p := TempPrefix(b);
    |x| > |p| && x[..|p|] == p && AllDigits(x[|p|..])
  }

  /**
   * Temporaries are not renamed away from program variables: a variable can
   * only be printed like a temporary if its name has a temporary's shape, and
   * such names are accepted as identifiers (`t1` in TAC, `t_1` in C).
   */
  lemma VariableMeetsTemp(b: Backend, x: string, k: nat)
    ensures LocName(b, Var(x)) == LocName(b, Temp(k)) ==> TempShaped(b, x)
    ensures LocName(Tac, Var("t1")) == LocName(Tac, Temp(1))
    ensures LocName(C, Var("t_1")) == LocName(C, Temp(1))
  {
    assert NatToString(1) == "1";
  }

  /**
   * When no variable in play has a temporary's shape, printing keeps
   * locations apart: two locations print the same exactly when they are the
   * same location.
   */
  lemma PrintedNamesFaithful(b: Backend, l1: Loc, l2: Loc)
    requires l1.Var? ==> !TempShaped(b, l1.name)
    requires l2.Var? ==> !TempShaped(b, l2.name)
    ensures LocName(b, l1) == LocName(b, l2) <==> l1 == l2
  {
    match (l1, l2)
    case (Temp(j), Temp(k)) => TempNamesDistinct(b, j, k);
    case (Var(x), Temp(k)) => VariableMeetsTemp(b, x, k);
    case (Temp(j), Var(y)) => VariableMeetsTemp(b, y, j);
    case (Var(_), Var(_)) =>
  }

  lemma {:induction false} DropLeadingZerosValue(s: string)
    requires AllDigits(s)
    ensures AllDigits(DropLeadingZeros(s)) && DigitsValue(DropLeadingZeros(s)) == DigitsValue(s)
    decreases |s|
  {
    if s != [] && s[0] == '0' {
      DropLeadingZerosValue(s[1..]);
      LeadingZeroValue(s[1..]);
      assert s == ['0'] + s[1..];
    }
  }

  lemma {:induction false} LeadingZeroValue(s: string)
    requires AllDigits(s)
    ensures AllDigits(['0'] + s) && DigitsValue(['0'] + s) == DigitsValue(s)
    decreases |s|
  {
    var t := ['0'] + s;
    if s != [] {
      assert t[..|t| - 1] == ['0'] + s[..|s| - 1];
      LeadingZeroValue(s[..|s| - 1]);
    }
  }

  function Pow10(k: nat): (r: nat)
    ensures r > 0
  {
    if k == 0 then 1 else 10 * Pow10(k - 1)
  }

  lemma {:induction false} DropTrailingZerosValue(s: string)
    requires AllDigits(s)
    ensures var r := DropTrailingZeros(s);
      AllDigits(r) && DigitsValue(s) == DigitsValue(r) * Pow10(|s| - |r|)
    decreases |s|
  {
    if s != [] && s[|s| - 1] == '0' {
      var t := s[..|s| - 1];
      var r := DropTrailingZeros(t);
      DropTrailingZerosValue(t);
      assert DigitsValue(s) == DigitsValue(t) * 10;
      assert Pow10(|s| - |r|) == 10 * Pow10(|t| - |r|);
      MulAssoc(DigitsValue(r), Pow10(|t| - |r|), 10);
    }
  }

  lemma FracTextValue(s: string)
    requires AllDigits(s)
    ensures AllDigits(FracText(s))
    ensures DigitsValue(FracText(s)) * Pow10(|s|) == DigitsValue(s) * Pow10(|FracText(s)|)
  {
    DropTrailingZerosValue(s);
    var r := DropTrailingZeros(s);
    var z := |s| - |r|;
    if r != [] {
      PowSplit(|r|, z);
      calc {
        DigitsValue(s) * Pow10(|r|);
        DigitsValue(r) * Pow10(z) * Pow10(|r|);
        { MulAssoc(DigitsValue(r), Pow10(z), Pow10(|r|)); }
        DigitsValue(r) * (Pow10(|r|) * Pow10(z));
      }
    } else {
      assert DigitsValue(s) == 0;
      assert DigitsValue("0") == 0 by {
        assert "0"[..0] == [];
      }
    }
  }

  lemma MulAssoc(a: nat, b: nat, c: nat)
    ensures a * b * c == a * (c * b)
  {
  }

  /**
   * The printed float has the literal's value: the integer part is the same
   * number, and the fraction, read over its own number of digits, is the same
   * fraction (a / 10^|a| == b / 10^|b|, cross-multiplied).
   */
  lemma FloatTextValue(f: FloatLexeme)
    requires AllDigits(f.whole) && AllDigits(f.frac)
    ensures var w := WholeText(f.whole);
      var r := FracText(f.frac);
      && AllDigits(w) && AllDigits(r)
      && FloatText(f) == w + "." + r
      && DigitsValue(w) == DigitsValue(f.whole)
      && DigitsValue(r) * Pow10(|f.frac|) == DigitsValue(f.frac) * Pow10(|r|)
  {
    DropLeadingZerosValue(f.whole);
    if DropLeadingZeros(f.whole) == [] {
      assert DigitsValue("0") == 0 by {
        assert "0"[..0] == [];
      }
    }
    FracTextValue(f.frac);
  }

  lemma {:induction false} PowSplit(a: nat, b: nat)
    ensures Pow10(a + b) == Pow10(a) * Pow10(b)
    decreases a
  {
    if a > 0 {
      PowSplit(a - 1, b);
    }
  }

  lemma WholeTextCanonical(s: string)
    ensures WholeText(WholeText(s)) == WholeText(s)
  {
    var r := DropLeadingZeros(s);
    if r == [] {
      assert DropLeadingZeros("0") == DropLeadingZeros([]);
    }
  }

  lemma FracTextCanonical(s: string)
    ensures FracText(FracText(s)) == FracText(s)
  {
    var r := DropTrailingZeros(s);
    if r == [] {
      assert "0"[..0] == [];
      assert DropTrailingZeros("0") == DropTrailingZeros([]);
    }
  }

  /** Printing is canonical: a printed float prints as itself. */
  lemma FloatTextCanonical(f: FloatLexeme)
    ensures FloatText(FloatLexeme(WholeText(f.whole), FracText(f.frac))) == FloatText(f)
  {
    WholeTextCanonical(f.whole);
    FracTextCanonical(f.frac);
  }
}
