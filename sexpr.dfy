/**
  Dotted-pair trees and their text form: the structure the printer renders,
  given independently of any heap, with a parser that reads the text back.
*/
module SExpr {
  import opened Wrappers

  datatype Tree = Num(n: nat) | Cons(car: Tree, cdr: Tree)

  predicate IsDigit(c: char)
  {
    '0' <= c <= '9'
  }

  predicate AllDigits(s: string)
  {
    forall i :: 0 <= i < |s| ==> IsDigit(s[i])
  }

  function DigitChar(d: nat): (c: char)
    requires d < 10
    ensures IsDigit(c)
  {
    ['0', '1', '2', '3', '4', '5', '6', '7', '8', '9'][d]
  }

  function DigitValue(c: char): (d: nat)
    requires IsDigit(c)
    ensures d < 10
  {
    (c as int - '0' as int)
  }

  /** The decimal form of `n`, as `{}` formats an unsigned integer. */
  function Decimal(n: nat): (s: string)
    ensures |s| >= 1 && AllDigits(s)
    ensures s[0] == '0' <==> n == 0
  {
    if n < 10 then [DigitChar(n)] else Decimal(n / 10) + [DigitChar(n % 10)]
  }

  /** The number a string of digits denotes (most significant first). */
  function DigitsValue(s: string): nat
    requires AllDigits(s)
  {
    if s == [] then 0 else 10 * DigitsValue(s[..|s| - 1]) + DigitValue(s[|s| - 1])
  }

  lemma {:induction false} DecimalValue(n: nat)
    ensures DigitsValue(Decimal(n)) == n
  {
    var s := Decimal(n);
    if n < 10 {
      assert s[..0] == [];
    } else {
      DecimalValue(n / 10);
      assert s[..|s| - 1] == Decimal(n / 10);
      assert DigitValue(DigitChar(n % 10)) == n % 10;
    }
  }

  /** The text form: `(car . cdr)` for a pair, the decimal digits for a number. */
  function Show(t: Tree): string
  {
    match t
    case Num(n) => Decimal(n)
    case Cons(a, d) => "(" + Show(a) + " . " + Show(d) + ")"
  }

  /** The number of leading digits of `s`. */
  function DigitRun(s: string): (k: nat)
    ensures k <= |s| && AllDigits(s[..k])
    ensures k < |s| ==> !IsDigit(s[k])
  {
    if s == [] || !IsDigit(s[0]) then 0
    else
      var k := 1 + DigitRun(s[1..]);
      assert s[..k] == [s[0]] + s[1..][..k - 1];
      k
  }

  /** Reads one tree from the front of `s`, returning it and the rest of the text. */
  function ParseTree(s: string): (r: Option<(Tree, string)>)
    ensures r.Some? ==> |r.value.1| < |s|
    decreases |s|
  {
    if s == [] then None
    else if s[0] == '(' then
      match ParseTree(s[1..])
      case None => None
      case Some((a, rest)) =>
        if |rest| < 3 || rest[..3] != " . " then None
        else
          match ParseTree(rest[3..])
          case None => None
          case Some((d, rest')) =>
            if rest' == [] || rest'[0] != ')' then None else Some((Cons(a, d), rest'[1..]))
    else if IsDigit(s[0]) then
      var k := DigitRun(s);
      Some((Num(DigitsValue(s[..k])), s[k..]))
    else None
  }

  /** Reads a whole text as one tree. */
  function Parse(s: string): Option<Tree>
  {
    match ParseTree(s)
    case Some((t, rest)) => if rest == [] then Some(t) else None
    case None => None
  }

  lemma {:induction false} DigitRunOfDigits(ds: string, rest: string)
    requires AllDigits(ds)
    requires rest == [] || !IsDigit(rest[0])
    ensures DigitRun(ds + rest) == |ds|
    decreases |ds|
  {
    if ds != [] {
      assert (ds + rest)[1..] == ds[1..] + rest;
      DigitRunOfDigits(ds[1..], rest);
    } else {
      assert ds + rest == rest;
    }
  }

  /** Reading the text of `t` off the front of `s` gives back `t` and the rest. */
  lemma {:induction false} ParseShow(t: Tree, rest: string)
    requires rest == [] || !IsDigit(rest[0])
    ensures ParseTree(Show(t) + rest) == Some((t, rest))
    decreases t
  {
    match t
    case Num(n) =>
      ParseDecimal(n, rest);
    case Cons(a, d) =>
      var close := ")" + rest;
      var tail := " . " + Show(d) + close;
      ConsText(a, d, rest, close, tail);
      ParseShow(a, tail);
      ParseShow(d, close);
      ParsePairStep(Show(t) + rest, a, tail, d, close);
  }

  lemma ParseDecimal(n: nat, rest: string)
    requires rest == [] || !IsDigit(rest[0])
    ensures ParseTree(Decimal(n) + rest) == Some((Num(n), rest))
  {
    var ds := Decimal(n);
    var s := ds + rest;
    DigitRunOfDigits(ds, rest);
    assert s[..|ds|] == ds && s[|ds|..] == rest;
    DecimalValue(n);
  }

  /** How the text of a pair followed by `rest` splits up. */
  lemma ConsText(a: Tree, d: Tree, rest: string, close: string, tail: string)
    requires close == ")" + rest && tail == " . " + Show(d) + close
    ensures Show(Cons(a, d)) + rest != [] && (Show(Cons(a, d)) + rest)[0] == '('
    ensures (Show(Cons(a, d)) + rest)[1..] == Show(a) + tail
    ensures |tail| >= 3 && tail[..3] == " . " && tail[3..] == Show(d) + close
    ensures close != [] && close[0] == ')' && close[1..] == rest
  {
    Regroup(Show(a), Show(d), rest);
  }

  /** Regrouping the concatenation that makes up the text of a pair. */
  lemma Regroup(x: string, y: string, rest: string)
    ensures "(" + x + " . " + y + ")" + rest == "(" + (x + (" . " + y + (")" + rest)))
  {
  }

  /** One unfolding of `ParseTree` on text that starts with a pair. */
  lemma ParsePairStep(s: string, a: Tree, tail: string, d: Tree, close: string)
    requires s != [] && s[0] == '('
    requires ParseTree(s[1..]) == Some((a, tail))
    requires |tail| >= 3 && tail[..3] == " . "
    requires ParseTree(tail[3..]) == Some((d, close))
    requires close != [] && close[0] == ')'
    ensures ParseTree(s) == Some((Cons(a, d), close[1..]))
  {
  }

  /** The text form of a tree parses back to exactly that tree. */
  lemma ShowParses(t: Tree)
    ensures Parse(Show(t)) == Some(t)
  {
    ParseShow(t, []);
    assert Show(t) + [] == Show(t);
  }
}
