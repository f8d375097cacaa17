/** The tokenizer: one line of source text to one token (`scan_one_token`). */
module Scanner {
  import opened Tokens
  import opened Grammar

  /** The `switch` on the operator character. */
  function OperationOf(c: char): (o: Operation)
    requires IsOperator(c) || c == '='
    ensures o != End
    ensures o == Assign <==> c == '='
  {
    if c == '+' then Plus
    else if c == '-' then Min
    else if c == '*' then Mul
    else if c == '/' then Div
    else Assign
  }

  function Pow10(n: nat): (r: nat)
    ensures r >= 1
  {
    if n == 0 then 1 else 10 * Pow10(n - 1)
  }

  /** The decimal value of a digit run, as `atoi` computes it when it does not overflow. */
  function DecimalValue(ds: string): (v: nat)
    requires AllDigits(ds)
    ensures v < Pow10(|ds|)
  {
    if ds == [] then 0
    else DecimalValue(ds[..|ds| - 1]) * 10 + (ds[|ds| - 1] as int - '0' as int)
  }

  lemma {:induction false} Pow10Monotone(m: nat, n: nat)
    requires m <= n
    ensures Pow10(m) <= Pow10(n)
  {
    if m < n {
      Pow10Monotone(m, n - 1);
    }
  }

  /** A run of at most nine digits has a value that fits in a 32-bit `int`, so `atoi`
      does not overflow on it. */
  lemma DecimalValueFitsInt(ds: string)
    requires AllDigits(ds) && |ds| <= 9
    ensures DecimalValue(ds) <= 0x7fff_ffff
  {
    Pow10Monotone(|ds|, 9);
    assert Pow10(9) == 1_000_000_000;
  }

  /** The token for one line. A line the grammar rejects gives an invalid token; otherwise
      the token follows the character after the operator and the spaces: nothing left is
      the end of the program, a letter is a variable, a digit starts a literal. The
      operation of an invalid token is not set by the source. */
  function ScanOneToken(line: string): (t: Token)
    ensures t.kind == Invalid <==> !IsValidLine(line)
    ensures t.kind != Invalid ==> WellTyped(t)
  {
    if !IsValidLine(line) then Token(Invalid, End, NoData)
    else
      var s := SkipSpaces(line, 0);
      var operation := OperationOf(line[s]);
      var g := SkipSpaces(line, s + 1);
      if g == |line| then Token(Eop, End, NoData)
      else if IsLower(line[g]) then Token(Variable, operation, Name(line[g]))
      else if IsDigit(line[g]) then
        var e := DigitsEnd(line, g);
        Token(Literal, operation, Value(DecimalValue(line[g..e])))
      else Token(Invalid, operation, NoData)
  }

  /** What the grammar says a line of each shape means, independently of the scanner. */
  function Meaning(sh: Shape): Token
    requires WellFormed(sh)
  {
    match sh
    case Operate(_, op, _, Number(ds), _) => Token(Literal, OperationOf(op), Value(DecimalValue(ds)))
    case Operate(_, op, _, Letter(c), _) => Token(Variable, OperationOf(op), Name(c))
    case AssignTo(_, _, c, _) => Token(Variable, Assign, Name(c))
    case EndMark(_, _) => Token(Eop, End, NoData)
  }

  /** Scanning a line of any shape gives the token the grammar assigns to it: an operator
      and digits a literal with the decimal value, an operator and a letter a variable,
      `=` and a letter an assignment to it, and a bare `=` the end of the program. */
  lemma ScanRendered(sh: Shape)
    requires WellFormed(sh)
    ensures IsValidLine(Render(sh)) && ScanOneToken(Render(sh)) == Meaning(sh)
  {
    RenderedIsValid(sh);
    var line := Render(sh);
    match sh
    case Operate(lead, op, gap, o, trail) => ScanRenderedOperate(lead, op, gap, o, trail);
    case AssignTo(lead, gap, c, trail) =>
      LayoutAt(line, lead, '=', gap, [c], trail);
      SkipSpacesAt(line, 0, lead);
      SkipSpacesAt(line, lead + 1, lead + 1 + gap);
    case EndMark(lead, trail) =>
      LayoutAt(line, lead, '=', 0, [], trail);
      SkipSpacesAt(line, 0, lead);
      SkipSpacesAt(line, lead + 1, |line|);
  }

  lemma ScanRenderedOperate(lead: nat, op: char, gap: nat, o: Operand, trail: nat)
    requires WellFormed(Operate(lead, op, gap, o, trail))
    ensures ScanOneToken(Render(Operate(lead, op, gap, o, trail))) == Meaning(Operate(lead, op, gap, o, trail))
  {
    var sh := Operate(lead, op, gap, o, trail);
    RenderedIsValid(sh);
    var line := Render(sh);
    LayoutAt(line, lead, op, gap, OperandText(o), trail);
    SkipSpacesAt(line, 0, lead);
    var g := lead + 1 + gap;
    SkipSpacesAt(line, lead + 1, g);
    if o.Number? {
      ScanDigits(line, g, o.digits);
    }
  }

  /** The literal part of the scan: the digit run at `g` is read up to its end. */
  lemma ScanDigits(line: string, g: nat, ds: string)
    requires g + |ds| <= |line| && |ds| >= 1 && AllDigits(ds)
    requires line[g..g + |ds|] == ds
    requires g + |ds| == |line| || line[g + |ds|] == ' '
    ensures DigitsEnd(line, g) == g + |ds|
    ensures line[g..DigitsEnd(line, g)] == ds
  {
    assert forall p :: g <= p < g + |ds| ==> line[p] == ds[p - g];
    DigitsEndAt(line, g, g + |ds|);
  }

  /** Every accepted line scans to the token its shape means, which is never invalid. */
  lemma ScanValidLine(line: string)
    requires IsValidLine(line)
    ensures ScanOneToken(line) == Meaning(ShapeOf(line))
    ensures ScanOneToken(line).kind != Invalid
  {
    ScanRendered(ShapeOf(line));
  }
}
