/** The line grammar of the accumulator language. A line is accepted when it is,
    with optional spaces before and after,
      - an operator (`*`, `+`, `-`, `/`), one or more spaces, and a run of digits or
        one lower-case letter;
      - `=`, one or more spaces, and one lower-case letter;
      - a bare `=`.
    IsValidLine recognises this language by hand; Shape/Render generate it, and the
    lemmas below show the two describe the same set of lines. */
module Grammar {

  predicate IsDigit(c: char) { '0' <= c <= '9' }

  predicate IsLower(c: char) { 'a' <= c <= 'z' }

  predicate IsOperator(c: char) { c == '+' || c == '-' || c == '*' || c == '/' }

  /** The index of the first non-space character of `s` at or after `k`, or `|s|`. */
  function SkipSpaces(s: string, k: nat): (r: nat)
    requires k <= |s|
    ensures k <= r <= |s|
    ensures forall p :: k <= p < r ==> s[p] == ' '
    ensures r == |s| || s[r] != ' '
    decreases |s| - k
  {
    if k < |s| && s[k] == ' ' then SkipSpaces(s, k + 1) else k
  }

  /** The index of the first non-digit character of `s` at or after `k`, or `|s|`. */
  function DigitsEnd(s: string, k: nat): (r: nat)
    requires k <= |s|
    ensures k <= r <= |s|
    ensures forall p :: k <= p < r ==> IsDigit(s[p])
    ensures r == |s| || !IsDigit(s[r])
    decreases |s| - k
  {
    if k < |s| && IsDigit(s[k]) then DigitsEnd(s, k + 1) else k
  }

  /** Everything from index `k` on is a space. */
  predicate OnlySpaces(s: string, k: nat)
    requires k <= |s|
  {
    forall p :: k <= p < |s| ==> s[p] == ' '
  }

  /** An operand at index `g`: one letter or a digit run, then only spaces. */
  predicate OperandAt(s: string, g: nat)
    requires g <= |s|
  {
    g < |s| &&
    if IsLower(s[g]) then OnlySpaces(s, g + 1)
    else IsDigit(s[g]) && OnlySpaces(s, DigitsEnd(s, g))
  }

  /** The recogniser for the line grammar (the regular expression at the top of the source). */
  predicate IsValidLine(s: string) {
    var k := SkipSpaces(s, 0);
    k < |s| &&
    var g := SkipSpaces(s, k + 1);
    if IsOperator(s[k]) then k + 1 < g && OperandAt(s, g)
    else s[k] == '=' && (g == |s| || (k + 1 < g && IsLower(s[g]) && OnlySpaces(s, g + 1)))
  }

  /** The operand after an operator: a digit run or a single letter. */
  datatype Operand = Number(digits: string) | Letter(name: char)

  /** The three line shapes of the grammar, with the number of spaces around their parts. */
  datatype Shape =
    | Operate(lead: nat, op: char, gap: nat, operand: Operand, trail: nat)
    | AssignTo(lead: nat, gap: nat, name: char, trail: nat)
    | EndMark(lead: nat, trail: nat)

  function Spaces(n: nat): (r: string)
    ensures |r| == n
  {
    seq(n, _ => ' ')
  }

  predicate AllDigits(ds: string) {
    forall p :: 0 <= p < |ds| ==> IsDigit(ds[p])
  }

  /** The constraints of the grammar on each shape. */
  predicate WellFormed(sh: Shape) {
    match sh
    case Operate(_, op, gap, operand, _) =>
      IsOperator(op) && gap >= 1 &&
      (match operand
       case Number(ds) => |ds| >= 1 && AllDigits(ds)
       case Letter(c) => IsLower(c))
    case AssignTo(_, gap, c, _) => gap >= 1 && IsLower(c)
    case EndMark(_, _) => true
  }

  function OperandText(o: Operand): string {
    match o
    case Number(ds) => ds
    case Letter(c) => [c]
  }

  /** The text of a line of the given shape. */
  function Render(sh: Shape): string {
    match sh
    case Operate(lead, op, gap, o, trail) => Spaces(lead) + [op] + Spaces(gap) + OperandText(o) + Spaces(trail)
    case AssignTo(lead, gap, c, trail) => Spaces(lead) + ['='] + Spaces(gap) + [c] + Spaces(trail)
    case EndMark(lead, trail) => Spaces(lead) + ['='] + Spaces(trail)
  }

  /** SkipSpaces returns the unique index that its postconditions describe. */
  lemma SkipSpacesAt(s: string, k: nat, r: nat)
    requires k <= r <= |s|
    requires forall p :: k <= p < r ==> s[p] == ' '
    requires r == |s| || s[r] != ' '
    ensures SkipSpaces(s, k) == r
  {
  }

  /** DigitsEnd returns the unique index that its postconditions describe. */
  lemma DigitsEndAt(s: string, k: nat, r: nat)
    requires k <= r <= |s|
    requires forall p :: k <= p < r ==> IsDigit(s[p])
    requires r == |s| || !IsDigit(s[r])
    ensures DigitsEnd(s, k) == r
  {
  }

  /** The positions of a line `Spaces(lead) + [c] + Spaces(gap) + t + Spaces(trail)`. */
  lemma LayoutAt(s: string, lead: nat, c: char, gap: nat, t: string, trail: nat)
    requires s == Spaces(lead) + [c] + Spaces(gap) + t + Spaces(trail)
    ensures |s| == lead + 1 + gap + |t| + trail
    ensures forall p :: 0 <= p < lead ==> s[p] == ' '
    ensures s[lead] == c
    ensures forall p :: lead + 1 <= p < lead + 1 + gap ==> s[p] == ' '
    ensures s[lead + 1 + gap..lead + 1 + gap + |t|] == t
    ensures forall p :: lead + 1 + gap + |t| <= p < |s| ==> s[p] == ' '
  {
    var a := Spaces(lead) + [c] + Spaces(gap);
    assert s == a + t + Spaces(trail);
    assert (a + t + Spaces(trail))[|a|..|a| + |t|] == t;
  }

  /** Every line the grammar generates is accepted by the recogniser. */
  lemma RenderedIsValid(sh: Shape)
    requires WellFormed(sh)
    ensures IsValidLine(Render(sh))
  {
    match sh
    case Operate(lead, op, gap, o, trail) => RenderedOperateIsValid(lead, op, gap, o, trail);
    case AssignTo(lead, gap, c, trail) => RenderedAssignIsValid(lead, gap, c, trail);
    case EndMark(lead, trail) =>
      var s := Render(sh);
      LayoutAt(s, lead, '=', 0, [], trail);
      SkipSpacesAt(s, 0, lead);
      SkipSpacesAt(s, lead + 1, |s|);
  }

  lemma RenderedOperateIsValid(lead: nat, op: char, gap: nat, o: Operand, trail: nat)
    requires WellFormed(Operate(lead, op, gap, o, trail))
    ensures IsValidLine(Render(Operate(lead, op, gap, o, trail)))
  {
    var s := Render(Operate(lead, op, gap, o, trail));
    var t := OperandText(o);
    LayoutAt(s, lead, op, gap, t, trail);
    var g := lead + 1 + gap;
    SkipSpacesAt(s, 0, lead);
    assert s[g] == t[0];
    SkipSpacesAt(s, lead + 1, g);
    OperandAtText(s, g, o);
  }

  /** An operand's text followed by nothing but spaces is an operand. */
  lemma OperandAtText(s: string, g: nat, o: Operand)
    requires match o
             case Number(ds) => |ds| >= 1 && AllDigits(ds)
             case Letter(c) => IsLower(c)
    requires g + |OperandText(o)| <= |s| && s[g..g + |OperandText(o)|] == OperandText(o)
    requires forall p :: g + |OperandText(o)| <= p < |s| ==> s[p] == ' '
    ensures OperandAt(s, g)
  {
    var t := OperandText(o);
    assert s[g] == t[0];
    match o {
      case Letter(c) =>
        assert OnlySpaces(s, g + 1);
      case Number(ds) =>
        assert forall p :: g <= p < g + |ds| ==> s[p] == ds[p - g];
        DigitsEndAt(s, g, g + |ds|);
        assert OnlySpaces(s, g + |ds|);
    }
  }

  lemma RenderedAssignIsValid(lead: nat, gap: nat, c: char, trail: nat)
    requires WellFormed(AssignTo(lead, gap, c, trail))
    ensures IsValidLine(Render(AssignTo(lead, gap, c, trail)))
  {
    var s := Render(AssignTo(lead, gap, c, trail));
    LayoutAt(s, lead, '=', gap, [c], trail);
    SkipSpacesAt(s, 0, lead);
    SkipSpacesAt(s, lead + 1, lead + 1 + gap);
    assert OnlySpaces(s, lead + gap + 2);
  }

  /** The converse of LayoutAt: a line laid out that way is that concatenation. */
  lemma LayoutIs(s: string, lead: nat, gap: nat, n: nat)
    requires lead + 1 + gap <= n <= |s|
    requires forall p :: 0 <= p < lead ==> s[p] == ' '
    requires forall p :: lead + 1 <= p < lead + 1 + gap ==> s[p] == ' '
    requires forall p :: n <= p < |s| ==> s[p] == ' '
    ensures s == Spaces(lead) + [s[lead]] + Spaces(gap) + s[lead + 1 + gap..n] + Spaces(|s| - n)
  {
    var m := lead + 1 + gap;
    SpacesIs(s, 0, lead);
    SpacesIs(s, lead + 1, m);
    SpacesIs(s, n, |s|);
    assert s == s[..lead] + [s[lead]] + s[lead + 1..m] + s[m..n] + s[n..];
  }

  /** The shape of an accepted line: the inverse of Render on the accepted lines, so the
      recogniser accepts nothing the grammar does not generate. */
  function ShapeOf(s: string): (sh: Shape)
    requires IsValidLine(s)
    ensures WellFormed(sh) && Render(sh) == s
  {
    var k := SkipSpaces(s, 0);
    var g := SkipSpaces(s, k + 1);
    if IsOperator(s[k]) then
      OperateShape(s, k, g)
    else if g == |s| then
      EndShape(s, k);
      EndMark(k, |s| - k - 1)
    else
      AssignShape(s, k, g);
      AssignTo(k, g - k - 1, s[g], |s| - g - 1)
  }

  /** A bare `=` between spaces is the rendering of the end-of-program shape. */
  lemma EndShape(s: string, k: nat)
    requires k < |s| && s[k] == '='
    requires forall p :: 0 <= p < k ==> s[p] == ' '
    requires forall p :: k + 1 <= p < |s| ==> s[p] == ' '
    ensures Render(EndMark(k, |s| - k - 1)) == s
  {
    LayoutIs(s, k, |s| - k - 1, |s|);
    assert s[|s|..|s|] == [];
  }

  /** `=`, spaces and one letter between spaces is the rendering of an assignment shape. */
  lemma AssignShape(s: string, k: nat, g: nat)
    requires k + 1 < g < |s| && s[k] == '=' && IsLower(s[g])
    requires forall p :: 0 <= p < k ==> s[p] == ' '
    requires forall p :: k + 1 <= p < g ==> s[p] == ' '
    requires forall p :: g + 1 <= p < |s| ==> s[p] == ' '
    ensures Render(AssignTo(k, g - k - 1, s[g], |s| - g - 1)) == s
  {
    LayoutIs(s, k, g - k - 1, g + 1);
    assert s[g..g + 1] == [s[g]];
  }

  /** The shape of an accepted operator line whose operator is at `k` and operand at `g`. */
  function OperateShape(s: string, k: nat, g: nat): (sh: Shape)
    requires k < |s| && IsOperator(s[k]) && k + 1 < g <= |s|
    requires forall p :: 0 <= p < k ==> s[p] == ' '
    requires forall p :: k + 1 <= p < g ==> s[p] == ' '
    requires OperandAt(s, g)
    ensures WellFormed(sh) && Render(sh) == s
  {
    if IsLower(s[g]) then
      LetterShape(s, k, g);
      Operate(k, s[k], g - k - 1, Letter(s[g]), |s| - g - 1)
    else
      NumberShape(s, k, g);
      var e := DigitsEnd(s, g);
      Operate(k, s[k], g - k - 1, Number(s[g..e]), |s| - e)
  }

  /** An operator line with a letter operand is the rendering of that shape. */
  lemma LetterShape(s: string, k: nat, g: nat)
    requires k < |s| && IsOperator(s[k]) && k + 1 < g <= |s|
    requires forall p :: 0 <= p < k ==> s[p] == ' '
    requires forall p :: k + 1 <= p < g ==> s[p] == ' '
    requires OperandAt(s, g) && IsLower(s[g])
    ensures WellFormed(Operate(k, s[k], g - k - 1, Letter(s[g]), |s| - g - 1))
    ensures Render(Operate(k, s[k], g - k - 1, Letter(s[g]), |s| - g - 1)) == s
  {
    assert s[g..g + 1] == [s[g]];
    OperateLayout(s, k, g, g + 1, Letter(s[g]));
  }

  /** An operator line with a numeric operand is the rendering of that shape. */
  lemma NumberShape(s: string, k: nat, g: nat)
    requires k < |s| && IsOperator(s[k]) && k + 1 < g <= |s|
    requires forall p :: 0 <= p < k ==> s[p] == ' '
    requires forall p :: k + 1 <= p < g ==> s[p] == ' '
    requires OperandAt(s, g) && !IsLower(s[g])
    ensures g < DigitsEnd(s, g)
    ensures WellFormed(Operate(k, s[k], g - k - 1, Number(s[g..DigitsEnd(s, g)]), |s| - DigitsEnd(s, g)))
    ensures Render(Operate(k, s[k], g - k - 1, Number(s[g..DigitsEnd(s, g)]), |s| - DigitsEnd(s, g))) == s
  {
    NumberOperand(s, g);
    var e := DigitsEnd(s, g);
    OperateLayout(s, k, g, e, Number(s[g..e]));
  }

  /** An operator line laid out as spaces, the operator, spaces, the operand's text in
      `s[g..n]` and spaces is the rendering of that shape. */
  lemma OperateLayout(s: string, k: nat, g: nat, n: nat, o: Operand)
    requires k + 1 < g <= n <= |s|
    requires forall p :: 0 <= p < k ==> s[p] == ' '
    requires forall p :: k + 1 <= p < g ==> s[p] == ' '
    requires forall p :: n <= p < |s| ==> s[p] == ' '
    requires OperandText(o) == s[g..n]
    ensures Render(Operate(k, s[k], g - k - 1, o, |s| - n)) == s
  {
    LayoutIs(s, k, g - k - 1, n);
  }

  /** A numeric operand is a non-empty digit run followed by nothing but spaces. */
  lemma NumberOperand(s: string, g: nat)
    requires g <= |s| && OperandAt(s, g) && !IsLower(s[g])
    ensures g < DigitsEnd(s, g) && AllDigits(s[g..DigitsEnd(s, g)])
    ensures forall p :: DigitsEnd(s, g) <= p < |s| ==> s[p] == ' '
  {
    var e := DigitsEnd(s, g);
    assert forall p :: 0 <= p < e - g ==> s[g..e][p] == s[g + p];
  }

  /** The characters a line of the grammar can hold. */
  predicate LineChars(s: string) {
    forall p | 0 <= p < |s| :: s[p] == ' ' || s[p] == '=' || IsOperator(s[p]) || IsDigit(s[p]) || IsLower(s[p])
  }

  lemma LineCharsConcat(a: string, b: string)
    requires LineChars(a) && LineChars(b)
    ensures LineChars(a + b)
  {
    assert forall p | |a| <= p < |a + b| :: (a + b)[p] == b[p - |a|];
  }

  /** An accepted line holds only spaces, operators, `=`, digits and lower-case
      letters; in particular no `;` and no NUL. */
  lemma ValidLineChars(l: string)
    requires IsValidLine(l)
    ensures LineChars(l)
    ensures forall p | 0 <= p < |l| :: l[p] != '\0' && l[p] != ';'
  {
    RenderChars(ShapeOf(l));
  }

  /** Every rendered line holds only the characters of the grammar. */
  lemma RenderChars(sh: Shape)
    requires WellFormed(sh)
    ensures LineChars(Render(sh))
  {
    match sh
    case Operate(lead, op, gap, o, trail) =>
      var a := Spaces(lead) + [op];
      LineCharsConcat(Spaces(lead), [op]);
      LineCharsConcat(a, Spaces(gap));
      LineCharsConcat(a + Spaces(gap), OperandText(o));
      LineCharsConcat(a + Spaces(gap) + OperandText(o), Spaces(trail));
    case AssignTo(lead, gap, c, trail) =>
      var a := Spaces(lead) + ['='];
      LineCharsConcat(Spaces(lead), ['=']);
      LineCharsConcat(a, Spaces(gap));
      LineCharsConcat(a + Spaces(gap), [c]);
      LineCharsConcat(a + Spaces(gap) + [c], Spaces(trail));
    case EndMark(lead, trail) =>
      LineCharsConcat(Spaces(lead), ['=']);
      LineCharsConcat(Spaces(lead) + ['='], Spaces(trail));
  }

  /** A slice made only of spaces is Spaces of its length. */
  lemma SpacesIs(s: string, i: nat, j: nat)
    requires i <= j <= |s|
    requires forall p :: i <= p < j ==> s[p] == ' '
    ensures s[i..j] == Spaces(j - i)
  {
  }
}
