/** The serialized program buffer: source lines, each followed by `;`, ending with a NUL
    character. These functions say what the line filter and the token extractor compute. */
module Lines {
  import opened Tokens
  import opened Grammar
  import opened Scanner

  /** The length of the C string held in `s`: the index of its first NUL. */
  function StrLen(s: seq<char>): (n: nat)
    requires '\0' in s
    ensures n < |s| && s[n] == '\0'
    ensures forall p :: 0 <= p < n ==> s[p] != '\0'
  {
    if s[0] == '\0' then 0
    else
      assert '\0' in s[1..] by {
        var p :| 0 <= p < |s| && s[p] == '\0';
        assert s[1..][p - 1] == '\0';
      }
      StrLen(s[1..]) + 1
  }

  /** The text of the C string held in `s`. */
  function CString(s: seq<char>): (r: string)
    requires '\0' in s
    ensures '\0' !in r
  {
    s[..StrLen(s)]
  }

  /** The text after the last `;` of `s`: the line being collected so far. */
  function Pending(s: string): (r: string)
    ensures ';' !in r
    ensures |r| <= |s|
  {
    if s == [] then []
    else if s[|s| - 1] == ';' then []
    else Pending(s[..|s| - 1]) + [s[|s| - 1]]
  }

  /** The `;`-terminated lines of `s`, in order. Text after the last `;` is not a line. */
  function Segments(s: string): seq<string> {
    if s == [] then []
    else
      var p := s[..|s| - 1];
      if s[|s| - 1] == ';' then Segments(p) + [Pending(p)] else Segments(p)
  }

  /** No line of `s` outgrows the 500-character line buffer, whose last cell the
      terminating NUL takes. */
  predicate LinesFit(s: string) {
    forall i | 0 <= i < |s| :: PendingLength(s, i) <= 499
  }

  /** The length of the line being collected when index `i` of `s` is reached. */
  function PendingLength(s: string, i: nat): nat
    requires i <= |s|
  {
    |Pending(s[..i])|
  }

  /** The lines, each followed by `;`, as one buffer. */
  function Join(ls: seq<string>): string {
    if ls == [] then []
    else Join(ls[..|ls| - 1]) + ls[|ls| - 1] + [';']
  }

  predicate AllValid(ls: seq<string>) {
    forall k | 0 <= k < |ls| :: IsValidLine(ls[k])
  }

  /** The lines the grammar accepts, in their order. */
  function Accepted(ls: seq<string>): (r: seq<string>)
    ensures |r| <= |ls|
  {
    if ls == [] then []
    else
      var p := ls[..|ls| - 1];
      var l := ls[|ls| - 1];
      Accepted(p) + if IsValidLine(l) then [l] else []
  }

  /** One "unrecognised token" diagnostic per rejected line, numbered from `base` by
      the line's index among all lines. */
  function Rejections(ls: seq<string>, base: int): seq<Diagnostic> {
    if ls == [] then []
    else
      var p := ls[..|ls| - 1];
      Rejections(p, base) + if IsValidLine(ls[|ls| - 1]) then [] else [Diagnostic(base + |p|, UnrecognisedToken)]
  }

  /** The buffer the line filter leaves behind. */
  function Filtered(s: string): string {
    Join(Accepted(Segments(s)))
  }

  /** The tokens of the lines that do not scan to an invalid token, in line order. */
  function ValidTokens(ls: seq<string>): (r: seq<Token>)
    ensures |r| <= |ls|
    ensures forall k | 0 <= k < |r| :: r[k].kind != Invalid && WellTyped(r[k])
  {
    if ls == [] then []
    else
      var t := ScanOneToken(ls[|ls| - 1]);
      ValidTokens(ls[..|ls| - 1]) + if t.kind == Invalid then [] else [t]
  }

  /** No line of a buffer contains the separator. */
  lemma {:induction false} SegmentsHaveNoSeparator(s: string)
    ensures forall l | l in Segments(s) :: ';' !in l
  {
    if s != [] {
      SegmentsHaveNoSeparator(s[..|s| - 1]);
    }
  }

  /** Accepted keeps only accepted lines, and only lines of its input. */
  lemma {:induction false} AcceptedSound(ls: seq<string>)
    ensures AllValid(Accepted(ls))
    ensures forall l | l in Accepted(ls) :: l in ls
  {
    if ls != [] {
      var p := ls[..|ls| - 1];
      AcceptedSound(p);
      assert forall l | l in p :: l in ls;
    }
  }

  // One step of a left-to-right walk over a buffer or a list of lines.

  lemma PrefixSnoc(s: string, i: nat)
    requires i < |s|
    ensures s[..i + 1] == s[..i] + [s[i]]
  {
  }

  lemma PendingSnoc(s: string, c: char)
    ensures Pending(s + [c]) == if c == ';' then [] else Pending(s) + [c]
    ensures Segments(s + [c]) == if c == ';' then Segments(s) + [Pending(s)] else Segments(s)
  {
    assert (s + [c])[..|s|] == s;
  }

  lemma JoinSnoc(ls: seq<string>, l: string)
    ensures Join(ls + [l]) == Join(ls) + l + [';']
  {
    assert (ls + [l])[..|ls|] == ls;
  }

  lemma AcceptedSnoc(ls: seq<string>, l: string)
    ensures Accepted(ls + [l]) == Accepted(ls) + if IsValidLine(l) then [l] else []
  {
    assert (ls + [l])[..|ls|] == ls;
  }

  lemma RejectionsSnoc(ls: seq<string>, l: string, base: int)
    ensures Rejections(ls + [l], base) ==
            Rejections(ls, base) + if IsValidLine(l) then [] else [Diagnostic(base + |ls|, UnrecognisedToken)]
  {
    assert (ls + [l])[..|ls|] == ls;
  }

  lemma ValidTokensSnoc(ls: seq<string>, l: string)
    ensures ValidTokens(ls + [l]) ==
            ValidTokens(ls) + if ScanOneToken(l).kind == Invalid then [] else [ScanOneToken(l)]
  {
    assert (ls + [l])[..|ls|] == ls;
  }

  /** A buffer of accepted lines holds no NUL, so its C string is all of it. */
  lemma {:induction false} JoinHasNoNul(ls: seq<string>)
    requires AllValid(ls)
    ensures forall p | 0 <= p < |Join(ls)| :: Join(ls)[p] != '\0'
  {
    if ls != [] {
      var q := ls[..|ls| - 1];
      var l := ls[|ls| - 1];
      assert AllValid(q) by {
        forall k | 0 <= k < |q| ensures IsValidLine(q[k]) { assert q[k] == ls[k]; }
      }
      JoinHasNoNul(q);
      ValidLineChars(l);
      assert Join(ls) == Join(q) + l + [';'];
    }
  }

  /** The lines of a prefix of a buffer are never more than the lines of the buffer. */
  lemma {:induction false} SegmentsOfPrefix(s: string, i: nat)
    requires i <= |s|
    ensures |Segments(s[..i])| <= |Segments(s)|
    decreases |s|
  {
    if i < |s| {
      var p := s[..|s| - 1];
      assert p[..i] == s[..i];
      SegmentsOfPrefix(p, i);
    } else {
      assert s[..i] == s;
    }
  }

  /** Appending text without a `;` adds no line and extends the pending one. */
  lemma {:induction false} AppendPlain(p: string, q: string)
    requires ';' !in q
    ensures Segments(p + q) == Segments(p)
    ensures Pending(p + q) == Pending(p) + q
  {
    if q != [] {
      var q' := q[..|q| - 1];
      var c := q[|q| - 1];
      assert q == q' + [c];
      assert p + q == (p + q') + [c];
      assert ';' !in q' && c != ';' by {
        assert forall x | x in q' :: x in q;
      }
      AppendPlain(p, q');
      PendingSnoc(p + q', c);
    } else {
      assert p + q == p;
    }
  }

  /** Splitting a joined buffer gives back the lines: Segments is the inverse of Join. */
  lemma {:induction false} SegmentsOfJoin(ls: seq<string>)
    requires forall l | l in ls :: ';' !in l
    ensures Segments(Join(ls)) == ls
    ensures Pending(Join(ls)) == []
  {
    if ls != [] {
      var p := ls[..|ls| - 1];
      var l := ls[|ls| - 1];
      assert ls == p + [l];
      SegmentsOfJoin(p);
      AppendPlain(Join(p), l);
      PendingSnoc(Join(p) + l, ';');
      assert Join(ls) == (Join(p) + l) + [';'];
      assert Pending(Join(p) + l) == l;
    }
  }

  /** Accepted keeps an all-accepted list as it is. */
  lemma {:induction false} AcceptedOfAllValid(ls: seq<string>)
    requires AllValid(ls)
    ensures Accepted(ls) == ls
  {
    if ls != [] {
      var p := ls[..|ls| - 1];
      assert AllValid(p) by {
        forall k | 0 <= k < |p| ensures IsValidLine(p[k]) { assert p[k] == ls[k]; }
      }
      AcceptedOfAllValid(p);
      assert ls == p + [ls[|ls| - 1]];
    }
  }

  /** Accepted keeps every line iff every line is accepted. */
  lemma {:induction false} AcceptedFull(ls: seq<string>)
    ensures |Accepted(ls)| == |ls| <==> AllValid(ls)
  {
    if ls != [] {
      var p := ls[..|ls| - 1];
      AcceptedFull(p);
      assert AllValid(ls) ==> AllValid(p) by {
        if AllValid(ls) {
          forall k | 0 <= k < |p| ensures IsValidLine(p[k]) { assert p[k] == ls[k]; }
        }
      }
    }
  }

  /** A line list is left unchanged by Accepted iff every line is accepted, and
      filtering twice is filtering once. */
  lemma AcceptedAllValid(ls: seq<string>)
    ensures AllValid(ls) <==> Accepted(ls) == ls
    ensures Accepted(Accepted(ls)) == Accepted(ls)
  {
    if AllValid(ls) {
      AcceptedOfAllValid(ls);
    }
    AcceptedSound(ls);
    AcceptedOfAllValid(Accepted(ls));
  }

  /** The diagnostics of the filter: one per rejected line, in line order, and no other. */
  lemma RejectionsExact(ls: seq<string>, base: int)
    ensures |Rejections(ls, base)| == |ls| - |Accepted(ls)|
    ensures forall k | 0 <= k < |ls| ::
              !IsValidLine(ls[k]) <==> Diagnostic(base + k, UnrecognisedToken) in Rejections(ls, base)
    ensures forall d | d in Rejections(ls, base) :: d.kind == UnrecognisedToken && base <= d.line < base + |ls|
    ensures forall i, j | 0 <= i < j < |Rejections(ls, base)| ::
              Rejections(ls, base)[i].line < Rejections(ls, base)[j].line
  {
    RejectionsCount(ls, base);
    RejectionsRange(ls, base);
    RejectionsMembers(ls, base);
    RejectionsIncreasing(ls, base);
  }

  lemma {:induction false} RejectionsCount(ls: seq<string>, base: int)
    ensures |Rejections(ls, base)| == |ls| - |Accepted(ls)|
  {
    if ls != [] {
      RejectionsCount(ls[..|ls| - 1], base);
    }
  }

  lemma {:induction false} RejectionsRange(ls: seq<string>, base: int)
    ensures forall d | d in Rejections(ls, base) :: d.kind == UnrecognisedToken && base <= d.line < base + |ls|
  {
    if ls != [] {
      RejectionsRange(ls[..|ls| - 1], base);
    }
  }

  lemma {:induction false} RejectionsMembers(ls: seq<string>, base: int)
    ensures forall k | 0 <= k < |ls| ::
              !IsValidLine(ls[k]) <==> Diagnostic(base + k, UnrecognisedToken) in Rejections(ls, base)
  {
    if ls != [] {
      var p := ls[..|ls| - 1];
      RejectionsMembers(p, base);
      RejectionsRange(p, base);
      forall k | 0 <= k < |p| ensures ls[k] == p[k] { }
    }
  }

  lemma {:induction false} RejectionsIncreasing(ls: seq<string>, base: int)
    ensures forall i, j | 0 <= i < j < |Rejections(ls, base)| ::
              Rejections(ls, base)[i].line < Rejections(ls, base)[j].line
  {
    if ls != [] {
      var p := ls[..|ls| - 1];
      RejectionsIncreasing(p, base);
      RejectionsRange(p, base);
      var r := Rejections(p, base);
      assert forall i | 0 <= i < |r| :: r[i] in r;
    }
  }

  /** Filtering an already filtered buffer changes nothing and rejects nothing. */
  lemma ValidateIdempotent(s: string, base: int)
    ensures Segments(Filtered(s)) == Accepted(Segments(s))
    ensures AllValid(Segments(Filtered(s)))
    ensures Filtered(Filtered(s)) == Filtered(s)
    ensures Rejections(Segments(Filtered(s)), base) == []
  {
    var a := Accepted(Segments(s));
    SegmentsHaveNoSeparator(s);
    AcceptedSound(Segments(s));
    SegmentsOfJoin(a);
    AcceptedAllValid(Segments(s));
    AcceptedAllValid(a);
    RejectionsExact(a, base);
  }

  /** The extracted tokens are the scans of the accepted lines, in order: the extractor
      drops exactly the lines the filter rejects. */
  lemma {:induction false} ValidTokensOfAccepted(ls: seq<string>)
    ensures |ValidTokens(ls)| == |Accepted(ls)|
    ensures forall k | 0 <= k < |Accepted(ls)| :: ValidTokens(ls)[k] == ScanOneToken(Accepted(ls)[k])
  {
    if ls != [] {
      var p := ls[..|ls| - 1];
      ValidTokensOfAccepted(p);
    }
  }

  /** Running the extractor on the filtered buffer gives the same tokens as on the
      original buffer. */
  lemma ExtractAfterValidate(s: string)
    ensures ValidTokens(Segments(Filtered(s))) == ValidTokens(Segments(s))
  {
    var ls := Segments(s);
    ValidateIdempotent(s, 0);
    ValidTokensOfAccepted(ls);
    ValidTokensOfAccepted(Accepted(ls));
    AcceptedAllValid(ls);
  }

  /** Every line of a buffer that fits the line buffer is at most 499 characters long. */
  lemma {:induction false} SegmentsShort(s: string)
    requires LinesFit(s)
    ensures forall l | l in Segments(s) :: |l| <= 499
  {
    if s != [] {
      var p := s[..|s| - 1];
      assert LinesFit(p) by {
        forall i | 0 <= i < |p| ensures PendingLength(p, i) <= 499 {
          assert p[..i] == s[..i];
          assert PendingLength(s, i) <= 499;
        }
      }
      SegmentsShort(p);
      assert s[..|p|] == p;
      assert PendingLength(s, |p|) <= 499;
    }
  }

  /** A buffer of lines of at most 499 characters, none holding a `;`, fits the line buffer. */
  lemma {:induction false} JoinFits(ls: seq<string>)
    requires forall l | l in ls :: |l| <= 499 && ';' !in l
    ensures LinesFit(Join(ls))
  {
    if ls != [] {
      var q := ls[..|ls| - 1];
      var l := ls[|ls| - 1];
      assert forall x | x in q :: x in ls;
      JoinFits(q);
      SegmentsOfJoin(q);
      var jq := Join(q);
      var s := Join(ls);
      assert s == jq + l + [';'];
      forall i | 0 <= i < |s| ensures PendingLength(s, i) <= 499 {
        JoinFitsAt(jq, l, i);
      }
    }
  }

  /** One index of the last line of a joined buffer: the pending line there is either
      one of the earlier buffer or a prefix of the last line. */
  lemma JoinFitsAt(jq: string, l: string, i: nat)
    requires LinesFit(jq) && Pending(jq) == []
    requires |l| <= 499 && ';' !in l && i < |jq + l + [';']|
    ensures PendingLength(jq + l + [';'], i) <= 499
  {
    var s := jq + l + [';'];
    if i < |jq| {
      assert s[..i] == jq[..i];
      assert PendingLength(jq, i) <= 499;
    } else {
      var m := i - |jq|;
      assert s[..i] == jq + l[..m];
      assert ';' !in l[..m] by {
        assert forall x | x in l[..m] :: x in l;
      }
      AppendPlain(jq, l[..m]);
    }
  }

  /** The filtered buffer fits the line buffer whenever the original does, so the token
      extractor, which does not check line lengths, can read it. */
  lemma FilteredFits(s: string)
    requires LinesFit(s)
    ensures LinesFit(Filtered(s))
  {
    SegmentsShort(s);
    SegmentsHaveNoSeparator(s);
    AcceptedSound(Segments(s));
    JoinFits(Accepted(Segments(s)));
  }
}
