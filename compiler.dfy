/** The compilation session: the diagnostics log and the removed-lines counter that the
    source keeps in globals, and the three passes that update them — the line filter
    (`validate_tokens`), the token extractor (`extract_tokens`) and the analyzer
    (`analize_tokens`). */
module Compiler {
  import opened Tokens
  import opened Grammar
  import opened Scanner
  import opened Lines

  /** The index of the first end-of-program token, or `|s|` when there is none. */
  function FirstEop(s: seq<Token>): (i: nat)
    ensures i <= |s|
    ensures forall k | 0 <= k < i :: s[k].kind != Eop
    ensures i < |s| ==> s[i].kind == Eop
  {
    if s == [] then 0
    else if s[0].kind == Eop then 0
    else FirstEop(s[1..]) + 1
  }

  /** An analyzed program: its only end-of-program token is the last one, and the
      assignment to the result comes right before it. */
  predicate Terminated(s: seq<Token>) {
    |s| >= 2 && s[|s| - 2] == ResultAssign &&
    s[|s| - 1].kind == Eop && s[|s| - 1].operation == End &&
    forall k | 0 <= k < |s| - 1 :: s[k].kind != Eop
  }

  /** The diagnostic the analyzer logs for a token sequence: a missing end marker at the
      position it is inserted, unreachable code at the position after the first end
      marker, or nothing. */
  function AnalyzerDiagnostics(toks: seq<Token>, base: int): seq<Diagnostic> {
    var i := FirstEop(toks);
    if i == |toks| then [Diagnostic(i + base, MissingEop)]
    else if |toks| > i + 1 then [Diagnostic(i + base + 1, UnreachableCode)]
    else []
  }

  /** A token list whose first `i` tokens are not end markers, followed by the result
      assignment and an end marker, is an analyzed program. */
  lemma TerminatedAt(s: seq<Token>, i: nat)
    requires |s| == i + 2
    requires forall k | 0 <= k < i :: s[k].kind != Eop
    requires s[i] == ResultAssign && s[i + 1].kind == Eop && s[i + 1].operation == End
    ensures Terminated(s)
  {
  }

  /** The analyzer logs at most one diagnostic: a missing end marker exactly when there is
      no end-of-program token, and nothing exactly when the only one is the last token. */
  lemma AnalyzerDiagnosticsCases(toks: seq<Token>, base: int)
    ensures |AnalyzerDiagnostics(toks, base)| <= 1
    ensures AnalyzerDiagnostics(toks, base) == [Diagnostic(|toks| + base, MissingEop)] <==>
            forall k | 0 <= k < |toks| :: toks[k].kind != Eop
    ensures AnalyzerDiagnostics(toks, base) == [] <==>
            (|toks| >= 1 && toks[|toks| - 1].kind == Eop && forall k | 0 <= k < |toks| - 1 :: toks[k].kind != Eop)
  {
    var i := FirstEop(toks);
    if i < |toks| - 1 {
      assert toks[i].kind == Eop;
    }
  }

  /** An analyzed program has its end marker last and nothing after it, so analyzing it
      again finds that marker and logs nothing. */
  lemma ReanalyzeTerminated(s: seq<Token>, base: int)
    requires Terminated(s)
    ensures FirstEop(s) == |s| - 1
    ensures AnalyzerDiagnostics(s, base) == []
  {
  }

  /** `strcpy(&dst[at], src)` for a source string of length `n`: the `n` characters of
      `src` and its terminating NUL land at `at`, nothing else of `dst` changes. */
  method StrCopy(dst: array<char>, at: nat, src: array<char>, n: nat)
    requires dst != src
    requires n < src.Length && src[n] == '\0'
    requires forall p | 0 <= p < n :: src[p] != '\0'
    requires at + n < dst.Length
    modifies dst
    ensures dst[..at + n + 1] == old(dst[..at]) + src[..n] + ['\0']
    ensures forall p | at + n + 1 <= p < dst.Length :: dst[p] == old(dst[p])
  {
    var q := 0;
    while q <= n
      invariant 0 <= q <= n + 1
      invariant dst[..at + q] == old(dst[..at]) + src[..q]
      invariant forall p | at + q <= p < dst.Length :: dst[p] == old(dst[p])
    {
      ghost var done := dst[..at + q];
      dst[at + q] := src[q];
      assert dst[..at + q + 1] == done + [src[q]];
      assert src[..q + 1] == src[..q] + [src[q]];
      q := q + 1;
    }
    assert src[..n + 1] == src[..n] + ['\0'];
  }

  /** `strcpy(&tmp[k], line); k += strlen(&tmp[k]); tmp[k++] = ';'` for a line of
      length `j`: the line lands at `k`, the separator overwrites the NUL that `strcpy`
      wrote after it, nothing else changes, and the new offset is returned. */
  method AppendLine(tmp: array<char>, k: nat, line: array<char>, j: nat) returns (k': nat)
    requires tmp != line
    requires j < line.Length && line[j] == '\0'
    requires forall p | 0 <= p < j :: line[p] != '\0'
    requires k + j < tmp.Length
    modifies tmp
    ensures k' == k + j + 1
    ensures tmp[..k'] == old(tmp[..k]) + line[..j] + [';']
    ensures forall p | k' <= p < tmp.Length :: tmp[p] == old(tmp[p])
  {
    StrCopy(tmp, k, line, j);
    ghost var copied := tmp[..k + j];
    assert copied == old(tmp[..k]) + line[..j];
    tmp[k + j] := ';';
    assert tmp[..k + j + 1] == copied + [';'];
    k' := k + j + 1;
  }

  /** `strcpy(buffer, tmp)` for a string of length `k`: the string and its NUL land at
      the start of `buffer`, the cells after the NUL keep their contents. */
  method CopyBack(buffer: array<char>, tmp: array<char>, k: nat)
    requires buffer != tmp && k < buffer.Length && k <= tmp.Length
    modifies buffer
    ensures buffer[..k] == tmp[..k] && buffer[k] == '\0'
    ensures forall p | k < p < buffer.Length :: buffer[p] == old(buffer[p])
  {
    forall p | 0 <= p < k {
      buffer[p] := tmp[p];
    }
    buffer[k] := '\0';
  }

  /** A NUL right after a NUL-free text makes that text the C string. */
  lemma CStringIs(b: seq<char>, k: nat, text: string)
    requires k < |b| && b[..k] == text && b[k] == '\0'
    requires forall p | 0 <= p < |text| :: text[p] != '\0'
    ensures '\0' in b && CString(b) == text
  {
  }

  /** `line[j++] = c`: appends one character to the first `j` cells of `line`. */
  method Push(line: array<char>, j: nat, c: char) returns (j': nat)
    requires j < line.Length
    modifies line
    ensures j' == j + 1 && line[..j'] == old(line[..j]) + [c]
  {
    line[j] := c;
    j' := j + 1;
  }

  /** The filter's state after reading `pre`: the line being collected, the kept lines,
      the counts of kept and of all lines, the error flag and the log. */
  ghost predicate Filtering(pre: string, collected: string, kept: string, l: int, ln: int, noerror: bool,
                            log: seq<Diagnostic>, log0: seq<Diagnostic>, base: int)
  {
    var segs := Segments(pre);
    collected == Pending(pre) && kept == Join(Accepted(segs)) &&
    ln == |segs| && l == |Accepted(segs)| && (noerror <==> l == ln) &&
    log == log0 + Rejections(segs, base)
  }

  /** The extractor's state after reading `pre`: the line being collected, the tokens
      kept so far and the removed-lines counter. */
  ghost predicate Extracting(pre: string, collected: string, toks: seq<Token>, removed: int, removed0: int)
  {
    var segs := Segments(pre);
    collected == Pending(pre) && toks == ValidTokens(segs) && removed == removed0 + |segs| - |toks|
  }

  /** Reading a character other than `;` extends the collected line and nothing else. */
  lemma FilteringCollect(pre: string, c: char, collected: string, kept: string, l: int, ln: int,
                         noerror: bool, log: seq<Diagnostic>, log0: seq<Diagnostic>, base: int)
    requires c != ';' && Filtering(pre, collected, kept, l, ln, noerror, log, log0, base)
    ensures Filtering(pre + [c], collected + [c], kept, l, ln, noerror, log, log0, base)
  {
    PendingSnoc(pre, c);
  }

  /** Reading the `;` of an accepted line appends the line and its `;` to the kept text. */
  lemma FilteringKeep(pre: string, text: string, kept: string, l: int, ln: int,
                      noerror: bool, log: seq<Diagnostic>, log0: seq<Diagnostic>, base: int)
    requires IsValidLine(text) && Filtering(pre, text, kept, l, ln, noerror, log, log0, base)
    ensures Filtering(pre + [';'], [], kept + text + [';'], l + 1, ln + 1, noerror, log, log0, base)
  {
    var segs := Segments(pre);
    PendingSnoc(pre, ';');
    AcceptedSnoc(segs, text);
    RejectionsSnoc(segs, text, base);
    JoinSnoc(Accepted(segs), text);
  }

  /** Reading the `;` of a rejected line clears the flag and logs the line. */
  lemma FilteringReject(pre: string, text: string, kept: string, l: int, ln: int,
                        noerror: bool, log: seq<Diagnostic>, log0: seq<Diagnostic>, base: int)
    requires !IsValidLine(text) && Filtering(pre, text, kept, l, ln, noerror, log, log0, base)
    ensures Filtering(pre + [';'], [], kept, l, ln + 1, false,
                      log + [Diagnostic(base + ln, UnrecognisedToken)], log0, base)
  {
    var segs := Segments(pre);
    PendingSnoc(pre, ';');
    AcceptedSnoc(segs, text);
    RejectionsSnoc(segs, text, base);
    assert Accepted(segs + [text]) == Accepted(segs);
  }

  /** The filter's state after the whole buffer: the kept text is the filtered buffer and
      holds no NUL, the flag says whether every line was accepted, and the log gained
      exactly the rejections. */
  lemma FilteringDone(s: string, collected: string, kept: string, l: int, ln: int,
                      noerror: bool, log: seq<Diagnostic>, log0: seq<Diagnostic>, base: int)
    requires Filtering(s, collected, kept, l, ln, noerror, log, log0, base)
    ensures kept == Filtered(s)
    ensures forall p | 0 <= p < |kept| :: kept[p] != '\0'
    ensures noerror <==> AllValid(Segments(s))
    ensures log == log0 + Rejections(Segments(s), base)
    ensures l <= ln && ln - l == |Segments(s)| - |Accepted(Segments(s))|
    ensures forall d | d in Rejections(Segments(s), base) :: d.line >= base
  {
    AcceptedSound(Segments(s));
    AcceptedFull(Segments(s));
    RejectionsExact(Segments(s), base);
    JoinHasNoNul(Accepted(Segments(s)));
  }

  /** What the filter promises of a completed run, from the buffer `before` to the buffer
      `after`: the new C string is the accepted lines in order, each followed by `;`, and
      the cells after its NUL are left as they were; the flag says whether every line was
      accepted; the log gained exactly the rejections, numbered from `removed0`; and the
      counter grew by the number of rejected lines. */
  ghost predicate FilterOutcome(before: seq<char>, after: seq<char>, noerror: bool,
                                log0: seq<Diagnostic>, log: seq<Diagnostic>, removed0: int, removed: int)
    requires '\0' in before
  {
    var ls := Segments(CString(before));
    |after| == |before| && '\0' in after && CString(after) == Join(Accepted(ls)) &&
    (forall p | |CString(after)| < p < |after| :: after[p] == before[p]) &&
    (noerror <==> AllValid(ls)) &&
    log == log0 + Rejections(ls, removed0) &&
    removed == removed0 + |ls| - |Accepted(ls)|
  }

  /** The filter's state after the whole buffer, its kept text copied back with a NUL,
      is the promised outcome, and the log keeps line numbers of at least 1. */
  lemma FilterFinish(before: seq<char>, after: seq<char>, k: nat, collected: string, kept: string,
                     l: int, ln: int, noerror: bool, log: seq<Diagnostic>, log0: seq<Diagnostic>, base: int)
    requires '\0' in before && base >= 1 && forall d | d in log0 :: d.line >= 1
    requires Filtering(CString(before), collected, kept, l, ln, noerror, log, log0, base)
    requires |after| == |before| && k < |after| && after[..k] == kept && after[k] == '\0'
    requires forall p | k < p < |after| :: after[p] == before[p]
    ensures FilterOutcome(before, after, noerror, log0, log, base, base + ln - l)
    ensures base + ln - l >= 1 && forall d | d in log :: d.line >= 1
  {
    var s := CString(before);
    FilteringDone(s, collected, kept, l, ln, noerror, log, log0, base);
    CStringIs(after, k, kept);
  }

  /** The extractor's state after the whole buffer: one token per accepted line. */
  lemma ExtractingDone(s: string, collected: string, toks: seq<Token>, removed: int, removed0: int)
    requires Extracting(s, collected, toks, removed, removed0)
    ensures |toks| == |Accepted(Segments(s))| <= |Segments(s)|
    ensures toks == ValidTokens(Segments(s))
    ensures removed == removed0 + |Segments(s)| - |toks|
  {
    ValidTokensOfAccepted(Segments(s));
  }

  /** Reading a character other than `;` extends the collected line and nothing else. */
  lemma ExtractingCollect(pre: string, c: char, collected: string, toks: seq<Token>, removed: int, removed0: int)
    requires c != ';' && Extracting(pre, collected, toks, removed, removed0)
    ensures Extracting(pre + [c], collected + [c], toks, removed, removed0)
  {
    PendingSnoc(pre, c);
  }

  /** Reading a `;` keeps the line's token unless it is invalid, in which case the
      removed-lines counter grows by one. */
  lemma ExtractingLine(pre: string, text: string, toks: seq<Token>, removed: int, removed0: int)
    requires Extracting(pre, text, toks, removed, removed0)
    ensures var tok := ScanOneToken(text);
            if tok.kind == Invalid then Extracting(pre + [';'], [], toks, removed + 1, removed0)
            else Extracting(pre + [';'], [], toks + [tok], removed, removed0)
  {
    PendingSnoc(pre, ';');
    ValidTokensSnoc(Segments(pre), text);
  }

  class Session {
    /** The log that the source writes as text into `error_buffer`; its length plays
        the part of `error_cnt`. */
    var diagnostics: seq<Diagnostic>
    /** `removed_lines`: added to token positions to give user-visible line numbers. */
    var removedLines: int

    /** Line numbers are 1-based: the counter starts at 1 and only grows. */
    ghost predicate Valid()
      reads this
    {
      removedLines >= 1 && forall d | d in diagnostics :: d.line >= 1
    }

    constructor ()
      ensures Valid() && diagnostics == [] && removedLines == 1
    {
      diagnostics := [];
      removedLines := 1;
    }

    /** Keeps the accepted lines of the buffer, in order, each followed by `;`; logs one
        diagnostic per rejected line, numbered by its index among all lines plus the
        removed-lines counter; adds the number of rejected lines to the counter; and
        reports whether every line was accepted. A line longer than the 499 characters
        the line buffer holds stops the program instead (`overflow`), and then nothing
        is said about the state it leaves. */
    method ValidateTokens(buffer: array<char>) returns (noerror: bool, overflow: bool)
      requires Valid()
      requires '\0' in buffer[..]
      modifies this, buffer
      ensures overflow <==> !LinesFit(CString(old(buffer[..])))
      ensures !overflow ==> Valid()
      ensures !overflow ==> FilterOutcome(old(buffer[..]), buffer[..], noerror,
                                          old(diagnostics), diagnostics, old(removedLines), removedLines)
    {
      ghost var before := buffer[..];
      ghost var base := removedLines;
      ghost var log0 := diagnostics;
      var tmp := new char[buffer.Length];
      var line := new char[500];
      var k, j, l, ln;
      k, j, l, ln, noerror, overflow := FilterLines(buffer, line, tmp);
      if overflow {
        return;
      }
      CopyBack(buffer, tmp, k);
      FilterFinish(before, buffer[..], k, line[..j], tmp[..k], l, ln, noerror, diagnostics, log0, base);
      removedLines := removedLines + ln - l;
    }

    /** The loop of the filter: walks the buffer up to its NUL, collecting each line in
        `line` and appending the kept ones to `tmp`. A line that reaches 500 characters
        stops it with `overflow`; otherwise it ends in the filter's state of the whole
        buffer. */
    method FilterLines(buffer: array<char>, line: array<char>, tmp: array<char>)
      returns (k: nat, j: nat, l: int, ln: int, noerror: bool, overflow: bool)
      requires '\0' in buffer[..] && line.Length == 500 && tmp.Length == buffer.Length
      requires buffer != line && buffer != tmp && line != tmp
      modifies this`diagnostics, line, tmp
      ensures overflow <==> !LinesFit(CString(buffer[..]))
      ensures !overflow ==> k < tmp.Length && j <= 500
      ensures !overflow ==> Filtering(CString(buffer[..]), line[..j], tmp[..k], l, ln, noerror,
                                      diagnostics, old(diagnostics), removedLines)
    {
      ghost var z := StrLen(buffer[..]);
      ghost var s := CString(buffer[..]);
      var i: nat := 0;
      j, k := 0, 0;
      l, ln := 0, 0;
      noerror, overflow := true, false;
      ghost var log0 := diagnostics;
      while buffer[i] != '\0'
        invariant 0 <= i <= z < tmp.Length
        invariant j <= 500 && k + j <= i
        invariant forall q | 0 <= q < i :: PendingLength(s, q) <= 499
        invariant Filtering(s[..i], line[..j], tmp[..k], l, ln, noerror, diagnostics, log0, removedLines)
        decreases z - i
      {
        var c := buffer[i];
        assert i < z && c == s[i];
        PrefixSnoc(s, i);
        assert j == PendingLength(s, i);
        if j > 499 {
          overflow := true;
          return;
        }
        j, k, l, ln, noerror := FilterChar(c, line, j, tmp, k, l, ln, noerror, s[..i], log0);
        i := i + 1;
      }
      assert s[..i] == s;
    }

    /** One character of the filter's loop: a character other than `;` is collected into
        `line`; a `;` ends the line. The state after the character is the filter's state
        of the text one character longer. */
    method FilterChar(c: char, line: array<char>, j: nat, tmp: array<char>, k: nat, l: int, ln: int,
                      noerror: bool, ghost pre: string, ghost log0: seq<Diagnostic>)
      returns (j': nat, k': nat, l': int, ln': int, noerror': bool)
      requires tmp != line && j < line.Length && k + j < tmp.Length
      requires Filtering(pre, line[..j], tmp[..k], l, ln, noerror, diagnostics, log0, removedLines)
      modifies this`diagnostics, line, tmp
      ensures j' <= j + 1 && k' + j' <= k + j + 1
      ensures Filtering(pre + [c], line[..j'], tmp[..k'], l', ln', noerror', diagnostics, log0, removedLines)
    {
      if c != ';' {
        FilteringCollect(pre, c, line[..j], tmp[..k], l, ln, noerror, diagnostics, log0, removedLines);
        j' := Push(line, j, c);
        k', l', ln', noerror' := k, l, ln, noerror;
      } else {
        k', l', ln', noerror' := FilterLineEnd(line, j, tmp, k, l, ln, noerror, pre, log0);
        j' := 0;
      }
    }

    /** The end of one line in the filter: the line in the first `j` cells of `line` is
        NUL-terminated and matched against the grammar; an accepted line is appended to
        `tmp` with its `;`, a rejected one clears the flag and logs an "unrecognised token"
        diagnostic numbered by the line's index plus the removed-lines counter. */
    method FilterLineEnd(line: array<char>, j: nat, tmp: array<char>, k: nat, l: int, ln: int,
                         noerror: bool, ghost pre: string, ghost log0: seq<Diagnostic>)
      returns (k': nat, l': int, ln': int, noerror': bool)
      requires tmp != line && j < line.Length && k + j < tmp.Length
      requires Filtering(pre, line[..j], tmp[..k], l, ln, noerror, diagnostics, log0, removedLines)
      modifies this`diagnostics, line, tmp
      ensures k' <= k + j + 1
      ensures Filtering(pre + [';'], [], tmp[..k'], l', ln', noerror', diagnostics, log0, removedLines)
    {
      ghost var text := line[..j];
      ghost var kept := tmp[..k];
      line[j] := '\0';
      assert line[..j] == text;
      if IsValidLine(line[..j]) {
        FilteringKeep(pre, text, kept, l, ln, noerror, diagnostics, log0, removedLines);
        ValidLineChars(text);
        assert forall p | 0 <= p < j :: line[p] == text[p];
        k' := AppendLine(tmp, k, line, j);
        l', noerror' := l + 1, noerror;
      } else {
        FilteringReject(pre, text, kept, l, ln, noerror, diagnostics, log0, removedLines);
        k' := k;
        diagnostics := diagnostics + [Diagnostic(removedLines + ln, UnrecognisedToken)];
        l', noerror' := l, false;
      }
      ln' := ln + 1;
    }

    /** Scans every `;`-terminated line of the buffer and keeps, in order, the tokens
        that are not invalid; adds the number of dropped lines to the counter. */
    method ExtractTokens(buffer: array<char>, tokens: array<Token>) returns (t: nat)
      requires Valid()
      requires '\0' in buffer[..]
      requires LinesFit(CString(buffer[..]))
      requires |Segments(CString(buffer[..]))| <= tokens.Length
      modifies this`removedLines, tokens
      ensures Valid()
      ensures t == |Accepted(Segments(CString(buffer[..])))|
      ensures tokens[..t] == ValidTokens(Segments(CString(buffer[..])))
      ensures forall p | |Segments(CString(buffer[..]))| <= p < tokens.Length :: tokens[p] == old(tokens[p])
      ensures removedLines == old(removedLines) + |Segments(CString(buffer[..]))| - t
    {
      var line := new char[500];
      ghost var removed0 := removedLines;
      var j;
      j, t := ExtractLines(buffer, line, tokens);
      ExtractingDone(CString(buffer[..]), line[..j], tokens[..t], removedLines, removed0);
    }

    /** The loop of the extractor: walks the buffer up to its NUL, collecting each line in
        `line` and writing its token at `tokens[t]`. It ends in the extractor's state of
        the whole buffer. */
    method ExtractLines(buffer: array<char>, line: array<char>, tokens: array<Token>)
      returns (j: nat, t: nat)
      requires '\0' in buffer[..] && line.Length == 500
      requires LinesFit(CString(buffer[..]))
      requires |Segments(CString(buffer[..]))| <= tokens.Length
      requires buffer != line
      modifies this`removedLines, line, tokens
      ensures j <= line.Length && t <= |Segments(CString(buffer[..]))|
      ensures forall p | |Segments(CString(buffer[..]))| <= p < tokens.Length :: tokens[p] == old(tokens[p])
      ensures Extracting(CString(buffer[..]), line[..j], tokens[..t], removedLines, old(removedLines))
    {
      ghost var z := StrLen(buffer[..]);
      ghost var s := CString(buffer[..]);
      var i: nat := 0;
      j, t := 0, 0;
      ghost var removed0 := removedLines;
      while buffer[i] != '\0'
        invariant 0 <= i <= z && j <= 500
        invariant t <= |Segments(s[..i])| <= tokens.Length
        invariant forall p | |Segments(s[..i])| <= p < tokens.Length :: tokens[p] == old(tokens[p])
        invariant Extracting(s[..i], line[..j], tokens[..t], removedLines, removed0)
        decreases z - i
      {
        var c := buffer[i];
        assert i < z && c == s[i];
        PrefixSnoc(s, i);
        assert j == PendingLength(s, i) <= 499;
        SegmentsOfPrefix(s, i + 1);
        j, t := ExtractChar(c, line, j, tokens, t, s[..i], removed0);
        i := i + 1;
      }
      assert s[..i] == s;
    }

    /** One character of the extractor's loop: a character other than `;` is collected
        into `line`; a `;` ends the line, whose token is kept unless it is invalid. */
    method ExtractChar(c: char, line: array<char>, j: nat, tokens: array<Token>, t: nat,
                       ghost pre: string, ghost removed0: int)
      returns (j': nat, t': nat)
      requires tokens.Length >= |Segments(pre + [c])| && t <= |Segments(pre)| && j < line.Length
      requires Extracting(pre, line[..j], tokens[..t], removedLines, removed0)
      modifies this`removedLines, line, tokens
      ensures j' <= j + 1 && t' <= |Segments(pre + [c])|
      ensures forall p | |Segments(pre + [c])| <= p < tokens.Length :: tokens[p] == old(tokens[p])
      ensures Extracting(pre + [c], line[..j'], tokens[..t'], removedLines, removed0)
    {
      if c != ';' {
        ExtractingCollect(pre, c, line[..j], tokens[..t], removedLines, removed0);
        j' := Push(line, j, c);
        t' := t;
      } else {
        ghost var text := line[..j];
        ExtractingLine(pre, text, tokens[..t], removedLines, removed0);
        line[j] := '\0';
        assert line[..j] == text;
        ghost var toks := tokens[..t];
        tokens[t] := ScanOneToken(line[..j]);
        assert tokens[..t + 1] == toks + [tokens[t]];
        t' := t + 1;
        if tokens[t' - 1].kind == Invalid {
          t' := t' - 1;
          removedLines := removedLines + 1;
        }
        j' := 0;
      }
    }

    /** Finds the first end-of-program token — inserting one after the last token, with
        an error, when there is none, and dropping what follows it, with a warning, when
        something does — and puts the assignment to the result before the end marker.
        Returns the new token count. */
    method AnalyzeTokens(tokens: array<Token>, t: nat) returns (r: nat)
      requires Valid()
      requires t <= tokens.Length
      requires FirstEop(tokens[..t]) + 2 <= tokens.Length
      modifies this`diagnostics, tokens
      ensures Valid()
      ensures r == FirstEop(old(tokens[..t])) + 2
      ensures tokens[..r - 2] == old(tokens[..r - 2])
      ensures tokens[r - 2] == ResultAssign
      ensures tokens[r - 1] == old(tokens[r - 1]).(kind := Eop, operation := End)
      ensures tokens[r..] == old(tokens[r..])
      ensures Terminated(tokens[..r])
      ensures diagnostics == old(diagnostics) + AnalyzerDiagnostics(old(tokens[..t]), removedLines)
    {
      ghost var before := tokens[..t];
      var i := 0;
      var e := 0;
      while i < t
        invariant 0 <= i <= t
        invariant e == 0
        invariant forall k | 0 <= k < i :: tokens[k].kind != Eop
      {
        if tokens[i].kind == Eop {
          e := e + 1;
          if e == 1 {
            break;
          }
        }
        i := i + 1;
      }
      assert i == FirstEop(before);
      ghost var log := AnalyzerDiagnostics(before, removedLines);
      var n := t;
      if e == 0 {
        assert log == [Diagnostic(i + removedLines, MissingEop)];
        diagnostics := diagnostics + [Diagnostic(i + removedLines, MissingEop)];
        tokens[i] := tokens[i].(kind := Eop, operation := End);
        n := i + 1;
      } else if n > i + 1 {
        assert log == [Diagnostic(i + removedLines + 1, UnreachableCode)];
        diagnostics := diagnostics + [Diagnostic(i + removedLines + 1, UnreachableCode)];
        n := i + 1;
      } else {
        assert log == [];
      }
      n := n + 1;
      tokens[n - 1] := tokens[n - 1].(kind := Eop, operation := End);
      tokens[n - 2] := tokens[n - 2].(kind := Variable, operation := Assign, data := Name('$'));
      r := n;
      TerminatedAt(tokens[..r], i);
    }
  }
}
