/** What the search for the end of an array or object finds, against a definition of nesting of its own. */
module JsonBrackets {
  import opened Wrappers
  import opened JsonRead

  predicate IsOpen(c: char)
  {
    c == '[' || c == '{'
  }

  predicate IsClose(c: char)
  {
    c == ']' || c == '}'
  }

  /** The kind of bracket a character is. */
  function FrameOf(c: char): Frame
    requires IsOpen(c) || IsClose(c)
  {
    if c == '[' || c == ']' then InArray else InObject
  }

  /** How quotes are told from escaped ones: by the two characters before them, as the search does it,
  or by the number of backslashes before them, as JSON text means it. */
  datatype Judge = LookBack | Parity

  predicate Counts(s: string, i: nat, judge: Judge)
    requires 0 < i < |s|
  {
    match judge
    case LookBack => Toggles(s, i)
    case Parity => Slashes(s, 0, i) % 2 == 0
  }

  datatype Nesting = Nesting(inQuote: bool, open: Stack, judge: Judge)

  /** Reads s[i..j) and returns the brackets left open, or None at a bracket that closes nothing. */
  function Nest(s: string, i: nat, j: nat, n: Nesting): (r: Option<Nesting>)
    requires 0 < i <= j <= |s|
    decreases j - i
  {
    if i == j then Some(n)
    else if s[i] == '\"' then Nest(s, i + 1, j, n.(inQuote := n.inQuote != Counts(s, i, n.judge)))
    else if n.inQuote then Nest(s, i + 1, j, n)
    else if IsOpen(s[i]) then Nest(s, i + 1, j, n.(open := n.open + [FrameOf(s[i])]))
    else if IsClose(s[i]) then
      if n.open == [] || Top(n.open) != FrameOf(s[i]) then None
      else Nest(s, i + 1, j, n.(open := Pop(n.open)))
    else Nest(s, i + 1, j, n)
  }

  function Start(judge: Judge): Nesting
  {
    Nesting(false, [], judge)
  }

  /** Outside quotes, every bracket in s[i..j) is matched within it. */
  predicate Balanced(s: string, i: nat, j: nat, judge: Judge)
    requires 0 < i <= j <= |s|
  {
    Nest(s, i, j, Start(judge)) == Some(Start(judge))
  }

  /** A quote after an odd run of three or more backslashes: escaped, but not for the search. */
  predicate Misjudged(s: string, i: nat)
    requires i < |s|
  {
    s[i] == '\"' && Slashes(s, 0, i) >= 3 && Slashes(s, 0, i) % 2 == 1
  }

  /** No such quote before position j. */
  predicate WellJudged(s: string, j: nat)
    requires j <= |s|
  {
    forall k :: 0 < k < j ==> !Misjudged(s, k)
  }

  lemma {:induction false} NestConcat(s: string, i: nat, j: nat, k: nat, n: Nesting)
    requires 0 < i <= j <= k <= |s|
    ensures Nest(s, i, j, n).Some? ==> Nest(s, i, k, n) == Nest(s, j, k, Nest(s, i, j, n).value)
    decreases j - i
  {
    if i < j {
      if s[i] == '\"' {
        NestConcat(s, i + 1, j, k, n.(inQuote := n.inQuote != Counts(s, i, n.judge)));
      } else if n.inQuote {
        NestConcat(s, i + 1, j, k, n);
      } else if IsOpen(s[i]) {
        NestConcat(s, i + 1, j, k, n.(open := n.open + [FrameOf(s[i])]));
      } else if IsClose(s[i]) {
        if n.open != [] {
          NestConcat(s, i + 1, j, k, n.(open := Pop(n.open)));
        }
      } else {
        NestConcat(s, i + 1, j, k, n);
      }
    }
  }

  /** While nothing closes the frames below, the scan carries the nesting on top of them. */
  lemma {:induction false} ScanFollowsNest(s: string, i: nat, j: nat, base: Stack, n: Nesting)
    requires 0 < i <= j <= |s| && base != []
    requires Nest(s, i, j, n).Some? && n.judge == LookBack
    ensures var m := Nest(s, i, j, n).value;
            ScanEnd(s, i, n.inQuote, base + n.open, |base|) == ScanEnd(s, j, m.inQuote, base + m.open, |base|)
    decreases j - i
  {
    if i < j {
      var st := base + n.open;
      if s[i] == '\"' {
        ScanFollowsNest(s, i + 1, j, base, n.(inQuote := n.inQuote != Counts(s, i, n.judge)));
      } else if n.inQuote {
        ScanFollowsNest(s, i + 1, j, base, n);
      } else if IsOpen(s[i]) {
        assert st + [FrameOf(s[i])] == base + (n.open + [FrameOf(s[i])]);
        ScanFollowsNest(s, i + 1, j, base, n.(open := n.open + [FrameOf(s[i])]));
      } else if IsClose(s[i]) {
        assert Pop(st) == base + Pop(n.open);
        ScanFollowsNest(s, i + 1, j, base, n.(open := Pop(n.open)));
      } else {
        ScanFollowsNest(s, i + 1, j, base, n);
      }
    }
  }

  /** The first bracket of s[i..] that closes nothing opened there, if any. */
  lemma {:induction false} FirstUnmatched(s: string, i: nat, n: Nesting) returns (j: nat, m: Nesting)
    requires 0 < i <= |s|
    ensures i <= j <= |s| && Nest(s, i, j, n) == Some(m)
    ensures j < |s| ==> !m.inQuote && IsClose(s[j]) && (m.open == [] || Top(m.open) != FrameOf(s[j]))
    decreases |s| - i
  {
    j, m := i, n;
    if i < |s| {
      if s[i] == '\"' {
        j, m := FirstUnmatched(s, i + 1, n.(inQuote := n.inQuote != Counts(s, i, n.judge)));
      } else if n.inQuote {
        j, m := FirstUnmatched(s, i + 1, n);
      } else if IsOpen(s[i]) {
        j, m := FirstUnmatched(s, i + 1, n.(open := n.open + [FrameOf(s[i])]));
      } else if IsClose(s[i]) {
        if n.open != [] && Top(n.open) == FrameOf(s[i]) {
          j, m := FirstUnmatched(s, i + 1, n.(open := Pop(n.open)));
        }
      } else {
        j, m := FirstUnmatched(s, i + 1, n);
      }
    }
  }

  /** Without misjudged quotes both ways of reading quotes see the same nesting. */
  lemma {:induction false} SameNest(s: string, i: nat, j: nat, n: Nesting)
    requires 0 < i <= j <= |s| && s[0] != '\\' && WellJudged(s, j)
    ensures var l, p := Nest(s, i, j, n.(judge := LookBack)), Nest(s, i, j, n.(judge := Parity));
            l.Some? == p.Some? && (l.Some? ==> l.value.(judge := Parity) == p.value.(judge := Parity))
    decreases j - i
  {
    if i < j {
      if s[i] == '\"' {
        TogglesExactly(s, i);
        assert !Misjudged(s, i);
        SameNest(s, i + 1, j, n.(inQuote := n.inQuote != Counts(s, i, Parity)));
      } else if n.inQuote {
        SameNest(s, i + 1, j, n);
      } else if IsOpen(s[i]) {
        SameNest(s, i + 1, j, n.(open := n.open + [FrameOf(s[i])]));
      } else if IsClose(s[i]) {
        if n.open != [] && Top(n.open) == FrameOf(s[i]) {
          SameNest(s, i + 1, j, n.(open := Pop(n.open)));
        }
      } else {
        SameNest(s, i + 1, j, n);
      }
    }
  }

  lemma {:induction false} NestKeepsJudge(s: string, i: nat, j: nat, n: Nesting)
    requires 0 < i <= j <= |s|
    ensures Nest(s, i, j, n).Some? ==> Nest(s, i, j, n).value.judge == n.judge
    decreases j - i
  {
    if i < j {
      if s[i] == '\"' {
        NestKeepsJudge(s, i + 1, j, n.(inQuote := n.inQuote != Counts(s, i, n.judge)));
      } else if n.inQuote {
        NestKeepsJudge(s, i + 1, j, n);
      } else if IsOpen(s[i]) {
        NestKeepsJudge(s, i + 1, j, n.(open := n.open + [FrameOf(s[i])]));
      } else if IsClose(s[i]) {
        if n.open != [] && Top(n.open) == FrameOf(s[i]) {
          NestKeepsJudge(s, i + 1, j, n.(open := Pop(n.open)));
        }
      } else {
        NestKeepsJudge(s, i + 1, j, n);
      }
    }
  }

  /** The same from outside quotes with nothing open, for either way. */
  lemma JudgesAgree(s: string, j: nat, judge: Judge)
    requires 0 < j <= |s| && s[0] != '\\' && (judge.Parity? ==> WellJudged(s, j))
    ensures var l, n := Nest(s, 1, j, Start(LookBack)), Nest(s, 1, j, Start(judge));
            && l.Some? == n.Some?
            && (l.Some? ==> l.value.inQuote == n.value.inQuote && l.value.open == n.value.open)
    ensures Balanced(s, 1, j, judge) <==> Balanced(s, 1, j, LookBack)
  {
    hide Nest;
    NestKeepsJudge(s, 1, j, Start(LookBack));
    NestKeepsJudge(s, 1, j, Start(judge));
    if judge.Parity? {
      SameNest(s, 1, j, Start(judge));
    }
  }

  /** The bracket at `j` is of the wrong kind for the frames `st` then open. */
  predicate WrongKindAt(s: string, j: nat, below: Stack, st: Stack, judge: Judge)
    requires s != "" && IsOpen(s[0])
  {
    && 0 < j < |s| && IsClose(s[j]) && Nest(s, 1, j, Start(judge)).Some?
    && var m := Nest(s, 1, j, Start(judge)).value;
       !m.inQuote && st == below + [FrameOf(s[0])] + m.open && Top(st) != FrameOf(s[j])
  }

  predicate ClosedAt(s: string, i: nat, judge: Judge)
    requires s != "" && IsOpen(s[0]) && 0 < i < |s|
  {
    Balanced(s, 1, i, judge) && IsClose(s[i]) && FrameOf(s[i]) == FrameOf(s[0])
  }

  lemma EndOfBracketByLookBack(s: string, below: Stack)
    requires s != "" && IsOpen(s[0])
    ensures var e := ScanEnd(s, 1, false, below + [FrameOf(s[0])], |below| + 1);
            && (e.EndAt? && e.i < |s| ==> ClosedAt(s, e.i, LookBack) && e.st == below)
            && (e.EndAt? && e.i == |s| ==>
                  Nest(s, 1, |s|, Start(LookBack)).Some?
                  && e.st == below + [FrameOf(s[0])] + Nest(s, 1, |s|, Start(LookBack)).value.open)
            && (e.Mismatch? ==> exists j :: WrongKindAt(s, j, below, e.st, LookBack))
  {
    hide ScanEnd, Nest, Balanced, WrongKindAt;
    var base := below + [FrameOf(s[0])];
    var j, m := FirstUnmatched(s, 1, Start(LookBack));
    ScanFollowsNest(s, 1, j, base, Start(LookBack));
    assert base + [] == base;
    ScanStops(s, j, base, m);
    if j < |s| {
      if m.open == [] && FrameOf(s[j]) == FrameOf(s[0]) {
        assert Pop(base) == below;
        ClosesThere(s, j, m);
      } else {
        WrongKindThere(s, j, below, m);
      }
    }
  }

  lemma ClosesThere(s: string, j: nat, m: Nesting)
    requires 0 < j <= |s| && Nest(s, 1, j, Start(LookBack)) == Some(m) && m.open == [] && !m.inQuote
    ensures Balanced(s, 1, j, LookBack)
  {
    NestKeepsJudge(s, 1, j, Start(LookBack));
  }

  lemma WrongKindThere(s: string, j: nat, below: Stack, m: Nesting)
    requires s != "" && IsOpen(s[0]) && 0 < j < |s| && IsClose(s[j]) && !m.inQuote
    requires Nest(s, 1, j, Start(LookBack)) == Some(m)
    requires if m.open == [] then FrameOf(s[j]) != FrameOf(s[0]) else Top(m.open) != FrameOf(s[j])
    ensures WrongKindAt(s, j, below, below + [FrameOf(s[0])] + m.open, LookBack)
  {
    hide Nest;
    assert below + [FrameOf(s[0])] + [] == below + [FrameOf(s[0])];
  }

  /** Started on an opening bracket with its frame on top, the search
  - ends at the bracket that matches position 0, with a balanced text between, the
    opening frame popped and everything below untouched; or
  - runs off the end with the frames still open on top of the stack it was given; or
  - stops at a bracket of the wrong kind.
  Brackets inside strings do not count, where strings end as JSON text means them to end as long as
  no quote is misjudged, and where the search takes them to end on every text. */
  lemma EndOfBracket(s: string, below: Stack, judge: Judge)
    requires s != "" && IsOpen(s[0]) && (judge.Parity? ==> WellJudged(s, |s|))
    ensures var e := ScanEnd(s, 1, false, below + [FrameOf(s[0])], |below| + 1);
            && (e.EndAt? && e.i < |s| ==> ClosedAt(s, e.i, judge) && e.st == below)
            && (e.EndAt? && e.i == |s| ==>
                  Nest(s, 1, |s|, Start(judge)).Some?
                  && e.st == below + [FrameOf(s[0])] + Nest(s, 1, |s|, Start(judge)).value.open)
            && (e.Mismatch? ==> exists j :: WrongKindAt(s, j, below, e.st, judge))
  {
    hide ScanEnd, Nest, Balanced;
    EndOfBracketByLookBack(s, below);
    var e := ScanEnd(s, 1, false, below + [FrameOf(s[0])], |below| + 1);
    if e.EndAt? {
      JudgesAgree(s, e.i, judge);
    } else {
      var j :| WrongKindAt(s, j, below, e.st, LookBack);
      JudgesAgree(s, j, judge);
      assert WrongKindAt(s, j, below, e.st, judge);
    }
  }

  /** What the scan does at an unmatched bracket and at the end of the text. */
  lemma ScanStops(s: string, j: nat, base: Stack, m: Nesting)
    requires 0 < j <= |s| && base != []
    requires j < |s| ==> !m.inQuote && IsClose(s[j]) && (m.open == [] || Top(m.open) != FrameOf(s[j]))
    ensures ScanEnd(s, j, m.inQuote, base + m.open, |base|)
            == if j == |s| then EndAt(j, base + m.open)
               else if m.open == [] && Top(base) == FrameOf(s[j]) then EndAt(j, Pop(base))
               else Mismatch(base + m.open)
  {
    if m.open == [] {
      assert base + m.open == base;
    }
  }

  /** The search finds an end exactly where a balanced text is closed by the right bracket. */
  lemma EndIsTheMatch(s: string, below: Stack, i: nat, judge: Judge)
    requires s != "" && IsOpen(s[0]) && 0 < i < |s| && (judge.Parity? ==> WellJudged(s, i))
    ensures ScanEnd(s, 1, false, below + [FrameOf(s[0])], |below| + 1) == EndAt(i, below) <==> ClosedAt(s, i, judge)
  {
    hide ScanEnd, Nest;
    EndOfBracket(s, below, LookBack);
    JudgesAgree(s, i, judge);
    var base := below + [FrameOf(s[0])];
    if ClosedAt(s, i, judge) {
      assert base + [] == base && Pop(base) == below;
      ScanFollowsNest(s, 1, i, base, Start(LookBack));
      ScanStops(s, i, base, Start(LookBack));
    }
  }
}
