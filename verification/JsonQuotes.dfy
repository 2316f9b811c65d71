/** Where strings end: the search for a bracket's end tells escaped quotes from others by two characters,
which is wrong after an odd run of three or more backslashes and right everywhere else. */
module JsonQuotes {
  import opened Wrappers
  import opened JsonRead
  import opened JsonBrackets

  /** The search reports the end at `i` exactly when the text closes its first bracket there. */
  predicate FindsEnd(t: string, below: Stack, i: nat)
    requires t != "" && IsOpen(t[0]) && 0 < i < |t|
  {
    ScanEnd(t, 1, false, below + [FrameOf(t[0])], |below| + 1) == EndAt(i, below) <==> ClosedAt(t, i, Parity)
  }

  // ---------- text that only follows ----------

  lemma CountsOfStart(p: string, c: string, k: nat, judge: Judge)
    requires 0 < k < |p|
    ensures Counts(p + c, k, judge) == Counts(p, k, judge)
  {
    SlashesOfStart(p, c, k);
  }

  lemma {:induction false} NestOfStart(p: string, c: string, i: nat, j: nat, n: Nesting)
    requires 0 < i <= j <= |p|
    ensures Nest(p + c, i, j, n) == Nest(p, i, j, n)
    decreases j - i
  {
    hide Counts;
    if i < j {
      assert (p + c)[i] == p[i];
      if p[i] == '\"' {
        CountsOfStart(p, c, i, n.judge);
        NestOfStart(p, c, i + 1, j, n.(inQuote := n.inQuote != Counts(p, i, n.judge)));
      } else if n.inQuote {
        NestOfStart(p, c, i + 1, j, n);
      } else if IsOpen(p[i]) {
        NestOfStart(p, c, i + 1, j, n.(open := n.open + [FrameOf(p[i])]));
      } else if IsClose(p[i]) {
        if n.open != [] && Top(n.open) == FrameOf(p[i]) {
          NestOfStart(p, c, i + 1, j, n.(open := Pop(n.open)));
        }
      } else {
        NestOfStart(p, c, i + 1, j, n);
      }
    }
  }

  // ---------- brackets that close what is open ----------

  function CloserOf(f: Frame): char
  {
    if f.InArray? then ']' else '}'
  }

  function Closers(open: Stack): string
  {
    if open == [] then "" else [CloserOf(Top(open))] + Closers(Pop(open))
  }

  lemma {:induction false} ClosersClose(t: string, j: nat, n: Nesting)
    requires 0 < j <= |t| && Closers(n.open) <= t[j..] && !n.inQuote
    ensures j + |Closers(n.open)| <= |t|
    ensures Nest(t, j, j + |Closers(n.open)|, n) == Some(n.(open := []))
    decreases |n.open|
  {
    if n.open != [] {
      var rest := n.(open := Pop(n.open));
      assert t[j] == Closers(n.open)[0];
      assert Closers(rest.open) == Closers(n.open)[1..] <= t[j..][1..] == t[j + 1..];
      ClosersClose(t, j + 1, rest);
    }
  }

  lemma {:induction false} NoQuotesInClosers(open: Stack)
    ensures '\"' !in Closers(open) && '\\' !in Closers(open)
  {
    if open != [] {
      NoQuotesInClosers(Pop(open));
    }
  }

  lemma {:induction false} StaysInQuote(t: string, j: nat, k: nat, n: Nesting)
    requires 0 < j <= k <= |t| && n.inQuote && '\"' !in t[j..k]
    ensures Nest(t, j, k, n) == Some(n)
    decreases k - j
  {
    if j < k {
      assert t[j] == t[j..k][0];
      assert t[j + 1..k] == t[j..k][1..];
      StaysInQuote(t, j + 1, k, n);
    }
  }

  /** Once a text is completed by closing brackets only, it is balanced for whoever stands outside quotes. */
  lemma ClosedOnlyOutside(t: string, j: nat, n: Nesting)
    requires 0 < j < |t| && Nest(t, 1, j, Start(n.judge)) == Some(n) && t[j..|t| - 1] == Closers(n.open)
    ensures Balanced(t, 1, |t| - 1, n.judge) <==> !n.inQuote
  {
    hide Nest;
    NestConcat(t, 1, j, |t| - 1, Start(n.judge));
    if n.inQuote {
      NoQuotesInClosers(n.open);
      StaysInQuote(t, j, |t| - 1, n);
    } else {
      assert Closers(n.open) <= t[j..];
      ClosersClose(t, j, n);
    }
  }

  // ---------- one quote ----------

  /** After the quote at `k`, the search and JSON text agree on what is open but not on being in a string. */
  lemma MisjudgedQuoteSplits(p: string, k: nat) returns (l: Nesting, n: Nesting)
    requires 0 < k < |p| && p[0] != '\\' && WellJudged(p, k) && Misjudged(p, k)
    requires Nest(p, 1, k, Start(Parity)).Some?
    ensures Nest(p, 1, k + 1, Start(LookBack)) == Some(l) && l.judge == LookBack
    ensures Nest(p, 1, k + 1, Start(Parity)) == Some(n) && n.judge == Parity
    ensures l.open == n.open && l.inQuote != n.inQuote
  {
    JudgesAgree(p, k, Parity);
    NestKeepsJudge(p, 1, k, Start(LookBack));
    NestKeepsJudge(p, 1, k, Start(Parity));
    TogglesExactly(p, k);
    var l0, n0 := Nest(p, 1, k, Start(LookBack)).value, Nest(p, 1, k, Start(Parity)).value;
    l, n := l0.(inQuote := !l0.inQuote), n0;
    assert Nest(p, k, k + 1, l0) == Some(l) && Nest(p, k, k + 1, n0) == Some(n);
    NestConcat(p, 1, k, k + 1, Start(LookBack));
    NestConcat(p, 1, k, k + 1, Start(Parity));
  }

  /** A text that ends in a misjudged quote has a completion on which the search is wrong. */
  lemma MisjudgedQuoteMisleads(p: string, below: Stack) returns (c: string)
    requires p != "" && IsOpen(p[0]) && WellJudged(p, |p| - 1) && Misjudged(p, |p| - 1)
    requires |p| > 1 && Nest(p, 1, |p| - 1, Start(Parity)).Some?
    ensures c != "" && '\\' !in c && !FindsEnd(p + c, below, |p + c| - 1)
  {
    hide Nest, ScanEnd, Balanced;
    var l, n := MisjudgedQuoteSplits(p, |p| - 1);
    c := Closers(n.open) + [CloserOf(FrameOf(p[0]))];
    NoQuotesInClosers(n.open);
    var t := p + c;
    NestOfStart(p, c, 1, |p|, Start(LookBack));
    NestOfStart(p, c, 1, |p|, Start(Parity));
    assert t[|p|..|t| - 1] == Closers(n.open);
    ClosedOnlyOutside(t, |p|, l);
    ClosedOnlyOutside(t, |p|, n);
    EndIsTheMatch(t, below, |t| - 1, LookBack);
  }

  lemma PlainCompletionWellJudged(p: string, c: string)
    requires p != "" && p[|p| - 1] == '\"' && WellJudged(p, |p|) && '\\' !in c
    ensures WellJudged(p + c, |p + c|)
  {
    var t := p + c;
    forall k | 0 < k < |t| ensures !Misjudged(t, k) {
      if k < |p| {
        SlashesOfStart(p, c, k);
        assert !Misjudged(p, k);
      } else {
        assert t[k - 1] == if k == |p| then p[|p| - 1] else c[k - 1 - |p|];
        assert t[k - 1] != '\\';
      }
    }
  }

  /** Exactly when a quote does harm: reading goes right on every plain completion of a text that ends in it, or
  wrong on some, by whether it follows an odd run of three or more backslashes. */
  lemma QuoteDecides(p: string, below: Stack)
    requires |p| > 1 && IsOpen(p[0]) && p[|p| - 1] == '\"' && WellJudged(p, |p| - 1)
    requires Nest(p, 1, |p| - 1, Start(Parity)).Some?
    ensures !Misjudged(p, |p| - 1) <==>
            forall c, i :: '\\' !in c && |p| <= i < |p + c| ==> FindsEnd(p + c, below, i)
  {
    hide FindsEnd;
    if Misjudged(p, |p| - 1) {
      var c := MisjudgedQuoteMisleads(p, below);
      assert !FindsEnd(p + c, below, |p + c| - 1);
    } else {
      forall c, i | '\\' !in c && |p| <= i < |p + c| ensures FindsEnd(p + c, below, i) {
        PlainCompletionWellJudged(p, c);
        FindsByParity(p + c, below, i);
      }
    }
  }

  lemma FindsByParity(t: string, below: Stack, i: nat)
    requires t != "" && IsOpen(t[0]) && 0 < i < |t| && WellJudged(t, |t|)
    ensures FindsEnd(t, below, i)
  {
    hide ScanEnd, Nest;
    EndIsTheMatch(t, below, i, Parity);
  }
}
