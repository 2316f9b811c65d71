/** How JSON text spells the characters of a string, and that the reader understands it. */
module JsonSpelling {
  import opened Decimals
  import opened JsonValue
  import opened Wrappers
  import opened JsonRead

  /** A character as itself, after a backslash, or by four hexadecimal digits. */
  datatype Spelling =
    | Raw(c: char)
    | Short(letter: char)
    | Code(a: char, b: char, x: char, y: char)

  predicate IsHex(c: char)
  {
    IsDigit(c) || 'a' <= c <= 'f' || 'A' <= c <= 'F'
  }

  predicate Proper(sp: Spelling)
  {
    match sp
    case Raw(c) => c != '\"' && c != '\\'
    case Short(letter) => letter in "\"\\/tnrbf"
    case Code(a, b, x, y) => IsHex(a) && IsHex(b) && IsHex(x) && IsHex(y)
  }

  predicate AllProper(sps: seq<Spelling>)
  {
    forall i :: 0 <= i < |sps| ==> Proper(sps[i])
  }

  /** What the unescaping passes over as one piece, proper or not: a character, a backslash and the character after
  it, or a backslash, `u` and any four characters. */
  predicate Piece(sp: Spelling)
  {
    match sp
    case Raw(c) => c != '\\'
    case Short(letter) => letter != 'u'
    case Code(_, _, _, _) => true
  }

  predicate AllPieces(sps: seq<Spelling>)
  {
    forall i :: 0 <= i < |sps| ==> Piece(sps[i])
  }

  function Written(sp: Spelling): (w: string)
    ensures w != ""
  {
    match sp
    case Raw(c) => [c]
    case Short(letter) => ['\\', letter]
    case Code(a, b, x, y) => ['\\', 'u', a, b, x, y]
  }

  /** What the reader takes a spelling for; of a code it looks at the last two digits only. */
  function Meant(lib: Lib, sp: Spelling): string
  {
    match sp
    case Raw(c) => [c]
    case Short(letter) => SimpleEscape(letter)
    case Code(_, _, x, y) => [lib.hexByte([x, y])]
  }

  /** The eight short escapes; any other letter after a backslash stands for nothing. */
  lemma ShortEscapes(lib: Lib, c: char)
    ensures var m := Meant(lib, Short(c));
            && (c == '\"' || c == '\\' || c == '/' ==> m == [c])
            && (c == 'b' ==> m == [8 as char]) && (c == 't' ==> m == [9 as char]) && (c == 'n' ==> m == [10 as char])
            && (c == 'f' ==> m == [12 as char]) && (c == 'r' ==> m == [13 as char])
            && (c !in "\"\\/btnfr" ==> m == "")
  {
  }

  function WrittenAll(sps: seq<Spelling>): string
  {
    if sps == [] then "" else Written(sps[0]) + WrittenAll(sps[1..])
  }

  function MeantAll(lib: Lib, sps: seq<Spelling>): string
  {
    if sps == [] then "" else Meant(lib, sps[0]) + MeantAll(lib, sps[1..])
  }

  // ---------- escaping ----------

  /** Quotes, backslashes and the characters that have a short form escaped, the others as they are. */
  function EscapeChar(c: char): (sp: Spelling)
    ensures Proper(sp)
  {
    if c == '\"' || c == '\\' then Short(c)
    else if c == '\t' then Short('t')
    else if c == '\n' then Short('n')
    else if c == '\r' then Short('r')
    else if c == 8 as char then Short('b')
    else if c == 12 as char then Short('f')
    else Raw(c)
  }

  function Escape(t: string): (sps: seq<Spelling>)
    ensures AllProper(sps)
  {
    if t == "" then [] else [EscapeChar(t[0])] + Escape(t[1..])
  }

  lemma EscapedCharMeans(lib: Lib, c: char)
    ensures Meant(lib, EscapeChar(c)) == [c]
  {
  }

  lemma {:induction false} EscapeMeans(lib: Lib, t: string)
    ensures MeantAll(lib, Escape(t)) == t
  {
    if t != "" {
      EscapeMeans(lib, t[1..]);
      EscapedCharMeans(lib, t[0]);
      hide EscapeChar, Meant;
      assert Escape(t)[1..] == Escape(t[1..]);
      assert t == [t[0]] + t[1..];
    }
  }

  // ---------- unescaping ----------

  lemma SpellingAhead(s: string, i: nat, sps: seq<Spelling>, rest: string)
    requires sps != [] && i <= |s| && s[i..] == WrittenAll(sps) + rest
    ensures Written(sps[0]) <= s[i..] && i + |Written(sps[0])| <= |s|
    ensures s[i + |Written(sps[0])|..] == WrittenAll(sps[1..]) + rest
    ensures |WrittenAll(sps)| == |Written(sps[0])| + |WrittenAll(sps[1..])|
  {
    hide Written;
    CutFront(s, i, Written(sps[0]), WrittenAll(sps[1..]), rest);
  }

  lemma CutFront(s: string, i: nat, w: string, u: string, rest: string)
    requires i <= |s| && s[i..] == w + u + rest
    ensures w <= s[i..] && i + |w| <= |s| && s[i + |w|..] == u + rest
  {
    assert |s| - i == |w| + |u| + |rest|;
    var v := s[i..];
    assert v[..|w|] == w && v[|w|..] == u + rest;
    assert s[i + |w|..] == v[|w|..];
  }

  lemma UnescapeOne(lib: Lib, s: string, i: nat, sp: Spelling)
    requires Piece(sp) && i <= |s| && Written(sp) <= s[i..]
    ensures i + |Written(sp)| <= |s|
    ensures UnescapeFrom(lib, s, i) ==
            match UnescapeFrom(lib, s, i + |Written(sp)|)
            case Done(tail) => Done(Meant(lib, sp) + tail)
            case failure => failure
  {
    var w := Written(sp);
    assert forall k :: 0 <= k < |w| ==> s[i + k] == w[k];
    if sp.Code? {
      assert s[i + 4..i + 6] == [sp.x, sp.y];
    }
  }

  lemma {:induction false} UnescapeAll(lib: Lib, s: string, i: nat, sps: seq<Spelling>)
    requires AllPieces(sps) && i <= |s| && s[i..] == WrittenAll(sps)
    ensures UnescapeFrom(lib, s, i) == Done(MeantAll(lib, sps))
    decreases |sps|
  {
    if sps != [] {
      hide UnescapeFrom, Written, WrittenAll, Meant;
      var w := Written(sps[0]);
      assert s[i..] == WrittenAll(sps) + "" && WrittenAll(sps[1..]) + "" == WrittenAll(sps[1..]);
      SpellingAhead(s, i, sps, "");
      UnescapeOne(lib, s, i, sps[0]);
      UnescapeAll(lib, s, i + |w|, sps[1..]);
    }
  }

  /** Unescaping resolves every spelling and trims the result. */
  lemma UnescapeUndoes(lib: Lib, sps: seq<Spelling>)
    requires AllPieces(sps)
    ensures Unescape(lib, WrittenAll(sps)) == Done(Trim(MeantAll(lib, sps)))
  {
    hide UnescapeFrom, WrittenAll;
    var s := WrittenAll(sps);
    assert s[0..] == s;
    UnescapeAll(lib, s, 0, sps);
  }

  /** Unescaping undoes escaping up to the white space at the ends. */
  lemma UnescapeInvertsEscape(lib: Lib, t: string)
    ensures Unescape(lib, WrittenAll(Escape(t))) == Done(Trim(t))
  {
    hide Unescape;
    UnescapeUndoes(lib, Escape(t));
    EscapeMeans(lib, t);
  }

  // ---------- when unescaping throws ----------

  /** Pieces, and then a backslash, `u` and fewer than two characters more. */
  predicate EndsTruncated(s: string, sps: seq<Spelling>, tail: string)
  {
    AllPieces(sps) && |tail| < 2 && s == WrittenAll(sps) + ("\\u" + tail)
  }

  lemma {:induction false} TruncatedThrows(lib: Lib, s: string, i: nat, sps: seq<Spelling>, tail: string)
    requires i <= |s| && EndsTruncated(s[i..], sps, tail)
    ensures UnescapeFrom(lib, s, i) == Threw
    decreases |sps|
  {
    var u := s[i..];
    if sps == [] {
      assert u == "\\u" + tail;
      assert s[i] == u[0] == '\\' && s[i + 1] == u[1] == 'u';
    } else {
      hide UnescapeFrom, WrittenAll, Written;
      SpellingAhead(s, i, sps, "\\u" + tail);
      UnescapeOne(lib, s, i, sps[0]);
      TruncatedThrows(lib, s, i + |Written(sps[0])|, sps[1..], tail);
    }
  }

  lemma OnePieceMore(s: string, i: nat, sp: Spelling, sps: seq<Spelling>, tail: string)
    requires i + |Written(sp)| <= |s| && s[i..i + |Written(sp)|] == Written(sp) && Piece(sp)
    requires EndsTruncated(s[i + |Written(sp)|..], sps, tail)
    ensures EndsTruncated(s[i..], [sp] + sps, tail)
  {
    hide Written;
    var w := Written(sp);
    assert s[i..] == w + s[i + |w|..];
    assert WrittenAll([sp] + sps) == w + WrittenAll(sps);
  }

  lemma {:induction false} ThrowsTruncated(lib: Lib, s: string, i: nat) returns (sps: seq<Spelling>, tail: string)
    requires i <= |s| + 5 && UnescapeFrom(lib, s, i) == Threw
    ensures i < |s| && EndsTruncated(s[i..], sps, tail)
    decreases |s| + 5 - i
  {
    hide EndsTruncated;
    if s[i] == '\\' && i + 1 < |s| && s[i + 1] == 'u' && i + 4 > |s| {
      sps, tail := [], s[i + 2..];
      assert s[i..] == "" + ("\\u" + tail);
      NoPiece(tail);
    } else {
      var sp := if s[i] != '\\' || i + 1 == |s| then Raw(s[i])
                else if s[i + 1] != 'u' then Short(s[i + 1])
                else if i + 6 <= |s| then Code(s[i + 2], s[i + 3], s[i + 4], s[i + 5])
                else Raw(s[i]);
      sps, tail := ThrowsTruncated(lib, s, i + |Written(sp)|);
      OnePieceMore(s, i, sp, sps, tail);
      sps := [sp] + sps;
    }
  }

  lemma NoPiece(tail: string)
    requires |tail| < 2
    ensures EndsTruncated("" + ("\\u" + tail), [], tail)
  {
  }

  /** Unescaping throws exactly on a four-digit escape cut off before its third digit. */
  lemma UnescapeThrows(lib: Lib, s: string)
    ensures Unescape(lib, s) == Threw <==> exists sps, tail :: EndsTruncated(s, sps, tail)
    ensures Unescape(lib, s) != Undefined
  {
    hide EndsTruncated, UnescapeFrom;
    assert s[0..] == s;
    UnescapeNeverUndefined(lib, s, 0);
    if UnescapeFrom(lib, s, 0) == Threw {
      var sps, tail := ThrowsTruncated(lib, s, 0);
    }
    forall sps, tail | EndsTruncated(s, sps, tail) ensures UnescapeFrom(lib, s, 0) == Threw {
      TruncatedThrows(lib, s, 0, sps, tail);
    }
  }

  lemma {:induction false} UnescapeNeverUndefined(lib: Lib, s: string, i: nat)
    requires i <= |s| + 5
    ensures UnescapeFrom(lib, s, i) != Undefined
    decreases |s| + 5 - i
  {
    if i < |s| {
      UnescapeNeverUndefined(lib, s, i + 1);
      if i + 1 < |s| {
        UnescapeNeverUndefined(lib, s, i + 2);
        if i + 4 <= |s| {
          UnescapeNeverUndefined(lib, s, i + 6);
        }
      }
    }
  }

  // ---------- texts that end inside an escape ----------

  /** A code cut off after two or three of its characters: the byte of what is left of its last two. A backslash with
  nothing after it: itself. With the whole pieces and the codes that throw, these are all texts. */
  function EndMeant(lib: Lib, end: string): string
  {
    if end == "\\" then end else if |end| >= 4 then [lib.hexByte(end[4..])] else ""
  }

  predicate IsEnd(end: string)
  {
    end == "\\" || (4 <= |end| < 6 && end[0] == '\\' && end[1] == 'u')
  }

  lemma EndRead(lib: Lib, s: string, i: nat)
    requires i <= |s| && IsEnd(s[i..])
    ensures UnescapeFrom(lib, s, i) == Done(EndMeant(lib, s[i..]))
  {
    var end := s[i..];
    assert forall k :: 0 <= k < |end| ==> s[i + k] == end[k];
    if |end| >= 4 {
      assert s[i + 4..|s|] == end[4..];
      assert UnescapeFrom(lib, s, i + 6) == Done("");
      assert [lib.hexByte(end[4..])] + "" == EndMeant(lib, end);
    } else {
      assert UnescapeFrom(lib, s, i + 1) == Done("") && [s[i]] + "" == end;
    }
  }

  lemma {:induction false} UnescapeToEnd(lib: Lib, s: string, i: nat, sps: seq<Spelling>, end: string)
    requires AllPieces(sps) && IsEnd(end) && i <= |s| && s[i..] == WrittenAll(sps) + end
    ensures UnescapeFrom(lib, s, i) == Done(MeantAll(lib, sps) + EndMeant(lib, end))
    decreases |sps|
  {
    hide UnescapeFrom, Written, Meant, IsEnd, EndMeant;
    if sps == [] {
      assert s[i..] == end && MeantAll(lib, []) + EndMeant(lib, end) == EndMeant(lib, end);
      EndRead(lib, s, i);
    } else {
      SpellingAhead(s, i, sps, end);
      UnescapeOne(lib, s, i, sps[0]);
      UnescapeToEnd(lib, s, i + |Written(sps[0])|, sps[1..], end);
      var m, tail, e := Meant(lib, sps[0]), MeantAll(lib, sps[1..]), EndMeant(lib, end);
      assert MeantAll(lib, sps) + e == m + (tail + e);
    }
  }

  /** After any pieces such an end is read so, and the whole is trimmed. */
  lemma UnescapeCutShort(lib: Lib, sps: seq<Spelling>, end: string)
    requires AllPieces(sps) && IsEnd(end)
    ensures Unescape(lib, WrittenAll(sps) + end) == Done(Trim(MeantAll(lib, sps) + EndMeant(lib, end)))
  {
    hide UnescapeFrom, WrittenAll, MeantAll, EndMeant, IsEnd;
    var s := WrittenAll(sps) + end;
    assert s[0..] == s;
    UnescapeToEnd(lib, s, 0, sps, end);
  }

  // ---------- the closing quote ----------

  lemma QuotePosPasses(s: string, i: nat, sp: Spelling)
    requires Proper(sp) && i <= |s| && Written(sp) <= s[i..]
    ensures i + |Written(sp)| <= |s| && QuotePos(s, i, false) == QuotePos(s, i + |Written(sp)|, false)
  {
    var w := Written(sp);
    assert forall k :: 0 <= k < |w| ==> s[i + k] == w[k];
    if sp.Code? {
      assert QuotePos(s, i + 2, false) == QuotePos(s, i + 4, false);
      assert QuotePos(s, i + 4, false) == QuotePos(s, i + 6, false);
    }
  }

  lemma QuoteHere(s: string, i: nat, rest: string)
    requires i <= |s| && s[i..] == WrittenAll([]) + ("\"" + rest)
    ensures QuotePos(s, i, false) == Some(i) && |WrittenAll([])| == 0
  {
    assert s[i..] == "\"" + rest;
    assert s[i] == s[i..][0] == '\"';
  }

  /** The spelled characters are passed over, and the quote after them is found. */
  lemma {:induction false} QuotePosAfter(s: string, i: nat, sps: seq<Spelling>, rest: string)
    requires AllProper(sps) && i <= |s| && s[i..] == WrittenAll(sps) + ("\"" + rest)
    ensures QuotePos(s, i, false) == Some(i + |WrittenAll(sps)|)
    decreases |sps|
  {
    hide QuotePos, Written, WrittenAll;
    if sps == [] {
      QuoteHere(s, i, rest);
    } else {
      SpellingAhead(s, i, sps, "\"" + rest);
      QuotePosPasses(s, i, sps[0]);
      QuotePosAfter(s, i + |Written(sps[0])|, sps[1..], rest);
    }
  }

  /** A string spelled in any proper way, between quotes and with anything behind that does not end in
  white space, is read as the characters it spells, trimmed, and the rest is left. */
  lemma ReadsSpelledString(lib: Lib, sps: seq<Spelling>, rest: string, st: Stack)
    requires AllProper(sps) && (rest == "" || !IsSpace(rest[|rest| - 1]))
    ensures DeserializeValue(lib, "\"" + WrittenAll(sps) + "\"" + rest, st)
            == Done(ValueRead(Str(Trim(MeantAll(lib, sps))), false, rest, st))
  {
    hide QuotePos, Unescape, ScanEnd, ScanPrimitive, PrimitiveValue, DeserializeArray, DeserializeInternal,
         WrittenAll, MeantAll;
    var w := WrittenAll(sps);
    var s := "\"" + w + "\"" + rest;
    assert Trimmed(s);
    assert s[1..] == w + ("\"" + rest);
    QuotePosAfter(s, 1, sps, rest);
    assert s[1..|w| + 1] == w && s[|w| + 2..] == rest;
    UnescapeUndoes(lib, sps);
  }

  // ---------- keys ----------

  /** The key stands between the first quote and the next, and the colon is the first one after them. */
  ghost predicate KeyStands(s: string, open: nat, close: nat, colon: nat, key: string)
  {
    && open < close <= colon < |s|
    && IsFirstQuote(s, 0, Some(open)) && IsFirstQuote(s, open + 1, Some(close))
    && s[colon] == ':' && (forall m :: close <= m < colon ==> s[m] != ':')
    && key == s[open + 1..close] && key != ""
  }

  lemma {:induction false} FindIsFirst(s: string, c: char, i: nat)
    ensures var k := Find(s, c, i);
            forall m :: i <= m < (if k.Some? then k.value else |s|) ==> s[m] != c
    decreases |s| - i
  {
    if i < |s| && s[i] != c {
      FindIsFirst(s, c, i + 1);
    }
  }

  /** Reading a key finds exactly that, and fails exactly when there is no such key. */
  lemma ReadKeyFindsKey(s: string)
    ensures ReadKey(s).KeyAt? ==>
              exists open: nat, close: nat :: KeyStands(s, open, close, ReadKey(s).colon, ReadKey(s).key)
    ensures ReadKey(s).NoKey? ==>
              forall open: nat, close: nat, colon: nat, key :: !KeyStands(s, open, close, colon, key)
  {
    hide QuotePos, Find, IsFirstQuote;
    if ReadKey(s).KeyAt? {
      var open := QuotePos(s, 0, false).value;
      var close := QuotePos(s, open + 1, false).value;
      QuotePosIsFirst(s, 0);
      QuotePosIsFirst(s, open + 1);
      FindIsFirst(s, ':', close);
      assert KeyStands(s, open, close, ReadKey(s).colon, ReadKey(s).key);
    } else {
      forall open: nat, close: nat, colon: nat, key ensures !KeyStands(s, open, close, colon, key) {
        if KeyStands(s, open, close, colon, key) {
          FirstQuoteIsUnique(s, 0, open);
          FirstQuoteIsUnique(s, open + 1, close);
          FindIsFirst(s, ':', close);
        }
      }
    }
  }
}
