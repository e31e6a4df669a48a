/**
 * `escape_markdown`: first every character of a fixed set of 17 MarkdownV2
 * metacharacters is backslash-escaped, one `str.replace` per character; then
 * `re.sub(r'\d*\.\d*\.\d*|\S*\.\S*', escape_dots, text)` escapes the dots of
 * every match except a match that starts with a `D.M.YYYY` date shape.
 *
 * The regular expression is modelled as Python's engine runs it: the text is
 * scanned left to right; at each position the first alternative is tried
 * (greedy runs of digits around two dots, which can never need backtracking
 * because digits and dots are disjoint), then the second (the whole run of
 * non-whitespace characters from that position, if it contains a dot); a
 * match is replaced and the scan resumes after it, otherwise one character
 * is copied.
 */
module Markdown {
  import opened Wrappers
  import opened Text

  /** The characters escaped in the first pass, in the order they are replaced; the backslash is not among them. */
  const Special: String := "_*[]()~`>#+-=|{}!"

  /** The characters of a string, as a set. */
  function Chars(cs: String): set<char> {
    if cs == [] then {} else Chars(cs[..|cs| - 1]) + {cs[|cs| - 1]}
  }

  /** Backslash-escape every character of `s` that belongs to `cs`. */
  function EscapeAll(s: String, cs: set<char>): String {
    if s == [] then [] else (if s[0] in cs then ['\\', s[0]] else [s[0]]) + EscapeAll(s[1..], cs)
  }

  /** `s.replace(c, "\\" + c)`. */
  function EscapeChar(s: String, c: char): String {
    EscapeAll(s, {c})
  }

  /** The text after the replacements for `cs[0]`, `cs[1]`, ... have run in that order. */
  function EscapeInTurn(s: String, cs: String): String {
    if cs == [] then s else EscapeChar(EscapeInTurn(s, cs[..|cs| - 1]), cs[|cs| - 1])
  }

  /** Remove the backslash in front of every character of `cs` that has one, scanning left to right. */
  function Unescape(s: String, cs: set<char>): String {
    if |s| >= 2 && s[0] == '\\' && s[1] in cs then [s[1]] + Unescape(s[2..], cs)
    else if s == [] then []
    else [s[0]] + Unescape(s[1..], cs)
  }

  // ---------------------------------------------------------------- the dot pass

  /** The characters of `s[i..j]` are all digits. */
  predicate DigitsIn(s: String, i: nat, j: nat)
    requires i <= j <= |s|
  {
    forall k :: i <= k < j ==> IsDigit(s[k])
  }

  /** Where the run of digits that starts at `i` ends. */
  function DigitEnd(s: String, i: nat): (e: nat)
    requires i <= |s|
    ensures i <= e <= |s|
    decreases |s| - i
  {
    if i < |s| && IsDigit(s[i]) then DigitEnd(s, i + 1) else i
  }

  /** Where the run of non-whitespace characters that starts at `i` ends. */
  function NonSpaceEnd(s: String, i: nat): (e: nat)
    requires i <= |s|
    ensures i <= e <= |s|
    decreases |s| - i
  {
    if i < |s| && !IsSpace(s[i]) then NonSpaceEnd(s, i + 1) else i
  }

  /** The length of the match of `\d*\.\d*\.\d*` at the start of `s`, if there is one. */
  function DateLikeMatch(s: String): (r: Option<nat>)
    ensures r.Some? ==> 2 <= r.value <= |s|
  {
    var e1 := DigitEnd(s, 0);
    if e1 < |s| && s[e1] == '.' then
      var e2 := DigitEnd(s, e1 + 1);
      if e2 < |s| && s[e2] == '.' then Some(DigitEnd(s, e2 + 1)) else None
    else None
  }

  /**
   * The length of the match of the whole pattern at the start of `s`: the
   * first alternative if it matches, else the run of non-whitespace if it
   * holds a dot; 0 when neither matches.
   */
  function MatchLength(s: String): (n: nat)
    ensures n <= |s|
  {
    match DateLikeMatch(s)
    case Some(n) => n
    case None => var n := NonSpaceEnd(s, 0); if '.' in s[..n] then n else 0
  }

  /** `\d{a}\.\d{b}\.\d{4}` matches at the start of `m`. */
  predicate DateAt(m: String, a: nat, b: nat) {
    |m| >= a + b + 6 && DigitsIn(m, 0, a) && m[a] == '.' && DigitsIn(m, a + 1, a + 1 + b)
    && m[a + 1 + b] == '.' && DigitsIn(m, a + b + 2, a + b + 6)
  }

  /** `re.match(r'\d{1,2}\.\d{1,2}\.\d{4}(?:\s\d{1,2}:\d{2})?', m)`: the optional tail never changes the verdict. */
  predicate StartsWithDate(m: String) {
    DateAt(m, 1, 1) || DateAt(m, 1, 2) || DateAt(m, 2, 1) || DateAt(m, 2, 2)
  }

  /** `escape_dots`: a match that starts with a date is kept, any other has its dots escaped. */
  function EscapeDots(m: String): String {
    if StartsWithDate(m) then m else EscapeChar(m, '.')
  }

  /** `re.sub(r'\d*\.\d*\.\d*|\S*\.\S*', escape_dots, s)`. */
  function DotPass(s: String): String
    decreases |s|
  {
    if s == [] then []
    else
      var n := MatchLength(s);
      if n > 0 then EscapeDots(s[..n]) + DotPass(s[n..]) else [s[0]] + DotPass(s[1..])
  }

  /** What `escape_markdown` returns for `text`. */
  function Escaped(text: String): String {
    DotPass(EscapeAll(text, Chars(Special)))
  }

  /**
   * `escape_markdown(text)`: the replacement loop over the 17 characters,
   * then the dot pass; the empty text comes back as it is.
   */
  method EscapeMarkdown(text: String) returns (r: String)
    ensures r == Escaped(text)
    ensures text == [] ==> r == []
  {
    if text == [] {
      return text;
    }
    var t := text;
    for i := 0 to |Special|
      invariant t == EscapeInTurn(text, Special[..i])
    {
      assert Special[..i + 1][..i] == Special[..i];
      t := EscapeChar(t, Special[i]);
    }
    assert Special[..|Special|] == Special;
    EscapeInTurnIsEscapeAll(text, Special);
    r := DotPass(t);
  }

  // ---------------------------------------------------------------- the first pass

  /** Escaping a text with a known first character. */
  lemma EscapeAllCons(x: char, r: String, cs: set<char>)
    ensures EscapeAll([x] + r, cs) == (if x in cs then ['\\', x] else [x]) + EscapeAll(r, cs)
  {
    assert ([x] + r)[1..] == r;
  }

  lemma {:induction false} EscapeAllAppend(s: String, t: String, cs: set<char>)
    ensures EscapeAll(s + t, cs) == EscapeAll(s, cs) + EscapeAll(t, cs)
  {
    if s == [] {
      assert s + t == t;
    } else {
      EscapeAllAppend(s[1..], t, cs);
      EscapeAllAppendCons(s[0], s[1..], t, cs);
      assert s == [s[0]] + s[1..];
    }
  }

  lemma EscapeAllAppendCons(x: char, r: String, t: String, cs: set<char>)
    requires EscapeAll(r + t, cs) == EscapeAll(r, cs) + EscapeAll(t, cs)
    ensures EscapeAll([x] + r + t, cs) == EscapeAll([x] + r, cs) + EscapeAll(t, cs)
  {
    assert [x] + r + t == [x] + (r + t);
    EscapeAllCons(x, r, cs);
    EscapeAllCons(x, r + t, cs);
  }

  /** Escaping `c` after the characters of `cs` extends the escaped set by `c`. */
  lemma {:induction false} EscapeCharAfter(s: String, cs: set<char>, c: char)
    requires c !in cs && c != '\\'
    ensures EscapeChar(EscapeAll(s, cs), c) == EscapeAll(s, cs + {c})
  {
    if s != [] {
      EscapeCharAfter(s[1..], cs, c);
      var head := if s[0] in cs then ['\\', s[0]] else [s[0]];
      assert EscapeAll(s, cs) == head + EscapeAll(s[1..], cs);
      EscapeAllAppend(head, EscapeAll(s[1..], cs), {c});
      if s[0] in cs {
        assert EscapeAll(head, {c}) == ['\\'] + EscapeAll([s[0]], {c});
      }
    }
  }

  lemma {:induction false} CharsMembers(cs: String)
    ensures forall x :: x in Chars(cs) <==> x in cs
  {
    if cs != [] {
      CharsMembers(cs[..|cs| - 1]);
      assert cs == cs[..|cs| - 1] + [cs[|cs| - 1]];
    }
  }

  /**
   * Running the replacements one after another escapes each metacharacter
   * exactly once: no replacement touches the backslashes an earlier one
   * inserted, because the backslash is not in the set.
   */
  lemma {:induction false} EscapeInTurnIsEscapeAll(s: String, cs: String)
    requires '\\' !in cs
    requires forall i, j :: 0 <= i < j < |cs| ==> cs[i] != cs[j]
    ensures EscapeInTurn(s, cs) == EscapeAll(s, Chars(cs))
  {
    if cs != [] {
      var init := cs[..|cs| - 1];
      var c := cs[|cs| - 1];
      CharsMembers(init);
      assert c !in init by {
        forall i | 0 <= i < |init| ensures init[i] != c { assert init[i] == cs[i]; }
      }
      assert '\\' !in init by {
        forall i | 0 <= i < |init| ensures init[i] != '\\' { assert init[i] == cs[i]; }
      }
      EscapeInTurnIsEscapeAll(s, init);
      EscapeCharAfter(s, Chars(init), c);
    } else {
      EscapeAllNone(s, {});
    }
  }

  /** Escaping loses nothing: removing the inserted backslashes gives the text back. */
  lemma {:induction false} UnescapeEscapeAll(s: String, cs: set<char>)
    requires '\\' !in cs
    ensures Unescape(EscapeAll(s, cs), cs) == s
  {
    if s != [] {
      UnescapeEscapeAll(s[1..], cs);
      var r := EscapeAll(s, cs);
      var rest := EscapeAll(s[1..], cs);
      EscapeAllHead(s[1..], cs);
      if s[0] in cs {
        assert r == ['\\', s[0]] + rest;
        assert r[2..] == rest;
      } else {
        assert r == [s[0]] + rest;
        assert r[1..] == rest;
      }
      assert s == [s[0]] + s[1..];
    }
  }

  /** The escaped text starts with a backslash or with a character that needed no escaping. */
  lemma EscapeAllHead(s: String, cs: set<char>)
    requires '\\' !in cs
    ensures EscapeAll(s, cs) == [] || EscapeAll(s, cs)[0] !in cs
  {
  }

  // ---------------------------------------------------------------- the dot pass: properties

  lemma {:induction false} DigitEndFacts(s: String, i: nat)
    requires i <= |s|
    ensures DigitsIn(s, i, DigitEnd(s, i))
    ensures DigitEnd(s, i) < |s| ==> !IsDigit(s[DigitEnd(s, i)])
    decreases |s| - i
  {
    if i < |s| && IsDigit(s[i]) {
      DigitEndFacts(s, i + 1);
    }
  }

  lemma {:induction false} DigitEndExact(s: String, i: nat, e: nat)
    requires i <= e <= |s| && DigitsIn(s, i, e) && (e < |s| ==> !IsDigit(s[e]))
    ensures DigitEnd(s, i) == e
    decreases e - i
  {
    if i < e {
      DigitEndExact(s, i + 1, e);
    }
  }

  /** A dot always starts a match. */
  lemma MatchAtDot(s: String)
    requires s != [] && s[0] == '.'
    ensures MatchLength(s) > 0
  {
    if DateLikeMatch(s).None? {
      assert NonSpaceEnd(s, 0) > 0;
      assert s[..NonSpaceEnd(s, 0)][0] == '.';
    }
  }

  /** The dot pass never produces text that starts with a dot. */
  lemma DotPassHead(s: String)
    ensures DotPass(s) == [] || DotPass(s)[0] != '.'
  {
    if s != [] {
      var n := MatchLength(s);
      if n > 0 {
        var m := s[..n];
        DotPassMatchHead(m);
        assert DotPass(s) == EscapeDots(m) + DotPass(s[n..]);
      } else {
        assert s[0] != '.' by {
          if s[0] == '.' { MatchAtDot(s); }
        }
        assert DotPass(s) == [s[0]] + DotPass(s[1..]);
      }
    }
  }

  /** The replacement for a match never starts with a dot. */
  lemma DotPassMatchHead(m: String)
    requires m != []
    ensures EscapeDots(m) != [] && EscapeDots(m)[0] != '.'
  {
    if !StartsWithDate(m) {
      EscapeAllCons(m[0], m[1..], {'.'});
      assert m == [m[0]] + m[1..];
    }
  }

  /** An escape pair at the front is replaced by the escaped character. */
  lemma UnescapePair(x: char, y: char, r: String, cs: set<char>)
    requires x == '\\' && y in cs
    ensures Unescape([x, y] + r, cs) == [y] + Unescape(r, cs)
  {
    assert ([x, y] + r)[2..] == r;
  }

  /** Any other character at the front is copied. */
  lemma UnescapeSingle(x: char, r: String, cs: set<char>)
    requires !(x == '\\' && r != [] && r[0] in cs)
    ensures Unescape([x] + r, cs) == [x] + Unescape(r, cs)
  {
    assert ([x] + r)[1..] == r;
  }

  /** Unescaping splits at a boundary where the right part does not start with a character of `cs`. */
  lemma {:induction false} UnescapeAppend(a: String, b: String, cs: set<char>)
    requires b == [] || b[0] !in cs
    ensures Unescape(a + b, cs) == Unescape(a, cs) + Unescape(b, cs)
  {
    if a == [] {
      assert a + b == b;
    } else if |a| >= 2 && a[0] == '\\' && a[1] in cs {
      UnescapeAppend(a[2..], b, cs);
      UnescapeAppendPair(a[0], a[1], a[2..], b, cs);
      assert a == [a[0], a[1]] + a[2..];
    } else {
      UnescapeAppend(a[1..], b, cs);
      UnescapeAppendSingle(a[0], a[1..], b, cs);
      assert a == [a[0]] + a[1..];
    }
  }

  lemma UnescapeAppendPair(x: char, y: char, r: String, b: String, cs: set<char>)
    requires x == '\\' && y in cs
    requires Unescape(r + b, cs) == Unescape(r, cs) + Unescape(b, cs)
    ensures Unescape([x, y] + r + b, cs) == Unescape([x, y] + r, cs) + Unescape(b, cs)
  {
    assert [x, y] + r + b == [x, y] + (r + b);
    UnescapePair(x, y, r, cs);
    UnescapePair(x, y, r + b, cs);
  }

  lemma UnescapeAppendSingle(x: char, r: String, b: String, cs: set<char>)
    requires !(x == '\\' && r != [] && r[0] in cs)
    requires b == [] || b[0] !in cs
    requires Unescape(r + b, cs) == Unescape(r, cs) + Unescape(b, cs)
    ensures Unescape([x] + r + b, cs) == Unescape([x] + r, cs) + Unescape(b, cs)
  {
    assert [x] + r + b == [x] + (r + b);
    if r != [] {
      assert (r + b)[0] == r[0];
    }
    UnescapeSingle(x, r, cs);
    UnescapeSingle(x, r + b, cs);
  }

  lemma {:induction false} UnescapeNoBackslash(s: String, cs: set<char>)
    requires '\\' !in s
    ensures Unescape(s, cs) == s
  {
    if s != [] {
      assert '\\' !in s[1..];
      UnescapeNoBackslash(s[1..], cs);
      assert s == [s[0]] + s[1..];
    }
  }

  /** A match of the first alternative holds only digits and dots. */
  lemma DateLikeMatchChars(s: String)
    requires DateLikeMatch(s).Some?
    ensures forall i :: 0 <= i < DateLikeMatch(s).value ==> IsDigit(s[i]) || s[i] == '.'
  {
    var e1 := DigitEnd(s, 0);
    var e2 := DigitEnd(s, e1 + 1);
    DigitEndFacts(s, 0);
    DigitEndFacts(s, e1 + 1);
    DigitEndFacts(s, e2 + 1);
  }

  /** Removing the backslashes before dots undoes the replacement made for one match. */
  lemma UnescapeMatch(s: String)
    requires MatchLength(s) > 0
    ensures Unescape(EscapeDots(s[..MatchLength(s)]), {'.'}) == s[..MatchLength(s)]
  {
    var m := s[..MatchLength(s)];
    if StartsWithDate(m) {
      if DateLikeMatch(s).None? {
        SecondAlternativeNeverDate(s);
      }
      DateLikeMatchChars(s);
      assert '\\' !in m by {
        forall i | 0 <= i < |m| ensures m[i] != '\\' { assert m[i] == s[i]; }
      }
      UnescapeNoBackslash(m, {'.'});
    } else {
      UnescapeEscapeAll(m, {'.'});
    }
  }

  /** Escaping dots loses nothing: removing the backslash before every escaped dot gives the text back. */
  lemma {:induction false} UnescapeDotPass(s: String)
    ensures Unescape(DotPass(s), {'.'}) == s
    decreases |s|
  {
    if s != [] {
      var n := MatchLength(s);
      if n > 0 {
        UnescapeDotPass(s[n..]);
        DotPassHead(s[n..]);
        UnescapeAppend(EscapeDots(s[..n]), DotPass(s[n..]), {'.'});
        UnescapeMatch(s);
        assert s == s[..n] + s[n..];
      } else {
        UnescapeDotPass(s[1..]);
        DotPassHead(s[1..]);
        UnescapeAppend([s[0]], DotPass(s[1..]), {'.'});
        assert s[0] != '.' by {
          if s[0] == '.' { MatchAtDot(s); }
        }
        assert s == [s[0]] + s[1..];
      }
    }
  }

  /**
   * A match of the second alternative never starts with a date: where a date
   * starts, the first alternative already matches.
   */
  lemma SecondAlternativeNeverDate(s: String)
    requires DateLikeMatch(s).None?
    ensures !StartsWithDate(s[..NonSpaceEnd(s, 0)])
  {
    var m := s[..NonSpaceEnd(s, 0)];
    forall a: nat, b: nat | 1 <= a <= 2 && 1 <= b <= 2 && DateAt(m, a, b) ensures false {
      DateAtPrefix(s, |m|, a, b);
      DateLikeMatchAtDate(s, a, b);
    }
  }

  /** A date shape at the start of a prefix is one at the start of the whole text. */
  lemma DateAtPrefix(s: String, n: nat, a: nat, b: nat)
    requires n <= |s| && DateAt(s[..n], a, b)
    ensures DateAt(s, a, b)
  {
    var m := s[..n];
    assert forall k :: 0 <= k < |m| ==> m[k] == s[k];
  }

  /** Where a date shape starts, the first alternative matches. */
  lemma DateLikeMatchAtDate(s: String, a: nat, b: nat)
    requires DateAt(s, a, b)
    ensures DateLikeMatch(s).Some?
  {
    DigitEndExact(s, 0, a);
    DigitEndExact(s, a + 1, a + 1 + b);
  }

  /** A text without a dot goes through the dot pass unchanged. */
  lemma {:induction false} DotPassNoDot(s: String)
    requires '.' !in s
    ensures DotPass(s) == s
    decreases |s|
  {
    if s != [] {
      var e := DigitEnd(s, 0);
      assert DateLikeMatch(s).None? by {
        if e < |s| { assert s[e] in s; }
      }
      var n := NonSpaceEnd(s, 0);
      assert '.' !in s[..n];
      assert '.' !in s[1..];
      DotPassNoDot(s[1..]);
      assert s == [s[0]] + s[1..];
    }
  }

  /**
   * Where a date shape starts and its year's digit run ends at `e`, the
   * whole pattern matches exactly `s[..e]`, and the match is kept.
   */
  lemma MatchOfDate(s: String, a: nat, b: nat, e: nat)
    requires 1 <= a <= 2 && 1 <= b <= 2 && a + b + 6 <= e <= |s|
    requires DateAt(s, a, b) && DigitsIn(s, a + b + 2, e) && (e < |s| ==> !IsDigit(s[e]))
    ensures MatchLength(s) == e && EscapeDots(s[..e]) == s[..e]
  {
    DigitEndExact(s, 0, a);
    DigitEndExact(s, a + 1, a + 1 + b);
    DigitEndExact(s, a + b + 2, e);
    var m := s[..e];
    assert forall k :: 0 <= k < |m| ==> m[k] == s[k];
    assert DateAt(m, a, b);
  }

  /**
   * At a position where a `D.M.YYYY` date starts (one or two digits for the
   * day and the month, at least four for the year, and no further digit
   * after them), the dot pass keeps the date as it is and goes on after it.
   */
  lemma DateKept(s: String, a: nat, b: nat, e: nat)
    requires 1 <= a <= 2 && 1 <= b <= 2 && a + b + 6 <= e <= |s|
    requires DateAt(s, a, b) && DigitsIn(s, a + b + 2, e) && (e < |s| ==> !IsDigit(s[e]))
    ensures DotPass(s) == s[..e] + DotPass(s[e..])
  {
    MatchOfDate(s, a, b, e);
  }

  /** Where no digit occurs, every dot is escaped: the dot pass is then a plain replacement. */
  lemma {:induction false} DotPassWithoutDigits(s: String)
    requires forall i :: 0 <= i < |s| ==> !IsDigit(s[i])
    ensures DotPass(s) == EscapeChar(s, '.')
    decreases |s|
  {
    if s != [] {
      var n := MatchLength(s);
      if n > 0 {
        DotPassWithoutDigits(s[n..]);
        MatchWithoutDigits(s);
      } else {
        DotPassWithoutDigits(s[1..]);
        CopyWithoutDigits(s);
      }
    }
  }

  /** One step of `DotPassWithoutDigits`: a match without digits has its dots escaped. */
  lemma MatchWithoutDigits(s: String)
    requires s != [] && !IsDigit(s[0]) && MatchLength(s) > 0
    requires DotPass(s[MatchLength(s)..]) == EscapeChar(s[MatchLength(s)..], '.')
    ensures DotPass(s) == EscapeChar(s, '.')
  {
    var n := MatchLength(s);
    var m := s[..n];
    var r := s[n..];
    assert DotPass(s) == EscapeChar(m, '.') + EscapeChar(r, '.') by {
      assert m[0] == s[0];
      assert !StartsWithDate(m);
    }
    assert EscapeChar(s, '.') == EscapeChar(m, '.') + EscapeChar(r, '.') by {
      EscapeAllAppend(m, r, {'.'});
      assert s == m + r;
    }
  }

  /** One step of `DotPassWithoutDigits`: a character where no match starts is not a dot. */
  lemma CopyWithoutDigits(s: String)
    requires s != [] && MatchLength(s) == 0
    requires DotPass(s[1..]) == EscapeChar(s[1..], '.')
    ensures DotPass(s) == EscapeChar(s, '.')
  {
    assert s[0] != '.' by {
      if s[0] == '.' { MatchAtDot(s); }
    }
    EscapeAllCons(s[0], s[1..], {'.'});
    assert s == [s[0]] + s[1..];
  }

  // ---------------------------------------------------------------- the whole function

  /** `escape_markdown` is injective: dropping the backslashes before dots, then before metacharacters, recovers the text. */
  lemma UnescapeEscaped(text: String)
    ensures Unescape(Unescape(Escaped(text), {'.'}), Chars(Special)) == text
  {
    CharsMembers(Special);
    UnescapeDotPass(EscapeAll(text, Chars(Special)));
    UnescapeEscapeAll(text, Chars(Special));
  }

  /** In a text without digits, every metacharacter and every dot ends up behind a backslash. */
  lemma EscapedWithoutDigits(text: String)
    requires forall i :: 0 <= i < |text| ==> !IsDigit(text[i])
    ensures Escaped(text) == EscapeChar(EscapeAll(text, Chars(Special)), '.')
  {
    NoDigitsAfterEscape(text, Chars(Special));
    DotPassWithoutDigits(EscapeAll(text, Chars(Special)));
  }

  lemma {:induction false} NoDigitsAfterEscape(s: String, cs: set<char>)
    requires forall i :: 0 <= i < |s| ==> !IsDigit(s[i])
    ensures forall i :: 0 <= i < |EscapeAll(s, cs)| ==> !IsDigit(EscapeAll(s, cs)[i])
  {
    if s != [] {
      NoDigitsAfterEscape(s[1..], cs);
      var head := if s[0] in cs then ['\\', s[0]] else [s[0]];
      assert EscapeAll(s, cs) == head + EscapeAll(s[1..], cs);
    }
  }

  lemma {:induction false} EscapeAllNone(s: String, cs: set<char>)
    requires forall i :: 0 <= i < |s| ==> s[i] !in cs
    ensures EscapeAll(s, cs) == s
  {
    if s != [] {
      EscapeAllNone(s[1..], cs);
      assert s == [s[0]] + s[1..];
    }
  }

  /** A date with a time, as the wizard stores it, goes through `escape_markdown` unchanged. */
  lemma DateTimeUnescaped(day: String, month: String, year: String, clock: String)
    requires |day| == 2 && |month| == 2 && |year| == 4 && AllDigits(day) && AllDigits(month) && AllDigits(year)
    requires forall i :: 0 <= i < |clock| ==> IsDigit(clock[i]) || clock[i] == ':'
    ensures Escaped(day + "." + month + "." + year + " " + clock) == day + "." + month + "." + year + " " + clock
  {
    var text := day + "." + month + "." + year + " " + clock;
    DateTimeShape(day, month, year, clock);
    assert EscapeAll(text, Chars(Special)) == text by {
      CharsMembers(Special);
      EscapeAllNone(text, Chars(Special));
    }
    var tail := text[10..];
    assert DotPass(tail) == tail by {
      assert '.' !in tail by {
        forall i | 0 <= i < |tail| ensures tail[i] != '.' {
          assert tail[i] == text[10 + i];
        }
      }
      DotPassNoDot(tail);
    }
    DateKept(text, 2, 2, 10);
    assert text[..10] + tail == text;
  }

  /** Where the digits, the dots, the space and the colons of a stored date and time sit. */
  lemma DateTimeShape(day: String, month: String, year: String, clock: String)
    requires |day| == 2 && |month| == 2 && |year| == 4 && AllDigits(day) && AllDigits(month) && AllDigits(year)
    requires forall i :: 0 <= i < |clock| ==> IsDigit(clock[i]) || clock[i] == ':'
    ensures var text := day + "." + month + "." + year + " " + clock;
      && |text| == 11 + |clock|
      && DateAt(text, 2, 2) && DigitsIn(text, 6, 10) && text[10] == ' '
      && (forall i :: 0 <= i < |text| ==> IsDigit(text[i]) || text[i] == '.' || text[i] == ' ' || text[i] == ':')
      && (forall i :: 11 <= i < |text| ==> text[i] != '.')
  {
    var text := day + "." + month + "." + year + " " + clock;
    assert forall i :: 0 <= i < 2 ==> text[i] == day[i];
    assert forall i :: 3 <= i < 5 ==> text[i] == month[i - 3];
    assert forall i :: 6 <= i < 10 ==> text[i] == year[i - 6];
    assert forall i :: 11 <= i < |text| ==> text[i] == clock[i - 11];
  }
}
