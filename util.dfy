/**
 The three string utilities of `src/util.ts`:

 - `Titlecase`: split on every single whitespace character, capitalise each
   token, join with single spaces;
 - `NumberWithCommas`: the decimal text of an integer with a comma inserted
   wherever the thousands-separator regular expression matches;
 - `DeleteWithinParens`: remove every parenthesised span, together with the
   runs of spaces around it.

 Each is stated as a function that follows the JavaScript semantics step by
 step, next to a reference description of its result and the lemmas that
 connect the two.
 */
module Util {
  import opened Js
  import opened Seqs

  // ===========================================================================
  // titlecase

  predicate NoWhiteSpace(t: string) {
    forall i :: 0 <= i < |t| ==> !IsWhiteSpace(t[i])
  }

  /** Length of the token at the start of `s`, up to the first whitespace character. */
  function TokenLen(s: string): (n: nat)
    ensures n <= |s| && NoWhiteSpace(s[..n])
    ensures n == |s| || IsWhiteSpace(s[n])
  {
    if s == [] || IsWhiteSpace(s[0]) then 0 else 1 + TokenLen(s[1..])
  }

  /**
   Splitting on the whitespace class: every single whitespace character separates two tokens,
   so consecutive separators (or one at either end) produce empty tokens, and
   the empty string gives one empty token.
   */
  function Split(s: string): (r: seq<string>)
    ensures |r| >= 1
    ensures forall k :: 0 <= k < |r| ==> NoWhiteSpace(r[k])
    decreases |s|
  {
    var n := TokenLen(s);
    if n == |s| then [s] else [s[..n]] + Split(s[n + 1..])
  }

  /** `parts.join(" ")`. */
  function Join(parts: seq<string>): string {
    if |parts| == 0 then []
    else if |parts| == 1 then parts[0]
    else parts[0] + " " + Join(parts[1..])
  }

  /**
   The callback of the `map`: the first character upper-cased and the rest
   lower-cased. For an empty token `at(0)` is `undefined`, the optional call
   yields `undefined`, and `undefined + ""` is the text "undefined".
   */
  function TitleToken(t: string): string {
    if t == [] then "undefined" else [ToUpper(t[0])] + Lower(t[1..])
  }

  function TitleTokens(ts: seq<string>): (r: seq<string>)
    ensures |r| == |ts|
    ensures forall k :: 0 <= k < |ts| ==> r[k] == TitleToken(ts[k])
  {
    if ts == [] then [] else [TitleToken(ts[0])] + TitleTokens(ts[1..])
  }

  function Titlecase(s: string): string {
    Join(TitleTokens(Split(s)))
  }

  /** `s` with every whitespace character replaced by a single space. */
  function SpacesForWhiteSpace(s: string): string {
    seq(|s|, i requires 0 <= i < |s| => if IsWhiteSpace(s[i]) then ' ' else s[i])
  }

  function WhiteSpaceCount(s: string): nat {
    Count(s, IsWhiteSpace)
  }

  predicate IsSpace(c: char) {
    c == ' '
  }

  function SpaceCount(s: string): nat {
    Count(s, IsSpace)
  }

  /** Total length of the parts. */
  function TotalLength(parts: seq<string>): nat {
    if parts == [] then 0 else |parts[0]| + TotalLength(parts[1..])
  }

  function EmptyCount(parts: seq<string>): nat {
    if parts == [] then 0 else (if parts[0] == [] then 1 else 0) + EmptyCount(parts[1..])
  }

  lemma TokenLenOfJoin(t: string, rest: string)
    requires NoWhiteSpace(t)
    ensures TokenLen(t + " " + rest) == |t|
    ensures TokenLen(t) == |t|
  {
    if t != [] {
      assert (t + " " + rest)[1..] == t[1..] + " " + rest;
      TokenLenOfJoin(t[1..], rest);
    }
  }

  /** Splitting a join of whitespace-free parts gives the parts back. */
  lemma {:induction false} SplitOfJoin(parts: seq<string>)
    requires |parts| >= 1
    requires forall k :: 0 <= k < |parts| ==> NoWhiteSpace(parts[k])
    ensures Split(Join(parts)) == parts
  {
    TokenLenOfJoin(parts[0], Join(parts[1..]));
    if |parts| > 1 {
      var s := Join(parts);
      var n := |parts[0]|;
      assert s[..n] == parts[0];
      assert s[n + 1..] == Join(parts[1..]);
      SplitOfJoin(parts[1..]);
    }
  }

  /** Joining the tokens of `s` gives `s` back with every whitespace character turned into a space. */
  lemma {:induction false} JoinOfSplit(s: string)
    ensures Join(Split(s)) == SpacesForWhiteSpace(s)
    decreases |s|
  {
    var n := TokenLen(s);
    if n == |s| {
      assert NoWhiteSpace(s[..n]) && s[..n] == s;
    } else {
      var t, rest := s[..n], s[n + 1..];
      JoinOfSplit(rest);
      assert Split(s) == [t] + Split(rest);
      JoinCons(t, Split(rest));
      SpacesAtSeparator(s, n);
    }
  }

  /** Replacing whitespace keeps a whitespace-free prefix and turns the separator after it into a space. */
  lemma SpacesAtSeparator(s: string, n: nat)
    requires n < |s| && NoWhiteSpace(s[..n]) && IsWhiteSpace(s[n])
    ensures SpacesForWhiteSpace(s) == s[..n] + (" " + SpacesForWhiteSpace(s[n + 1..]))
  {
    var r := SpacesForWhiteSpace(s);
    var rest := s[n + 1..];
    var q := s[..n] + (" " + SpacesForWhiteSpace(rest));
    assert |r| == |q|;
    forall i | 0 <= i < |s| ensures r[i] == q[i] {
      if i < n {
        assert s[i] == s[..n][i];
      } else if i > n {
        assert s[i] == rest[i - n - 1];
      }
    }
  }

  /** Join is injective on whitespace-free parts. */
  lemma JoinInjective(a: seq<string>, b: seq<string>)
    requires |a| >= 1 && |b| >= 1
    requires forall k :: 0 <= k < |a| ==> NoWhiteSpace(a[k])
    requires forall k :: 0 <= k < |b| ==> NoWhiteSpace(b[k])
    requires Join(a) == Join(b)
    ensures a == b
  {
    SplitOfJoin(a);
    SplitOfJoin(b);
  }

  /** Every whitespace character of a join of whitespace-free parts is a space. */
  lemma {:induction false} JoinWhiteSpaceIsSpace(parts: seq<string>)
    requires forall k :: 0 <= k < |parts| ==> NoWhiteSpace(parts[k])
    ensures forall i :: 0 <= i < |Join(parts)| && IsWhiteSpace(Join(parts)[i]) ==> Join(parts)[i] == ' '
    ensures |parts| >= 1 ==> |Join(parts)| == TotalLength(parts) + |parts| - 1
  {
    if |parts| > 1 {
      JoinWhiteSpaceIsSpace(parts[1..]);
      var s := Join(parts);
      var n := |parts[0]|;
      forall i | 0 <= i < |s| && IsWhiteSpace(s[i]) ensures s[i] == ' ' {
        if i > n {
          assert s[i] == Join(parts[1..])[i - n - 1];
        }
      }
    }
  }

  lemma {:induction false} SplitCountsWhiteSpace(s: string)
    ensures |Split(s)| == WhiteSpaceCount(s) + 1
    decreases |s|
  {
    var n := TokenLen(s);
    FilterKeepsNone(s[..n]);
    if n == |s| {
      assert s[..n] == s;
    } else {
      SplitCountsWhiteSpace(s[n + 1..]);
      assert s == s[..n] + [s[n]] + s[n + 1..];
      FilterConcat(s[..n] + [s[n]], s[n + 1..], IsWhiteSpace);
      FilterConcat(s[..n], [s[n]], IsWhiteSpace);
    }
  }

  lemma FilterKeepsNone(t: string)
    requires NoWhiteSpace(t)
    ensures Filter(t, IsWhiteSpace) == []
  {
    if |Filter(t, IsWhiteSpace)| > 0 {
      FilterMembership(t, IsWhiteSpace, Filter(t, IsWhiteSpace)[0]);
    }
  }

  lemma TitleTokenShape(t: string)
    ensures TitleToken(t) != []
    ensures NoWhiteSpace(t) ==> NoWhiteSpace(TitleToken(t))
    ensures |TitleToken(t)| == if t == [] then 9 else |t|
    ensures t != [] ==> TitleToken(TitleToken(t)) == TitleToken(t)
  {
    if t != [] {
      CaseMapping(t[0]);
      forall i | 1 <= i < |t| ensures ToLower(ToLower(t[i])) == ToLower(t[i]) && IsWhiteSpace(ToLower(t[i])) == IsWhiteSpace(t[i]) {
        CaseMapping(t[i]);
      }
      assert TitleToken(t)[1..] == Lower(t[1..]);
    }
  }

  /**
   The titled string, split again on whitespace, has exactly the titled
   tokens of the input, one for one, and its only whitespace character is the
   space.
   */
  lemma TitlecaseTokens(s: string)
    ensures Split(Titlecase(s)) == TitleTokens(Split(s))
    ensures forall i :: 0 <= i < |Titlecase(s)| && IsWhiteSpace(Titlecase(s)[i]) ==> Titlecase(s)[i] == ' '
  {
    var ts := TitleTokens(Split(s));
    forall k | 0 <= k < |ts| ensures NoWhiteSpace(ts[k]) {
      TitleTokenShape(Split(s)[k]);
    }
    SplitOfJoin(ts);
    JoinWhiteSpaceIsSpace(ts);
  }

  /**
   Token by token: a non-empty input token comes out with its first
   character upper-cased and the rest lower-cased, an empty one as "undefined".
   */
  lemma TitlecaseTokenwise(s: string, k: nat)
    requires k < |Split(s)|
    ensures |Split(Titlecase(s))| == |Split(s)|
    ensures var t, u := Split(s)[k], Split(Titlecase(s))[k];
      if t == [] then u == "undefined"
      else |u| == |t| && u[0] == ToUpper(t[0]) && forall i :: 1 <= i < |t| ==> u[i] == ToLower(t[i])
  {
    TitlecaseTokens(s);
  }

  /** Each whitespace character of the input becomes exactly one space of the output. */
  lemma TitlecaseSpaces(s: string)
    ensures SpaceCount(Titlecase(s)) == WhiteSpaceCount(s)
  {
    var out := Titlecase(s);
    TitlecaseTokens(s);
    SplitCountsWhiteSpace(s);
    SplitCountsWhiteSpace(out);
    FilterSame(out, IsSpace, IsWhiteSpace);
  }

  lemma {:induction false} TitleTokensLength(ts: seq<string>)
    ensures TotalLength(TitleTokens(ts)) == TotalLength(ts) + 9 * EmptyCount(ts)
  {
    if ts != [] {
      TitleTokenShape(ts[0]);
      TitleTokensLength(ts[1..]);
      assert TitleTokens(ts)[1..] == TitleTokens(ts[1..]);
    }
  }

  lemma {:induction false} EmptyCountZero(ts: seq<string>)
    ensures EmptyCount(ts) == 0 <==> forall k :: 0 <= k < |ts| ==> ts[k] != []
  {
    if ts != [] {
      EmptyCountZero(ts[1..]);
      assert forall k :: 1 <= k < |ts| ==> ts[k] == ts[1..][k - 1];
    }
  }

  /**
   The output is longer than the input by the nine characters of
   "undefined" per empty token; in particular the length is kept exactly
   when no token is empty.
   */
  lemma TitlecaseLength(s: string)
    ensures |Titlecase(s)| == |s| + 9 * EmptyCount(Split(s))
  {
    var ts := Split(s);
    var tts := TitleTokens(ts);
    forall k | 0 <= k < |tts| ensures NoWhiteSpace(tts[k]) {
      TitleTokenShape(ts[k]);
    }
    JoinWhiteSpaceIsSpace(tts);
    JoinWhiteSpaceIsSpace(ts);
    JoinOfSplit(s);
    TitleTokensLength(ts);
  }

  lemma TitleTokensNoWhiteSpace(ts: seq<string>)
    requires forall k :: 0 <= k < |ts| ==> NoWhiteSpace(ts[k])
    ensures forall k :: 0 <= k < |ts| ==> NoWhiteSpace(TitleTokens(ts)[k]) && TitleTokens(ts)[k] != []
  {
    forall k | 0 <= k < |ts| ensures NoWhiteSpace(TitleTokens(ts)[k]) && TitleTokens(ts)[k] != [] {
      TitleTokenShape(ts[k]);
    }
  }

  lemma TitleTokensFixed(ts: seq<string>)
    requires forall k :: 0 <= k < |ts| ==> ts[k] != []
    ensures TitleTokens(TitleTokens(ts)) == TitleTokens(ts)
  {
    forall k | 0 <= k < |ts| ensures TitleTokens(TitleTokens(ts))[k] == TitleTokens(ts)[k] {
      TitleTokenShape(ts[k]);
    }
  }

  lemma TitlecaseFixed(s: string)
    requires EmptyCount(Split(s)) == 0
    ensures Titlecase(Titlecase(s)) == Titlecase(s)
  {
    var ts := Split(s);
    TitlecaseTokens(s);
    EmptyCountZero(ts);
    TitleTokensFixed(ts);
  }

  /** Titling a token list with an empty token a second time changes its join. */
  lemma TitledTwiceDiffers(ts: seq<string>, k: nat)
    requires k < |ts| && ts[k] == []
    requires forall i :: 0 <= i < |ts| ==> NoWhiteSpace(ts[i])
    ensures Join(TitleTokens(TitleTokens(ts))) != Join(TitleTokens(ts))
  {
    var tts := TitleTokens(ts);
    var ttts := TitleTokens(tts);
    UndefinedRetitled();
    assert ttts[k] != tts[k];
    TitleTokensNoWhiteSpace(ts);
    TitleTokensNoWhiteSpace(tts);
    if Join(ttts) == Join(tts) {
      JoinInjective(ttts, tts);
    }
  }

  lemma TitlecaseMoves(s: string)
    requires EmptyCount(Split(s)) > 0
    ensures Titlecase(Titlecase(s)) != Titlecase(s)
  {
    var ts := Split(s);
    TitlecaseTokens(s);
    EmptyCountZero(ts);
    var k :| 0 <= k < |ts| && ts[k] == [];
    TitledTwiceDiffers(ts, k);
  }

  /**
   Applying `Titlecase` a second time changes nothing exactly when no token
   of the input is empty: an empty token became "undefined", which the
   second pass turns into "Undefined".
   */
  lemma TitlecaseIdempotent(s: string)
    ensures Titlecase(Titlecase(s)) == Titlecase(s) <==> EmptyCount(Split(s)) == 0
  {
    if EmptyCount(Split(s)) == 0 {
      TitlecaseFixed(s);
    } else {
      TitlecaseMoves(s);
    }
  }

  lemma UndefinedRetitled()
    ensures TitleToken(TitleToken([])) == "Undefined"
  {
    assert Lower("ndefined") == "ndefined";
  }

  /** Every string is a fixed point after two applications. */
  lemma TitlecaseStabilises(s: string)
    ensures Titlecase(Titlecase(Titlecase(s))) == Titlecase(Titlecase(s))
  {
    var out := Titlecase(s);
    TitlecaseTokens(s);
    forall k | 0 <= k < |Split(out)| ensures Split(out)[k] != [] {
      TitleTokenShape(Split(s)[k]);
    }
    EmptyCountZero(Split(out));
    TitlecaseIdempotent(out);
  }

  lemma TitlecaseEmpty()
    ensures Titlecase("") == "undefined"
  {
  }

  lemma DoubleSpaceText()
    ensures "a  b" == "a" + (" " + ("" + (" " + "b")))
    ensures "A" + (" " + ("undefined" + (" " + "B"))) == "A undefined B"
  {
  }

  lemma TitlecaseTwoSeparators(s: string)
    requires s == "a" + (" " + ("" + (" " + "b")))
    ensures Titlecase(s) == "A" + (" " + ("undefined" + (" " + "B")))
  {
    assert NoWhiteSpace("a") && NoWhiteSpace("") && NoWhiteSpace("b");
    assert TitleToken("a") == "A" && TitleToken("b") == "B" by {
      assert "a"[1..] == [] && "b"[1..] == [] && Lower([]) == [];
    }
    TitlecaseWord("b");
    TitlecaseCons("", "b");
    var rest := Titlecase("" + (" " + "b"));
    assert rest == "undefined" + (" " + "B");
    TitlecaseCons("a", "" + (" " + "b"));
  }

  lemma TitlecaseDoubleSpace()
    ensures Titlecase("a  b") == "A undefined B"
  {
    DoubleSpaceText();
    TitlecaseTwoSeparators("a  b");
  }

  /** Titling a join of whitespace-free tokens titles each token. */
  lemma TitlecaseOfJoin(parts: seq<string>)
    requires |parts| >= 1
    requires forall k :: 0 <= k < |parts| ==> NoWhiteSpace(parts[k])
    ensures Titlecase(Join(parts)) == Join(TitleTokens(parts))
  {
    SplitOfJoin(parts);
  }

  /** A whitespace-free word is titled as one token. */
  lemma TitlecaseWord(t: string)
    requires NoWhiteSpace(t)
    ensures Titlecase(t) == TitleToken(t)
  {
    TitlecaseOfJoin([t]);
  }

  /** A leading word and the space after it are titled apart from the rest. */
  lemma SplitCons(t: string, rest: string)
    requires NoWhiteSpace(t)
    ensures Split(t + (" " + rest)) == [t] + Split(rest)
  {
    var s := t + (" " + rest);
    assert s == t + " " + rest;
    TokenLenOfJoin(t, rest);
    var n := TokenLen(s);
    assert n == |t| < |s|;
    assert s[..n] == t && s[n + 1..] == rest;
    assert Split(s) == [s[..n]] + Split(s[n + 1..]);
  }

  lemma TitlecaseCons(t: string, rest: string)
    requires NoWhiteSpace(t)
    ensures Titlecase(t + (" " + rest)) == TitleToken(t) + (" " + Titlecase(rest))
  {
    SplitCons(t, rest);
    var parts := [t] + Split(rest);
    var titled := TitleTokens(parts);
    assert titled == [TitleToken(t)] + TitleTokens(Split(rest)) by {
      assert parts[1..] == Split(rest);
    }
    JoinCons(TitleToken(t), TitleTokens(Split(rest)));
  }

  lemma JoinCons(a: string, xs: seq<string>)
    requires |xs| >= 1
    ensures Join([a] + xs) == a + (" " + Join(xs))
  {
    var p := [a] + xs;
    assert p[0] == a && p[1..] == xs;
    assert Join(p) == a + " " + Join(xs);
  }

  lemma TitleTokensNewYork()
    ensures TitleTokens(["new", "YORK", "county"]) == ["New", "York", "County"]
  {
    assert TitleToken("new") == "New" by {
      assert Lower("ew") == "ew";
    }
    assert TitleToken("YORK") == "York" by {
      assert Lower("ORK") == "ork";
    }
    assert TitleToken("county") == "County" by {
      assert Lower("ounty") == "ounty";
    }
  }

  lemma TitlecaseNewYork()
    ensures Titlecase("new YORK county") == "New York County"
  {
    var parts := ["new", "YORK", "county"];
    assert forall k :: 0 <= k < 3 ==> NoWhiteSpace(parts[k]);
    JoinNewYork();
    TitlecaseOfJoin(parts);
    TitleTokensNewYork();
    JoinNewYorkTitled();
  }

  lemma JoinNewYork()
    ensures Join(["new", "YORK", "county"]) == "new YORK county"
  {
  }

  lemma JoinNewYorkTitled()
    ensures Join(["New", "York", "County"]) == "New York County"
  {
  }

  // ===========================================================================
  // numberWithCommas

  /** The word characters of regular expressions: ASCII letters, digits and `_`. */
  predicate IsWordChar(c: char) {
    IsAsciiLetter(c) || IsDecimalDigit(c) || c == '_'
  }

  /** `\B` at position `i`: the characters on both sides are both word characters or both not. */
  predicate NotAtWordBoundary(s: string, i: nat)
    requires i <= |s|
  {
    (i > 0 && IsWordChar(s[i - 1])) == (i < |s| && IsWordChar(s[i]))
  }

  /** From position `i` come `k` groups of three digits and then no further digit. */
  predicate DigitGroupsThenEnd(s: string, i: nat, k: nat)
    requires i <= |s|
  {
    i + 3 * k <= |s| &&
    (forall j :: i <= j < i + 3 * k ==> IsDecimalDigit(s[j])) &&
    (i + 3 * k == |s| || !IsDecimalDigit(s[i + 3 * k]))
  }

  /** The lookahead `(?=(\d{3})+(?!\d))` at position `i`. */
  predicate GroupsAhead(s: string, i: nat)
    requires i <= |s|
  {
    exists k :: 1 <= k <= |s| && DigitGroupsThenEnd(s, i, k)
  }

  /** The empty match of the separator expression succeeds at position `i`. */
  predicate CommaAt(s: string, i: nat)
    requires i <= |s|
  {
    NotAtWordBoundary(s, i) && GroupsAhead(s, i)
  }

  /**
   The global replacement from position `i` on: the pattern only matches the
   empty string, so every position is tried in turn (the end included) and a
   comma goes in front of the character at each matching position.
   */
  function CommasFrom(s: string, i: nat): string
    requires i <= |s|
    decreases |s| - i
  {
    (if CommaAt(s, i) then "," else "") + (if i == |s| then "" else [s[i]] + CommasFrom(s, i + 1))
  }

  function InsertCommas(s: string): string {
    CommasFrom(s, 0)
  }

  function NumberWithCommas(x: int): string {
    InsertCommas(IntToString(x))
  }

  // The reference layout of a grouped number.

  /** Length of the leading group of an `n`-digit number: 1 to 3 digits. */
  function FirstGroupLen(n: nat): (f: nat)
    requires n >= 1
    ensures 1 <= f <= 3 && f <= n && (n - f) % 3 == 0
  {
    (n - 1) % 3 + 1
  }

  /** Every three digits preceded by a comma. */
  function Triples(t: string): (r: string)
    requires |t| % 3 == 0
    ensures |r| == |t| / 3 * 4
  {
    if t == [] then [] else "," + t[..3] + Triples(t[3..])
  }

  /** Digits grouped from the right: a first group of 1 to 3 digits, then comma-led groups of exactly 3. */
  function GroupDigits(d: string): string
    requires d != []
  {
    var f := FirstGroupLen(|d|);
    d[..f] + Triples(d[f..])
  }

  predicate IsComma(c: char) {
    c == ','
  }

  predicate NotComma(c: char) {
    c != ','
  }

  /** Length of the run of decimal digits starting at position `i`: the radix-10 `DigitRun` of the suffix. */
  function DecimalRunAt(s: string, i: nat): (n: nat)
    requires i <= |s|
    ensures i + n <= |s|
    ensures forall j :: i <= j < i + n ==> IsDecimalDigit(s[j])
    ensures i + n == |s| || !IsDecimalDigit(s[i + n])
  {
    var n := DigitRun(s[i..], 10);
    assert forall j :: i <= j < i + n ==> s[j] == s[i..][j - i];
    n
  }

  /** A digit run that ends where the digits end is the run. */
  lemma DecimalRunIs(s: string, i: nat, m: nat)
    requires i + m <= |s|
    requires forall j :: i <= j < i + m ==> IsDecimalDigit(s[j])
    requires i + m == |s| || !IsDecimalDigit(s[i + m])
    ensures DecimalRunAt(s, i) == m
  {
    var d, rest := s[i..i + m], s[i + m..];
    assert s[i..] == d + rest;
    assert AllDigits(d) by {
      assert forall j :: 0 <= j < m ==> d[j] == s[i + j];
    }
    DecimalRunStops(d, rest);
  }

  /** The lookahead holds exactly when the run of digits ahead is a positive multiple of three long. */
  lemma GroupsAheadByRun(s: string, i: nat)
    requires i <= |s|
    ensures GroupsAhead(s, i) <==> DecimalRunAt(s, i) > 0 && DecimalRunAt(s, i) % 3 == 0
  {
    var n := DecimalRunAt(s, i);
    if GroupsAhead(s, i) {
      var k :| 1 <= k <= |s| && DigitGroupsThenEnd(s, i, k);
      DecimalRunIs(s, i, 3 * k);
    }
    if n > 0 && n % 3 == 0 {
      assert DigitGroupsThenEnd(s, i, n / 3);
    }
  }

  /**
   Where the commas go in the text of a number: `s[o..]` are the digits and
   what precedes them (nothing, or a sign) is not a word character.
   */
  lemma CommaAtNumber(s: string, o: nat, i: nat)
    requires o < |s| && i <= |s|
    requires forall j :: o <= j < |s| ==> IsDecimalDigit(s[j])
    requires o == 0 || (!IsWordChar(s[o - 1]) && !IsDecimalDigit(s[o - 1]))
    requires i <= o ==> forall j :: 0 <= j < o ==> !IsDecimalDigit(s[j])
    ensures CommaAt(s, i) <==> o < i < |s| && (|s| - i) % 3 == 0
  {
    GroupsAheadByRun(s, i);
    if o <= i {
      DecimalRunIs(s, i, |s| - i);
    } else {
      assert !IsDecimalDigit(s[i]);
    }
  }

  predicate IsNumberText(s: string, o: nat) {
    o < |s| && (o == 0 || (o == 1 && s[0] == '-')) && forall j :: o <= j < |s| ==> IsDecimalDigit(s[j])
  }

  lemma UnrollTriple(s: string, o: nat, i: nat)
    requires IsNumberText(s, o)
    requires o < i && i + 3 <= |s| && (|s| - i) % 3 == 0
    ensures CommasFrom(s, i) == "," + s[i..i + 3] + CommasFrom(s, i + 3)
  {
    var x := CommasFrom(s, i + 3);
    CommaAtNumber(s, o, i);
    CommaAtNumber(s, o, i + 1);
    CommaAtNumber(s, o, i + 2);
    assert CommasFrom(s, i + 2) == "" + ([s[i + 2]] + x);
    assert CommasFrom(s, i + 1) == "" + ([s[i + 1]] + CommasFrom(s, i + 2));
    assert CommasFrom(s, i) == "," + ([s[i]] + CommasFrom(s, i + 1));
    EmptyAppend([s[i + 2]] + x);
    EmptyAppend([s[i + 1]] + CommasFrom(s, i + 2));
    ThreeAppend(",", s, i, x);
  }

  lemma EmptyAppend<T>(x: seq<T>)
    ensures [] + x == x
  {
  }

  lemma ThreeAppend<T>(c: seq<T>, s: seq<T>, i: nat, x: seq<T>)
    requires i + 3 <= |s|
    ensures c + ([s[i]] + ([s[i + 1]] + ([s[i + 2]] + x))) == c + s[i..i + 3] + x
  {
  }

  lemma {:induction false} CommasInTail(s: string, o: nat, i: nat)
    requires IsNumberText(s, o)
    requires o < i <= |s| && (|s| - i) % 3 == 0
    ensures CommasFrom(s, i) == Triples(s[i..])
    decreases |s| - i
  {
    if i < |s| {
      UnrollTriple(s, o, i);
      CommasInTail(s, o, i + 3);
      assert s[i..][..3] == s[i..i + 3];
      assert s[i..][3..] == s[i + 3..];
    } else {
      CommaAtNumber(s, o, i);
      assert s[i..] == [];
    }
  }

  /** No comma goes inside the leading group of one to three digits. */
  lemma NoCommaInHead(s: string, o: nat, e: nat, i: nat)
    requires IsNumberText(s, o)
    requires e == o + FirstGroupLen(|s| - o)
    requires o <= i < e
    ensures !CommaAt(s, i)
  {
    CommaAtNumber(s, o, i);
    if o < i {
      var q := (|s| - e) / 3;
      assert |s| - e == 3 * q;
      assert |s| - i == 3 * q + (e - i) && 1 <= e - i <= 2;
    }
  }

  /** Positions that take no comma are copied as they are. */
  lemma {:induction false} CommasCopy(s: string, i: nat, e: nat)
    requires i <= e <= |s|
    requires forall j :: i <= j < e ==> !CommaAt(s, j)
    ensures CommasFrom(s, i) == s[i..e] + CommasFrom(s, e)
    decreases e - i
  {
    if i < e {
      var x := CommasFrom(s, e);
      CommasStep(s, i);
      CommasCopy(s, i + 1, e);
      assert s[i..e] + x == [s[i]] + (s[i + 1..e] + x) by {
        assert s[i..e] == [s[i]] + s[i + 1..e];
      }
    }
  }

  lemma CommasStep(s: string, i: nat)
    requires i < |s| && !CommaAt(s, i)
    ensures CommasFrom(s, i) == [s[i]] + CommasFrom(s, i + 1)
  {
    EmptyAppend([s[i]] + CommasFrom(s, i + 1));
  }

  /** The scan copies the leading group and then emits comma-led triples. */
  lemma CommasSplit(s: string, o: nat)
    requires IsNumberText(s, o)
    ensures var f := FirstGroupLen(|s| - o);
      CommasFrom(s, o) == s[o..o + f] + Triples(s[o + f..])
  {
    var n := |s| - o;
    var f := FirstGroupLen(n);
    assert |s| - (o + f) == n - f;
    forall j | o <= j < o + f ensures !CommaAt(s, j) {
      NoCommaInHead(s, o, o + f, j);
    }
    CommasCopy(s, o, o + f);
    CommasInTail(s, o, o + f);
  }

  lemma GroupDigitsOfSuffix(s: string, o: nat)
    requires o < |s|
    ensures var f := FirstGroupLen(|s| - o);
      GroupDigits(s[o..]) == s[o..o + f] + Triples(s[o + f..])
  {
    var d := s[o..];
    var f := FirstGroupLen(|s| - o);
    assert |d| == |s| - o;
    assert FirstGroupLen(|d|) == f;
    assert GroupDigits(d) == d[..f] + Triples(d[f..]);
    DropTake(s, o, f);
    DropDrop(s, o, f);
    assert d[..f] == s[o..o + f] && d[f..] == s[o + f..];
  }

  lemma CommasOfNumberText(s: string, o: nat)
    requires IsNumberText(s, o)
    ensures CommasFrom(s, o) == GroupDigits(s[o..])
  {
    CommasSplit(s, o);
    GroupDigitsOfSuffix(s, o);
  }

  /**
   The regular-expression replacement yields the reference layout: the sign
   if any, then the digits of the magnitude grouped by three from the right.
   */
  lemma NumberWithCommasGrouped(x: int)
    ensures NumberWithCommas(x) == (if x < 0 then "-" else "") + GroupDigits(NatToString(if x < 0 then -x else x))
  {
    var d := NatToString(if x < 0 then -x else x);
    var s := IntToString(x);
    if x < 0 {
      assert s[1..] == d;
      assert IsNumberText(s, 1);
      CommasOfNumberText(s, 1);
      CommaAtNumber(s, 1, 0);
      assert CommasFrom(s, 0) == "-" + CommasFrom(s, 1);
    } else {
      assert s[0..] == d;
      CommasOfNumberText(s, 0);
    }
  }

  lemma DigitsHaveNoComma(d: string)
    requires AllDigits(d)
    ensures Filter(d, NotComma) == d && Filter(d, IsComma) == []
  {
    FilterKeepsAll(d, NotComma);
    if Filter(d, IsComma) != [] {
      FilterMembership(d, IsComma, Filter(d, IsComma)[0]);
    }
  }

  lemma {:induction false} TriplesCommas(t: string)
    requires |t| % 3 == 0 && AllDigits(t)
    ensures forall j :: 0 <= j < |Triples(t)| ==> (Triples(t)[j] == ',' <==> j % 4 == 0)
  {
    if t != [] {
      var r := Triples(t);
      TriplesCommas(t[3..]);
      assert r == "," + t[..3] + Triples(t[3..]);
      forall j | 0 <= j < |r| ensures r[j] == ',' <==> j % 4 == 0 {
        if j >= 4 {
          assert r[j] == Triples(t[3..])[j - 4];
        }
      }
    }
  }

  lemma {:induction false} TriplesFilter(t: string)
    requires |t| % 3 == 0 && AllDigits(t)
    ensures Filter(Triples(t), NotComma) == t
    ensures Count(Triples(t), IsComma) == |t| / 3
  {
    if t != [] {
      var rest := Triples(t[3..]);
      TriplesFilter(t[3..]);
      assert Triples(t) == "," + (t[..3] + rest);
      FilterConcat(",", t[..3] + rest, NotComma);
      FilterConcat(t[..3], rest, NotComma);
      FilterConcat(",", t[..3] + rest, IsComma);
      FilterConcat(t[..3], rest, IsComma);
      DigitsHaveNoComma(t[..3]);
      assert t[..3] + t[3..] == t;
    }
  }

  /**
   Layout of the grouped digits: the first group has 1 to 3 digits, then
   every fourth character is a comma followed by exactly three digits.
   */
  lemma GroupDigitsLayout(d: string)
    requires d != [] && AllDigits(d)
    ensures var g, f := GroupDigits(d), FirstGroupLen(|d|);
      1 <= f <= 3 && |g| == |d| + (|d| - 1) / 3 &&
      (forall i :: 0 <= i < |g| ==> (g[i] == ',' <==> f <= i && (i - f) % 4 == 0))
  {
    var f := FirstGroupLen(|d|);
    var g := GroupDigits(d);
    var t := Triples(d[f..]);
    TriplesCommas(d[f..]);
    assert |t| == (|d| - f) / 3 * 4;
    forall i | 0 <= i < |g| ensures g[i] == ',' <==> f <= i && (i - f) % 4 == 0 {
      if i < f {
        assert g[i] == d[i];
      } else {
        assert g[i] == t[i - f];
      }
    }
  }

  /** There are (digits - 1) / 3 commas, and deleting them gives the digits back. */
  lemma GroupDigitsShape(d: string)
    requires d != [] && AllDigits(d)
    ensures Count(GroupDigits(d), IsComma) == (|d| - 1) / 3
    ensures Filter(GroupDigits(d), NotComma) == d
  {
    var f := FirstGroupLen(|d|);
    TriplesFilter(d[f..]);
    FilterConcat(d[..f], Triples(d[f..]), NotComma);
    FilterConcat(d[..f], Triples(d[f..]), IsComma);
    DigitsHaveNoComma(d[..f]);
    assert d[..f] + d[f..] == d;
  }

  /** A sign followed by the grouped digits: the sign is never followed by a comma. */
  lemma NumberWithCommasSign(x: int)
    ensures x < 0 ==> |NumberWithCommas(x)| >= 2 && NumberWithCommas(x)[0] == '-' && IsDecimalDigit(NumberWithCommas(x)[1])
    ensures x >= 0 ==> IsDecimalDigit(NumberWithCommas(x)[0])
  {
    NumberWithCommasGrouped(x);
  }

  /** Deleting every comma of the output gives back `x.toString()`. */
  lemma NumberWithCommasDigits(x: int)
    ensures Filter(NumberWithCommas(x), NotComma) == IntToString(x)
  {
    var d := NatToString(if x < 0 then -x else x);
    NumberWithCommasGrouped(x);
    GroupDigitsShape(d);
    if x >= 0 {
      assert NumberWithCommas(x) == GroupDigits(d);
    } else {
      FilterConcat("-", GroupDigits(d), NotComma);
      assert Filter("-", NotComma) == "-" by {
        assert NotComma('-');
        assert "-"[1..] == [];
      }
    }
  }

  /** An integer with `n` digits gets (n - 1) / 3 commas. */
  lemma NumberWithCommasCommaCount(x: int)
    ensures Count(NumberWithCommas(x), IsComma) == (|NatToString(if x < 0 then -x else x)| - 1) / 3
  {
    var d := NatToString(if x < 0 then -x else x);
    NumberWithCommasGrouped(x);
    GroupDigitsShape(d);
    if x >= 0 {
      assert NumberWithCommas(x) == GroupDigits(d);
    } else {
      FilterConcat("-", GroupDigits(d), IsComma);
      assert Filter("-", IsComma) == [] by {
        assert !IsComma('-');
        assert "-"[1..] == [];
      }
    }
  }

  function Pow10(k: nat): nat {
    if k == 0 then 1 else 10 * Pow10(k - 1)
  }

  lemma {:induction false} NatToStringLength(n: nat, k: nat)
    requires k >= 1
    ensures |NatToString(n)| <= k <==> n < Pow10(k)
    decreases n
  {
    if n >= 10 {
      if k == 1 {
        assert |NatToString(n)| >= 2;
      } else {
        NatToStringLength(n / 10, k - 1);
      }
    } else {
      PowPositive(k);
    }
  }

  lemma {:induction false} PowPositive(k: nat)
    requires k >= 1
    ensures Pow10(k) >= 10
  {
    if k > 1 {
      PowPositive(k - 1);
    }
  }

  /** The output differs from `x.toString()` exactly when |x| is at least 1000. */
  lemma NumberWithCommasSmall(x: int)
    ensures NumberWithCommas(x) == IntToString(x) <==> -1000 < x < 1000
  {
    var d := NatToString(if x < 0 then -x else x);
    var p: string := if x < 0 then "-" else "";
    NumberWithCommasGrouped(x);
    assert IntToString(x) == p + d;
    assert AllDigits(d);
    DigitsLengthBound(x);
    GroupDigitsUnchanged(d);
    DropAppend(p, GroupDigits(d));
    DropAppend(p, d);
  }

  lemma DigitsLengthBound(x: int)
    ensures |NatToString(if x < 0 then -x else x)| <= 3 <==> -1000 < x < 1000
  {
    NatToStringLength(if x < 0 then -x else x, 3);
    assert Pow10(3) == 1000;
  }

  /** Grouping leaves a digit string alone exactly when it has at most three digits. */
  lemma GroupDigitsUnchanged(d: string)
    requires d != [] && AllDigits(d)
    ensures GroupDigits(d) == d <==> |d| <= 3
  {
    if |d| <= 3 {
      assert GroupDigits(d) == d[..|d|] + Triples([]);
    } else {
      GroupDigitsShape(d);
      DigitsHaveNoComma(d);
    }
  }

  lemma NumberWithCommasFortyTwo()
    ensures NumberWithCommas(42) == "42"
  {
    NumberWithCommasSmall(42);
    assert NatToString(42) == "42";
  }

  lemma MillionsText()
    ensures NatToString(1234567) == "1234567"
  {
    assert NatToString(1) == "1";
    assert NatToString(12) == "12";
    assert NatToString(123) == "123";
    assert NatToString(1234) == "1234";
    assert NatToString(12345) == "12345";
    assert NatToString(123456) == "123456";
  }

  lemma GroupMillions()
    ensures GroupDigits("1234567") == "1,234,567"
  {
    assert Triples("567") == ",567";
    assert Triples("234567") == ",234" + Triples("567");
  }

  lemma NumberWithCommasMillions()
    ensures NumberWithCommas(1234567) == "1,234,567"
  {
    NumberWithCommasGrouped(1234567);
    MillionsText();
    GroupMillions();
  }

  lemma NumberWithCommasNegative()
    ensures NumberWithCommas(-1234) == "-1,234"
  {
    NumberWithCommasGrouped(-1234);
    GroupThousands();
  }

  lemma GroupThousands()
    ensures NatToString(1234) == "1234"
    ensures GroupDigits("1234") == "1,234"
  {
    assert NatToString(1) == "1";
    assert NatToString(12) == "12";
    assert NatToString(123) == "123";
    assert "1234"[1..] == "234" && "234"[3..] == [];
    assert Triples("234") == ",234" + Triples([]);
    assert GroupDigits("1234") == "1" + Triples("234");
  }

  // ===========================================================================
  // deleteWithinParens

  /** Length of the run of spaces at the start of `s` (the pattern's spaces are U+0020 only). */
  function SpaceRun(s: string): (n: nat)
    ensures n <= |s|
  {
    if s != [] && s[0] == ' ' then 1 + SpaceRun(s[1..]) else 0
  }

  /**
   Length of the rest of a match once its `(` is behind: every character up
   to the first `)`, that `)`, and the spaces after it; `None` when `t` has
   no `)`. The body cannot stop earlier (it must be followed by `)`) nor go
   past the first `)` (it excludes `)`), and the trailing spaces are greedy.
   */
  function CloseSpan(t: string): (r: Option<nat>)
    ensures r.Some? ==> 0 < r.value <= |t|
  {
    if t == [] then None
    else if t[0] == ')' then Some(1 + SpaceRun(t[1..]))
    else match CloseSpan(t[1..])
      case None => None
      case Some(k) => Some(k + 1)
  }

  /**
   Length of the match of `spaces ( non-) characters ) spaces` anchored at
   the start of `s`, or `None` when it fails there. The leading spaces are
   greedy, and giving some back cannot help since a space is not `(`.
   */
  function ParenSpanAt(s: string): (r: Option<nat>)
    ensures r.Some? ==> 0 < r.value <= |s|
  {
    if s == [] then None
    else if s[0] == ' ' then
      match ParenSpanAt(s[1..])
      case None => None
      case Some(k) => Some(k + 1)
    else if s[0] == '(' then
      match CloseSpan(s[1..])
      case None => None
      case Some(k) => Some(k + 1)
    else None
  }

  /**
   The global replacement by the empty string: at each position, from the
   left, either the pattern matches and the whole match is dropped (the scan
   resumes after it), or the character is kept and the scan moves on by one.
   */
  function DeleteWithinParens(s: string): string
    decreases |s|
  {
    if s == [] then []
    else match ParenSpanAt(s)
      case Some(k) => DeleteWithinParens(s[k..])
      case None => [s[0]] + DeleteWithinParens(s[1..])
  }

  /** Only deletions happen: the output is a subsequence of the input. */
  lemma {:induction false} DeleteWithinParensSubsequence(s: string)
    ensures IsSubsequence(DeleteWithinParens(s), s)
    decreases |s|
  {
    if s != [] {
      match ParenSpanAt(s)
      case Some(k) =>
        DeleteWithinParensSubsequence(s[k..]);
        SubsequenceOfSuffix(DeleteWithinParens(s[k..]), s, k);
      case None =>
        var r := DeleteWithinParens(s[1..]);
        DeleteWithinParensSubsequence(s[1..]);
        assert ([s[0]] + r)[1..] == r;
    }
  }

  /** Some `(` has a `)` somewhere after it. */
  ghost predicate HasClosedParen(s: string) {
    exists i, j :: 0 <= i < j < |s| && s[i] == '(' && s[j] == ')'
  }

  lemma {:induction false} CloseSpanHasClose(t: string)
    requires CloseSpan(t).Some?
    ensures exists j :: 0 <= j < |t| && t[j] == ')'
  {
    if t[0] != ')' {
      CloseSpanHasClose(t[1..]);
      var j :| 0 <= j < |t| - 1 && t[1..][j] == ')';
      assert t[j + 1] == ')';
    }
  }

  lemma {:induction false} SpanMeansClosedParen(s: string)
    requires ParenSpanAt(s).Some?
    ensures HasClosedParen(s)
  {
    if s[0] == ' ' {
      SpanMeansClosedParen(s[1..]);
      var i, j :| 0 <= i < j < |s| - 1 && s[1..][i] == '(' && s[1..][j] == ')';
      assert s[i + 1] == '(' && s[j + 1] == ')';
    } else {
      CloseSpanHasClose(s[1..]);
      var j :| 0 <= j < |s| - 1 && s[1..][j] == ')';
      assert s[0] == '(' && s[j + 1] == ')';
    }
  }

  /** Any `)` ends a match: the search fails only on a string without one. */
  lemma {:induction false} CloseSpanFinds(t: string, j: nat)
    requires j < |t| && t[j] == ')'
    ensures CloseSpan(t).Some?
  {
    if t[0] != ')' {
      assert t[1..][j - 1] == ')';
      CloseSpanFinds(t[1..], j - 1);
    }
  }

  lemma OpenAtStartSpans(s: string, j: nat)
    requires 0 < j < |s| && s[0] == '(' && s[j] == ')'
    ensures ParenSpanAt(s).Some?
  {
    assert s[1..][j - 1] == ')';
    CloseSpanFinds(s[1..], j - 1);
  }

  /** Without a `(` followed by a `)` there is nothing to delete. */
  lemma {:induction false} NoClosedParenUnchanged(s: string)
    requires !HasClosedParen(s)
    ensures DeleteWithinParens(s) == s
    decreases |s|
  {
    if s != [] {
      if ParenSpanAt(s).Some? {
        SpanMeansClosedParen(s);
      }
      assert !HasClosedParen(s[1..]) by {
        forall i, j | 0 <= i < j < |s| - 1 && s[1..][i] == '(' ensures s[1..][j] != ')' {
          assert s[i + 1] == '(';
        }
      }
      NoClosedParenUnchanged(s[1..]);
    }
  }

  /** With a `(` followed by a `)` something is deleted. */
  lemma {:induction false} ClosedParenShrinks(s: string)
    requires HasClosedParen(s)
    ensures |DeleteWithinParens(s)| < |s|
    decreases |s|
  {
    match ParenSpanAt(s)
    case Some(k) =>
      DeleteWithinParensSubsequence(s[k..]);
      SubsequenceElements(DeleteWithinParens(s[k..]), s[k..]);
    case None =>
      var i, j :| 0 <= i < j < |s| && s[i] == '(' && s[j] == ')';
      assert s[0] != '(' by {
        if s[0] == '(' {
          OpenAtStartSpans(s, j);
        }
      }
      assert s[1..][i - 1] == '(' && s[1..][j - 1] == ')';
      ClosedParenShrinks(s[1..]);
  }

  /** The output is the input exactly when the input has no `(` followed later by `)`. */
  lemma DeleteWithinParensUnchanged(s: string)
    ensures DeleteWithinParens(s) == s <==> !HasClosedParen(s)
  {
    if HasClosedParen(s) {
      ClosedParenShrinks(s);
    } else {
      NoClosedParenUnchanged(s);
    }
  }

  /** In the output no `(` is followed anywhere later by `)`. */
  lemma {:induction false} DeleteLeavesNoClosedParen(s: string)
    ensures !HasClosedParen(DeleteWithinParens(s))
    decreases |s|
  {
    if s != [] {
      match ParenSpanAt(s)
      case Some(k) =>
        DeleteLeavesNoClosedParen(s[k..]);
      case None =>
        var d := DeleteWithinParens(s[1..]);
        var r := [s[0]] + d;
        DeleteLeavesNoClosedParen(s[1..]);
        DeleteWithinParensSubsequence(s[1..]);
        SubsequenceElements(d, s[1..]);
        forall i, j | 0 <= i < j < |r| && r[i] == '(' ensures r[j] != ')' {
          if i == 0 {
            assert r[j] == d[j - 1] && d[j - 1] in s[1..];
            forall t | 1 <= t < |s| ensures s[t] != ')' {
              if s[t] == ')' {
                OpenAtStartSpans(s, t);
              }
            }
          } else {
            assert r[i] == d[i - 1] && r[j] == d[j - 1];
          }
        }
    }
  }

  /** Deleting a second time changes nothing. */
  lemma DeleteWithinParensIdempotent(s: string)
    ensures DeleteWithinParens(DeleteWithinParens(s)) == DeleteWithinParens(s)
  {
    DeleteLeavesNoClosedParen(s);
    NoClosedParenUnchanged(DeleteWithinParens(s));
  }

  predicate AllSpaces(s: string) {
    forall i :: 0 <= i < |s| ==> s[i] == ' '
  }

  /** Spaces in front of a match belong to it. */
  lemma {:induction false} SpanAfterSpaces(sp: string, u: string)
    requires AllSpaces(sp) && ParenSpanAt(u).Some?
    ensures ParenSpanAt(sp + u).Some? && ParenSpanAt(sp + u).value == |sp| + ParenSpanAt(u).value
  {
    if sp == [] {
      assert sp + u == u;
    } else {
      ConsAppend(sp, u);
      SpanAfterSpaces(sp[1..], u);
    }
  }

  lemma {:induction false} SpaceRunOfSpaces(sp: string, b: string)
    requires AllSpaces(sp) && (b == [] || b[0] != ' ')
    ensures SpaceRun(sp + b) == |sp|
  {
    if sp == [] {
      assert sp + b == b;
    } else {
      ConsAppend(sp, b);
      SpaceRunOfSpaces(sp[1..], b);
    }
  }

  lemma {:induction false} CloseSpanOf(m: string, sp2: string, b: string)
    requires forall i :: 0 <= i < |m| ==> m[i] != ')'
    requires AllSpaces(sp2) && (b == [] || b[0] != ' ')
    ensures CloseSpan(m + (")" + (sp2 + b))).Some?
    ensures CloseSpan(m + (")" + (sp2 + b))).value == |m| + 1 + |sp2|
  {
    var w := ")" + (sp2 + b);
    if m == [] {
      assert m + w == w;
      assert w[1..] == sp2 + b;
      SpaceRunOfSpaces(sp2, b);
    } else {
      ConsAppend(m, w);
      CloseSpanOf(m[1..], sp2, b);
    }
  }

  /** Where the pattern matches at the start: spaces, `(`, no `)`, `)`, spaces. */
  lemma ParenSpanOf(s: string, sp1: string, m: string, sp2: string, b: string)
    requires AllSpaces(sp1) && AllSpaces(sp2)
    requires forall i :: 0 <= i < |m| ==> m[i] != ')'
    requires b == [] || b[0] != ' '
    requires s == sp1 + ("(" + (m + (")" + (sp2 + b))))
    ensures ParenSpanAt(s).Some? && ParenSpanAt(s).value == |s| - |b| && s[|s| - |b|..] == b
  {
    var v := m + (")" + (sp2 + b));
    var u := "(" + v;
    assert u[1..] == v;
    CloseSpanOf(m, sp2, b);
    SpanAfterSpaces(sp1, u);
    assert s[|s| - |b|..] == b;
  }

  lemma DeleteAfterSpan(s: string, k: nat)
    requires ParenSpanAt(s).Some? && ParenSpanAt(s).value == k
    ensures DeleteWithinParens(s) == DeleteWithinParens(s[k..])
  {
  }

  /** The first match is dropped whole, together with the spaces on both sides of it. */
  lemma SpanAtStart(s: string, sp1: string, m: string, sp2: string, b: string)
    requires AllSpaces(sp1) && AllSpaces(sp2)
    requires forall i :: 0 <= i < |m| ==> m[i] != ')'
    requires b == [] || b[0] != ' '
    requires s == sp1 + ("(" + (m + (")" + (sp2 + b))))
    ensures DeleteWithinParens(s) == DeleteWithinParens(b)
  {
    var k := |s| - |b|;
    ParenSpanOf(s, sp1, m, sp2, b);
    DeleteAfterSpan(s, k);
    assert s[k..] == b;
    assert DeleteWithinParens(s) == DeleteWithinParens(s[k..]);
  }

  /** No match starts inside a prefix without `(` that does not end in a space. */
  lemma {:induction false} NoSpanInPrefix(a: string, t: string)
    requires a != [] && a[|a| - 1] != ' '
    requires forall i :: 0 <= i < |a| ==> a[i] != '('
    ensures ParenSpanAt(a + t).None?
  {
    ConsAppend(a, t);
    if a[0] == ' ' {
      NoSpanInPrefix(a[1..], t);
    }
  }

  lemma DeleteKeepsFirst(s: string)
    requires s != [] && ParenSpanAt(s).None?
    ensures DeleteWithinParens(s) == [s[0]] + DeleteWithinParens(s[1..])
  {
  }

  /** A first character outside any match is kept, and the scan moves on by one. */
  lemma KeepFirst(a: string, t: string)
    requires a != [] && a[|a| - 1] != ' '
    requires forall i :: 0 <= i < |a| ==> a[i] != '('
    ensures DeleteWithinParens(a + t) == [a[0]] + DeleteWithinParens(a[1..] + t)
  {
    NoSpanInPrefix(a, t);
    DeleteKeepsFirst(a + t);
    ConsAppend(a, t);
  }

  /** A prefix without `(` that does not end in a space is kept as it is. */
  lemma {:induction false} KeepPrefix(a: string, t: string)
    requires forall i :: 0 <= i < |a| ==> a[i] != '('
    requires a == [] || a[|a| - 1] != ' '
    ensures DeleteWithinParens(a + t) == a + DeleteWithinParens(t)
    decreases |a|
  {
    if a == [] {
      assert a + t == t;
      assert a + DeleteWithinParens(t) == DeleteWithinParens(t);
    } else {
      KeepFirst(a, t);
      KeepPrefix(a[1..], t);
      ConsAppend(a, DeleteWithinParens(t));
    }
  }

  /**
   Left to right: a prefix without `(` (not ending in a space) is kept, and
   the first span is deleted together with the spaces on both sides of it.
   */
  lemma DeleteFirstSpan(a: string, sp1: string, m: string, sp2: string, b: string)
    requires '(' !in a
    requires a == [] || a[|a| - 1] != ' '
    requires AllSpaces(sp1) && AllSpaces(sp2)
    requires ')' !in m
    requires b == [] || b[0] != ' '
    ensures DeleteWithinParens(a + (sp1 + ("(" + (m + (")" + (sp2 + b)))))) == a + DeleteWithinParens(b)
  {
    assert forall i :: 0 <= i < |a| ==> a[i] != '(';
    assert forall i :: 0 <= i < |m| ==> m[i] != ')';
    var t := sp1 + ("(" + (m + (")" + (sp2 + b))));
    KeepPrefix(a, t);
    SpanAtStart(t, sp1, m, sp2, b);
  }

  lemma NoOpenParen(s: string)
    requires '(' !in s
    ensures DeleteWithinParens(s) == s
  {
    NoClosedParenUnchanged(s);
  }

  lemma DistrictCourtKept()
    ensures DeleteWithinParens("District Court") == "District Court"
  {
    NoOpenParen("District Court");
  }

  lemma JudgeText()
    ensures "Judge (Seat 5) District Court" == "Judge" + (" " + ("(" + ("Seat 5" + (")" + (" " + "District Court")))))
  {
  }

  lemma JudgeDistrictText()
    ensures "Judge" + "District Court" == "JudgeDistrict Court"
  {
  }

  lemma DeleteWithinParensJudge()
    ensures DeleteWithinParens("Judge (Seat 5) District Court") == "JudgeDistrict Court"
  {
    JudgeText();
    JudgeDistrictText();
    DeleteFirstSpan("Judge", " ", "Seat 5", " ", "District Court");
    DistrictCourtKept();
  }

  lemma NoNestingText()
    ensures "a (b (c) d)" == "a" + (" " + ("(" + ("b (c" + (")" + (" " + "d)")))))
    ensures "a" + "d)" == "ad)"
  {
  }

  lemma DeleteWithinParensNoNesting()
    ensures DeleteWithinParens("a (b (c) d)") == "ad)"
  {
    NoNestingText();
    DeleteFirstSpan("a", " ", "b (c", " ", "d)");
    NoOpenParen("d)");
  }
}
