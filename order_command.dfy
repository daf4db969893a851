/**
 The order command of `on_message` (ordersbot.py:33-38): the message text is searched with
 the regular expression `^!sendorder(\[[^\]]*])? (.+)` under `re.IGNORECASE` and
 `re.MULTILINE`, and the first match found by `re.findall` supplies the two captures.

 MatchAt is the engine's behaviour at one position, written out operationally; PatternAt is
 the pattern itself, stated declaratively (any match, with `(.+)` allowed to stop anywhere).
 The lemmas prove that MatchAt returns exactly the match the engine prefers, and that
 ParseOrder returns the match at the first line where the pattern matches.
 */
module OrderCommand {
  import opened Wrappers
  import opened Text

  /** CMD_PREFIX (ordersbot.py:71). */
  const Prefix: string := "!sendorder"

  /** The tuple `re.findall` yields for one match: `bracket` is group 1, the empty string
      when the optional group took no part; `body` is group 2. */
  datatype Capture = Capture(bracket: string, body: string)

  /** Does text character `c` match pattern character `p` under `re.IGNORECASE`?
      Every letter of Prefix is a lower-case ASCII letter; Python's engine folds
      U+017F LATIN SMALL LETTER LONG S onto `s` as well. */
  predicate FoldsTo(c: char, p: char) {
    || c == p
    || ('a' <= p <= 'z' && c as int == p as int - 32)
    || (p == 's' && c == '\U{017F}')
  }

  /** `^` under `re.MULTILINE`: the start of the text or the position just after a `\n`. */
  predicate LineStart(text: string, i: nat) {
    i <= |text| && (i == 0 || text[i - 1] == '\n')
  }

  /** Greedy `(.+)` stops only where `.` cannot go on: at the end of the text or at a `\n`. */
  predicate EndOfLine(text: string, k: nat) {
    k <= |text| && (k == |text| || text[k] == '\n')
  }

  /** `!sendorder`, letters in any case, occurs at position `i`. */
  predicate HasPrefixAt(text: string, i: nat) {
    i + |Prefix| <= |text| && IsPrefixWord(text[i..i + |Prefix|])
  }

  /** `w` is `!sendorder` up to the case of its letters, spelled out letter by letter
      (PrefixWordLetters relates it to Prefix). */
  predicate IsPrefixWord(w: string) {
    && |w| == 10
    && FoldsTo(w[0], '!') && FoldsTo(w[1], 's') && FoldsTo(w[2], 'e') && FoldsTo(w[3], 'n') && FoldsTo(w[4], 'd')
    && FoldsTo(w[5], 'o') && FoldsTo(w[6], 'r') && FoldsTo(w[7], 'd') && FoldsTo(w[8], 'e') && FoldsTo(w[9], 'r')
  }

  /** IsPrefixWord compares `w` with Prefix position by position. */
  lemma PrefixWordLetters(w: string)
    ensures IsPrefixWord(w) <==> |w| == |Prefix| && forall k :: 0 <= k < |Prefix| ==> FoldsTo(w[k], Prefix[k])
  {
  }

  /** The strings group 1 can capture: empty (the group took no part), or `[`, then
      characters none of which is `]` (newlines included), then `]`. */
  predicate OptionalGroup(g: string) {
    g == [] || (|g| >= 2 && g[0] == '[' && g[|g| - 1] == ']' && forall k :: 0 < k < |g| - 1 ==> g[k] != ']')
  }

  /** The pattern matches `text` at position `i` with captures `g1` and `g2`, when `(.+)`
      may stop after any number of characters. */
  predicate PatternAt(text: string, i: nat, g1: string, g2: string) {
    && HasPrefixAt(text, i)
    && OptionalGroup(g1)
    && g2 != [] && '\n' !in g2
    && var s := i + |Prefix| + |g1|;
       && s + 1 + |g2| <= |text|
       && text[i + |Prefix|..s] == g1
       && text[s] == ' '
       && text[s + 1..s + 1 + |g2|] == g2
  }

  /** What `(\[[^\]]*])?` captures at position `j`: `[` up to the first `]` after it, or
      the empty string when there is no `[` at `j` or no `]` anywhere after it. */
  function BracketGroupAt(text: string, j: nat): (g: string)
    requires j <= |text|
    ensures j + |g| <= |text|
  {
    if j < |text| && text[j] == '[' then
      var k := FindChar(text, ']', j + 1);
      if k < |text| then text[j..k + 1] else []
    else []
  }

  /** The group BracketGroupAt captures is a string group 1 can capture, it is what the
      text holds at `j`, and it is absent exactly when no `[` at `j` is closed later on. */
  lemma BracketGroupAtSpec(text: string, j: nat)
    requires j <= |text|
    ensures var g := BracketGroupAt(text, j);
      && text[j..j + |g|] == g && OptionalGroup(g)
      && (g == [] <==> !(j < |text| && text[j] == '[' && ']' in text[j + 1..]))
  {
    if j < |text| && text[j] == '[' {
      var k := FindChar(text, ']', j + 1);
      if k < |text| {
        var g := text[j..k + 1];
        assert forall m :: 0 < m < |g| - 1 ==> g[m] == text[j + m];
        assert text[j + 1..][k - j - 1] == text[k];
      }
    }
  }

  /** What greedy `(.+)` takes from position `s`: everything up to the next `\n`. */
  function RestOfLine(text: string, s: nat): string
    requires s <= |text|
  {
    text[s..FindChar(text, '\n', s)]
  }

  /** The match the regular-expression engine finds when it tries position `i`. When the
      bracket group matches but no space follows it, the engine backtracks to leaving the
      group out; then a space would have to follow the prefix directly, where the `[` is,
      so there is no match. */
  function MatchAt(text: string, i: nat): (r: Option<Capture>)
    requires i <= |text|
  {
    if HasPrefixAt(text, i) then MatchAfterPrefix(text, i + |Prefix|) else None
  }

  /** The rest of the pattern, `(\[[^\]]*])? (.+)`, tried at position `j`. */
  function MatchAfterPrefix(text: string, j: nat): (r: Option<Capture>)
    requires j <= |text|
  {
    var g := BracketGroupAt(text, j);
    var s := j + |g|;
    if s + 1 < |text| && text[s] == ' ' && text[s + 1] != '\n' then
      Some(Capture(g, RestOfLine(text, s + 1)))
    else None
  }

  /** MatchAt is sound: what it returns is a match of the pattern, with `(.+)` running
      to the end of the line. */
  lemma MatchAtSound(text: string, i: nat, c: Capture)
    requires i <= |text| && MatchAt(text, i) == Some(c)
    ensures PatternAt(text, i, c.bracket, c.body)
    ensures EndOfLine(text, i + |Prefix| + |c.bracket| + 1 + |c.body|)
  {
    assert MatchAfterPrefix(text, i + |Prefix|) == Some(c);
    MatchAfterPrefixSound(text, i + |Prefix|, c);
  }

  /** What MatchAfterPrefix returns is a group, one space and a body running to the end
      of the line. */
  lemma MatchAfterPrefixSound(text: string, j: nat, c: Capture)
    requires j <= |text| && MatchAfterPrefix(text, j) == Some(c)
    ensures var s := j + |c.bracket|;
      && OptionalGroup(c.bracket) && c.body != [] && '\n' !in c.body
      && s + 1 + |c.body| <= |text| && text[j..s] == c.bracket && text[s] == ' '
      && text[s + 1..s + 1 + |c.body|] == c.body && EndOfLine(text, s + 1 + |c.body|)
  {
    BracketGroupAtSpec(text, j);
    RestOfLineSpec(text, j + |BracketGroupAt(text, j)| + 1);
  }

  /** RestOfLine is the run of non-newline characters at `s`, up to the end of the line. */
  lemma RestOfLineSpec(text: string, s: nat)
    requires s <= |text|
    ensures var b := RestOfLine(text, s);
      && s + |b| <= |text| && text[s..s + |b|] == b && '\n' !in b && EndOfLine(text, s + |b|)
  {
    var b := RestOfLine(text, s);
    assert forall m :: 0 <= m < |b| ==> b[m] == text[s + m];
  }

  /** Where group 1 of a match is `g`, BracketGroupAt computes `g`: its `]` is the first
      one after the `[`, and an absent group means a space follows the prefix. */
  lemma GroupForced(text: string, j: nat, g: string)
    requires j + |g| < |text| && text[j..j + |g|] == g && OptionalGroup(g)
    requires text[j + |g|] == ' '
    ensures BracketGroupAt(text, j) == g
  {
    if g != [] {
      var k := j + |g| - 1;
      assert text[j] == g[0] && text[k] == g[k - j];
      forall m | j + 1 <= m < k
        ensures text[m] != ']'
      {
        assert text[m] == g[1..|g| - 1][m - j - 1];
      }
      FindCharUnique(text, ']', j + 1, k);
      assert text[j + 1..][k - j - 1] == ']';
    }
  }

  /** A run `b` of non-newline characters at `s` is a prefix of the rest of that line. */
  lemma RestOfLineExtends(text: string, s: nat, b: string)
    requires s + |b| <= |text| && text[s..s + |b|] == b && '\n' !in b
    ensures b <= RestOfLine(text, s)
  {
    forall m | s <= m < s + |b|
      ensures text[m] != '\n'
    {
      assert text[m] == b[m - s];
    }
    var e := FindChar(text, '\n', s);
    assert text[s..e][..|b|] == text[s..s + |b|];
  }

  /** MatchAt misses no match: wherever the pattern matches, MatchAt finds the same first
      group, and a body that every shorter choice of `(.+)` is a prefix of. */
  lemma MatchAtComplete(text: string, i: nat, g1: string, g2: string)
    requires PatternAt(text, i, g1, g2)
    ensures MatchAt(text, i).Some?
    ensures MatchAt(text, i).value.bracket == g1
    ensures g2 <= MatchAt(text, i).value.body
  {
    var j := i + |Prefix|;
    MatchAfterPrefixComplete(text, j, g1, g2);
    assert MatchAt(text, i) == MatchAfterPrefix(text, j);
  }

  /** After the prefix, a group `g1`, one space and a run `g2` of non-newline characters
      are found as the group and the start of the body. */
  lemma MatchAfterPrefixComplete(text: string, j: nat, g1: string, g2: string)
    requires OptionalGroup(g1) && g2 != [] && '\n' !in g2
    requires j + |g1| + 1 + |g2| <= |text| && text[j..j + |g1|] == g1 && text[j + |g1|] == ' '
    requires text[j + |g1| + 1..j + |g1| + 1 + |g2|] == g2
    ensures MatchAfterPrefix(text, j) == Some(Capture(g1, RestOfLine(text, j + |g1| + 1)))
    ensures g2 <= RestOfLine(text, j + |g1| + 1)
  {
    var s := j + |g1|;
    GroupForced(text, j, g1);
    assert text[s + 1] == g2[0];
    RestOfLineExtends(text, s + 1, g2);
  }

  /** A prefix `g` of a non-newline run `b` after which the line ends is `b` itself. */
  lemma LongestBody(text: string, s: nat, b: string, g: string)
    requires s + |b| <= |text| && text[s..s + |b|] == b && '\n' !in b
    requires g <= b && EndOfLine(text, s + |g|)
    ensures g == b
  {
    forall m | s <= m < s + |b|
      ensures text[m] != '\n'
    {
      assert text[m] == b[m - s];
    }
  }

  /** A match whose `(.+)` runs to the end of the line is the one MatchAt returns. */
  lemma GreedyMatchIs(text: string, i: nat, c: Capture)
    requires PatternAt(text, i, c.bracket, c.body) && EndOfLine(text, i + |Prefix| + |c.bracket| + 1 + |c.body|)
    ensures MatchAt(text, i) == Some(c)
  {
    MatchAtComplete(text, i, c.bracket, c.body);
    var d := MatchAt(text, i).value;
    MatchAtSound(text, i, d);
    LongestBody(text, i + |Prefix| + |c.bracket| + 1, d.body, c.body);
  }

  /** The first line start at or after `i` (itself a line start) where the command matches. */
  function FirstMatchFrom(text: string, i: nat): (r: Option<nat>)
    requires LineStart(text, i)
    ensures r.Some? ==> i <= r.value <= |text| && LineStart(text, r.value) && MatchAt(text, r.value).Some?
    ensures forall j {:trigger MatchAt(text, j)} :: i <= j <= |text| && LineStart(text, j) && (r.None? || j < r.value)
                        ==> MatchAt(text, j).None?
    decreases |text| - i
  {
    if MatchAt(text, i).Some? then Some(i)
    else
      var e := FindChar(text, '\n', i);
      assert forall j :: i < j <= e && LineStart(text, j) ==> text[j - 1] == '\n';
      if e < |text| then FirstMatchFrom(text, e + 1) else None
  }

  /** `re.findall(CMD_RE, text, re.IGNORECASE + re.MULTILINE)[0]`, or None when the list
      is empty (ordersbot.py:33-38). */
  function ParseOrder(text: string): (r: Option<Capture>)
    ensures r.Some? ==> OptionalGroup(r.value.bracket) && r.value.body != [] && '\n' !in r.value.body
  {
    match FirstMatchFrom(text, 0)
    case None => None
    case Some(i) => MatchAtSound(text, i, MatchAt(text, i).value); MatchAt(text, i)
  }

  /** The pattern matches at `i` with no choice of captures. */
  ghost predicate NoPatternAt(text: string, i: nat) {
    forall g1, g2 :: !PatternAt(text, i, g1, g2)
  }

  /** Where MatchAt finds nothing, the pattern does not match at all. */
  lemma NoMatchAt(text: string, i: nat)
    requires i <= |text| && MatchAt(text, i).None?
    ensures NoPatternAt(text, i)
  {
    forall g1, g2
      ensures !PatternAt(text, i, g1, g2)
    {
      if PatternAt(text, i, g1, g2) {
        MatchAtComplete(text, i, g1, g2);
      }
    }
  }

  /** `re.findall(...)[0]` is `c`: the pattern matches at line start `i` with captures `c`,
      `(.+)` running to the end of the line, and it matches at no earlier line start. */
  ghost predicate IsFirstMatch(text: string, i: nat, c: Capture) {
    && LineStart(text, i)
    && PatternAt(text, i, c.bracket, c.body)
    && EndOfLine(text, i + |Prefix| + |c.bracket| + 1 + |c.body|)
    && forall j: nat :: LineStart(text, j) && j < i ==> NoPatternAt(text, j)
  }

  /** No order is found exactly when the pattern matches at no line start. */
  lemma ParseOrderNone(text: string)
    ensures ParseOrder(text).None? <==> forall i: nat :: LineStart(text, i) ==> NoPatternAt(text, i)
  {
    match FirstMatchFrom(text, 0)
    case None =>
      forall i: nat | LineStart(text, i)
        ensures NoPatternAt(text, i)
      {
        NoMatchAt(text, i);
      }
    case Some(p) =>
      var c := MatchAt(text, p).value;
      MatchAtSound(text, p, c);
      assert PatternAt(text, p, c.bracket, c.body);
  }

  /** What ParseOrder returns is the first match. */
  lemma ParseOrderFirstMatch(text: string)
    requires ParseOrder(text).Some?
    ensures IsFirstMatch(text, FirstMatchFrom(text, 0).value, ParseOrder(text).value)
  {
    var p := FirstMatchFrom(text, 0).value;
    assert ParseOrder(text) == MatchAt(text, p);
    FoundIsFirstMatch(text, p, ParseOrder(text).value);
  }

  /** The match at the line start FirstMatchFrom finds is the first match. */
  lemma FoundIsFirstMatch(text: string, p: nat, c: Capture)
    requires FirstMatchFrom(text, 0) == Some(p) && MatchAt(text, p) == Some(c)
    ensures IsFirstMatch(text, p, c)
  {
    MatchAtSound(text, p, c);
    NoPatternBefore(text, p);
  }

  /** Before the line start FirstMatchFrom finds, the pattern matches nowhere. */
  lemma NoPatternBefore(text: string, p: nat)
    requires FirstMatchFrom(text, 0) == Some(p)
    ensures forall j: nat :: LineStart(text, j) && j < p ==> NoPatternAt(text, j)
  {
    forall j: nat | LineStart(text, j) && j < p
      ensures NoPatternAt(text, j)
    {
      NoMatchAt(text, j);
    }
  }

  /** The first match sits at the line start FirstMatchFrom finds. */
  lemma FirstMatchPosition(text: string, i: nat, c: Capture)
    requires IsFirstMatch(text, i, c)
    ensures FirstMatchFrom(text, 0) == Some(i)
  {
    MatchAtComplete(text, i, c.bracket, c.body);
    var r := FirstMatchFrom(text, 0);
    assert r.Some? && r.value <= i;
    var p := r.value;
    var d := MatchAt(text, p).value;
    MatchAtSound(text, p, d);
    assert PatternAt(text, p, d.bracket, d.body);
    assert !(p < i);
  }

  /** The first match is what ParseOrder returns. */
  lemma FirstMatchParsed(text: string, i: nat, c: Capture)
    requires IsFirstMatch(text, i, c)
    ensures ParseOrder(text) == Some(c)
  {
    FirstMatchPosition(text, i, c);
    ParsedAt(text, i, c);
  }

  /** ParseOrder returns the greedy match at the line start FirstMatchFrom finds. */
  lemma ParsedAt(text: string, i: nat, c: Capture)
    requires FirstMatchFrom(text, 0) == Some(i)
    requires PatternAt(text, i, c.bracket, c.body)
    requires EndOfLine(text, i + |Prefix| + |c.bracket| + 1 + |c.body|)
    ensures ParseOrder(text) == Some(c)
  {
    ParseOrderAt(text, i);
    GreedyMatchIs(text, i, c);
  }

  /** ParseOrder returns the match at the line start FirstMatchFrom finds. */
  lemma ParseOrderAt(text: string, i: nat)
    requires FirstMatchFrom(text, 0) == Some(i)
    ensures ParseOrder(text) == MatchAt(text, i)
  {
  }

  /** ParseOrder returns `c` exactly when `c` is the first match: the first line that
      matches is used, whatever line of the message it is, and later matches are ignored. */
  lemma ParseOrderIsFirstMatch(text: string, c: Capture)
    ensures ParseOrder(text) == Some(c) <==> exists i: nat :: IsFirstMatch(text, i, c)
  {
    if ParseOrder(text) == Some(c) {
      ParseOrderFirstMatch(text);
    }
    if exists i: nat :: IsFirstMatch(text, i, c) {
      var i: nat :| IsFirstMatch(text, i, c);
      FirstMatchParsed(text, i, c);
    }
  }

  /** A message of one line holds an order exactly when that line matches. */
  lemma ParseOrderOneLine(line: string)
    requires '\n' !in line
    ensures ParseOrder(line) == MatchAt(line, 0)
  {
    assert forall j: nat :: 0 < j <= |line| ==> !LineStart(line, j);
  }

  /** Once the first line is an order, the lines after it change nothing. */
  lemma LaterLinesIgnored(line: string, rest: string)
    requires '\n' !in line && MatchAt(line, 0).Some?
    ensures ParseOrder(line + "\n" + rest) == MatchAt(line, 0)
  {
    var t := line + "\n" + rest;
    var c := MatchAt(line, 0).value;
    MatchAtSound(line, 0, c);
    assert PatternAt(line, 0, c.bracket, c.body);
    assert t[..|line|] == line;
    assert t[|line|] == '\n';
    assert PatternAt(t, 0, c.bracket, c.body);
    FirstMatchParsed(t, 0, c);
  }

  /** A command line `w + g + " " + body` that runs to the end of `t` from `i` on is a
      match there, with `(.+)` running to the end of the line. */
  lemma CommandLineAt(t: string, i: nat, w: string, g: string, body: string)
    requires IsPrefixWord(w) && OptionalGroup(g) && body != [] && '\n' !in body
    requires i <= |t| && t[i..] == w + g + " " + body
    ensures PatternAt(t, i, g, body) && EndOfLine(t, i + |Prefix| + |g| + 1 + |body|)
  {
    var u := w + g + " " + body;
    var s := |w| + |g|;
    assert u[..|Prefix|] == w && u[|Prefix|..s] == g && u[s] == ' ' && u[s + 1..] == body;
    assert t[i..i + |Prefix|] == u[..|Prefix|];
    assert t[i + |Prefix|..i + s] == u[|Prefix|..s];
    assert t[i + s] == u[s];
    assert t[i + s + 1..i + s + 1 + |body|] == u[s + 1..];
  }

  /** A message that is one command line: prefix word, optional group, one space, body. */
  lemma CommandLine(w: string, g: string, body: string)
    requires IsPrefixWord(w) && OptionalGroup(g) && body != [] && '\n' !in body
    ensures ParseOrder(w + g + " " + body) == Some(Capture(g, body))
  {
    var t := w + g + " " + body;
    CommandLineAt(t, 0, w, g, body);
    FirstMatchParsed(t, 0, Capture(g, body));
  }

  /** A line that does not start with `!` holds no match. */
  lemma NoPatternWithoutBang(t: string)
    requires t == [] || t[0] != '!'
    ensures NoPatternAt(t, 0)
  {
    if |Prefix| <= |t| {
      assert t[..|Prefix|][0] == t[0];
    }
  }

  /** A command line after a first line that does not start with `!` is found there. */
  lemma CommandOnSecondLine(line: string, w: string, g: string, body: string)
    requires '\n' !in line && (line == [] || line[0] != '!')
    requires IsPrefixWord(w) && OptionalGroup(g) && body != [] && '\n' !in body
    ensures ParseOrder(line + "\n" + w + g + " " + body) == Some(Capture(g, body))
  {
    var t := line + "\n" + w + g + " " + body;
    var i := |line| + 1;
    assert t[i..] == w + g + " " + body;
    CommandLineAt(t, i, w, g, body);
    assert t[0] != '!' && t[i - 1] == '\n';
    NoPatternWithoutBang(t);
    forall j: nat | 0 < j < i
      ensures !LineStart(t, j)
    {
      assert t[j - 1] == line[j - 1];
    }
    FirstMatchParsed(t, i, Capture(g, body));
  }
}
