/**
 Concrete messages and what the bot does with them, derived from the general lemmas of
 OrderCommand and OrdersBot. Each message text is a parameter fixed by the precondition.
 */
module Scenarios {
  import opened Wrappers
  import opened Text
  import opened OrderCommand
  import opened OrdersBot

  /** A space must follow the group: `!sendorder[X]hi` is no order. */
  lemma RejectsGroupWithoutSpace(t: string)
    requires t == "!sendorder[X]hi"
    ensures ParseOrder(t) == None
  {
    ParseOrderOneLine(t);
    assert t[..|Prefix|] == "!sendorder";
    FindCharUnique(t, ']', 11, 12);
    assert BracketGroupAt(t, 10) == "[X]";
  }

  /** The prefix alone is no order. */
  lemma RejectsBarePrefix(t: string)
    requires t == "!sendorder"
    ensures ParseOrder(t) == None
  {
    ParseOrderOneLine(t);
    assert BracketGroupAt(t, 10) == [];
  }

  /** `(.+)` needs at least one character after the space, on the same line. */
  lemma RejectsEmptyBody(t: string)
    requires t == "!sendorder \nAttack"
    ensures ParseOrder(t) == None
  {
    assert BracketGroupAt(t, 10) == [];
    assert t[11] == '\n';
    assert MatchAt(t, 0) == None;
    assert MatchAt(t, 12) == None by {
      assert 12 + |Prefix| > |t|;
    }
    forall j: nat | LineStart(t, j)
      ensures NoPatternAt(t, j)
    {
      assert j == 0 || j == 12;
      NoMatchAt(t, j);
    }
    ParseOrderNone(t);
  }

  /** The letters of the prefix match in any case, U+017F (long s) included. */
  lemma PrefixCaseInsensitive(t: string)
    requires t == "!SendOrder hold" || t == "!SENDORDER hold" || t == "!\U{017F}endorder hold"
    ensures ParseOrder(t) == Some(Capture("", "hold"))
  {
    var w := t[..10];
    assert t == w + "" + " " + "hold";
    assert IsPrefixWord(w);
    CommandLine(w, "", "hold");
  }

  /** The example order: the group names the affiliation, the rest is the description. */
  lemma CrimsonGuardOrder<A, F>(m: Message<A>, botUser: UserId, toFile: A -> F)
    requires m.author != botUser && m.content == "!sendorder[Crimson Guard] Attack the north gate"
    ensures OnMessage(m, botUser, toFile)
         == Some(Order("Order from Crimson Guard", "Attack the north gate", Converted(m.attachments, toFile)))
  {
    CrimsonGuardParsed(m.content);
    CrimsonGuardAffiliation("[Crimson Guard]", m.topRole);
    CrimsonGuardEmbed("Crimson Guard", "Attack the north gate");
  }

  /** The captures of the example order. */
  lemma CrimsonGuardParsed(t: string)
    requires t == "!sendorder[Crimson Guard] Attack the north gate"
    ensures ParseOrder(t) == Some(Capture("[Crimson Guard]", "Attack the north gate"))
  {
    var g, body := "[Crimson Guard]", "Attack the north gate";
    CrimsonGuardText(t, g, body);
    CrimsonGuardPieces(g, body);
    CommandLine(Prefix, g, body);
  }

  /** The example order is the prefix, its group, one space and its body. Kept apart from
      CrimsonGuardParsed so that the literal is compared with its pieces in a small context. */
  lemma CrimsonGuardText(t: string, g: string, body: string)
    requires t == "!sendorder[Crimson Guard] Attack the north gate"
    requires g == "[Crimson Guard]" && body == "Attack the north gate"
    ensures t == Prefix + g + " " + body
  {
  }

  /** The group and body of the example order are ones the pattern can capture. */
  lemma CrimsonGuardPieces(g: string, body: string)
    requires g == "[Crimson Guard]" && body == "Attack the north gate"
    ensures OptionalGroup(g) && body != [] && '\n' !in body
  {
    assert forall k :: 0 <= k < |body| ==> body[k] != '\n';
  }

  /** The group of the example order names the affiliation. */
  lemma CrimsonGuardAffiliation(g: string, topRole: string)
    requires g == "[Crimson Guard]"
    ensures Affiliation(g, topRole) == "Crimson Guard"
  {
    var x := "Crimson Guard";
    assert g == "[" + x + "]";
    assert forall k :: 0 <= k < |x| ==> x[k] != '[' && x[k] != ']';
    AffiliationOfPlainGroup(x, topRole);
  }

  /** The title and description of the example order. */
  lemma CrimsonGuardEmbed(a: string, body: string)
    requires a == "Crimson Guard" && body == "Attack the north gate"
    ensures Title(a) == "Order from Crimson Guard" && Strip(body) == body
  {
    StripKeepsTrimmed(body);
  }

  /** A `[...]` after the space is part of the body and the top role is the affiliation. */
  lemma BracketAfterSpaceIsBody<A, F>(m: Message<A>, botUser: UserId, toFile: A -> F)
    requires m.author != botUser && m.content == "!sendorder [Blue] go"
    ensures OnMessage(m, botUser, toFile)
         == Some(Order(Title(m.topRole), "[Blue] go", Converted(m.attachments, toFile)))
  {
    BracketAfterSpaceParsed(m.content);
    NothingToTrim("[Blue] go");
  }

  /** The captures of a command whose body starts with a bracket group. */
  lemma BracketAfterSpaceParsed(t: string)
    requires t == "!sendorder [Blue] go"
    ensures ParseOrder(t) == Some(Capture("", "[Blue] go"))
  {
    var g, body := "", "[Blue] go";
    assert t == Prefix + g + " " + body;
    CommandLine(Prefix, g, body);
  }

  /** `[Blue] go` has no whitespace at either end. */
  lemma NothingToTrim(b: string)
    requires b == "[Blue] go"
    ensures Strip(b) == b
  {
    StripKeepsTrimmed(b);
  }

  /** A body of blanks is still an order, sent with an empty description. */
  lemma BlankBodyIsSent<A, F>(m: Message<A>, botUser: UserId, toFile: A -> F)
    requires m.author != botUser && m.content == "!sendorder[Clan]   "
    ensures OnMessage(m, botUser, toFile) == Some(Order("Order from Clan", "", Converted(m.attachments, toFile)))
  {
    BlankBodyParsed(m.content);
    BlankBodyEmbed("[Clan]", "  ", m.topRole);
  }

  /** After the one space that ends the command, (.+) takes the remaining blanks. */
  lemma BlankBodyParsed(t: string)
    requires t == "!sendorder[Clan]   "
    ensures ParseOrder(t) == Some(Capture("[Clan]", "  "))
  {
    var g, body := "[Clan]", "  ";
    assert t == Prefix + g + " " + body;
    CommandLine(Prefix, g, body);
  }

  /** The title and the empty description of the blank order. */
  lemma BlankBodyEmbed(g: string, body: string, topRole: string)
    requires g == "[Clan]" && body == "  "
    ensures Title(Affiliation(g, topRole)) == "Order from Clan" && Strip(body) == ""
  {
    var x := "Clan";
    assert g == "[" + x + "]";
    AffiliationOfPlainGroup(x, topRole);
    StripAllSpace(body);
  }

  /** `[^\]]` matches newlines, so a group left open runs on over the next lines up to
      the first `]`: the second command is swallowed into the affiliation. */
  lemma OpenGroupSpansLines(t: string)
    requires t == "!sendorder[a\n!sendorder b\n] c"
    ensures ParseOrder(t) == Some(Capture("[a\n!sendorder b\n]", "c"))
  {
    var g := "[a\n!sendorder b\n]";
    OpenGroupText(t, g);
    assert forall k :: 0 < k < |g| - 1 ==> g[k] != ']';
    CommandLine(Prefix, g, "c");
  }

  /** The message is the prefix, the open group with its two newlines, one space and `c`. */
  lemma OpenGroupText(t: string, g: string)
    requires t == "!sendorder[a\n!sendorder b\n] c" && g == "[a\n!sendorder b\n]"
    ensures t == Prefix + g + " " + "c"
  {
  }

  /** An order may follow a line of chatter. */
  lemma OrderAfterChatter(t: string)
    requires t == "Orders follow.\n!sendorder hold"
    ensures ParseOrder(t) == Some(Capture("", "hold"))
  {
    var line := "Orders follow.";
    assert t == line + "\n" + Prefix + "" + " " + "hold";
    assert forall k :: 0 <= k < |line| ==> line[k] != '\n';
    CommandOnSecondLine(line, Prefix, "", "hold");
  }

  /** Of two orders the first one is used. */
  lemma FirstOfTwoOrders(t: string)
    requires t == "!sendorder first\n!sendorder second"
    ensures ParseOrder(t) == Some(Capture("", "first"))
  {
    var line, rest := "!sendorder first", "!sendorder second";
    assert t == line + "\n" + rest;
    FirstLineOrder(line);
    LaterLinesIgnored(line, rest);
  }

  /** The first line on its own is an order. */
  lemma FirstLineOrder(line: string)
    requires line == "!sendorder first"
    ensures '\n' !in line && MatchAt(line, 0) == Some(Capture("", "first"))
  {
    assert line == Prefix + "" + " " + "first";
    assert forall k :: 0 <= k < |line| ==> line[k] != '\n';
    CommandLine(Prefix, "", "first");
    ParseOrderOneLine(line);
  }
}
