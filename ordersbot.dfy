/**
 The order composer of `on_message` (ordersbot.py:16-64) and `files_from_attachments`
 (ordersbot.py:7-13). A message that is not the bot's own and holds an order command
 becomes an embed titled "Order from <affiliation>" whose description is the trimmed
 body, sent together with the message's attachments converted to files.

 The Discord objects are reduced to what the composer reads: the author's identity and
 top role, the text, and the attachments. Converting one attachment (`to_file`) is the
 parameter `toFile`.
 */
module OrdersBot {
  import opened Wrappers
  import opened Text
  import opened OrderCommand

  /** Identity of a Discord user, as far as `message.author == client.user` compares it. */
  type UserId = nat

  /** The parts of an incoming `discord.Message` the bot reads. `topRole` is the name of
      `message.author.top_role`. */
  datatype Message<A> = Message(author: UserId, content: string, topRole: string, attachments: seq<A>)

  /** The embed that is sent to the orders channel, with the files sent along with it. */
  datatype Order<F> = Order(title: string, description: string, files: seq<F>)

  /** Line 49: with a captured group (non-empty, hence truthy) its text with every `[`
      and every `]` removed, in that order; otherwise the author's top role. */
  function Affiliation(bracket: string, topRole: string): (a: string)
    ensures bracket == [] ==> a == topRole
    ensures bracket != [] ==> '[' !in a && ']' !in a
    ensures bracket != [] ==> forall x :: x in a <==> x in bracket && x != '[' && x != ']'
    ensures bracket != [] ==> |a| <= |bracket|
  {
    if bracket != [] then Without(Without(bracket, '['), ']') else topRole
  }

  /** A group `[x]` (no `]` inside, as group 1 always is) gives `x` without its `[`s,
      the characters that are left kept in order. */
  lemma AffiliationOfGroup(x: string, topRole: string)
    requires ']' !in x
    ensures Affiliation("[" + x + "]", topRole) == Without(x, '[')
  {
    WithoutAppend("[" + x, "]", '[');
    WithoutAppend("[", x, '[');
    WithoutSingle('[', '[');
    WithoutSingle(']', '[');
    WithoutAppend(Without(x, '['), "]", ']');
    WithoutSingle(']', ']');
    WithoutAbsent(Without(x, '['), ']');
  }

  /** The captured group `[...]` without brackets inside it gives exactly the text between. */
  lemma AffiliationOfPlainGroup(x: string, topRole: string)
    requires '[' !in x && ']' !in x
    ensures Affiliation("[" + x + "]", topRole) == x
  {
    AffiliationOfGroup(x, topRole);
    WithoutAbsent(x, '[');
  }

  /** `[]` is captured and truthy, so it gives the empty affiliation, not the top role. */
  lemma AffiliationOfEmptyGroup(topRole: string)
    ensures Affiliation("[]", topRole) == ""
  {
    AffiliationOfGroup("", topRole);
    assert "[" + "" + "]" == "[]";
  }

  /** Every `[` goes, not only the outer one: `[a[b]` gives `ab`. */
  lemma AffiliationOfNestedBracket(topRole: string)
    ensures Affiliation("[a[b]", topRole) == "ab"
  {
    AffiliationOfGroup("a[b", topRole);
    assert "[" + "a[b" + "]" == "[a[b]";
    assert "a[b" == "a" + "[" + "b";
    WithoutAppend("a" + "[", "b", '[');
    WithoutAppend("a", "[", '[');
    WithoutSingle('a', '[');
    WithoutSingle('[', '[');
    WithoutSingle('b', '[');
  }

  /** The fixed part of the title, line 53. */
  const TitleLead: string := "Order from "

  /** `"Order from %s" % affiliation` (line 53). */
  function Title(affiliation: string): (t: string)
    ensures |t| == |TitleLead| + |affiliation|
    ensures t[..|TitleLead|] == TitleLead && t[|TitleLead|..] == affiliation
  {
    TitleLead + affiliation
  }

  /** Different affiliations give different titles. */
  lemma TitleInjective(a: string, b: string)
    requires Title(a) == Title(b)
    ensures a == b
  {
    assert a == Title(a)[|TitleLead|..];
  }

  /** The value of `files` after the loop of `files_from_attachments`, built one
      attachment at a time as the loop appends. */
  function Converted<A, F>(attachments: seq<A>, toFile: A -> F): (files: seq<F>)
    ensures |files| == |attachments|
  {
    if attachments == [] then []
    else Converted(attachments[..|attachments| - 1], toFile) + [toFile(attachments[|attachments| - 1])]
  }

  /** The conversion keeps the order: the i-th file comes from the i-th attachment. */
  lemma {:induction false} KeepsOrder<A, F>(attachments: seq<A>, toFile: A -> F)
    ensures |Converted(attachments, toFile)| == |attachments|
    ensures forall i :: 0 <= i < |attachments| ==> Converted(attachments, toFile)[i] == toFile(attachments[i])
  {
    if attachments != [] {
      var init := attachments[..|attachments| - 1];
      KeepsOrder(init, toFile);
      forall i | 0 <= i < |attachments|
        ensures Converted(attachments, toFile)[i] == toFile(attachments[i])
      {
        if i < |init| {
          assert attachments[i] == init[i];
        }
      }
    }
  }

  /** `files_from_attachments` (ordersbot.py:7-13): the loop appends the converted
      attachments one by one. */
  method FilesFromAttachments<A, F>(attachments: seq<A>, toFile: A -> F) returns (files: seq<F>)
    ensures files == Converted(attachments, toFile)
    ensures |files| == |attachments|
    ensures forall i :: 0 <= i < |attachments| ==> files[i] == toFile(attachments[i])
  {
    files := [];
    for i := 0 to |attachments|
      invariant files == Converted(attachments[..i], toFile)
    {
      assert attachments[..i + 1][..i] == attachments[..i];
      files := files + [toFile(attachments[i])];
    }
    assert attachments[..|attachments|] == attachments;
    KeepsOrder(attachments, toFile);
  }

  /** What `on_message` sends for message `m` when the bot is `botUser`: None when the
      message is the bot's own (lines 20-21) or holds no order command (line 36); otherwise
      the embed of lines 52-55 with the files of line 45. */
  function OnMessage<A, F>(m: Message<A>, botUser: UserId, toFile: A -> F): (r: Option<Order<F>>)
    ensures m.author == botUser ==> r.None?
    ensures m.author != botUser ==> (r.Some? <==> ParseOrder(m.content).Some?)
    ensures r.Some? ==>
      var c := ParseOrder(m.content).value;
      && r.value.title == Title(Affiliation(c.bracket, m.topRole))
      && r.value.description == Strip(c.body)
      && r.value.files == Converted(m.attachments, toFile)
    ensures r.Some? ==> '\n' !in r.value.description && |r.value.files| == |m.attachments|
  {
    if m.author == botUser then None
    else
      match ParseOrder(m.content)
      case None => None
      case Some(c) =>
        StripFromSource(c.body, '\n');
        Some(Order(Title(Affiliation(c.bracket, m.topRole)), Strip(c.body), Converted(m.attachments, toFile)))
  }

  /** A message from someone else that is one command line, its prefix in any case,
      becomes the order built from its group and body. */
  lemma OrderOfCommandLine<A, F>(m: Message<A>, botUser: UserId, toFile: A -> F, w: string, g: string, body: string)
    requires m.author != botUser && m.content == w + g + " " + body
    requires IsPrefixWord(w) && OptionalGroup(g) && body != [] && '\n' !in body
    ensures OnMessage(m, botUser, toFile) == Some(Order(Title(Affiliation(g, m.topRole)), Strip(body), Converted(m.attachments, toFile)))
  {
    CommandLine(w, g, body);
  }
}
