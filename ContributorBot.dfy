/**
 * The contributor commands of the pull-request bot, as the scenarios of
 * ContributorTests fix them: an ordered list of contributors changed by
 * "/contributor add|remove Full Name <email>", replies to every command, the
 * author-only rule, "Co-authored-by" credit lines in the commit message, a
 * one-off "can now be integrated" notice, and "/integrate".
 *
 * Each bot run reads the comments posted since the previous run, answers
 * them in order, then posts (or refreshes in place) the readiness notice.
 */
module ContributorBot {
  import opened Wrappers
  import opened GitHubReviews

  datatype Contributor = Contributor(fullName: string, email: string)

  /** A contributor that has a textual form the bot can read back. */
  predicate ValidContributor(c: Contributor) {
    |c.fullName| > 0 && '<' !in c.fullName && |c.email| > 0
  }

  function FormatContributor(c: Contributor): string {
    c.fullName + " <" + c.email + ">"
  }

  const CoAuthorPrefix := "Co-authored-by: "

  /**
   * The trailer line that credits one contributor: the prefix, then the
   * contributor's text, which reads back as that contributor.
   */
  function CreditLine(c: Contributor): (line: string)
    ensures HasPrefix(line, CoAuthorPrefix)
    ensures ValidContributor(c) ==> ParseContributor(line[|CoAuthorPrefix|..]) == Some(c)
  {
    var line := CoAuthorPrefix + FormatContributor(c);
    assert line[..|CoAuthorPrefix|] == CoAuthorPrefix && line[|CoAuthorPrefix|..] == FormatContributor(c);
    if ValidContributor(c) then ParseFormat(c); line else line
  }

  predicate HasPrefix(s: string, p: string) {
    |p| <= |s| && s[..|p|] == p
  }

  predicate OccursAt(s: string, part: string, i: int) {
    0 <= i <= |s| - |part| && s[i..i + |part|] == part
  }

  ghost predicate Contains(s: string, part: string) {
    exists i :: OccursAt(s, part, i)
  }

  lemma ContainsMiddle(a: string, b: string, c: string)
    ensures Contains(a + b + c, b)
  {
    assert OccursAt(a + b + c, b, |a|);
  }

  /** The first position of ch in s, if any. */
  function IndexOf(s: string, ch: char): (r: Option<nat>)
    ensures r.Some? ==> r.value < |s| && s[r.value] == ch && ch !in s[..r.value]
    ensures r.None? ==> ch !in s
    decreases |s|
  {
    if s == [] then None
    else if s[0] == ch then Some(0)
    else
      match IndexOf(s[1..], ch)
      case None => None
      case Some(k) =>
        assert s[..k + 1] == [s[0]] + s[1..][..k];
        Some(k + 1)
  }

  /** Reads "Full Name <email>": the name ends before the first '<'. */
  function ParseContributor(s: string): Option<Contributor> {
    match IndexOf(s, '<')
    case None => None
    case Some(k) =>
      if 2 <= k && s[k - 1] == ' ' && k + 3 <= |s| && s[|s| - 1] == '>'
      then Some(Contributor(s[..k - 1], s[k + 1..|s| - 1]))
      else None
  }

  /** A valid contributor is read back from its textual form. */
  lemma ParseFormat(c: Contributor)
    requires ValidContributor(c)
    ensures ParseContributor(FormatContributor(c)) == Some(c)
  {
    var s := FormatContributor(c);
    var k := |c.fullName| + 1;
    assert s[..k] == c.fullName + " ";
    assert s[k] == '<';
    assert '<' !in s[..k];
    assert IndexOf(s, '<') == Some(k);
    assert s[..k - 1] == c.fullName;
    assert s[k + 1..|s| - 1] == c.email;
  }

  /** Whatever the bot reads as a contributor is the textual form of a valid one. */
  lemma FormatParse(s: string)
    requires ParseContributor(s).Some?
    ensures ValidContributor(ParseContributor(s).value)
    ensures FormatContributor(ParseContributor(s).value) == s
  {
    var k := IndexOf(s, '<').value;
    var c := ParseContributor(s).value;
    assert c.fullName == s[..k - 1];
    assert '<' !in c.fullName by {
      assert forall i :: 0 <= i < k - 1 ==> c.fullName[i] == s[..k][i];
    }
    assert s == s[..k - 1] + " <" + s[k + 1..|s| - 1] + ">";
  }

  /** Distinct contributors are credited by distinct lines. */
  lemma CreditLineInjective(c: Contributor, d: Contributor)
    requires ValidContributor(c) && ValidContributor(d)
    ensures CreditLine(c) == CreditLine(d) <==> c == d
  {
    if CreditLine(c) == CreditLine(d) {
      assert CreditLine(c)[|CoAuthorPrefix|..] == FormatContributor(c);
      assert CreditLine(d)[|CoAuthorPrefix|..] == FormatContributor(d);
      ParseFormat(c);
      ParseFormat(d);
    }
  }

  datatype Command =
    | AddCommand(contributor: Contributor)
    | RemoveCommand(contributor: Contributor)
    | ContributorSyntaxError
    | Integrate
    | NotACommand

  const ContributorVerb := "/contributor"

  function ParseContributorArgs(args: string): Command {
    if HasPrefix(args, "add ") then
      match ParseContributor(args[4..])
      case Some(c) => AddCommand(c)
      case None => ContributorSyntaxError
    else if HasPrefix(args, "remove ") then
      match ParseContributor(args[7..])
      case Some(c) => RemoveCommand(c)
      case None => ContributorSyntaxError
    else ContributorSyntaxError
  }

  /**
   * The command of a comment line. A "/contributor" line with arguments the
   * bot cannot read is a syntax error; lines that start with no known verb
   * are not commands.
   */
  function ParseCommand(line: string): Command {
    if line == "/integrate" then Integrate
    else if line == ContributorVerb then ContributorSyntaxError
    else if HasPrefix(line, ContributorVerb + " ") then ParseContributorArgs(line[|ContributorVerb| + 1..])
    else NotACommand
  }

  function AddLine(c: Contributor): string { ContributorVerb + " " + ("add " + FormatContributor(c)) }
  function RemoveLine(c: Contributor): string { ContributorVerb + " " + ("remove " + FormatContributor(c)) }

  /** The add and remove lines of a valid contributor are read as those commands. */
  lemma ParseContributorLines(c: Contributor)
    requires ValidContributor(c)
    ensures ParseCommand(AddLine(c)) == AddCommand(c)
    ensures ParseCommand(RemoveLine(c)) == RemoveCommand(c)
  {
    ParseFormat(c);
    ParseAddLine(c);
    ParseRemoveLine(c);
  }

  /** A line of the verb, a space and arguments is read by its arguments. */
  lemma ParseVerbLine(args: string)
    ensures ParseCommand(ContributorVerb + " " + args) == ParseContributorArgs(args)
  {
    var line := ContributorVerb + " " + args;
    assert |ContributorVerb| == 12;
    assert line[..13] == ContributorVerb + " ";
    assert line[13..] == args;
    assert line != "/integrate" && line != ContributorVerb by { assert |line| >= 13; }
  }

  lemma ParseAddLine(c: Contributor)
    requires ParseContributor(FormatContributor(c)) == Some(c)
    ensures ParseCommand(AddLine(c)) == AddCommand(c)
  {
    var args := "add " + FormatContributor(c);
    ParseVerbLine(args);
    assert args[..4] == "add " && args[4..] == FormatContributor(c);
  }

  lemma ParseRemoveLine(c: Contributor)
    requires ParseContributor(FormatContributor(c)) == Some(c)
    ensures ParseCommand(RemoveLine(c)) == RemoveCommand(c)
  {
    var args := "remove " + FormatContributor(c);
    ParseVerbLine(args);
    assert args[..4] != "add " by { assert args[..4][0] == 'r' && "add "[0] == 'a'; }
    assert args[..7] == "remove " && args[7..] == FormatContributor(c);
  }

  /** "/contributor hello" is a syntax error. */
  lemma UnreadableArgumentsAreSyntaxError()
    ensures ParseCommand("/contributor hello") == ContributorSyntaxError
  {
    var line := "/contributor hello";
    assert line[..13] == ContributorVerb + " ";
    assert line[13..] == "hello";
    assert !HasPrefix("hello", "add ") by { assert "hello"[0] != 'a'; }
    assert !HasPrefix("hello", "remove ") by { assert |"hello"| < 7; }
  }

  // Replies of the bot
  // The phrase a reader looks for in a reply is kept as a piece of its own,
  // so that ContainsMiddle shows the reply contains it without the verifier
  // comparing the whole text character by character.

  const SyntaxReply := "Syntax" + (": `/contributor " + "(add|remove) Full Name" + " <email@address>`")
  const OnlyAuthorReply := "Only the author" + " of this change may issue that command."
  const NotReadyReply := "This change is not yet ready to be integrated."
  const ReadyHeader := "This " + "change can now be integrated" + ". The commit message will be:"

  function AddedReply(c: Contributor): string {
    "Contributor `" + FormatContributor(c) + "` " + "successfully added" + "."
  }

  function RemovedReply(c: Contributor): string {
    "Contributor `" + FormatContributor(c) + "` " + "successfully removed" + "."
  }

  function NotFoundReply(c: Contributor): string {
    "Contributor `" + FormatContributor(c) + "` " + "was not found" + "."
  }

  function PushedReply(hash: string): string {
    "Pushed as commit" + " " + hash + "."
  }

  predicate Distinct(cs: seq<Contributor>) {
    forall i, j :: 0 <= i < j < |cs| ==> cs[i] != cs[j]
  }

  /** cs without c, in the order of cs. */
  function Without(cs: seq<Contributor>, c: Contributor): (r: seq<Contributor>)
    ensures forall d :: d in r <==> d in cs && d != c
    ensures Distinct(cs) ==> Distinct(r)
    ensures |r| <= |cs|
    decreases |cs|
  {
    if cs == [] then []
    else
      var n := |cs| - 1;
      var init := Without(cs[..n], c);
      assert forall d :: d in cs <==> d in cs[..n] || d == cs[n];
      assert Distinct(cs) ==> Distinct(cs[..n]);
      if cs[n] == c then init
      else
        assert Distinct(cs) ==> cs[n] !in cs[..n];
        init + [cs[n]]
  }

  /** Taking out a contributor that is not listed changes nothing. */
  lemma {:induction false} WithoutAbsent(cs: seq<Contributor>, c: Contributor)
    requires c !in cs
    ensures Without(cs, c) == cs
    decreases |cs|
  {
    if cs != [] {
      var n := |cs| - 1;
      WithoutAbsent(cs[..n], c);
      assert cs[..n] + [cs[n]] == cs;
    }
  }

  /** In a list without duplicates, Without cuts out the one entry and keeps the others in order. */
  lemma {:induction false} WithoutKeepsOrder(cs: seq<Contributor>, c: Contributor, k: int)
    requires Distinct(cs) && 0 <= k < |cs| && cs[k] == c
    ensures Without(cs, c) == cs[..k] + cs[k + 1..]
    decreases |cs|
  {
    var n := |cs| - 1;
    if k == n {
      assert c !in cs[..n];
      WithoutAbsent(cs[..n], c);
      assert cs[..k] + cs[k + 1..] == cs[..n];
    } else {
      assert cs[n] != c;
      WithoutKeepsOrder(cs[..n], c, k);
      assert cs[..n][..k] == cs[..k];
      assert cs[..n][k + 1..] + [cs[n]] == cs[k + 1..];
    }
  }

  /** "/contributor add": the contributor is appended unless already listed. */
  function AddStep(cs: seq<Contributor>, c: Contributor): (r: (seq<Contributor>, string))
    ensures c in r.0 && forall d :: d in r.0 <==> d in cs || d == c
    ensures |cs| <= |r.0| && r.0[..|cs|] == cs
    ensures Distinct(cs) ==> Distinct(r.0)
    ensures Contains(r.1, "successfully added")
  {
    ContainsMiddle("Contributor `" + FormatContributor(c) + "` ", "successfully added", ".");
    (if c in cs then cs else cs + [c], AddedReply(c))
  }

  /**
   * "/contributor remove": a listed contributor is taken out; one that is not
   * listed is an error reply and the list stays as it was.
   */
  function RemoveStep(cs: seq<Contributor>, c: Contributor): (r: (seq<Contributor>, string))
    ensures c !in r.0 && forall d :: d in r.0 <==> d in cs && d != c
    ensures c !in cs ==> r.0 == cs
    ensures Distinct(cs) ==> Distinct(r.0)
    ensures Distinct(cs) ==> forall k :: 0 <= k < |cs| && cs[k] == c ==> r.0 == cs[..k] + cs[k + 1..]
    ensures c in cs ==> Contains(r.1, "successfully removed")
    ensures c !in cs ==> Contains(r.1, "was not found")
  {
    if c in cs then
      assert Distinct(cs) ==> forall k :: 0 <= k < |cs| && cs[k] == c ==> Without(cs, c) == cs[..k] + cs[k + 1..] by {
        if Distinct(cs) {
          forall k | 0 <= k < |cs| && cs[k] == c ensures Without(cs, c) == cs[..k] + cs[k + 1..] {
            WithoutKeepsOrder(cs, c, k);
          }
        }
      }
      ContainsMiddle("Contributor `" + FormatContributor(c) + "` ", "successfully removed", ".");
      (Without(cs, c), RemovedReply(c))
    else
      ContainsMiddle("Contributor `" + FormatContributor(c) + "` ", "was not found", ".");
      (cs, NotFoundReply(c))
  }

  /**
   * Removing the same contributor twice: the second removal is answered with
   * "was not found" and changes nothing.
   */
  lemma RemoveTwice(cs: seq<Contributor>, c: Contributor)
    ensures var once := RemoveStep(cs, c).0;
            var twice := RemoveStep(once, c);
            twice.0 == once && c !in once && Contains(twice.1, "was not found")
  {
  }

  /** The commit message: title, then one credit line per contributor, in order. */
  function CommitMessage(title: string, cs: seq<Contributor>): (lines: seq<string>)
    ensures |lines| >= 1 && lines[0] == title
    ensures cs == [] <==> |lines| == 1
    ensures cs != [] ==> |lines| == |cs| + 2 && lines[1] == ""
    ensures forall i :: 0 <= i < |cs| ==> lines[i + 2] == CreditLine(cs[i])
  {
    [title] + if cs == [] then [] else [""] + seq(|cs|, i requires 0 <= i < |cs| => CreditLine(cs[i]))
  }

  /**
   * Each valid contributor is credited in the commit message exactly when it
   * is listed, as long as the title is not itself a credit line.
   */
  lemma CreditedIff(title: string, cs: seq<Contributor>, c: Contributor)
    requires ValidContributor(c) && forall d :: d in cs ==> ValidContributor(d)
    requires !HasPrefix(title, CoAuthorPrefix)
    ensures CreditLine(c) in CommitMessage(title, cs) <==> c in cs
  {
    var msg := CommitMessage(title, cs);
    assert HasPrefix(CreditLine(c), CoAuthorPrefix);
    if c in cs {
      var i :| 0 <= i < |cs| && cs[i] == c;
      assert msg[i + 2] == CreditLine(c);
    }
    if CreditLine(c) in msg {
      var k :| 0 <= k < |msg| && msg[k] == CreditLine(c);
      assert k != 0;
      assert CreditLine(c) != "";
      assert k >= 2 && msg[k] == CreditLine(cs[k - 2]);
      CreditLineInjective(c, cs[k - 2]);
    }
  }

  /** The readiness notice: a fixed first line, then the commit message. */
  function NoticeBody(title: string, cs: seq<Contributor>): (body: seq<string>)
    ensures IsNotice(body)
  {
    [ReadyHeader, ""] + CommitMessage(title, cs)
  }

  predicate IsNotice(body: seq<string>) {
    |body| > 0 && body[0] == ReadyHeader
  }

  // The comment stream and one bot run

  datatype Comment = Comment(author: string, body: seq<string>)

  /** The bot's own readiness notice. */
  predicate IsNoticeBy(c: Comment, bot: string) {
    c.author == bot && IsNotice(c.body)
  }

  /** The number of readiness notices in the stream. */
  function NoticeCount(cs: seq<Comment>, bot: string): nat
    decreases |cs|
  {
    if cs == [] then 0
    else NoticeCount(cs[..|cs| - 1], bot) + (if IsNoticeBy(cs[|cs| - 1], bot) then 1 else 0)
  }

  /** The first readiness notice in the stream. */
  function NoticeIndex(cs: seq<Comment>, bot: string): (r: Option<nat>)
    ensures r.Some? ==> r.value < |cs| && IsNoticeBy(cs[r.value], bot)
    ensures r.Some? ==> forall k :: 0 <= k < r.value ==> !IsNoticeBy(cs[k], bot)
    ensures r.None? ==> forall k :: 0 <= k < |cs| ==> !IsNoticeBy(cs[k], bot)
    decreases |cs|
  {
    if cs == [] then None
    else if IsNoticeBy(cs[0], bot) then Some(0)
    else
      match NoticeIndex(cs[1..], bot)
      case None => None
      case Some(k) => Some(k + 1)
  }

  /** What a bot run works with besides the stream: who is who, and what it found. */
  datatype Setting = Setting(author: string, bot: string, title: string, ready: bool, pushHash: string)

  /** What the bot derives from the commands: the contributors and the integrated commit. */
  datatype Ledger = Ledger(contributors: seq<Contributor>, integrated: Option<seq<string>>)

  function CommandOf(c: Comment, bot: string): Command {
    if c.author == bot || c.body == [] then NotACommand else ParseCommand(c.body[0])
  }

  /**
   * The effect of one comment on the ledger, and the bot's reply to it.
   * Every command gets one reply and nothing else does; a comment by anyone
   * but the author changes nothing; only "/integrate" on a ready change
   * records the commit message, and only once.
   */
  function Handle(st: Ledger, c: Comment, env: Setting): (r: (Ledger, Option<string>))
    ensures r.1.Some? <==> !CommandOf(c, env.bot).NotACommand?
    ensures c.author != env.author ==> r.0 == st
    ensures c.author != env.author && r.1.Some? ==> r.1.value == OnlyAuthorReply
    ensures r.0.integrated != st.integrated ==>
              env.ready && st.integrated.None? && r.0.integrated == Some(CommitMessage(env.title, st.contributors))
    ensures Distinct(st.contributors) ==> Distinct(r.0.contributors)
  {
    var command := CommandOf(c, env.bot);
    if command.NotACommand? then (st, None)
    else if c.author != env.author then (st, Some(OnlyAuthorReply))
    else
      match command
      case ContributorSyntaxError => (st, Some(SyntaxReply))
      case AddCommand(x) =>
        var (cs, reply) := AddStep(st.contributors, x);
        (st.(contributors := cs), Some(reply))
      case RemoveCommand(x) =>
        var (cs, reply) := RemoveStep(st.contributors, x);
        (st.(contributors := cs), Some(reply))
      case Integrate =>
        if env.ready && st.integrated.None? then
          (st.(integrated := Some(CommitMessage(env.title, st.contributors))), Some(PushedReply(env.pushHash)))
        else (st, Some(NotReadyReply))
  }

  function ReplyComments(reply: Option<string>, bot: string): seq<Comment> {
    match reply
    case None => []
    case Some(r) => [Comment(bot, [r])]
  }

  /** Handling the pending comments in order: the ledger and the replies. */
  function Replay(st: Ledger, pending: seq<Comment>, env: Setting): (Ledger, seq<Comment>)
    decreases |pending|
  {
    if pending == [] then (st, [])
    else
      var (st1, replies) := Replay(st, pending[..|pending| - 1], env);
      var (st2, reply) := Handle(st1, pending[|pending| - 1], env);
      (st2, replies + ReplyComments(reply, env.bot))
  }

  /** Post the notice, or refresh the first one in place. */
  function PostNotice(cs: seq<Comment>, bot: string, body: seq<string>): seq<Comment> {
    match NoticeIndex(cs, bot)
    case Some(k) => cs[k := Comment(bot, body)]
    case None => cs + [Comment(bot, body)]
  }

  /** The pull request as the bot sees it: the stream, how much of it was handled, the ledger. */
  datatype Snapshot = Snapshot(comments: seq<Comment>, handled: nat, ledger: Ledger)

  predicate WellFormed(s: Snapshot) {
    s.handled <= |s.comments|
  }

  /** The stream after the notice step of a run. */
  function Announce(cs: seq<Comment>, st: Ledger, env: Setting): seq<Comment> {
    if env.ready && st.integrated.None? then PostNotice(cs, env.bot, NoticeBody(env.title, st.contributors))
    else cs
  }

  /** One bot run: answer the pending comments, then post or refresh the notice. */
  function BotRun(s: Snapshot, env: Setting): (r: Snapshot)
    requires WellFormed(s)
    ensures WellFormed(r) && r.handled == |r.comments|
    ensures |s.comments| <= |r.comments|
    ensures forall k :: 0 <= k < |s.comments| && !IsNoticeBy(s.comments[k], env.bot) ==> r.comments[k] == s.comments[k]
  {
    var (st, replies) := Replay(s.ledger, s.comments[s.handled..], env);
    var cs := Announce(s.comments + replies, st, env);
    Snapshot(cs, |cs|, st)
  }

  // Properties of a bot run

  lemma FixedRepliesAreNoNotices()
    ensures ReadyHeader[0] == 'T'
    ensures ReadyHeader != NotReadyReply && ReadyHeader != OnlyAuthorReply && ReadyHeader != SyntaxReply
  {
    assert ReadyHeader[12] == 'c' && NotReadyReply[12] == 'i';
    assert OnlyAuthorReply[0] == 'O';
    assert SyntaxReply[0] == 'S';
  }

  /** No reply of the bot reads as the readiness notice. */
  lemma RepliesAreNoNotices(st: Ledger, c: Comment, env: Setting)
    ensures forall r :: r in ReplyComments(Handle(st, c, env).1, env.bot) ==> !IsNoticeBy(r, env.bot)
  {
    FixedRepliesAreNoNotices();
    var command := CommandOf(c, env.bot);
    if !command.NotACommand? && c.author == env.author {
      match command
      case AddCommand(x) => assert AddedReply(x)[0] == 'C';
      case RemoveCommand(x) => assert RemovedReply(x)[0] == 'C' && NotFoundReply(x)[0] == 'C';
      case Integrate => assert PushedReply(env.pushHash)[0] == 'P';
      case ContributorSyntaxError =>
    }
  }

  lemma {:induction false} NoticeCountAppend(cs: seq<Comment>, more: seq<Comment>, bot: string)
    requires forall r :: r in more ==> !IsNoticeBy(r, bot)
    ensures NoticeCount(cs + more, bot) == NoticeCount(cs, bot)
    decreases |more|
  {
    if more != [] {
      var n := |more| - 1;
      var all := cs + more;
      assert all[..|all| - 1] == cs + more[..n];
      assert all[|all| - 1] == more[n];
      assert more[n] in more;
      assert !IsNoticeBy(all[|all| - 1], bot);
      assert forall r :: r in more[..n] ==> r in more;
      NoticeCountAppend(cs, more[..n], bot);
      assert NoticeCount(all, bot) == NoticeCount(all[..|all| - 1], bot);
    } else {
      assert cs + more == cs;
    }
  }

  lemma {:induction false} NoticeCountNone(cs: seq<Comment>, bot: string)
    requires forall k :: 0 <= k < |cs| ==> !IsNoticeBy(cs[k], bot)
    ensures NoticeCount(cs, bot) == 0
    decreases |cs|
  {
    if cs != [] {
      NoticeCountNone(cs[..|cs| - 1], bot);
    }
  }

  /** Replacing one comment changes the count by what the two comments contribute. */
  lemma {:induction false} NoticeCountUpdate(cs: seq<Comment>, k: nat, c: Comment, bot: string)
    requires k < |cs|
    ensures NoticeCount(cs[k := c], bot) + (if IsNoticeBy(cs[k], bot) then 1 else 0)
            == NoticeCount(cs, bot) + (if IsNoticeBy(c, bot) then 1 else 0)
    decreases |cs|
  {
    var n := |cs| - 1;
    var cs' := cs[k := c];
    if k == n {
      assert cs'[..n] == cs[..n];
    } else {
      assert cs'[..n] == cs[..n][k := c];
      NoticeCountUpdate(cs[..n], k, c, bot);
    }
  }

  lemma {:induction false} NoticeCountPositive(cs: seq<Comment>, bot: string, k: nat)
    requires k < |cs| && IsNoticeBy(cs[k], bot)
    ensures NoticeCount(cs, bot) >= 1
    decreases |cs|
  {
    if k < |cs| - 1 {
      NoticeCountPositive(cs[..|cs| - 1], bot, k);
    }
  }

  /** Where the first notice is, given that no comment before it is one. */
  lemma NoticeIndexAt(cs: seq<Comment>, bot: string, k: nat)
    requires k < |cs| && IsNoticeBy(cs[k], bot)
    requires forall j :: 0 <= j < k ==> !IsNoticeBy(cs[j], bot)
    ensures NoticeIndex(cs, bot) == Some(k)
  {
  }

  /**
   * Posting the notice on a stream with at most one notice leaves exactly
   * one, carrying the new body; posting the same body again changes nothing.
   */
  lemma PostNoticeSpec(cs: seq<Comment>, bot: string, body: seq<string>)
    requires IsNotice(body) && NoticeCount(cs, bot) <= 1
    ensures var after := PostNotice(cs, bot, body);
            && NoticeCount(after, bot) == 1
            && NoticeIndex(after, bot).Some? && after[NoticeIndex(after, bot).value] == Comment(bot, body)
            && PostNotice(after, bot, body) == after
  {
    var notice := Comment(bot, body);
    var after := PostNotice(cs, bot, body);
    match NoticeIndex(cs, bot)
    case Some(k) =>
      NoticeCountUpdate(cs, k, notice, bot);
      NoticeCountPositive(cs, bot, k);
      NoticeIndexAt(after, bot, k);
    case None =>
      NoticeCountNone(cs, bot);
      assert after[..|after| - 1] == cs;
      NoticeIndexAt(after, bot, |cs|);
  }

  /** Handling the pending comments keeps the contributor list an ordered set. */
  lemma {:induction false} ReplayKeepsDistinct(st: Ledger, pending: seq<Comment>, env: Setting)
    requires Distinct(st.contributors)
    ensures Distinct(Replay(st, pending, env).0.contributors)
    decreases |pending|
  {
    if pending != [] {
      ReplayKeepsDistinct(st, pending[..|pending| - 1], env);
    }
  }

  /**
   * The readiness notice is never posted twice: a run keeps at most one, and
   * after a run that finds the change ready and not yet integrated there is
   * exactly one, showing the commit message of the current contributors.
   */
  lemma NoticeAtMostOnce(s: Snapshot, env: Setting)
    requires WellFormed(s) && NoticeCount(s.comments, env.bot) <= 1
    ensures NoticeCount(BotRun(s, env).comments, env.bot) <= 1
    ensures env.ready && BotRun(s, env).ledger.integrated.None? ==>
              && NoticeCount(BotRun(s, env).comments, env.bot) == 1
              && var cs := BotRun(s, env).comments;
                 NoticeIndex(cs, env.bot).Some? &&
                 cs[NoticeIndex(cs, env.bot).value].body
                   == NoticeBody(env.title, BotRun(s, env).ledger.contributors)
  {
    var (st, replies) := Replay(s.ledger, s.comments[s.handled..], env);
    ReplyNoNotices(s.ledger, s.comments[s.handled..], env);
    NoticeCountAppend(s.comments, replies, env.bot);
    if env.ready && st.integrated.None? {
      PostNoticeSpec(s.comments + replies, env.bot, NoticeBody(env.title, st.contributors));
    }
  }

  lemma {:induction false} ReplyNoNotices(st: Ledger, pending: seq<Comment>, env: Setting)
    ensures forall r :: r in Replay(st, pending, env).1 ==> !IsNoticeBy(r, env.bot)
    decreases |pending|
  {
    if pending != [] {
      var n := |pending| - 1;
      ReplyNoNotices(st, pending[..n], env);
      RepliesAreNoNotices(Replay(st, pending[..n], env).0, pending[n], env);
    }
  }

  /** The ledger and the stream after handling `pending` on top of `stream`. */
  function ReplayOnto(st: Ledger, stream: seq<Comment>, pending: seq<Comment>, env: Setting): (Ledger, seq<Comment>) {
    var r := Replay(st, pending, env);
    (r.0, stream + r.1)
  }

  lemma ReplayOntoStep(st: Ledger, stream: seq<Comment>, pending: seq<Comment>, i: nat, env: Setting)
    requires i < |pending|
    ensures var before := ReplayOnto(st, stream, pending[..i], env);
            var h := Handle(before.0, pending[i], env);
            ReplayOnto(st, stream, pending[..i + 1], env) == (h.0, before.1 + ReplyComments(h.1, env.bot))
  {
    assert pending[..i + 1][..i] == pending[..i];
    var r := Replay(st, pending[..i], env);
    var h := Handle(r.0, pending[i], env);
    assert stream + (r.1 + ReplyComments(h.1, env.bot)) == (stream + r.1) + ReplyComments(h.1, env.bot);
  }

  /** A bot run keeps the contributor list free of duplicates. */
  lemma RunKeepsDistinct(s: Snapshot, env: Setting)
    requires WellFormed(s) && Distinct(s.ledger.contributors)
    ensures Distinct(BotRun(s, env).ledger.contributors)
  {
    ReplayKeepsDistinct(s.ledger, s.comments[s.handled..], env);
  }

  /**
   * Running the bot again on an unchanged pull request changes nothing: no
   * command is answered twice and the notice is not posted again.
   */
  lemma BotRunIdempotent(s: Snapshot, env: Setting)
    requires WellFormed(s) && NoticeCount(s.comments, env.bot) <= 1
    ensures WellFormed(BotRun(s, env))
    ensures BotRun(BotRun(s, env), env) == BotRun(s, env)
  {
    var (st, replies) := Replay(s.ledger, s.comments[s.handled..], env);
    var s1 := BotRun(s, env);
    assert s1.comments[s1.handled..] == [];
    assert s1.comments + [] == s1.comments;
    if env.ready && st.integrated.None? {
      ReplyNoNotices(s.ledger, s.comments[s.handled..], env);
      NoticeCountAppend(s.comments, replies, env.bot);
      PostNoticeSpec(s.comments + replies, env.bot, NoticeBody(env.title, st.contributors));
    }
  }

  /** The number of bot comments whose whole body is the one line `text`. */
  function ReplyCount(cs: seq<Comment>, bot: string, text: string): nat
    decreases |cs|
  {
    if cs == [] then 0
    else ReplyCount(cs[..|cs| - 1], bot, text) + (if cs[|cs| - 1] == Comment(bot, [text]) then 1 else 0)
  }

  lemma {:induction false} ReplyCountAppendOne(cs: seq<Comment>, c: Comment, bot: string, text: string)
    ensures ReplyCount(cs + [c], bot, text) == ReplyCount(cs, bot, text) + (if c == Comment(bot, [text]) then 1 else 0)
  {
    assert (cs + [c])[..|cs|] == cs;
  }

  /** Refreshing or posting the notice leaves every one-line reply in place. */
  lemma {:induction false} ReplyCountUpdate(cs: seq<Comment>, k: nat, c: Comment, bot: string, text: string)
    requires k < |cs| && cs[k] != Comment(bot, [text]) && c != Comment(bot, [text])
    ensures ReplyCount(cs[k := c], bot, text) == ReplyCount(cs, bot, text)
    decreases |cs|
  {
    var n := |cs| - 1;
    if k == n {
      assert cs[k := c][..n] == cs[..n];
    } else {
      assert cs[k := c][..n] == cs[..n][k := c];
      ReplyCountUpdate(cs[..n], k, c, bot, text);
    }
  }

  lemma ReplayOne(st: Ledger, c: Comment, env: Setting)
    ensures Replay(st, [c], env) == (Handle(st, c, env).0, ReplyComments(Handle(st, c, env).1, env.bot))
  {
    assert [c][..0] == [];
    assert Replay(st, [], env) == (st, []);
    var h := Handle(st, c, env);
    assert [] + ReplyComments(h.1, env.bot) == ReplyComments(h.1, env.bot);
  }

  /**
   * A command posted by anyone but the author is refused: the run answers it
   * with exactly one "Only the author" reply and changes no contributor, and
   * running the bot again adds no second reply.
   */
  lemma NonAuthorCommandRefused(s: Snapshot, env: Setting, c: Comment)
    requires s.handled == |s.comments| && NoticeCount(s.comments, env.bot) <= 1
    requires c.author != env.author && c.author != env.bot && !CommandOf(c, env.bot).NotACommand?
    ensures WellFormed(Snapshot(s.comments + [c], s.handled, s.ledger))
    ensures var s1 := BotRun(Snapshot(s.comments + [c], s.handled, s.ledger), env);
            && s1.ledger == s.ledger
            && ReplyCount(s1.comments, env.bot, OnlyAuthorReply) == ReplyCount(s.comments, env.bot, OnlyAuthorReply) + 1
            && BotRun(s1, env) == s1
  {
    var s0 := Snapshot(s.comments + [c], s.handled, s.ledger);
    assert s0.comments[s0.handled..] == [c];
    ReplayOne(s.ledger, c, env);
    var reply := Comment(env.bot, [OnlyAuthorReply]);
    var cs := s.comments + [c] + [reply];
    ReplyCountAppendOne(s.comments, c, env.bot, OnlyAuthorReply);
    ReplyCountAppendOne(s.comments + [c], reply, env.bot, OnlyAuthorReply);
    FixedRepliesAreNoNotices();
    NoticeCountAppend(s.comments, [c, reply], env.bot);
    assert s.comments + [c, reply] == cs;
    if env.ready && s.ledger.integrated.None? {
      var body := NoticeBody(env.title, s.ledger.contributors);
      var notice := Comment(env.bot, body);
      assert notice != reply;
      match NoticeIndex(cs, env.bot)
      case Some(k) =>
        assert cs[k] != reply;
        ReplyCountUpdate(cs, k, notice, env.bot, OnlyAuthorReply);
      case None =>
        ReplyCountAppendOne(cs, notice, env.bot, OnlyAuthorReply);
    }
    BotRunIdempotent(s0, env);
  }

  /**
   * The change is ready once some reviewer of the census has, as their
   * latest review, approved the head commit.
   */
  predicate Ready(reviews: seq<Review>, census: set<string>, head: string) {
    var latest := LatestByReviewer(reviews);
    exists id | id in latest.Keys :: id in census && latest[id].verdict == Approved && latest[id].hash == head
  }

  lemma LatestOfSnoc(reviews: seq<Review>, r: Review)
    ensures LatestByReviewer(reviews + [r]) == LatestByReviewer(reviews)[r.reviewer.id := r]
  {
    assert (reviews + [r])[..|reviews|] == reviews;
  }

  /** An approval of the head commit by a census reviewer makes the change ready. */
  lemma ApprovalMakesReady(reviews: seq<Review>, census: set<string>, u: User, head: string)
    requires u.id in census
    ensures Ready(reviews + [Review(u, head, Approved)], census, head)
  {
    LatestOfSnoc(reviews, Review(u, head, Approved));
    assert u.id in LatestByReviewer(reviews + [Review(u, head, Approved)]).Keys;
  }

  /**
   * Only the latest review counts: when the sole census reviewer's last word
   * is not an approval, the change is not ready, whatever they said before.
   */
  lemma LaterVerdictWithdrawsApproval(reviews: seq<Review>, u: User, hash: string, v: Verdict, head: string)
    requires v != Approved
    ensures !Ready(reviews + [Review(u, hash, v)], {u.id}, head)
  {
    LatestOfSnoc(reviews, Review(u, hash, v));
  }

  /**
   * A pull request and the part of the bot's state that lives on it: the
   * comment stream, how much of it the bot has handled, the reviews, and the
   * contributors and integration the commands produced.
   */
  class PullRequest {
    const author: string
    const bot: string
    const title: string
    const headHash: string
    /** Ids of the users with the Reviewer role in the census. */
    const census: set<string>
    var comments: seq<Comment>
    var handled: nat
    var reviews: seq<Review>
    var contributors: seq<Contributor>
    var integrated: Option<seq<string>>

    ghost predicate Valid()
      reads this
    {
      handled <= |comments| && NoticeCount(comments, bot) <= 1 && Distinct(contributors)
    }

    function State(): Snapshot
      reads this
    {
      Snapshot(comments, handled, Ledger(contributors, integrated))
    }

    /** What a bot run that pushes as pushHash finds on this pull request. */
    function Environment(pushHash: string): Setting
      reads this`reviews
    {
      Setting(author, bot, title, Ready(reviews, census, headHash), pushHash)
    }

    constructor (author: string, bot: string, title: string, headHash: string, census: set<string>)
      ensures Valid()
      ensures this.author == author && this.bot == bot && this.title == title
      ensures this.headHash == headHash && this.census == census
      ensures comments == [] && handled == 0 && reviews == [] && contributors == [] && integrated == None
    {
      this.author := author;
      this.bot := bot;
      this.title := title;
      this.headHash := headHash;
      this.census := census;
      comments := [];
      handled := 0;
      reviews := [];
      contributors := [];
      integrated := None;
    }

    /** A user other than the bot posts a one-line comment. */
    method AddComment(user: string, line: string)
      requires Valid() && user != bot
      modifies this
      ensures comments == old(comments) + [Comment(user, [line])]
      ensures handled == old(handled) && reviews == old(reviews)
      ensures contributors == old(contributors) && integrated == old(integrated)
      ensures Valid()
    {
      NoticeCountAppend(comments, [Comment(user, [line])], bot);
      comments := comments + [Comment(user, [line])];
    }

    /** A review of the head commit. */
    method AddReview(reviewer: User, verdict: Verdict)
      requires Valid()
      modifies this
      ensures reviews == old(reviews) + [Review(reviewer, headHash, verdict)]
      ensures comments == old(comments) && handled == old(handled)
      ensures contributors == old(contributors) && integrated == old(integrated)
      ensures Valid()
    {
      reviews := reviews + [Review(reviewer, headHash, verdict)];
    }

    method AddContributor(c: Contributor) returns (reply: string)
      requires Valid()
      modifies this
      ensures (contributors, reply) == AddStep(old(contributors), c)
      ensures comments == old(comments) && handled == old(handled)
      ensures reviews == old(reviews) && integrated == old(integrated)
      ensures Valid()
    {
      if c !in contributors {
        contributors := contributors + [c];
      }
      reply := AddedReply(c);
    }

    method RemoveContributor(c: Contributor) returns (reply: string)
      requires Valid()
      modifies this
      ensures (contributors, reply) == RemoveStep(old(contributors), c)
      ensures comments == old(comments) && handled == old(handled)
      ensures reviews == old(reviews) && integrated == old(integrated)
      ensures Valid()
    {
      if c in contributors {
        var kept: seq<Contributor> := [];
        for i := 0 to |contributors|
          invariant kept == Without(contributors[..i], c)
        {
          assert contributors[..i + 1][..i] == contributors[..i];
          if contributors[i] != c {
            kept := kept + [contributors[i]];
          }
        }
        assert contributors[..|contributors|] == contributors;
        contributors := kept;
        reply := RemovedReply(c);
      } else {
        reply := NotFoundReply(c);
      }
    }

    /** Handle one comment of the stream; the reply is not posted yet. */
    method Answer(c: Comment, env: Setting) returns (reply: Option<string>)
      requires Valid() && env.author == author && env.bot == bot && env.title == title
      modifies this
      ensures (Ledger(contributors, integrated), reply) == Handle(old(Ledger(contributors, integrated)), c, env)
      ensures comments == old(comments) && handled == old(handled) && reviews == old(reviews)
      ensures Valid()
    {
      var command := CommandOf(c, bot);
      if command.NotACommand? {
        reply := None;
      } else if c.author != author {
        reply := Some(OnlyAuthorReply);
      } else {
        match command
        case ContributorSyntaxError =>
          reply := Some(SyntaxReply);
        case AddCommand(x) =>
          var text := AddContributor(x);
          reply := Some(text);
        case RemoveCommand(x) =>
          var text := RemoveContributor(x);
          reply := Some(text);
        case Integrate =>
          if env.ready && integrated.None? {
            integrated := Some(CommitMessage(title, contributors));
            reply := Some(PushedReply(env.pushHash));
          } else {
            reply := Some(NotReadyReply);
          }
      }
    }

    /**
     * One bot run: answer every comment posted since the previous run, in
     * order, then post the readiness notice or refresh it in place.
     */
    method Run(pushHash: string)
      requires Valid()
      modifies this
      ensures State() == BotRun(old(State()), old(Environment(pushHash)))
      ensures reviews == old(reviews)
      ensures Valid()
    {
      var env := Environment(pushHash);
      var pending := comments[handled..];
      ghost var stream := comments;
      ghost var start := Ledger(contributors, integrated);
      assert pending[..0] == [] && stream + [] == stream;
      assert ReplayOnto(start, stream, pending[..0], env) == (start, stream);
      for i := 0 to |pending|
        invariant Valid()
        invariant handled == old(handled) && reviews == old(reviews)
        invariant (Ledger(contributors, integrated), comments) == ReplayOnto(start, stream, pending[..i], env)
      {
        ghost var before := ReplayOnto(start, stream, pending[..i], env);
        ReplayOntoStep(start, stream, pending, i, env);
        var reply := Answer(pending[i], env);
        RepliesAreNoNotices(before.0, pending[i], env);
        NoticeCountAppend(comments, ReplyComments(reply, bot), bot);
        comments := comments + ReplyComments(reply, bot);
      }
      assert pending[..|pending|] == pending;
      PostNoticeIfReady(env);
      handled := |comments|;
    }

    /** The notice step of a run. */
    method PostNoticeIfReady(env: Setting)
      requires Valid() && env.bot == bot && env.title == title
      modifies this`comments
      ensures comments == Announce(old(comments), Ledger(contributors, integrated), env)
      ensures Valid()
    {
      if env.ready && integrated.None? {
        var body := NoticeBody(title, contributors);
        PostNoticeSpec(comments, bot, body);
        match NoticeIndex(comments, bot)
        case Some(k) =>
          comments := comments[k := Comment(bot, body)];
        case None =>
          comments := comments + [Comment(bot, body)];
      }
    }
  }
}
