/**
 * The two scenarios of ContributorTests, driven through the PullRequest
 * class: every bot run is one call of Run. A reply the test reads as the last
 * comment is read from the stream after the run, and the test's count of
 * comments containing a phrase is MentionCount.
 */
module ContributorScenarios {
  import opened Wrappers
  import opened GitHubReviews
  import opened ContributorBot

  /** A run that finds exactly one new comment: its reply is appended, then the notice step. */
  lemma RunOnOneComment(s: Snapshot, env: Setting, c: Comment)
    requires s.handled == |s.comments|
    ensures var h := Handle(s.ledger, c, env);
            var cs := Announce(s.comments + [c] + ReplyComments(h.1, env.bot), h.0, env);
            BotRun(Snapshot(s.comments + [c], s.handled, s.ledger), env) == Snapshot(cs, |cs|, h.0)
  {
    assert (s.comments + [c])[s.handled..] == [c];
    ReplayOne(s.ledger, c, env);
    var h := Handle(s.ledger, c, env);
    assert s.comments + [c] + ReplyComments(h.1, env.bot) == (s.comments + [c]) + ReplyComments(h.1, env.bot);
  }

  /** A run that finds no new comment only does the notice step. */
  lemma RunOnNothing(s: Snapshot, env: Setting)
    requires s.handled == |s.comments|
    ensures var cs := Announce(s.comments, s.ledger, env);
            BotRun(s, env) == Snapshot(cs, |cs|, s.ledger)
  {
    assert s.comments[s.handled..] == [];
    assert s.comments + [] == s.comments;
  }

  /**
   * The notice step leaves a trailing reply last when a notice is already
   * there or none is due.
   */
  lemma ReplyStaysLast(cs: seq<Comment>, st: Ledger, env: Setting, text: string)
    requires text != ReadyHeader
    requires env.ready && st.integrated.None? ==> NoticeIndex(cs, env.bot).Some?
    ensures var out := Announce(cs + [Comment(env.bot, [text])], st, env);
            |out| == |cs| + 1 && out[|cs|] == Comment(env.bot, [text])
            && (NoticeIndex(cs, env.bot).Some? ==> NoticeIndex(out, env.bot).Some?)
  {
    var all := cs + [Comment(env.bot, [text])];
    if env.ready && st.integrated.None? {
      var k := NoticeIndex(cs, env.bot).value;
      NoticeIndexAt(all, env.bot, k);
      var out := Announce(all, st, env);
      NoticeIndexAt(out, env.bot, k);
    } else if NoticeIndex(cs, env.bot).Some? {
      NoticeIndexAt(all, env.bot, NoticeIndex(cs, env.bot).value);
    }
  }

  const Author := "author"
  const Bot := "integrator-bot"
  const Outsider := "external"
  const Title := "This is a pull request"
  const EditHash := "edit-hash"
  const PushHash := "pushed-hash"
  const Integrator := User("integrator-id", "integrator")

  function TestPerson(): (c: Contributor)
    ensures ValidContributor(c)
  {
    Contributor("Test Person", "test@test.test")
  }

  function AnotherPerson(): (c: Contributor)
    ensures ValidContributor(c)
  {
    Contributor("Another Person", "another@test.test")
  }

  // What the tests observe: the last comment, and the comments that mention a phrase

  /** A comment mentions a phrase when one of its lines contains it. */
  ghost predicate Mentions(c: Comment, phrase: string) {
    exists line :: line in c.body && Contains(line, phrase)
  }

  /** The number of comments of the stream that mention the phrase. */
  ghost function MentionCount(cs: seq<Comment>, phrase: string): nat
    decreases |cs|
  {
    if cs == [] then 0
    else MentionCount(cs[..|cs| - 1], phrase) + (if Mentions(cs[|cs| - 1], phrase) then 1 else 0)
  }

  /** A text that lacks one character of a phrase does not contain the phrase. */
  lemma MissingCharacter(s: string, part: string, k: int)
    requires 0 <= k < |part| && part[k] !in s
    ensures !Contains(s, part)
  {
    ContainedCharacter(s, part, k);
  }

  /** Every character of a contained phrase is a character of the text. */
  lemma ContainedCharacter(s: string, part: string, k: int)
    requires 0 <= k < |part|
    ensures Contains(s, part) ==> part[k] in s
  {
    if Contains(s, part) {
      var i :| OccursAt(s, part, i);
      assert s[i..i + |part|][k] == s[i + k];
    }
  }

  /** No line of any comment but the bot's notices holds the character ch. */
  predicate Clear(cs: seq<Comment>, bot: string, ch: char) {
    forall k :: 0 <= k < |cs| && !IsNoticeBy(cs[k], bot) ==> forall line :: line in cs[k].body ==> ch !in line
  }

  /**
   * When the other comments lack a character of the notice's phrase, the
   * comments that mention the phrase are exactly the bot's notices.
   */
  lemma {:induction false} MentionsAreNotices(cs: seq<Comment>, bot: string, phrase: string, k: int)
    requires 0 <= k < |phrase| && Clear(cs, bot, phrase[k]) && Contains(ReadyHeader, phrase)
    ensures MentionCount(cs, phrase) == NoticeCount(cs, bot)
    decreases |cs|
  {
    if cs != [] {
      var n := |cs| - 1;
      assert Clear(cs[..n], bot, phrase[k]) by {
        forall j | 0 <= j < n ensures cs[..n][j] == cs[j] { }
      }
      MentionsAreNotices(cs[..n], bot, phrase, k);
      if IsNoticeBy(cs[n], bot) {
        assert cs[n].body[0] in cs[n].body;
      } else {
        forall line | line in cs[n].body ensures !Contains(line, phrase) {
          MissingCharacter(line, phrase, k);
        }
      }
    }
  }

  /** The notice step touches only the bot's notice, so it keeps the stream clear. */
  lemma AnnounceKeepsClear(cs: seq<Comment>, st: Ledger, env: Setting, ch: char)
    requires Clear(cs, env.bot, ch)
    ensures Clear(Announce(cs, st, env), env.bot, ch)
  {
    if env.ready && st.integrated.None? {
      var notice := Comment(env.bot, NoticeBody(env.title, st.contributors));
      assert IsNoticeBy(notice, env.bot);
      match NoticeIndex(cs, env.bot)
      case Some(j) =>
        var out := cs[j := notice];
        forall k | 0 <= k < |out| && !IsNoticeBy(out[k], env.bot)
          ensures forall line :: line in out[k].body ==> ch !in line
        {
          assert k != j && out[k] == cs[k];
        }
      case None =>
        var out := cs + [notice];
        forall k | 0 <= k < |out| && !IsNoticeBy(out[k], env.bot)
          ensures forall line :: line in out[k].body ==> ch !in line
        {
          assert k < |cs| && out[k] == cs[k];
        }
    }
  }

  /**
   * A run on one new comment keeps the stream clear of every character that
   * the comment's line and its reply lack.
   */
  lemma RunKeepsClear(s: Snapshot, env: Setting, author: string, line: string)
    requires s.handled == |s.comments|
    ensures var c := Comment(author, [line]);
            var r := Handle(s.ledger, c, env).1;
            forall ch :: Clear(s.comments, env.bot, ch) && ch !in line && (r.Some? ==> ch !in r.value) ==>
              Clear(BotRun(Snapshot(s.comments + [c], s.handled, s.ledger), env).comments, env.bot, ch)
  {
    var c := Comment(author, [line]);
    RunOnOneComment(s, env, c);
    var h := Handle(s.ledger, c, env);
    var cs := s.comments + [c] + ReplyComments(h.1, env.bot);
    forall ch | Clear(s.comments, env.bot, ch) && ch !in line && (h.1.Some? ==> ch !in h.1.value)
      ensures Clear(Announce(cs, h.0, env), env.bot, ch)
    {
      forall k | 0 <= k < |cs| && !IsNoticeBy(cs[k], env.bot)
        ensures forall l :: l in cs[k].body ==> ch !in l
      {
        if k < |s.comments| {
          assert cs[k] == s.comments[k];
        } else if k == |s.comments| {
          assert cs[k] == c;
        } else {
          assert cs[k] == Comment(env.bot, [h.1.value]);
        }
      }
      AnnounceKeepsClear(cs, h.0, env, ch);
    }
  }

  /**
   * The author posts one line and the bot runs once. The line's command is
   * handled and its reply, if any, is the last comment.
   */
  method PostAndRun(pr: PullRequest, line: string) returns (reply: Option<string>)
    requires pr.Valid() && pr.handled == |pr.comments| && pr.author != pr.bot
    requires var env := pr.Environment(PushHash);
             env.ready && pr.integrated.None? ==> NoticeIndex(pr.comments, pr.bot).Some?
    modifies pr
    ensures pr.Valid() && pr.handled == |pr.comments| && pr.reviews == old(pr.reviews)
    ensures var h := Handle(old(pr.State()).ledger, Comment(pr.author, [line]), old(pr.Environment(PushHash)));
            && reply == h.1
            && Ledger(pr.contributors, pr.integrated) == h.0
            && (reply.Some? ==> |pr.comments| > 0 && pr.comments[|pr.comments| - 1] == Comment(pr.bot, [reply.value]))
            && (NoticeIndex(old(pr.comments), pr.bot).Some? ==> NoticeIndex(pr.comments, pr.bot).Some?)
    ensures forall ch :: Clear(old(pr.comments), pr.bot, ch) && ch !in line && (reply.Some? ==> ch !in reply.value) ==>
              Clear(pr.comments, pr.bot, ch)
  {
    var s := pr.State();
    var env := pr.Environment(PushHash);
    var c := Comment(pr.author, [line]);
    pr.AddComment(pr.author, line);
    ghost var mid := pr.State();
    assert mid == Snapshot(s.comments + [c], s.handled, s.ledger);
    assert pr.Environment(PushHash) == env;
    pr.Run(PushHash);
    assert pr.State() == BotRun(mid, env);
    OneCommentRun(s, env, c);
    RunKeepsClear(s, env, pr.author, line);
    reply := Handle(s.ledger, c, env).1;
  }

  /** What PostAndRun promises, on snapshots. */
  lemma OneCommentRun(s: Snapshot, env: Setting, c: Comment)
    requires s.handled == |s.comments| && NoticeCount(s.comments, env.bot) <= 1 && c.author != env.bot
    requires env.ready && s.ledger.integrated.None? ==> NoticeIndex(s.comments, env.bot).Some?
    ensures var h := Handle(s.ledger, c, env);
            var s1 := BotRun(Snapshot(s.comments + [c], s.handled, s.ledger), env);
            && s1.ledger == h.0
            && (h.1.Some? ==> |s1.comments| > 0 && s1.comments[|s1.comments| - 1] == Comment(env.bot, [h.1.value]))
            && (NoticeIndex(s.comments, env.bot).Some? ==> NoticeIndex(s1.comments, env.bot).Some?)
  {
    RunOnOneComment(s, env, c);
    var h := Handle(s.ledger, c, env);
    var cs := s.comments + [c];
    RepliesAreNoNotices(s.ledger, c, env);
    if NoticeIndex(s.comments, env.bot).Some? {
      NoticeIndexAt(cs, env.bot, NoticeIndex(s.comments, env.bot).value);
    }
    match h.1
    case Some(text) =>
      assert Comment(env.bot, [text]) in ReplyComments(h.1, env.bot);
      ReplyStaysLast(cs, h.0, env, text);
    case None =>
      assert cs + [] == cs;
      if NoticeIndex(s.comments, env.bot).Some? && env.ready && h.0.integrated.None? {
        NoticeCountAppend(s.comments, [c], env.bot);
        PostNoticeSpec(cs, env.bot, NoticeBody(env.title, h.0.contributors));
      }
  }

  /** The author adds a valid contributor and the bot runs; the reply is the last comment. */
  method PostAdd(pr: PullRequest, x: Contributor) returns (reply: string)
    requires ValidContributor(x)
    requires pr.Valid() && pr.handled == |pr.comments| && pr.author != pr.bot
    requires pr.Environment(PushHash).ready && pr.integrated.None? ==> NoticeIndex(pr.comments, pr.bot).Some?
    modifies pr
    ensures pr.Valid() && pr.handled == |pr.comments| && pr.reviews == old(pr.reviews)
    ensures (pr.contributors, reply) == AddStep(old(pr.contributors), x) && pr.integrated == old(pr.integrated)
    ensures |pr.comments| > 0 && pr.comments[|pr.comments| - 1] == Comment(pr.bot, [reply])
    ensures NoticeIndex(old(pr.comments), pr.bot).Some? ==> NoticeIndex(pr.comments, pr.bot).Some?
    ensures forall ch :: Clear(old(pr.comments), pr.bot, ch) && ch !in AddLine(x) && ch !in reply ==>
              Clear(pr.comments, pr.bot, ch)
  {
    ParseContributorLines(x);
    var r := PostAndRun(pr, AddLine(x));
    reply := r.value;
  }

  /** The author removes a valid contributor and the bot runs; the reply is the last comment. */
  method PostRemove(pr: PullRequest, x: Contributor) returns (reply: string)
    requires ValidContributor(x)
    requires pr.Valid() && pr.handled == |pr.comments| && pr.author != pr.bot
    requires pr.Environment(PushHash).ready && pr.integrated.None? ==> NoticeIndex(pr.comments, pr.bot).Some?
    modifies pr
    ensures pr.Valid() && pr.handled == |pr.comments| && pr.reviews == old(pr.reviews)
    ensures (pr.contributors, reply) == RemoveStep(old(pr.contributors), x) && pr.integrated == old(pr.integrated)
    ensures |pr.comments| > 0 && pr.comments[|pr.comments| - 1] == Comment(pr.bot, [reply])
    ensures NoticeIndex(old(pr.comments), pr.bot).Some? ==> NoticeIndex(pr.comments, pr.bot).Some?
    ensures forall ch :: Clear(old(pr.comments), pr.bot, ch) && ch !in RemoveLine(x) && ch !in reply ==>
              Clear(pr.comments, pr.bot, ch)
  {
    ParseContributorLines(x);
    var r := PostAndRun(pr, RemoveLine(x));
    reply := r.value;
  }

  const UnreadableLine := "/contributor hello"

  /** The author posts "/contributor hello" and the bot runs; the syntax reply is the last comment. */
  method PostUnreadable(pr: PullRequest) returns (reply: string)
    requires pr.Valid() && pr.handled == |pr.comments| && pr.author != pr.bot
    requires pr.Environment(PushHash).ready && pr.integrated.None? ==> NoticeIndex(pr.comments, pr.bot).Some?
    modifies pr
    ensures pr.Valid() && pr.handled == |pr.comments| && pr.reviews == old(pr.reviews)
    ensures pr.contributors == old(pr.contributors) && pr.integrated == old(pr.integrated)
    ensures reply == SyntaxReply
    ensures |pr.comments| > 0 && pr.comments[|pr.comments| - 1] == Comment(pr.bot, [reply])
    ensures forall ch :: Clear(old(pr.comments), pr.bot, ch) && ch !in UnreadableLine && ch !in reply ==>
              Clear(pr.comments, pr.bot, ch)
  {
    UnreadableArgumentsAreSyntaxError();
    var r := PostAndRun(pr, UnreadableLine);
    reply := r.value;
  }

  /** The author posts "/integrate" on a ready change and the bot runs; the reply is the last comment. */
  method PostIntegrate(pr: PullRequest) returns (reply: string)
    requires pr.Valid() && pr.handled == |pr.comments| && pr.author != pr.bot
    requires pr.Environment(PushHash).ready && pr.integrated.None? && NoticeIndex(pr.comments, pr.bot).Some?
    modifies pr
    ensures pr.Valid() && pr.handled == |pr.comments| && pr.reviews == old(pr.reviews)
    ensures pr.contributors == old(pr.contributors)
    ensures pr.integrated == Some(CommitMessage(pr.title, pr.contributors))
    ensures reply == PushedReply(PushHash)
    ensures |pr.comments| > 0 && pr.comments[|pr.comments| - 1] == Comment(pr.bot, [reply])
  {
    var r := PostAndRun(pr, "/integrate");
    reply := r.value;
  }

  lemma SyntaxReplyNamesSyntax()
    ensures Contains(SyntaxReply, "Syntax")
  {
    var rest := ": `/contributor " + "(add|remove) Full Name" + " <email@address>`";
    ContainsMiddle([], "Syntax", rest);
    assert [] + "Syntax" + rest == SyntaxReply;
  }

  lemma OnlyAuthorReplyNamesAuthor()
    ensures Contains(OnlyAuthorReply, "Only the author")
  {
    ContainsMiddle([], "Only the author", " of this change may issue that command.");
    assert [] + "Only the author" + " of this change may issue that command." == OnlyAuthorReply;
  }

  /** The bot runs with no new comment. */
  method RunIdle(pr: PullRequest)
    requires pr.Valid() && pr.handled == |pr.comments|
    modifies pr
    ensures pr.Valid() && pr.handled == |pr.comments| && pr.reviews == old(pr.reviews)
    ensures pr.contributors == old(pr.contributors) && pr.integrated == old(pr.integrated)
    ensures pr.comments == Announce(old(pr.comments), old(pr.State()).ledger, old(pr.Environment(PushHash)))
  {
    ghost var s := pr.State();
    ghost var env := pr.Environment(PushHash);
    pr.Run(PushHash);
    RunOnNothing(s, env);
  }

  /** The list after each step of the opening commands. */
  lemma ListSteps(c: Contributor)
    ensures AddStep([], c).0 == [c] && Contains(AddStep([], c).1, "successfully added")
    ensures RemoveStep([c], c).0 == [] && Contains(RemoveStep([c], c).1, "successfully removed")
    ensures RemoveStep([], c).0 == [] && Contains(RemoveStep([], c).1, "was not found")
  {
    assert Without([c], c) == [];
  }

  /**
   * The letter 'g' of "change can now be integrated" occurs in none of the
   * commands and replies of ContributorTests.simple before "/integrate".
   * Each text is taken piece by piece.
   */
  lemma TestPersonLacksG()
    ensures 'g' !in FormatContributor(TestPerson())
  {
    assert 'g' !in "Test Person" && 'g' !in "test@test.test";
  }

  lemma CommandsLackG()
    ensures 'g' !in UnreadableLine && 'g' !in AddLine(TestPerson()) && 'g' !in RemoveLine(TestPerson())
  {
    TestPersonLacksG();
    assert 'g' !in ContributorVerb && 'g' !in "add " && 'g' !in "remove ";
  }

  lemma SyntaxReplyLacksG()
    ensures 'g' !in SyntaxReply
  {
    assert 'g' !in "Syntax" && 'g' !in ": `/contributor ";
    assert 'g' !in "(add|remove) Full Name" && 'g' !in " <email@address>`";
  }

  lemma ListRepliesLackG()
    ensures 'g' !in AddedReply(TestPerson()) && 'g' !in RemovedReply(TestPerson()) && 'g' !in NotFoundReply(TestPerson())
  {
    TestPersonLacksG();
    assert 'g' !in "Contributor `" && 'g' !in "` " && 'g' !in ".";
    assert 'g' !in "successfully added" && 'g' !in "successfully removed" && 'g' !in "was not found";
  }

  /**
   * The start of ContributorTests.simple, before any approval: a syntax
   * error, then the contributor is added and removed. Each reply is the last
   * comment after its run.
   */
  method AddThenRemove(pr: PullRequest) returns (replies: seq<string>)
    requires pr.Valid() && pr.handled == |pr.comments| && pr.author != pr.bot
    requires pr.contributors == [] && pr.integrated.None? && !pr.Environment(PushHash).ready
    requires Clear(pr.comments, pr.bot, 'g')
    modifies pr
    ensures pr.Valid() && pr.handled == |pr.comments| && pr.reviews == old(pr.reviews)
    ensures pr.contributors == [] && pr.integrated.None?
    ensures Clear(pr.comments, pr.bot, 'g')
    ensures |replies| == 3
    ensures Contains(replies[0], "Syntax")
    ensures Contains(replies[1], "successfully added")
    ensures Contains(replies[2], "successfully removed")
  {
    var tp := TestPerson();
    ListSteps(tp);
    SyntaxReplyNamesSyntax();
    CommandsLackG();
    SyntaxReplyLacksG();
    ListRepliesLackG();
    var _ := PostUnreadable(pr);
    var r0 := pr.comments[|pr.comments| - 1].body[0];
    var _ := PostAdd(pr, tp);
    var r1 := pr.comments[|pr.comments| - 1].body[0];
    var _ := PostRemove(pr, tp);
    var r2 := pr.comments[|pr.comments| - 1].body[0];
    replies := [r0, r1, r2];
  }

  /**
   * Then, still before approval: removing the absent contributor fails, and
   * adding them again succeeds. Each reply is the last comment after its run.
   */
  method RemoveAgainThenAdd(pr: PullRequest) returns (replies: seq<string>)
    requires pr.Valid() && pr.handled == |pr.comments| && pr.author != pr.bot
    requires pr.contributors == [] && pr.integrated.None? && !pr.Environment(PushHash).ready
    requires Clear(pr.comments, pr.bot, 'g')
    modifies pr
    ensures pr.Valid() && pr.handled == |pr.comments| && pr.reviews == old(pr.reviews)
    ensures pr.contributors == [TestPerson()] && pr.integrated.None?
    ensures Clear(pr.comments, pr.bot, 'g')
    ensures |replies| == 2
    ensures Contains(replies[0], "was not found")
    ensures Contains(replies[1], "successfully added")
  {
    var tp := TestPerson();
    ListSteps(tp);
    CommandsLackG();
    ListRepliesLackG();
    var _ := PostRemove(pr, tp);
    var r0 := pr.comments[|pr.comments| - 1].body[0];
    var _ := PostAdd(pr, tp);
    var r1 := pr.comments[|pr.comments| - 1].body[0];
    replies := [r0, r1];
  }

  /**
   * A census reviewer approves the head commit and the bot runs twice: there
   * is exactly one notice, and it shows the commit message of the current
   * contributors. The runs change no comment but the notice.
   */
  method ApproveAndWait(pr: PullRequest) returns (notice: seq<string>)
    requires pr.Valid() && pr.handled == |pr.comments| && pr.integrated.None?
    requires Integrator.id in pr.census
    modifies pr
    ensures pr.Valid() && pr.handled == |pr.comments|
    ensures pr.contributors == old(pr.contributors) && pr.integrated.None?
    ensures pr.Environment(PushHash).ready
    ensures NoticeCount(pr.comments, pr.bot) == 1 && NoticeIndex(pr.comments, pr.bot).Some?
    ensures notice == pr.comments[NoticeIndex(pr.comments, pr.bot).value].body == NoticeBody(pr.title, pr.contributors)
    ensures forall ch :: Clear(old(pr.comments), pr.bot, ch) ==> Clear(pr.comments, pr.bot, ch)
  {
    ghost var reviewsBefore := pr.reviews;
    pr.AddReview(Integrator, Approved);
    ApprovalMakesReady(reviewsBefore, pr.census, Integrator, pr.headHash);
    ghost var before := pr.comments;
    ghost var env := pr.Environment(PushHash);
    ghost var st := Ledger(pr.contributors, pr.integrated);
    PostNoticeSpec(before, pr.bot, NoticeBody(pr.title, pr.contributors));
    RunIdle(pr);
    RunIdle(pr);
    forall ch | Clear(before, pr.bot, ch) ensures Clear(pr.comments, pr.bot, ch) {
      AnnounceKeepsClear(before, st, env, ch);
    }
    notice := pr.comments[NoticeIndex(pr.comments, pr.bot).value].body;
  }

  /**
   * On a ready change, the author adds a contributor and the bot runs twice:
   * the notice is refreshed to show the new list.
   */
  method AddAndWait(pr: PullRequest, x: Contributor) returns (notice: seq<string>)
    requires ValidContributor(x)
    requires pr.Valid() && pr.handled == |pr.comments| && pr.author != pr.bot && pr.integrated.None?
    requires pr.Environment(PushHash).ready && NoticeIndex(pr.comments, pr.bot).Some?
    modifies pr
    ensures pr.Valid() && pr.handled == |pr.comments| && pr.integrated.None?
    ensures pr.Environment(PushHash).ready && NoticeIndex(pr.comments, pr.bot).Some?
    ensures pr.contributors == AddStep(old(pr.contributors), x).0
    ensures notice == pr.comments[NoticeIndex(pr.comments, pr.bot).value].body == NoticeBody(pr.title, pr.contributors)
  {
    var _ := PostAdd(pr, x);
    ghost var after := pr.comments;
    RunIdle(pr);
    PostNoticeSpec(after, pr.bot, NoticeBody(pr.title, pr.contributors));
    var k := NoticeIndex(pr.comments, pr.bot).value;
    notice := pr.comments[k].body;
  }

  lemma PushedReplySaysPushed(hash: string)
    ensures Contains(PushedReply(hash), "Pushed as commit")
  {
    ContainsMiddle([], "Pushed as commit", " " + hash + ".");
    assert [] + "Pushed as commit" + (" " + hash + ".") == PushedReply(hash);
  }

  lemma NoticeSaysIntegrable()
    ensures Contains(ReadyHeader, "change can now be integrated")
  {
    ContainsMiddle("This ", "change can now be integrated", ". The commit message will be:");
  }

  /**
   * The end of ContributorTests.simple: a second contributor is added, and
   * the author integrates. The refreshed notice is the notice of the stream
   * before "/integrate", the pushed reply is the last comment after it, and
   * the message is the one recorded.
   */
  method AddSecondAndIntegrate(pr: PullRequest)
    returns (refreshed: seq<Comment>, notice: seq<string>, message: seq<string>, pushed: string)
    requires pr.Valid() && pr.handled == |pr.comments| && pr.author != pr.bot
    requires pr.contributors == [TestPerson()] && pr.integrated.None?
    requires pr.Environment(PushHash).ready && NoticeIndex(pr.comments, pr.bot).Some?
    modifies pr
    ensures NoticeIndex(refreshed, pr.bot).Some? && refreshed[NoticeIndex(refreshed, pr.bot).value].body == notice
    ensures |notice| > 0 && Contains(notice[0], "change can now be integrated")
    ensures CreditLine(TestPerson()) in notice && CreditLine(AnotherPerson()) in notice
    ensures |pr.comments| > 0 && pr.comments[|pr.comments| - 1] == Comment(pr.bot, [pushed])
    ensures Contains(pushed, "Pushed as commit")
    ensures pr.integrated == Some(message) && CreditLine(TestPerson()) in message
  {
    var tp, ap := TestPerson(), AnotherPerson();
    notice := AddAndWait(pr, ap);
    refreshed := pr.comments;
    assert pr.contributors == [tp, ap];
    assert notice[4] == CreditLine(tp) && notice[5] == CreditLine(ap);
    NoticeSaysIntegrable();
    var _ := PostIntegrate(pr);
    pushed := pr.comments[|pr.comments| - 1].body[0];
    PushedReplySaysPushed(PushHash);
    message := pr.integrated.value;
    assert message[2] == CreditLine(tp);
  }

  /**
   * The first part of ContributorTests.simple: the five opening commands,
   * then the approval. The replies are the last comment after each command's
   * run. The stream is the pull request's comments after the approval: only
   * one of them mentions "change can now be integrated", and the first notice
   * is its body.
   */
  method OpenAndApprove(pr: PullRequest) returns (replies: seq<string>, stream: seq<Comment>, firstNotice: seq<string>)
    requires pr.Valid() && pr.handled == |pr.comments| && pr.author != pr.bot && pr.bot == Bot
    requires pr.comments == [] && pr.reviews == [] && pr.contributors == [] && pr.integrated.None?
    requires Integrator.id in pr.census
    modifies pr
    ensures pr.Valid() && pr.handled == |pr.comments| && pr.author != pr.bot
    ensures pr.contributors == [TestPerson()] && pr.integrated.None?
    ensures pr.Environment(PushHash).ready && NoticeIndex(pr.comments, pr.bot).Some?
    ensures |replies| == 5
    ensures Contains(replies[0], "Syntax")
    ensures Contains(replies[1], "successfully added")
    ensures Contains(replies[2], "successfully removed")
    ensures Contains(replies[3], "was not found")
    ensures Contains(replies[4], "successfully added")
    ensures stream == pr.comments && MentionCount(stream, "change can now be integrated") == 1
    ensures firstNotice == stream[NoticeIndex(stream, pr.bot).value].body
    ensures CreditLine(TestPerson()) in firstNotice
  {
    assert !pr.Environment(PushHash).ready;
    var first := AddThenRemove(pr);
    var second := RemoveAgainThenAdd(pr);
    replies := first + second;
    firstNotice := ApproveAndWait(pr);
    assert firstNotice[4] == CreditLine(TestPerson());
    stream := pr.comments;
    NoticeSaysIntegrable();
    assert "change can now be integrated"[4] == 'g';
    MentionsAreNotices(stream, Bot, "change can now be integrated", 4);
  }

  /**
   * ContributorTests.simple. The replies are the last comment after each
   * command's run, in order. The stream is the comments after the approval,
   * with the first notice among them; refreshed is the comments after the
   * second contributor is added, with the refreshed notice among them. The
   * message is the commit message that was pushed.
   */
  method SimpleScenario() returns (replies: seq<string>, stream: seq<Comment>, firstNotice: seq<string>,
                                   refreshed: seq<Comment>, notice: seq<string>, message: seq<string>)
    ensures |replies| == 6
    ensures Contains(replies[0], "Syntax")
    ensures Contains(replies[1], "successfully added")
    ensures Contains(replies[2], "successfully removed")
    ensures Contains(replies[3], "was not found")
    ensures Contains(replies[4], "successfully added")
    ensures Contains(replies[5], "Pushed as commit")
    ensures MentionCount(stream, "change can now be integrated") == 1
    ensures NoticeIndex(stream, Bot).Some? && stream[NoticeIndex(stream, Bot).value].body == firstNotice
    ensures CreditLine(TestPerson()) in firstNotice
    ensures NoticeIndex(refreshed, Bot).Some? && refreshed[NoticeIndex(refreshed, Bot).value].body == notice
    ensures CreditLine(AnotherPerson()) in notice
    ensures CreditLine(TestPerson()) in message
  {
    var pr := new PullRequest(Author, Bot, Title, EditHash, {Integrator.id});
    var opening;
    opening, stream, firstNotice := OpenAndApprove(pr);
    var pushed;
    refreshed, notice, message, pushed := AddSecondAndIntegrate(pr);
    replies := opening + [pushed];
  }

  /**
   * ContributorTests.invalidCommandAuthor: a contributor command posted by
   * someone other than the author gets a reply, and afterwards exactly one
   * comment mentions "Only the author"; nobody is added.
   */
  method InvalidCommandAuthorScenario() returns (stream: seq<Comment>, contributors: seq<Contributor>)
    ensures MentionCount(stream, "Only the author") == 1
    ensures contributors == []
  {
    var pr := new PullRequest(Author, Bot, Title, EditHash, {});
    ghost var s := pr.State();
    ghost var env := pr.Environment(PushHash);
    pr.AddComment(Outsider, AddLine(TestPerson()));
    pr.Run(PushHash);
    OutsiderRun(s.ledger, env);
    stream := pr.comments;
    contributors := pr.contributors;
    OutsiderStream();
  }

  /** The run of invalidCommandAuthor, on snapshots: the refusal follows the command and the ledger stays. */
  lemma OutsiderRun(ledger: Ledger, env: Setting)
    requires env.author == Author && env.bot == Bot && !env.ready
    ensures var c := Comment(Outsider, [AddLine(TestPerson())]);
            var s1 := BotRun(Snapshot([c], 0, ledger), env);
            s1.comments == [c, Comment(Bot, [OnlyAuthorReply])] && s1.ledger == ledger
  {
    var c := Comment(Outsider, [AddLine(TestPerson())]);
    ParseContributorLines(TestPerson());
    assert CommandOf(c, Bot) == AddCommand(TestPerson());
    RunOnOneComment(Snapshot([], 0, ledger), env, c);
    var h := Handle(ledger, c, env);
    assert h.1 == Some(OnlyAuthorReply) && h.0 == ledger;
    assert [] + [c] == [c];
  }

  /** In the stream of invalidCommandAuthor only the refusal mentions "Only the author". */
  lemma OutsiderStream()
    ensures MentionCount([Comment(Outsider, [AddLine(TestPerson())]), Comment(Bot, [OnlyAuthorReply])], "Only the author") == 1
  {
    var c := Comment(Outsider, [AddLine(TestPerson())]);
    var stream := [c, Comment(Bot, [OnlyAuthorReply])];
    OnlyAuthorReplyNamesAuthor();
    TestPersonLacksO();
    MissingCharacter(AddLine(TestPerson()), "Only the author", 0);
    assert !Mentions(c, "Only the author");
    assert [c][..0] == [];
    assert MentionCount([c], "Only the author") == 0;
    assert OnlyAuthorReply in stream[1].body;
    assert Mentions(stream[1], "Only the author");
    assert stream[..1] == [c];
  }

  lemma TestPersonLacksO()
    ensures 'O' !in AddLine(TestPerson())
  {
    assert 'O' !in ContributorVerb && 'O' !in "add " && 'O' !in "Test Person" && 'O' !in "test@test.test";
  }
}
