/**
 * The text of the "share my learning journey" post: a fixed header naming
 * the user and the period, the topics as bullet lines, an optional block of
 * achievements and a fixed line of hashtags.
 *
 * Characters are Unicode scalar values; the emoji and the bullet are one
 * character each.
 */
module ShareTemplate {
  import opened Wrappers

  const DefaultPeriod: string := "today"
  const BulletPrefix: string := "\U{2022} "
  const TrophyPrefix: string := "\U{1F3C6} "
  const FocusLine: string := "Today I focused on:"
  const AchievementsTitle: string := "Achievements:"
  const Hashtags: string := "#LearninGo" + " #LifelongLearning" + " #MyLearningJourney"

  /** The block of achievements opens with a blank line and a title. */
  const AchievementsIntro: string := "\n\n" + AchievementsTitle + "\n"
  /** Every post closes with a blank line and the hashtags. */
  const Footer: string := "\n\n" + Hashtags

  /** The first line: the name and the period sit in it as given, and bring no line break of their own. */
  function HeaderLine(userName: string, period: string): (r: string)
    ensures |r| >= |userName| + |period| + 3
    ensures r[2..2 + |userName|] == userName
    ensures r[|r| - 1 - |period|..|r| - 1] == period
    ensures '\n' !in userName && '\n' !in period ==> '\n' !in r
  {
    "\U{1F680} " + userName + " - My Learning Journey Update (" + period + ")"
  }

  /** Everything before the topic list: the header line, a blank line and the focus line. */
  function Header(userName: string, period: string): (r: string)
    ensures HeaderLine(userName, period) <= r
    ensures r[|r| - 1] == '\n'
  {
    HeaderLine(userName, period) + "\n\n" + FocusLine + "\n"
  }

  // ---------------------------------------------------------------------
  // Array.prototype.map with a prefix, Array.prototype.join('\n'), and
  // String.prototype.split('\n') as the inverse of the join.
  // ---------------------------------------------------------------------

  /** Each item with `prefix` in front, in the same order. */
  function PrefixEach(prefix: string, items: seq<string>): (r: seq<string>)
    ensures |r| == |items|
    ensures forall i :: 0 <= i < |items| ==> r[i] == prefix + items[i]
  {
    if items == [] then [] else [prefix + items[0]] + PrefixEach(prefix, items[1..])
  }

  /** The lines with one "\n" between each two; no lines give the empty string. */
  function JoinLines(lines: seq<string>): (r: string)
    ensures lines != [] ==> lines[0] <= r
  {
    if lines == [] then ""
    else if |lines| == 1 then lines[0]
    else lines[0] + "\n" + JoinLines(lines[1..])
  }

  /** The pieces between the "\n" characters; always at least one, none holding a "\n". */
  function SplitLines(s: string): (lines: seq<string>)
    ensures |lines| >= 1
    ensures forall i :: 0 <= i < |lines| ==> '\n' !in lines[i]
  {
    if s == [] then [""]
    else
      var rest := SplitLines(s[1..]);
      if s[0] == '\n' then [""] + rest else [[s[0]] + rest[0]] + rest[1..]
  }

  lemma {:induction false} SplitSingleLine(a: string)
    requires '\n' !in a
    ensures SplitLines(a) == [a]
  {
    if a != [] {
      SplitSingleLine(a[1..]);
      assert [a[0]] + a[1..] == a;
    }
  }

  /** Splitting stops at the first "\n". */
  lemma {:induction false} SplitFirstLine(a: string, b: string)
    requires '\n' !in a
    ensures SplitLines(a + "\n" + b) == [a] + SplitLines(b)
  {
    if a == [] {
      assert a + "\n" + b == "\n" + b;
      assert ("\n" + b)[1..] == b;
    } else {
      assert (a + "\n" + b)[1..] == a[1..] + "\n" + b;
      SplitFirstLine(a[1..], b);
      assert [a[0]] + a[1..] == a;
    }
  }

  /** Splitting undoes joining, when no line holds a "\n" of its own. */
  lemma {:induction false} SplitJoin(lines: seq<string>)
    requires lines != []
    requires forall i :: 0 <= i < |lines| ==> '\n' !in lines[i]
    ensures SplitLines(JoinLines(lines)) == lines
    decreases |lines|
  {
    if |lines| == 1 {
      SplitSingleLine(lines[0]);
    } else {
      SplitFirstLine(lines[0], JoinLines(lines[1..]));
      SplitJoin(lines[1..]);
    }
  }

  /** Joining two non-empty runs of lines puts one "\n" between them. */
  lemma {:induction false} JoinAppend(xs: seq<string>, ys: seq<string>)
    requires xs != [] && ys != []
    ensures JoinLines(xs + ys) == JoinLines(xs) + "\n" + JoinLines(ys)
    decreases |xs|
  {
    if |xs| == 1 {
      assert (xs + ys)[1..] == ys;
    } else {
      assert (xs + ys)[1..] == xs[1..] + ys;
      JoinAppend(xs[1..], ys);
    }
  }

  // ---------------------------------------------------------------------
  // generateLearningPost
  // ---------------------------------------------------------------------

  /** The topics as "• topic" lines, in order; no topics give the empty string. */
  function TopicsList(topics: seq<string>): (s: string)
    ensures s == "" <==> topics == []
  {
    var bullets := PrefixEach(BulletPrefix, topics);
    JoinLines(bullets)
  }

  /** Empty without achievements; otherwise the title and one "🏆 achievement" line each, in order. */
  function AchievementsList(achievements: seq<string>): (s: string)
    ensures s == "" <==> achievements == []
    ensures achievements != [] ==> AchievementsIntro <= s
  {
    if |achievements| > 0
    then AchievementsIntro + JoinLines(PrefixEach(TrophyPrefix, achievements))
    else ""
  }

  /** The arguments; an absent `period` or `achievements` takes its default. */
  datatype PostRequest = PostRequest(
    userName: string,
    topics: seq<string>,
    period: Option<string>,
    achievements: Option<seq<string>>)

  function GenerateLearningPost(req: PostRequest): (post: string)
    ensures Header(req.userName, req.period.GetOr(DefaultPeriod)) <= post
    ensures |post| >= |Footer| && post[|post| - |Footer|..] == Footer
  {
    var period := req.period.GetOr(DefaultPeriod);
    var achievements := req.achievements.GetOr([]);
    var body := Header(req.userName, period) + TopicsList(req.topics) + AchievementsList(achievements);
    assert (body + Footer)[|body|..] == Footer;
    body + Footer
  }

  /** An absent period reads "today"; absent achievements are no achievements. */
  lemma PostDefaults(req: PostRequest)
    ensures GenerateLearningPost(req.(period := None)) == GenerateLearningPost(req.(period := Some("today")))
    ensures GenerateLearningPost(req.(achievements := None)) == GenerateLearningPost(req.(achievements := Some([])))
  {
  }

  /**
   * The post line by line: header, blank, focus line, the bullet lines (one
   * empty line when there are no topics), then, if there are achievements, a
   * blank line, the title and the trophy lines, and last a blank line and
   * the hashtags.
   */
  function PostLines(userName: string, period: string, topics: seq<string>, achievements: seq<string>): seq<string>
  {
    [HeaderLine(userName, period), "", FocusLine]
    + (if topics == [] then [""] else PrefixEach(BulletPrefix, topics))
    + (if achievements == [] then [] else ["", AchievementsTitle] + PrefixEach(TrophyPrefix, achievements))
    + ["", Hashtags]
  }

  lemma JoinTwo(a: string, b: string)
    ensures JoinLines([a, b]) == a + "\n" + b
  {
    assert [a, b][1..] == [b];
  }

  lemma JoinThree(a: string, b: string, c: string)
    ensures JoinLines([a, b, c]) == a + "\n" + b + "\n" + c
  {
    assert [a, b, c][1..] == [b, c];
    JoinTwo(b, c);
  }

  lemma HeaderAsLines(userName: string, period: string)
    ensures JoinLines([HeaderLine(userName, period), "", FocusLine]) + "\n" == Header(userName, period)
  {
    JoinThree(HeaderLine(userName, period), "", FocusLine);
  }

  lemma FooterAsLines()
    ensures "\n" + JoinLines(["", Hashtags]) == Footer
  {
    JoinTwo("", Hashtags);
  }

  /** A blank line and a title in front of some lines. */
  lemma TitledBlock(title: string, items: seq<string>)
    requires items != []
    ensures "\n" + JoinLines(["", title] + items) == "\n\n" + title + "\n" + JoinLines(items)
  {
    JoinAppend(["", title], items);
    JoinTwo("", title);
  }

  lemma AchievementsAsLines(achievements: seq<string>)
    requires achievements != []
    ensures "\n" + JoinLines(["", AchievementsTitle] + PrefixEach(TrophyPrefix, achievements))
         == AchievementsList(achievements)
  {
    var trophies := PrefixEach(TrophyPrefix, achievements);
    TitledBlock(AchievementsTitle, trophies);
    assert AchievementsList(achievements) == AchievementsIntro + JoinLines(trophies);
  }

  /** The lines from the header to the last achievement, joined, are everything before the footer. */
  lemma BodyAsLines(userName: string, period: string, topics: seq<string>, achievements: seq<string>)
    ensures var topicLines := if topics == [] then [""] else PrefixEach(BulletPrefix, topics);
      var achievementLines := if achievements == [] then [] else ["", AchievementsTitle] + PrefixEach(TrophyPrefix, achievements);
      JoinLines([HeaderLine(userName, period), "", FocusLine] + topicLines + achievementLines)
        == Header(userName, period) + TopicsList(topics) + AchievementsList(achievements)
  {
    var top := [HeaderLine(userName, period), "", FocusLine];
    var topicLines := if topics == [] then [""] else PrefixEach(BulletPrefix, topics);
    var achievementLines := if achievements == [] then [] else ["", AchievementsTitle] + PrefixEach(TrophyPrefix, achievements);
    var upper := top + topicLines;
    assert JoinLines(upper) == Header(userName, period) + TopicsList(topics) by {
      HeaderAsLines(userName, period);
      JoinAppend(top, topicLines);
    }
    if achievements == [] {
      assert upper + achievementLines == upper;
    } else {
      AchievementsAsLines(achievements);
      JoinAppend(upper, achievementLines);
    }
  }

  /** A blank line and one last line after some joined lines. */
  lemma JoinWithTail(middle: seq<string>, body: string, last: string)
    requires middle != [] && JoinLines(middle) == body
    ensures JoinLines(middle + ["", last]) == body + ("\n\n" + last)
  {
    JoinAppend(middle, ["", last]);
    JoinTwo("", last);
  }

  /** The post is exactly its lines joined by "\n": header, topics, achievements, footer, nothing between. */
  lemma PostIsJoinedLines(req: PostRequest)
    ensures var period, achievements := req.period.GetOr(DefaultPeriod), req.achievements.GetOr([]);
      GenerateLearningPost(req) == JoinLines(PostLines(req.userName, period, req.topics, achievements))
  {
    var period, achievements := req.period.GetOr(DefaultPeriod), req.achievements.GetOr([]);
    var topicLines := if req.topics == [] then [""] else PrefixEach(BulletPrefix, req.topics);
    var achievementLines := if achievements == [] then [] else ["", AchievementsTitle] + PrefixEach(TrophyPrefix, achievements);
    var middle := [HeaderLine(req.userName, period), "", FocusLine] + topicLines + achievementLines;
    var body := Header(req.userName, period) + TopicsList(req.topics) + AchievementsList(achievements);
    assert GenerateLearningPost(req) == body + Footer;
    assert JoinLines(middle + ["", Hashtags]) == body + Footer by {
      BodyAsLines(req.userName, period, req.topics, achievements);
      JoinWithTail(middle, body, Hashtags);
    }
    assert PostLines(req.userName, period, req.topics, achievements) == middle + ["", Hashtags];
  }

  /** No line of the list holds a "\n". */
  predicate SingleLines(lines: seq<string>) {
    forall i :: 0 <= i < |lines| ==> '\n' !in lines[i]
  }

  lemma PrefixEachSingleLines(prefix: string, items: seq<string>)
    requires '\n' !in prefix && SingleLines(items)
    ensures SingleLines(PrefixEach(prefix, items))
  {
  }

  lemma SingleLinesAppend(xs: seq<string>, ys: seq<string>)
    requires SingleLines(xs) && SingleLines(ys)
    ensures SingleLines(xs + ys)
  {
    forall i | 0 <= i < |xs + ys|
      ensures '\n' !in (xs + ys)[i]
    {
      if i >= |xs| {
        assert (xs + ys)[i] == ys[i - |xs|];
      }
    }
  }

  /** The fixed lines of the post hold no "\n". */
  lemma FixedLinesSingle()
    ensures '\n' !in FocusLine && '\n' !in AchievementsTitle && '\n' !in Hashtags
    ensures '\n' !in BulletPrefix && '\n' !in TrophyPrefix
  {
  }

  /** With no "\n" in any field, no line of the post holds one. */
  lemma PostLinesAreSingle(userName: string, period: string, topics: seq<string>, achievements: seq<string>)
    requires '\n' !in userName && '\n' !in period
    requires SingleLines(topics) && SingleLines(achievements)
    ensures SingleLines(PostLines(userName, period, topics, achievements))
  {
    var header := HeaderLine(userName, period);
    var topicLines := if topics == [] then [""] else PrefixEach(BulletPrefix, topics);
    var achievementLines := if achievements == [] then [] else ["", AchievementsTitle] + PrefixEach(TrophyPrefix, achievements);
    FixedLinesSingle();
    assert SingleLines([header, "", FocusLine]);
    assert SingleLines(topicLines) by {
      PrefixEachSingleLines(BulletPrefix, topics);
    }
    assert SingleLines(achievementLines) by {
      PrefixEachSingleLines(TrophyPrefix, achievements);
      SingleLinesAppend(["", AchievementsTitle], PrefixEach(TrophyPrefix, achievements));
    }
    SingleLinesAppend([header, "", FocusLine], topicLines);
    SingleLinesAppend([header, "", FocusLine] + topicLines, achievementLines);
    SingleLinesAppend([header, "", FocusLine] + topicLines + achievementLines, ["", Hashtags]);
    assert PostLines(userName, period, topics, achievements)
        == [header, "", FocusLine] + topicLines + achievementLines + ["", Hashtags];
  }

  /**
   * When no field holds a "\n", splitting the post at "\n" gives back its
   * lines: every topic and every achievement on a line of its own, in the
   * order given.
   */
  lemma PostSplitsIntoLines(req: PostRequest)
    requires '\n' !in req.userName && '\n' !in req.period.GetOr(DefaultPeriod)
    requires SingleLines(req.topics) && SingleLines(req.achievements.GetOr([]))
    ensures SplitLines(GenerateLearningPost(req))
         == PostLines(req.userName, req.period.GetOr(DefaultPeriod), req.topics, req.achievements.GetOr([]))
  {
    var lines := PostLines(req.userName, req.period.GetOr(DefaultPeriod), req.topics, req.achievements.GetOr([]));
    PostLinesAreSingle(req.userName, req.period.GetOr(DefaultPeriod), req.topics, req.achievements.GetOr([]));
    PostIsJoinedLines(req);
    SplitJoin(lines);
  }
}
