/** Cleaning the model's reply before it is parsed as JSON:
    `results_str.strip("```").strip("json")`. Both arguments of `strip` are
    character sets, so the first call drops every backtick at either end and
    the second every 'j', 's', 'o' and 'n' at either end; whitespace stays. */
module Reply {
  import opened Strings

  const Backticks: set<char> := {'`'}
  const JsonLetters: set<char> := {'j', 's', 'o', 'n'}

  function CleanReply(reply: string): string
  {
    Strip(Strip(reply, Backticks), JsonLetters)
  }

  /** The cleaned reply is a contiguous piece of the reply. */
  lemma CleanReplyIsSubstring(reply: string)
    ensures Contains(reply, CleanReply(reply))
  {
    StripTwiceContained(reply, Backticks, JsonLetters);
  }

  /** The cleaned reply starts and ends outside the letters of "json". */
  lemma CleanReplyEdges(reply: string)
    ensures var r := CleanReply(reply);
      r == [] || (r[0] !in JsonLetters && r[|r| - 1] !in JsonLetters)
  {
    StripEdges(Strip(reply, Backticks), JsonLetters);
  }

  /** A reply whose first and last characters are neither backticks nor
      letters of "json" (a bare JSON object, whitespace) is left unchanged. */
  lemma UnfencedReplyUnchanged(reply: string)
    requires reply == [] ||
      (reply[0] !in Backticks && reply[0] !in JsonLetters
       && reply[|reply| - 1] !in Backticks && reply[|reply| - 1] !in JsonLetters)
    ensures CleanReply(reply) == reply
  {
    StripLeavesTrimmed(reply, Backticks);
    StripLeavesTrimmed(reply, JsonLetters);
  }

  predicate IsPlainBody(body: string)
  {
    body == [] ||
      (body[0] !in Backticks && body[0] !in JsonLetters
       && body[|body| - 1] !in Backticks && body[|body| - 1] !in JsonLetters)
  }

  function Fenced(body: string, tagged: bool): string
  {
    "```" + (if tagged then "json" else "") + body + "```"
  }

  // The helpers below that pin a parameter to a literal with `requires` keep
  // the solver from unfolding Strip on the literal itself, which is costly.

  lemma AllBackticks(p: string)
    requires p == "```"
    ensures forall i :: 0 <= i < |p| ==> p[i] in Backticks
  {
  }

  lemma AllJsonLetters(p: string)
    requires p == "json"
    ensures forall i :: 0 <= i < |p| ==> p[i] in JsonLetters
  {
  }

  /** The backtick strip of a fenced reply leaves the tag and the body. */
  lemma {:induction false} BacktickStripOfFenced(body: string, tagged: bool)
    requires IsPlainBody(body)
    ensures Strip(Fenced(body, tagged), Backticks) == (if tagged then "json" else "") + body
  {
    var tag: string := if tagged then "json" else "";
    var inner := tag + body;
    AllBackticks("```");
    assert Fenced(body, tagged) == "```" + (inner + "```");
    LStripSkipsPrefix("```", inner + "```", Backticks);
    if inner == [] {
      assert inner + "```" == "```" + [];
      LStripSkipsPrefix("```", [], Backticks);
      assert LStrip(inner + "```", Backticks) == [];
    } else {
      assert (inner + "```")[0] == inner[0];
      assert inner[0] !in Backticks;
      assert LStrip(inner + "```", Backticks) == inner + "```";
      RStripSkipsSuffix(inner, "```", Backticks);
      assert inner[|inner| - 1] !in Backticks;
      assert RStrip(inner, Backticks) == inner;
    }
  }

  /** The letter strip of the tag and body leaves the body. */
  lemma {:induction false} LetterStripOfTagged(body: string, tagged: bool)
    requires IsPlainBody(body)
    ensures Strip((if tagged then "json" else "") + body, JsonLetters) == body
  {
    var tag: string := if tagged then "json" else "";
    AllJsonLetters("json");
    if tagged {
      LStripSkipsPrefix("json", body, JsonLetters);
    } else {
      assert tag + body == body;
    }
    StripLeavesTrimmed(body, JsonLetters);
  }

  /** A fenced reply, with or without the "json" tag, cleans to its body when
      the body neither starts nor ends with a backtick or a letter of "json". */
  lemma FencedReplyRoundTrip(body: string, tagged: bool)
    requires IsPlainBody(body)
    ensures CleanReply(Fenced(body, tagged)) == body
  {
    BacktickStripOfFenced(body, tagged);
    LetterStripOfTagged(body, tagged);
  }

  lemma TaggedObjectRoundTrip(body: string)
    requires body == "\n{}\n"
    ensures CleanReply(Fenced(body, true)) == body
  {
    FencedReplyRoundTrip(body, true);
  }

  lemma TaggedObjectFence()
    ensures Fenced("\n{}\n", true) == "```json\n{}\n```"
  {
  }

  /** The usual tagged reply: the newlines around the object survive. */
  lemma TaggedReplyExample()
    ensures CleanReply("```json\n{}\n```") == "\n{}\n"
  {
    TaggedObjectRoundTrip("\n{}\n");
    TaggedObjectFence();
  }

  /** "j`x`j": no backtick at the ends, then the two letters go. */
  lemma FirstCleaning(s: string)
    requires s == "j`x`j"
    ensures CleanReply(s) == "`x`"
  {
    var mid := "`x`";
    assert s == ['j'] + mid + ['j'];
    assert s[0] == 'j' && s[|s| - 1] == 'j';
    StripLeavesTrimmed(s, Backticks);
    StripOneEachSide('j', mid, JsonLetters);
  }

  /** "`x`": the exposed backticks go, and "x" is left. */
  lemma SecondCleaning(s: string)
    requires s == "`x`"
    ensures CleanReply(s) == "x"
  {
    assert s == ['`'] + "x" + ['`'];
    StripOneEachSide('`', "x", Backticks);
    StripLeavesTrimmed("x", JsonLetters);
  }

  /** Cleaning twice is not cleaning once: the letter strip can expose a
      backtick that the first strip did not see. */
  lemma CleanReplyNotIdempotent()
    ensures CleanReply("j`x`j") == "`x`"
    ensures CleanReply(CleanReply("j`x`j")) == "x"
  {
    FirstCleaning("j`x`j");
    SecondCleaning("`x`");
  }

  /** Cleaning is stable once no backtick is left at either end. */
  lemma CleanReplyStable(reply: string)
    requires var r := CleanReply(reply); r == [] || (r[0] !in Backticks && r[|r| - 1] !in Backticks)
    ensures CleanReply(CleanReply(reply)) == CleanReply(reply)
  {
    var r := CleanReply(reply);
    CleanReplyEdges(reply);
    UnfencedReplyUnchanged(r);
  }
}
