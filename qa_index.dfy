/**
 * The entry points of src/plugins/qa/index.ts: the two `parse` listeners that turn a
 * shorthand message (`#12`, `##`, `## 问题`, `搜索 问题`) into the `qa` or `qa.status`
 * command, and the `qa` action that chains validation, execution and creation.
 */
module QaIndex {
  import opened Wrappers
  import opened Text
  import opened Dialogues
  import opened SearchFormat
  import opened SearchHandlers

  // ---------------------------------------------------------------------------------------
  // The id-list pattern `\d+(?:\.\.\d+)?(?:,\d+(?:\.\.\d+)?)*`

  /** `\d+(?:\.\.\d+)?`: a question id or a range of ids. */
  ghost predicate IsIdItem(s: string) {
    || IsDigits(s)
    || exists i :: 0 < i < |s| - 2 && IsDigits(s[..i]) && s[i..i + 2] == ".." && IsDigits(s[i + 2..])
  }

  /** A comma-separated list of ids and id ranges. */
  ghost predicate IsIdList(s: string)
    decreases |s|
  {
    || IsIdItem(s)
    || exists i :: 0 < i < |s| && s[i] == ',' && IsIdItem(s[..i]) && IsIdList(s[i + 1..])
  }

  /** Length of the id or id range that starts `s`; 0 when none does. */
  function ItemLength(s: string): (n: nat)
    ensures n <= |s|
  {
    var a := DigitRun(s);
    if a == 0 then 0
    else if StartsWith(s[a..], "..") && DigitRun(s[a + 2..]) > 0 then a + 2 + DigitRun(s[a + 2..])
    else a
  }

  /** Whether the whole of `s` is an id list, reading one item at a time. */
  function MatchIdList(s: string): bool
    decreases |s|
  {
    var n := ItemLength(s);
    n > 0 && (n == |s| || (s[n] == ',' && MatchIdList(s[n + 1..])))
  }

  /** A run of ASCII digits ends where a non-digit, or the text, does. */
  lemma DigitRunEnds(digits: string, tail: string)
    requires IsDigits(digits)
    requires tail == [] || !IsAsciiDigit(tail[0])
    ensures DigitRun(digits + tail) == |digits|
  {
    if tail == [] {
      assert digits + tail == digits;
    } else {
      DigitRunOfPrefix(digits, tail);
    }
  }

  /** The item at the start of `s` is an id item. */
  lemma ItemLengthSound(s: string)
    requires ItemLength(s) > 0
    ensures IsIdItem(s[..ItemLength(s)])
  {
    var a := DigitRun(s);
    var n := ItemLength(s);
    var t := s[..n];
    if n == a {
      assert IsDigits(t);
    } else {
      assert t[..a] == s[..a];
      assert t[a..a + 2] == s[a..a + 2] == "..";
      assert t[a + 2..] == s[a + 2..][..DigitRun(s[a + 2..])];
      assert IsDigits(t[a + 2..]);
    }
  }

  /** An id item followed by a comma or by nothing is read whole. */
  lemma ItemLengthExact(t: string, u: string)
    requires IsIdItem(t)
    requires u == [] || u[0] == ','
    ensures ItemLength(t + u) == |t|
  {
    if IsDigits(t) {
      SingleIdRead(t, u);
    } else {
      var i :| 0 < i < |t| - 2 && IsDigits(t[..i]) && t[i..i + 2] == ".." && IsDigits(t[i + 2..]);
      IdRangeSplit(t, i);
      IdRangeRead(t[..i], t[i + 2..], u);
    }
  }

  /** An id range is its two ids around `..`. */
  lemma IdRangeSplit(t: string, i: nat)
    requires 0 < i < |t| - 2 && t[i..i + 2] == ".."
    ensures t == t[..i] + ".." + t[i + 2..]
  {
  }

  lemma SingleIdRead(t: string, u: string)
    requires IsDigits(t)
    requires u == [] || u[0] == ','
    ensures ItemLength(t + u) == |t|
  {
    DigitRunEnds(t, u);
    assert (t + u)[|t|..] == u;
  }

  lemma IdRangeRead(from: string, to: string, u: string)
    requires IsDigits(from) && IsDigits(to)
    requires u == [] || u[0] == ','
    ensures ItemLength(from + ".." + to + u) == |from| + 2 + |to|
  {
    var s := from + ".." + to + u;
    var a := |from|;
    assert s == from + (".." + to + u);
    DigitRunEnds(from, ".." + to + u);
    assert s[a..] == ".." + to + u;
    assert StartsWith(s[a..], "..");
    assert s[a + 2..] == to + u;
    DigitRunEnds(to, u);
  }

  /** The item-by-item reader accepts exactly the id lists. */
  lemma MatchIdListExact(s: string)
    ensures MatchIdList(s) <==> IsIdList(s)
  {
    if MatchIdList(s) {
      MatchIdListSound(s);
    }
    if IsIdList(s) {
      MatchIdListComplete(s);
    }
  }

  /** What the reader accepts is an id list. */
  lemma {:induction false} MatchIdListSound(s: string)
    requires MatchIdList(s)
    ensures IsIdList(s)
    decreases |s|
  {
    var n := ItemLength(s);
    ItemLengthSound(s);
    if n == |s| {
      assert s[..n] == s;
    } else {
      MatchIdListSound(s[n + 1..]);
      assert 0 < n < |s| && s[n] == ',' && IsIdItem(s[..n]) && IsIdList(s[n + 1..]);
    }
  }

  /** Every id list is accepted by the reader. */
  lemma {:induction false} MatchIdListComplete(s: string)
    requires IsIdList(s)
    ensures MatchIdList(s)
    decreases |s|
  {
    if IsIdItem(s) {
      ItemLengthExact(s, []);
      assert s + [] == s;
    } else {
      var i :| 0 < i < |s| && s[i] == ',' && IsIdItem(s[..i]) && IsIdList(s[i + 1..]);
      MatchIdListComplete(s[i + 1..]);
      ItemThenList(s, i);
    }
  }

  /** An id item, a comma and an accepted list make an accepted list. */
  lemma ItemThenList(s: string, i: nat)
    requires 0 < i < |s| && s[i] == ','
    requires IsIdItem(s[..i]) && MatchIdList(s[i + 1..])
    ensures MatchIdList(s)
  {
    var t, u := s[..i], s[i..];
    assert t + u == s;
    ItemLengthExact(t, u);
    assert ItemLength(s) == i;
  }

  // ---------------------------------------------------------------------------------------
  // The shorthand pattern `^P(L?)((ids)?|L?)$` (index.ts:28-33)

  /** What may follow the prefix and the optional repeated last character. */
  ghost predicate IsTail(s: string, last: char) {
    s == [] || IsIdList(s) || s == [last]
  }

  function TailMatches(s: string, last: char): (r: bool)
    ensures r <==> IsTail(s, last)
  {
    MatchIdListExact(s);
    s == [] || MatchIdList(s) || s == [last]
  }

  /** `capture[1]` and `capture[2]` of a successful match. */
  datatype Captures = Captures(repeat: string, tail: string)

  /** The part of the pattern after the prefix, applied to the rest of the text. */
  function MatchRest(rest: string, last: char): (r: Option<Captures>)
    ensures r.Some? ==> rest == r.value.repeat + r.value.tail
    ensures r.Some? ==> r.value.repeat == [] || r.value.repeat == [last]
    ensures r.Some? ==> IsTail(r.value.tail, last)
  {
    if rest != [] && rest[0] == last && TailMatches(rest[1..], last) then
      assert rest == [last] + rest[1..];
      Some(Captures([last], rest[1..]))
    else if TailMatches(rest, last) then
      Some(Captures([], rest))
    else None
  }

  /**
   * The `qaRegExp` of a prefix applied to a text. The prefix is matched literally, as
   * `escapeRegExp` makes it; group 1 takes the prefix's last character whenever the rest
   * still matches, as backtracking tries it first.
   */
  function MatchQa(prefix: string, content: string): (r: Option<Captures>)
    requires prefix != []
    ensures r.Some? ==> content == prefix + r.value.repeat + r.value.tail
    ensures r.Some? ==> r.value.repeat == [] || r.value.repeat == [prefix[|prefix| - 1]]
    ensures r.Some? ==> IsTail(r.value.tail, prefix[|prefix| - 1])
  {
    if !StartsWith(content, prefix) then None
    else
      var r := MatchRest(content[|prefix|..], prefix[|prefix| - 1]);
      if r.None? then r
      else
        PrefixThenRest(prefix, content, r.value.repeat, r.value.tail);
        r
  }

  /** A text that starts with the prefix is the prefix followed by the rest, read in two pieces. */
  lemma PrefixThenRest(prefix: string, content: string, repeat: string, tail: string)
    requires StartsWith(content, prefix)
    requires content[|prefix|..] == repeat + tail
    ensures content == prefix + repeat + tail
  {
    assert content == content[..|prefix|] + content[|prefix|..];
  }

  /**
   * Every way of reading a text as prefix, optional last character and tail is found, and
   * the reading that repeats the last character is preferred.
   */
  lemma MatchQaComplete(prefix: string, content: string, repeat: string, tail: string)
    requires prefix != []
    requires content == prefix + repeat + tail
    requires repeat == [] || repeat == [prefix[|prefix| - 1]]
    requires IsTail(tail, prefix[|prefix| - 1])
    ensures MatchQa(prefix, content).Some?
    ensures repeat != [] ==> MatchQa(prefix, content) == Some(Captures(repeat, tail))
  {
    assert content[..|prefix|] == prefix;
    var rest := content[|prefix|..];
    assert rest == repeat + tail;
    if repeat != [] {
      assert rest[1..] == tail;
    }
    assert MatchQa(prefix, content) == MatchRest(rest, prefix[|prefix| - 1]);
  }

  /** Group 1 is empty only when the rest cannot be read with the last character repeated. */
  lemma MatchQaGreedy(prefix: string, content: string)
    requires prefix != []
    requires MatchQa(prefix, content).Some? && MatchQa(prefix, content).value.repeat == []
    ensures var tail := MatchQa(prefix, content).value.tail;
      !(tail != [] && tail[0] == prefix[|prefix| - 1] && IsTail(tail[1..], prefix[|prefix| - 1]))
  {
    assert MatchQa(prefix, content) == MatchRest(content[|prefix|..], prefix[|prefix| - 1]);
  }

  // ---------------------------------------------------------------------------------------
  // The parse listeners (index.ts:36-78)

  /** What the listeners read of the session: a quoted message, the parsed command prefix and text. */
  datatype Session = Session(quote: bool, parsedPrefix: Option<string>, parsedContent: string)

  /** What a parse listener leaves: it declines, or names a command with the new argv state. */
  datatype ParseOutcome =
    | Declined
    | Parsed(command: string, tokens: seq<string>, source: string, options: Options)

  /** The text the shorthand pattern is tried on: the first token, after the bot's own prefix when addressed. */
  function ShorthandText(root: bool, tokens: seq<string>, session: Session): string
    requires tokens != []
  {
    if root && Present(session.parsedPrefix) then session.parsedPrefix.value + tokens[0] else tokens[0]
  }

  /** The shorthand listener (index.ts:36-62) on the argv and session it is given. */
  function Shorthand(root: bool, tokens: seq<string>, session: Session, prefix: string): ParseOutcome
    requires prefix != []
  {
    if (root && session.quote) || tokens == [] then Declined
    else
      var capture := MatchQa(prefix, ShorthandText(root, tokens, session));
      if capture.None? then Declined
      else
        var last := [prefix[|prefix| - 1]];
        var rest := tokens[1..];
        var c := capture.value;
        if c.repeat == last && rest == [] then Parsed("qa.status", rest, session.parsedContent, map[])
        else
          var o1: Options := if c.repeat == last then map["search" := Bool(true)] else map[];
          var o2 := if c.tail != [] && c.tail != last then o1["target" := Str(c.tail)] else o1;
          Parsed("qa", rest, session.parsedContent, o2)
  }

  /**
   * The shorthand listener declines a quoted message to the bot, an empty command line and a
   * first token that does not match; otherwise it drops that token, takes the session's
   * text as source and sets options from scratch: `qa.status` for the doubled prefix alone,
   * a search for the doubled prefix followed by words, and a target for an id list.
   */
  lemma ShorthandOutcome(root: bool, tokens: seq<string>, session: Session, prefix: string)
    requires prefix != []
    ensures var out := Shorthand(root, tokens, session, prefix);
      && (out.Declined? <==>
            (root && session.quote) || tokens == [] || MatchQa(prefix, ShorthandText(root, tokens, session)).None?)
      && (out.Parsed? ==>
            var c := MatchQa(prefix, ShorthandText(root, tokens, session)).value;
            var last := [prefix[|prefix| - 1]];
            && out.tokens == tokens[1..] && out.source == session.parsedContent
            && (out.command == "qa.status" <==> c.repeat == last && |tokens| == 1)
            && (out.command != "qa.status" ==> out.command == "qa")
            && ("search" in out.options <==> c.repeat == last && |tokens| > 1)
            && ("search" in out.options ==> out.options["search"] == Bool(true))
            && ("target" in out.options <==> out.command == "qa" && c.tail != [] && c.tail != last)
            && ("target" in out.options ==> IsIdList(c.tail) && out.options["target"] == Str(c.tail))
            && out.options.Keys <= {"search", "target"})
  {
  }

  /** The search-word listener (index.ts:64-78). */
  function SearchWord(root: bool, tokens: seq<string>, session: Session): (out: ParseOutcome)
    ensures out.Parsed? <==> !(root && session.quote) && tokens != [] && tokens[0] == "搜索"
    ensures out.Parsed? ==> out.tokens == tokens[1..] && out.source == session.parsedContent
    ensures out.Parsed? ==> (out.command == "qa.status" <==> |tokens| == 1)
    ensures out.Parsed? && |tokens| == 1 ==> out.tokens == [] && out.options == map[]
    ensures out.Parsed? && |tokens| > 1 ==>
      out.command == "qa" && out.options == map["search" := Bool(true), "searchQuestionAnswer" := Bool(true)]
  {
    if (root && session.quote) || tokens == [] || tokens[0] != "搜索" then Declined
    else if |tokens| == 1 then Parsed("qa.status", [], session.parsedContent, map[])
    else Parsed("qa", tokens[1..], session.parsedContent, map["search" := Bool(true), "searchQuestionAnswer" := Bool(true)])
  }

  /** Both listeners in registration order: the first that names a command wins. */
  function ParseSpec(root: bool, tokens: seq<string>, session: Session, prefix: string): ParseOutcome
    requires prefix != []
  {
    var first := Shorthand(root, tokens, session, prefix);
    if first.Parsed? then first else SearchWord(root, tokens, session)
  }

  /** The argv the parse listeners rewrite. */
  class ParseArgv {
    var root: bool
    var tokens: seq<string>
    var source: string
    var options: Options

    constructor (root: bool, tokens: seq<string>, source: string, options: Options)
      ensures this.root == root && this.tokens == tokens && this.source == source && this.options == options
    {
      this.root := root;
      this.tokens := tokens;
      this.source := source;
      this.options := options;
    }

    /** The shorthand listener (index.ts:36-62). */
    method ParseShorthand(session: Session, prefix: string) returns (command: Option<string>)
      requires prefix != []
      modifies this
      ensures var out := Shorthand(old(root), old(tokens), session, prefix);
        && root == old(root)
        && (out.Declined? ==> command.None? && tokens == old(tokens) && source == old(source) && options == old(options))
        && (out.Parsed? ==> command == Some(out.command) && tokens == out.tokens && source == out.source && options == out.options)
    {
      if (root && session.quote) || |tokens| == 0 {
        return None;
      }
      var content := tokens[0];
      if root && Present(session.parsedPrefix) {
        content := session.parsedPrefix.value + content;
      }
      var capture := MatchQa(prefix, content);
      if capture.None? {
        return None;
      }
      var last := [prefix[|prefix| - 1]];
      tokens := tokens[1..];
      source := session.parsedContent;
      options := map[];
      if capture.value.repeat == last {
        if |tokens| == 0 {
          return Some("qa.status");
        }
        options := options["search" := Bool(true)];
      }
      if capture.value.tail != [] && capture.value.tail != last {
        options := options["target" := Str(capture.value.tail)];
      }
      return Some("qa");
    }

    /** The search-word listener (index.ts:64-78). */
    method ParseSearchWord(session: Session) returns (command: Option<string>)
      modifies this
      ensures var out := SearchWord(old(root), old(tokens), session);
        && root == old(root)
        && (out.Declined? ==> command.None? && tokens == old(tokens) && source == old(source) && options == old(options))
        && (out.Parsed? ==> command == Some(out.command) && tokens == out.tokens && source == out.source && options == out.options)
    {
      if (root && session.quote) || |tokens| == 0 {
        return None;
      }
      if tokens[0] != "搜索" {
        return None;
      }
      tokens := tokens[1..];
      source := session.parsedContent;
      options := map[];
      if |tokens| == 0 {
        return Some("qa.status");
      }
      options := options["search" := Bool(true)];
      options := options["searchQuestionAnswer" := Bool(true)];
      return Some("qa");
    }

    /** The `parse` event with both listeners, in registration order. */
    method Parse(session: Session, prefix: string) returns (command: Option<string>)
      requires prefix != []
      modifies this
      ensures var out := ParseSpec(old(root), old(tokens), session, prefix);
        && (out.Declined? ==> command.None? && tokens == old(tokens) && source == old(source) && options == old(options))
        && (out.Parsed? ==> command == Some(out.command) && tokens == out.tokens && source == out.source && options == out.options)
    {
      command := ParseShorthand(session, prefix);
      if command.None? {
        command := ParseSearchWord(session);
      }
    }
  }

  // Concrete readings with the default prefix `#`.

  /** `1,3..5` is an id list. */
  lemma SampleIdList()
    ensures IsIdList("1,3..5")
  {
    assert MatchIdList("1,3..5");
    MatchIdListExact("1,3..5");
  }

  /** The pattern of `#` reads `#1,3..5` as the prefix and an id list. */
  lemma SampleMatch()
    ensures MatchQa("#", "#1,3..5") == Some(Captures([], "1,3..5"))
  {
    var text: string, ids: string := "#1,3..5", "1,3..5";
    SampleIdList();
    assert TailMatches(ids, '#');
    assert ids[0] == '1';
    assert MatchRest(ids, '#') == Some(Captures([], ids));
    assert text[..1] == "#" && text[1..] == ids;
  }

  /** `#1,3..5` asks for dialogues 1 and 3 to 5. */
  lemma ShorthandTargets()
    ensures Shorthand(false, ["#1,3..5"], Session(false, None, "#1,3..5"), "#")
      == Parsed("qa", [], "#1,3..5", map["target" := Str("1,3..5")])
  {
    var text: string, ids: string := "#1,3..5", "1,3..5";
    SampleMatch();
    assert ids != [] && ids != ['#'];
    ShorthandSingleToken(text, Session(false, None, text), "#", Captures([], ids));
  }

  /** A single token whose match does not repeat the last character opens `qa`, with a target for an id list. */
  lemma ShorthandSingleToken(text: string, session: Session, prefix: string, c: Captures)
    requires prefix != [] && MatchQa(prefix, text) == Some(c)
    requires c.repeat != [prefix[|prefix| - 1]]
    ensures Shorthand(false, [text], session, prefix)
      == Parsed("qa", [], session.parsedContent,
                if c.tail != [] && c.tail != [prefix[|prefix| - 1]] then map["target" := Str(c.tail)] else map[])
  {
    assert [text][1..] == [];
  }

  /** `##` alone asks for the status, and `##` followed by words for a search. */
  lemma ShorthandStatusAndSearch(words: seq<string>)
    ensures Shorthand(false, ["##"], Session(false, None, "##"), "#") == Parsed("qa.status", [], "##", map[])
    ensures words != [] ==>
      Shorthand(false, ["##"] + words, Session(false, None, "## x"), "#") == Parsed("qa", words, "## x", map["search" := Bool(true)])
  {
    MatchQaComplete("#", "##", "#", []);
    assert (["##"] + words)[1..] == words;
  }

  /** `###` reads as a doubled prefix followed by the last character, so it names no target. */
  lemma ShorthandTriple()
    ensures Shorthand(false, ["###"], Session(false, None, "###"), "#") == Parsed("qa.status", [], "###", map[])
  {
    MatchQaComplete("#", "###", "#", "#");
  }

  /** A bare `#` opens the command without options, and `#你好` is not a shorthand. */
  lemma ShorthandBareAndText()
    ensures Shorthand(false, ["#"], Session(false, None, "#"), "#") == Parsed("qa", [], "#", map[])
    ensures Shorthand(false, ["#你好"], Session(false, None, "#你好"), "#") == Declined
  {
    MatchQaComplete("#", "#", [], []);
    var text := "#你好";
    var rest := text[1..];
    assert rest == "你好";
    assert !IsIdList(rest) by {
      MatchIdListExact(rest);
      assert DigitRun(rest) == 0;
    }
    assert !IsIdList(rest[1..]) by {
      MatchIdListExact(rest[1..]);
      assert DigitRun(rest[1..]) == 0;
    }
  }

  /** A search word is only read when the shorthand listener declines. */
  lemma ShorthandFirst(root: bool, tokens: seq<string>, session: Session, prefix: string)
    requires prefix != []
    ensures Shorthand(root, tokens, session, prefix).Parsed? ==> ParseSpec(root, tokens, session, prefix) == Shorthand(root, tokens, session, prefix)
    ensures Shorthand(root, tokens, session, prefix).Declined? && tokens != [] && tokens[0] == "搜索" && !(root && session.quote) ==>
      ParseSpec(root, tokens, session, prefix).Parsed?
  {
  }

  // ---------------------------------------------------------------------------------------
  // The `qa` action (index.ts:105-119)

  /**
   * `bail('dialogue/validate') || bail('dialogue/execute') || create(argd)`: `validate` is
   * the first validator message, `execute` the promise of the first executing listener
   * (a promise is truthy whatever it resolves to), `create` the creation reply.
   */
  function QaAction(validate: Option<string>, execute: Option<string>, create: string): (r: string)
    ensures Present(validate) ==> r == validate.value
    ensures !Present(validate) && execute.Some? ==> r == execute.value
    ensures !Present(validate) && execute.None? ==> r == create
  {
    if Present(validate) then validate.value
    else if execute.Some? then execute.value
    else create
  }

  /** A doubled prefix followed by words runs the search and not a creation, unless a validator objects. */
  lemma ShorthandSearchRunsSearch(words: seq<string>, session: Session, showSearch: string, create: string)
    requires words != [] && !session.quote
    ensures var out := Shorthand(true, ["##"] + words, session.(parsedPrefix := None), "#");
      && out.Parsed? && out.command == "qa"
      && QaAction(None, Execute(out.options, showSearch), create) == showSearch
  {
    MatchQaComplete("#", "##", "#", []);
    assert (["##"] + words)[1..] == words;
  }
}
