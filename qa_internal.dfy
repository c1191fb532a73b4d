/**
 * The built-in hooks of src/plugins/qa/internal.ts: the `qa` argument check, the validators
 * and field updates of `dialogue/modify`, the per-flag hooks, the guard against commands
 * called from a taught answer, the redirection detail, and the compiler from a
 * `DialogueTest` to a storage query.
 */
module QaInternal {
  import opened Wrappers
  import opened Text
  import opened Dialogues
  import opened SearchFormat

  // ---------------------------------------------------------------------------------------
  // The argument check (internal.ts:16-37)

  const ExtraArgsMessage := "存在多余的参数，请检查指令语法或将含有空格或换行的问答置于一对引号内。"
  const NonTextMessage := "问题必须是纯文本。"

  /** The first positional argument, if any. */
  function FirstArg(args: seq<string>): Option<string> {
    if args == [] then None else Some(args[0])
  }

  /** The second positional argument, if any. */
  function SecondArg(args: seq<string>): Option<string> {
    if |args| < 2 then None else Some(args[1])
  }

  /** The value `parseArgument` returns for the argument it takes off the front. */
  function NormalizeArgument(arg: Option<string>): (r: string)
    ensures r != [] ==> !IsJsSpace(r[0]) && !IsJsSpace(r[|r| - 1])
    ensures r == [] <==> arg.None? || arg.value in {"", "~", "～"} || Trim(arg.value) == []
    ensures arg.Some? && arg.value !in {"", "~", "～"} ==> r == Trim(arg.value)
  {
    if arg.None? || arg.value == "" || arg.value == "~" || arg.value == "～" then "" else Trim(arg.value)
  }

  /** `/\[CQ:(?!face)/.test(q)`: a CQ code other than a face starts at some position. */
  ghost predicate NonFaceCodeAt(q: string, i: nat) {
    i <= |q| && StartsWith(q[i..], "[CQ:") && !StartsWith(q[i + 4..], "face")
  }

  function HasNonFaceCode(q: string): (r: bool)
    ensures r <==> exists i :: 0 <= i < |q| && NonFaceCodeAt(q, i)
  {
    if q == [] then false
    else if StartsWith(q, "[CQ:") && !StartsWith(q[4..], "face") then
      assert q[0..] == q && q[0 + 4..] == q[4..];
      assert NonFaceCodeAt(q, 0);
      true
    else
      var rest := HasNonFaceCode(q[1..]);
      assert forall i :: 1 <= i < |q| ==> q[i..] == q[1..][i - 1..];
      assert forall i :: 1 <= i < |q| && NonFaceCodeAt(q, i) ==> NonFaceCodeAt(q[1..], i - 1);
      assert forall i :: 0 <= i < |q[1..]| && NonFaceCodeAt(q[1..], i) ==> NonFaceCodeAt(q, i + 1);
      rest
  }

  /** What the check leaves behind: its reply, the new `args` and the new `options`. */
  datatype CheckOutcome = CheckOutcome(reply: Option<string>, args: seq<string>, options: Options)

  /** The check hook as a function of the arguments and options it is given. */
  function CheckSpec(args: seq<string>, options: Options, strip: string -> Stripped): CheckOutcome {
    var rest := if args == [] then [] else args[1..];
    CheckWith(NormalizeArgument(FirstArg(args)), NormalizeArgument(FirstArg(rest)),
              if rest == [] then [] else rest[1..], options, strip)
  }

  /** The check once question and answer are taken off: `left` is what remains of `args`. */
  function CheckWith(question: string, answer: string, left: seq<string>, options: Options, strip: string -> Stripped): CheckOutcome {
    if left != [] then CheckOutcome(Some(ExtraArgsMessage), left, options)
    else if HasNonFaceCode(question) then CheckOutcome(Some(NonTextMessage), [], options)
    else
      var s := strip(question);
      var options' := options["appellative" := Bool(s.appellative)]["original" := Str(s.original)];
      CheckOutcome(None, if s.parsed == "" && answer == "" then [] else [s.parsed, answer], options')
  }

  /**
   * The check rejects more than two arguments and a question holding a non-face CQ code,
   * in both cases before touching the options; otherwise `args` becomes `[parsed, answer]`,
   * or nothing when both are empty, and the options carry the stripped question's data.
   */
  lemma CheckOutcomes(args: seq<string>, options: Options, strip: string -> Stripped)
    ensures var out := CheckSpec(args, options, strip);
      && (|args| > 2 <==> out.reply == Some(ExtraArgsMessage))
      && (|args| > 2 ==> out.args == args[2..])
      && (out.reply.Some? ==> out.options == options)
      && (out.reply == Some(NonTextMessage) <==> |args| <= 2 && HasNonFaceCode(NormalizeArgument(FirstArg(args))))
      && (out.reply.None? ==>
            var s, answer := strip(NormalizeArgument(FirstArg(args))), NormalizeArgument(SecondArg(args));
            && out.args == (if s.parsed == "" && answer == "" then [] else [s.parsed, answer])
            && out.options.Keys == options.Keys + {"appellative", "original"}
            && (forall k :: k in options && k !in {"appellative", "original"} ==> out.options[k] == options[k])
            && out.options["original"] == Str(s.original)
            && out.options["appellative"] == Bool(s.appellative))
  {
    var rest := if args == [] then [] else args[1..];
    assert FirstArg(rest) == SecondArg(args);
    var left := if rest == [] then [] else rest[1..];
    var question := NormalizeArgument(FirstArg(args));
    assert |args| > 2 <==> left != [];
    if |args| > 2 {
      assert left == args[2..];
    }
    CheckWithOutcomes(question, NormalizeArgument(FirstArg(rest)), left, options, strip);
  }

  /** `CheckOutcomes` for the check once the arguments are taken off. */
  lemma CheckWithOutcomes(question: string, answer: string, left: seq<string>, options: Options, strip: string -> Stripped)
    ensures var out := CheckWith(question, answer, left, options, strip);
      && (left != [] <==> out.reply == Some(ExtraArgsMessage))
      && (left != [] ==> out.args == left)
      && (out.reply.Some? ==> out.options == options)
      && (out.reply == Some(NonTextMessage) <==> left == [] && HasNonFaceCode(question))
      && (out.reply.None? ==>
            var s := strip(question);
            && out.args == (if s.parsed == "" && answer == "" then [] else [s.parsed, answer])
            && out.options.Keys == options.Keys + {"appellative", "original"}
            && (forall k :: k in options && k !in {"appellative", "original"} ==> out.options[k] == options[k])
            && out.options["original"] == Str(s.original)
            && out.options["appellative"] == Bool(s.appellative))
  {
    assert ExtraArgsMessage != NonTextMessage;
  }

  /** The command's positional arguments and options, as the check hook sees them. */
  class QaArgv {
    var args: seq<string>
    var options: Options

    constructor (args: seq<string>, options: Options)
      ensures this.args == args && this.options == options
    {
      this.args := args;
      this.options := options;
    }

    /** `parseArgument`: take the first argument off `args` and normalise it. */
    method ParseArgument() returns (r: string)
      modifies this`args
      ensures args == (if old(args) == [] then [] else old(args)[1..])
      ensures r == NormalizeArgument(FirstArg(old(args)))
    {
      if |args| == 0 {
        return "";
      }
      var arg := args[0];
      args := args[1..];
      if arg == "" || arg == "~" || arg == "～" {
        return "";
      }
      r := Trim(arg);
    }

    /** The `qa` command's check hook (internal.ts:16-37). */
    method Check(strip: string -> Stripped) returns (reply: Option<string>)
      modifies this
      ensures var out := CheckSpec(old(args), old(options), strip);
        reply == out.reply && args == out.args && options == out.options
    {
      var question := ParseArgument();
      var answer := ParseArgument();
      assert CheckSpec(old(args), old(options), strip) == CheckWith(question, answer, args, options, strip);
      if |args| > 0 {
        return Some(ExtraArgsMessage);
      } else if HasNonFaceCode(question) {
        return Some(NonTextMessage);
      }
      var s := strip(question);
      options := options["appellative" := Bool(s.appellative)];
      options := options["original" := Str(s.original)];
      args := [s.parsed, answer];
      if s.parsed == "" && answer == "" {
        args := [];
      }
      reply := None;
    }
  }

  // ---------------------------------------------------------------------------------------
  // Validators of dialogue/modify (internal.ts:39-72)

  const BadRegexMessage := "问题含有错误的或不支持的正则表达式语法。"
  const UsageMessage := "问答 v0.1.0\nby Il-Harper\n用法：\n搜索 <问题> - 搜索问题。\n#<问题编号> - 查看问题。\n# <问题> <回答> - 添加问题。"
  const MissingMessage := "缺少问题或回答，请检查指令语法。"

  /** `options[name] === false`. */
  predicate OptionIsFalse(options: Options, name: string) {
    name in options && options[name] == Bool(false)
  }

  /** Whether the edit has its questions checked as patterns. */
  predicate PatternCheckNeeded(options: Options, args: seq<string>, targets: seq<Dialogue>) {
    || OptionSet(options, "regexp")
    || (!OptionIsFalse(options, "regexp") && ArgGiven(args, 0)
        && exists i :: 0 <= i < |targets| && HasFlag(targets[i], RegexpBit))
  }

  /** The questions that are checked: the new one, or else those of the dialogues being edited. */
  function CheckedQuestions(args: seq<string>, targets: seq<Dialogue>): (qs: seq<string>)
    ensures ArgGiven(args, 0) ==> qs == [args[0]]
    ensures !ArgGiven(args, 0) ==> |qs| == |targets| && forall i :: 0 <= i < |targets| ==> qs[i] == targets[i].question
  {
    if ArgGiven(args, 0) then [args[0]]
    else seq(|targets|, i requires 0 <= i < |targets| => targets[i].question)
  }

  /**
   * The pattern validator (internal.ts:39-58); `isValid(q)` says whether `new RegExp(q)`
   * succeeds.
   */
  function ValidatePatterns(options: Options, args: seq<string>, targets: seq<Dialogue>, isValid: string -> bool): Option<string> {
    var qs := CheckedQuestions(args, targets);
    if PatternCheckNeeded(options, args, targets) && exists i :: 0 <= i < |qs| && !isValid(qs[i])
    then Some(BadRegexMessage) else None
  }

  /**
   * The validator rejects only with the pattern message, and only when a checked question is
   * not a pattern: never when every question is valid, never when `regexp` is explicitly false
   * and the edited dialogues are not asked to be patterns.
   */
  lemma ValidatePatternsCases(options: Options, args: seq<string>, targets: seq<Dialogue>, isValid: string -> bool)
    ensures var r := ValidatePatterns(options, args, targets, isValid);
      && (r.Some? ==> r.value == BadRegexMessage)
      && ((forall q :: isValid(q)) ==> r.None?)
      && (OptionIsFalse(options, "regexp") ==> r.None?)
      && (OptionSet(options, "regexp") && ArgGiven(args, 0) ==> (r.Some? <==> !isValid(args[0])))
      && (!ArgGiven(args, 0) && OptionSet(options, "regexp") ==>
            (r.Some? <==> exists i :: 0 <= i < |targets| && !isValid(targets[i].question)))
      && (!OptionSet(options, "regexp") && !OptionIsFalse(options, "regexp") && ArgGiven(args, 0)
          && (exists i :: 0 <= i < |targets| && HasFlag(targets[i], RegexpBit)) ==>
            (r.Some? <==> !isValid(args[0])))
      && (!OptionSet(options, "regexp")
          && (!ArgGiven(args, 0) || forall i :: 0 <= i < |targets| ==> !HasFlag(targets[i], RegexpBit)) ==>
            r.None?)
  {
    var qs := CheckedQuestions(args, targets);
    if ArgGiven(args, 0) {
      assert qs[0] == args[0];
    } else if OptionSet(options, "regexp") {
      assert forall i :: 0 <= i < |targets| ==> qs[i] == targets[i].question;
    }
  }

  /** The create validator (internal.ts:60-72): a new dialogue needs a question and an answer. */
  function ValidateCreate(options: Options, hasTarget: bool, args: seq<string>): Option<string> {
    if OptionSet(options, "create") && !hasTarget then
      if |args| == 0 then Some(UsageMessage)
      else if !(ArgGiven(args, 0) && ArgGiven(args, 1)) then Some(MissingMessage)
      else None
    else None
  }

  /** A create is let through exactly when it is not a create without target, or has both parts. */
  lemma ValidateCreateAccepts(options: Options, hasTarget: bool, args: seq<string>)
    ensures ValidateCreate(options, hasTarget, args).None?
      <==> !OptionSet(options, "create") || hasTarget || (ArgGiven(args, 0) && ArgGiven(args, 1))
    ensures ValidateCreate(options, hasTarget, args) == Some(UsageMessage)
      <==> OptionSet(options, "create") && !hasTarget && args == []
    ensures ValidateCreate(options, hasTarget, args) == Some(MissingMessage)
      <==> OptionSet(options, "create") && !hasTarget && args != [] && !(ArgGiven(args, 0) && ArgGiven(args, 1))
  {
    assert UsageMessage != MissingMessage;
  }

  // ---------------------------------------------------------------------------------------
  // Field and flag updates of dialogue/modify (internal.ts:74-88, 104-108)

  /** `flag &= ~(1 << bit); flag |= +on * (1 << bit)`. */
  function UpdateBit(flag: set<Bit>, bit: Bit, on: bool): (r: set<Bit>)
    ensures r - {bit} == flag - {bit}
    ensures bit in r <==> on
  {
    if on then flag + {bit} else flag - {bit}
  }

  /** Setting a bit twice is setting it the last time; writing back a bit's own value changes nothing. */
  lemma UpdateBitLaws(flag: set<Bit>, bit: Bit, x: bool, y: bool)
    ensures UpdateBit(UpdateBit(flag, bit, x), bit, y) == UpdateBit(flag, bit, y)
    ensures UpdateBit(flag, bit, bit in flag) == flag
  {
  }

  /** Updates to different bits commute. */
  lemma UpdateBitCommutes(flag: set<Bit>, b1: Bit, b2: Bit, x: bool, y: bool)
    requires b1 != b2
    ensures UpdateBit(UpdateBit(flag, b1, x), b2, y) == UpdateBit(UpdateBit(flag, b2, y), b1, x)
  {
  }

  /** The dialogue after the built-in modify listener (internal.ts:74-88). */
  function Modified(d: Dialogue, options: Options, args: seq<string>): Dialogue
    requires ArgGiven(args, 0) ==> StrOption(options, "original").Some?
  {
    var d1 := if ArgGiven(args, 1) then d.(answer := args[1]) else d;
    var d2 := if "regexp" in options then d1.(flag := UpdateBit(d1.flag, RegexpBit, Truthy(options["regexp"]))) else d1;
    if ArgGiven(args, 0) then d2.(question := args[0], original := StrOption(options, "original").value) else d2
  }

  /**
   * The modify listener writes the answer only when one is given, the question and
   * original only when a question is given, and only the regexp bit of the flag, only when
   * the option is defined; applying the same edit twice is applying it once.
   */
  lemma ModifiedChanges(d: Dialogue, options: Options, args: seq<string>)
    requires ArgGiven(args, 0) ==> StrOption(options, "original").Some?
    ensures var r := Modified(d, options, args);
      && r.id == d.id && r.redirections == d.redirections
      && (ArgGiven(args, 1) ==> r.answer == args[1])
      && (!ArgGiven(args, 1) ==> r.answer == d.answer)
      && (ArgGiven(args, 0) ==> r.question == args[0] && r.original == StrOption(options, "original").value)
      && (!ArgGiven(args, 0) ==> r.question == d.question && r.original == d.original)
      && r.flag - {RegexpBit} == d.flag - {RegexpBit}
      && ("regexp" !in options ==> r.flag == d.flag)
      && ("regexp" in options ==> (HasFlag(r, RegexpBit) <==> Truthy(options["regexp"])))
      && Modified(r, options, args) == r
  {
    if "regexp" in options {
      var on := Truthy(options["regexp"]);
      UpdateBitLaws(d.flag, RegexpBit, on, on);
    }
  }

  /** A registered flag's modify listener (internal.ts:104-108). */
  function FlagModified(d: Dialogue, options: Options, flag: FlagDef): (r: Dialogue)
    ensures r == d.(flag := r.flag)
    ensures flag.name !in options ==> r == d
    ensures r.flag - {flag.bit} == d.flag - {flag.bit}
    ensures flag.name in options ==> (HasFlag(r, flag.bit) <==> Truthy(options[flag.name]))
  {
    if flag.name in options then d.(flag := UpdateBit(d.flag, flag.bit, Truthy(options[flag.name]))) else d
  }

  /** The row `dialogue/modify` listeners write to (`data`). */
  class DialogueRecord {
    var id: nat
    var question: string
    var original: string
    var answer: string
    var flag: set<Bit>

    constructor (d: Dialogue)
      ensures Value() == d.(redirections := [])
    {
      id, question, original, answer, flag := d.id, d.question, d.original, d.answer, d.flag;
    }

    function Value(): Dialogue
      reads this
    {
      Dialogue(id, question, original, answer, flag, [])
    }

    /** The built-in modify listener (internal.ts:74-88). */
    method ApplyModify(options: Options, args: seq<string>)
      requires ArgGiven(args, 0) ==> StrOption(options, "original").Some?
      modifies this
      ensures Value() == Modified(old(Value()), options, args)
    {
      if ArgGiven(args, 1) {
        answer := args[1];
      }
      if "regexp" in options {
        flag := flag - {RegexpBit};
        if Truthy(options["regexp"]) {
          flag := flag + {RegexpBit};
        }
      }
      if ArgGiven(args, 0) {
        question := args[0];
        original := StrOption(options, "original").value;
      }
    }

    /** A registered flag's modify listener (internal.ts:104-108). */
    method ApplyFlag(options: Options, f: FlagDef)
      modifies this
      ensures Value() == FlagModified(old(Value()), options, f)
    {
      if f.name in options {
        flag := flag - {f.bit};
        if Truthy(options[f.name]) {
          flag := flag + {f.bit};
        }
      }
    }
  }

  // ---------------------------------------------------------------------------------------
  // The command guard and the detail listener (internal.ts:90-97, 121-125)

  /** The `before('command')` guard: a command marked `noInterp` may not run from a taught answer. */
  function InterpolationGuard(noInterp: bool, redirected: bool, command: string): (r: Option<string>)
    ensures r.Some? <==> noInterp && redirected
    ensures r.Some? ==> EndsWith(r.value, command + " 指令。")
  {
    if noInterp && redirected then Some("禁止在教学回答中插值调用 " + command + " 指令。") else None
  }

  /** The lines the `dialogue/detail` listener pushes: the redirections, under a heading. */
  function RedirectionDetail(d: Dialogue, others: DetailProducer): (lines: seq<string>)
    ensures d.redirections == [] <==> lines == []
    ensures lines != [] ==> lines[0] == "重定向到：" && |lines| == 1 + |d.redirections|
    ensures forall i :: 1 <= i < |lines| ==> StartsWith(lines[i], NatToDecimal(d.redirections[i - 1].id) + ". ")
  {
    if d.redirections == [] then []
    else
      var entries := FormatQuestionAnswers(d.redirections, "", others);
      EntriesStartWithIds(d.redirections, others);
      RedirectionLines(d.redirections, entries, ["重定向到："] + entries);
      ["重定向到："] + entries
  }

  /** The heading followed by entries that start with their ids: one line per redirection. */
  lemma RedirectionLines(ds: seq<Dialogue>, entries: seq<string>, lines: seq<string>)
    requires |entries| == |ds|
    requires forall i :: 0 <= i < |ds| ==> StartsWith(entries[i], NatToDecimal(ds[i].id) + ". ")
    requires lines == ["重定向到："] + entries
    ensures lines != [] && lines[0] == "重定向到：" && |lines| == 1 + |ds|
    ensures forall i :: 1 <= i < |lines| ==> StartsWith(lines[i], NatToDecimal(ds[i - 1].id) + ". ")
  {
    forall i | 1 <= i < |lines|
      ensures StartsWith(lines[i], NatToDecimal(ds[i - 1].id) + ". ")
    {
      assert lines[i] == entries[i - 1];
    }
  }

  /** Every unprefixed `formatQuestionAnswers` entry starts with its dialogue's id. */
  lemma EntriesStartWithIds(ds: seq<Dialogue>, others: DetailProducer)
    ensures forall i :: 0 <= i < |ds| ==>
      StartsWith(FormatQuestionAnswers(ds, "", others)[i], NatToDecimal(ds[i].id) + ". ")
  {
    var entries := FormatQuestionAnswers(ds, "", others);
    forall i | 0 <= i < |ds|
      ensures StartsWith(entries[i], NatToDecimal(ds[i].id) + ". ")
    {
      EntryStartsWithId(ds[i], others);
    }
  }

  /** A `formatQuestionAnswers` entry without list prefix starts with its dialogue's id. */
  lemma EntryStartsWithId(d: Dialogue, others: DetailProducer)
    ensures StartsWith(JoinLines([QuestionAnswerHead(d, "", others)] + ListLines(d, "", others)),
                       NatToDecimal(d.id) + ". ")
  {
    HeadStartsWithId(d, others);
    JoinedStartsWith(QuestionAnswerHead(d, "", others), ListLines(d, "", others), NatToDecimal(d.id) + ". ");
  }

  /** The unprefixed head line of an entry starts with the id and `". "`. */
  lemma HeadStartsWithId(d: Dialogue, others: DetailProducer)
    ensures StartsWith(QuestionAnswerHead(d, "", others), NatToDecimal(d.id) + ". ")
  {
    var details := GetDetails(d, others);
    var idText := NatToDecimal(d.id) + ". ";
    var tags := if details.tags == [] then "" else "[" + Join(details.tags, ", ") + "] ";
    var text := QuestionAnswerText(d, details);
    assert FormatDetails(d, details) == idText + tags;
    assert QuestionAnswerHead(d, "", others) == idText + (tags + text);
    StartsWithOwnPrefix(idText, tags + text);
  }

  lemma StartsWithOwnPrefix(x: string, y: string)
    ensures StartsWith(x + y, x)
  {
    assert (x + y)[..|x|] == x;
  }

  /** Lines joined below a head that starts with `p` start with `p`. */
  lemma JoinedStartsWith(head: string, lines: seq<string>, p: string)
    requires StartsWith(head, p)
    ensures StartsWith(JoinLines([head] + lines), p)
  {
    if lines != [] {
      JoinCons(head, lines);
      assert (head + "\n" + JoinLines(lines))[..|p|] == head[..|p|];
    } else {
      assert [head] + lines == [head];
    }
  }

  // ---------------------------------------------------------------------------------------
  // From a test to a storage query (internal.ts:100-102, 111-118, 137-157)

  /** A registered flag's before-search listener: `test[flag] = options[flag]`. */
  function FlagSearchTest(test: DialogueTest, options: Options, flag: FlagDef): (t: DialogueTest)
    ensures t == test.(flags := t.flags)
    ensures flag.name in t.flags <==> flag.name in options
    ensures flag.name in options ==> t.flags[flag.name] == Truthy(options[flag.name])
    ensures forall n :: n != flag.name ==> (n in t.flags <==> n in test.flags) && (n in t.flags ==> t.flags[n] == test.flags[n])
  {
    if flag.name in options then test.(flags := test.flags[flag.name := Truthy(options[flag.name])])
    else test.(flags := test.flags - {flag.name})
  }

  /** The clause a registered flag's test listener pushes onto `$and`, if any. */
  function FlagClause(test: DialogueTest, flag: FlagDef): Option<Expr> {
    if flag.name !in test.flags then None
    else if test.flags[flag.name] then Some(BitsAllSet(flag.bit))
    else Some(BitsAllClear(flag.bit))
  }

  /** What a flag in a test asks of a dialogue: the bit set, clear, or nothing when undefined. */
  ghost predicate FlagMeaning(test: DialogueTest, flag: FlagDef, d: Dialogue) {
    flag.name in test.flags ==> (HasFlag(d, flag.bit) <==> test.flags[flag.name])
  }

  /** The clause a flag pushes selects exactly what the flag asks for. */
  lemma FlagClauseMeaning(test: DialogueTest, flag: FlagDef, d: Dialogue, o: RegexOracle)
    ensures FlagClause(test, flag).None? <==> flag.name !in test.flags
    ensures FlagClause(test, flag).Some? ==> (Holds(FlagClause(test, flag).value, d, o) <==> FlagMeaning(test, flag, d))
  {
  }

  /** A flag option passed through before-search and the test listener asks for the bit the option names. */
  lemma FlagRoundTrip(test: DialogueTest, options: Options, flag: FlagDef, d: Dialogue)
    ensures var t := FlagSearchTest(test, options, flag);
      && (FlagClause(t, flag).None? <==> flag.name !in options)
      && (flag.name in options ==> (FlagMeaning(t, flag, d) <==> (HasFlag(d, flag.bit) <==> Truthy(options[flag.name]))))
  {
  }

  /** The pattern fields the built-in test listener sets when `regexp` is true. */
  function PatternFields(test: DialogueTest): map<Field, Expr> {
    var m := if Present(test.answer) then map[Answer := Regex(Answer, test.answer.value)] else map[];
    if Present(test.original) then m[Original := Regex(Original, test.original.value)] else m
  }

  /** The `$or` the built-in test listener pushes for a test with an original and no `regexp`. */
  function QuestionAlternatives(test: DialogueTest): seq<Expr>
    requires Present(test.original)
  {
    [And([BitsAllSet(RegexpBit), RegexFor(Original, test.original.value)])]
      + (if Present(test.question) then [And([BitsAllClear(RegexpBit), Eq(Question, test.question.value)])] else [])
  }

  /**
   * What the built-in test listener asks of a dialogue. With `regexp` true, the answer and
   * original are case-insensitive patterns and the question is not looked at. Otherwise the
   * answer is literal; with `regexp` false the question is literal; with `regexp` undefined
   * and an original, either the dialogue is a pattern that matches the original, or a
   * question is given, the dialogue is not a pattern and has that question.
   */
  ghost predicate BaseMeaning(test: DialogueTest, d: Dialogue, o: RegexOracle) {
    if test.regexp == Some(true) then
      && (Present(test.answer) ==> o.ignoreCase(test.answer.value, d.answer))
      && (Present(test.original) ==> o.ignoreCase(test.original.value, d.original))
    else
      && (Present(test.answer) ==> d.answer == test.answer.value)
      && (test.regexp == Some(false) ==> (Present(test.question) ==> d.question == test.question.value))
      && (test.regexp != Some(false) && Present(test.original) ==>
            || (HasFlag(d, RegexpBit) && o.exact(d.original, test.original.value))
            || (Present(test.question) && !HasFlag(d, RegexpBit) && d.question == test.question.value))
  }

  /** The query under construction: `query` and its `$and` list. */
  class QueryBuilder {
    var fields: map<Field, Expr>
    var and: seq<Expr>

    constructor ()
      ensures fields == map[] && and == []
    {
      fields := map[];
      and := [];
    }

    function Current(): Query
      reads this
    {
      Query(fields, and)
    }

    /** A registered flag's test listener (internal.ts:111-118). */
    method TestFlag(test: DialogueTest, flag: FlagDef)
      modifies this
      ensures fields == old(fields)
      ensures and == old(and) + (if FlagClause(test, flag).Some? then [FlagClause(test, flag).value] else [])
    {
      if flag.name !in test.flags {
        return;
      }
      var op := if test.flags[flag.name] then BitsAllSet(flag.bit) else BitsAllClear(flag.bit);
      and := and + [op];
    }

    /** The built-in test listener (internal.ts:137-157). */
    method TestBase(test: DialogueTest)
      modifies this
      ensures test.regexp == Some(true) ==> fields == old(fields) + PatternFields(test) && and == old(and)
      ensures test.regexp != Some(true) ==>
        var f1 := if Present(test.answer) then old(fields)[Answer := Eq(Answer, test.answer.value)] else old(fields);
        && fields == (if test.regexp == Some(false) && Present(test.question) then f1[Question := Eq(Question, test.question.value)] else f1)
        && and == old(and) + (if test.regexp != Some(false) && Present(test.original) then [Or(QuestionAlternatives(test))] else [])
    {
      if test.regexp == Some(true) {
        if Present(test.answer) {
          fields := fields[Answer := Regex(Answer, test.answer.value)];
        }
        if Present(test.original) {
          fields := fields[Original := Regex(Original, test.original.value)];
        }
        return;
      }
      if Present(test.answer) {
        fields := fields[Answer := Eq(Answer, test.answer.value)];
      }
      if test.regexp == Some(false) {
        if Present(test.question) {
          fields := fields[Question := Eq(Question, test.question.value)];
        }
      } else if Present(test.original) {
        var alternatives := [And([BitsAllSet(RegexpBit), RegexFor(Original, test.original.value)])];
        if Present(test.question) {
          alternatives := alternatives + [And([BitsAllClear(RegexpBit), Eq(Question, test.question.value)])];
        }
        assert alternatives == QuestionAlternatives(test);
        and := and + [Or(alternatives)];
      }
    }
  }

  /** Pushing a clause onto `$and` narrows the selection by exactly that clause. */
  lemma SelectsPush(q: Query, e: Expr, d: Dialogue, o: RegexOracle)
    ensures Selects(q.(and := q.and + [e]), d, o) <==> Selects(q, d, o) && Holds(e, d, o)
  {
    var q' := q.(and := q.and + [e]);
    assert forall i :: 0 <= i < |q.and| ==> q'.and[i] == q.and[i];
    assert q'.and[|q.and|] == e;
  }

  /** The base query selects exactly what the test asks for. */
  lemma BaseQueryMeaning(test: DialogueTest, q: Query, d: Dialogue, o: RegexOracle)
    requires q.and == (if test.regexp != Some(true) && test.regexp != Some(false) && Present(test.original)
                       then [Or(QuestionAlternatives(test))] else [])
    requires test.regexp == Some(true) ==> q.fields == PatternFields(test)
    requires test.regexp != Some(true) ==>
      var f1 := if Present(test.answer) then map[Answer := Eq(Answer, test.answer.value)] else map[];
      q.fields == (if test.regexp == Some(false) && Present(test.question) then f1[Question := Eq(Question, test.question.value)] else f1)
    ensures Selects(q, d, o) <==> BaseMeaning(test, d, o)
  {
    BaseFieldsMeaning(test, q.fields, d, o);
    if q.and != [] {
      AlternativesMeaning(test, d, o);
      assert Selects(q, d, o) <==> (forall f :: f in q.fields ==> Holds(q.fields[f], d, o)) && Holds(q.and[0], d, o);
    }
  }

  /** The field conditions of the base query are the column conditions of `BaseMeaning`. */
  lemma BaseFieldsMeaning(test: DialogueTest, m: map<Field, Expr>, d: Dialogue, o: RegexOracle)
    requires test.regexp == Some(true) ==> m == PatternFields(test)
    requires test.regexp != Some(true) ==>
      var f1 := if Present(test.answer) then map[Answer := Eq(Answer, test.answer.value)] else map[];
      m == (if test.regexp == Some(false) && Present(test.question) then f1[Question := Eq(Question, test.question.value)] else f1)
    ensures (forall f :: f in m ==> Holds(m[f], d, o)) <==>
      if test.regexp == Some(true) then
        && (Present(test.answer) ==> o.ignoreCase(test.answer.value, d.answer))
        && (Present(test.original) ==> o.ignoreCase(test.original.value, d.original))
      else
        && (Present(test.answer) ==> d.answer == test.answer.value)
        && (test.regexp == Some(false) ==> (Present(test.question) ==> d.question == test.question.value))
  {
    FieldsHoldEach(m, d, o);
  }

  /** The `$or` of the base query holds for a pattern matching the original or a literal with the question. */
  lemma AlternativesMeaning(test: DialogueTest, d: Dialogue, o: RegexOracle)
    requires Present(test.original)
    ensures Holds(Or(QuestionAlternatives(test)), d, o) <==>
      || (HasFlag(d, RegexpBit) && o.exact(d.original, test.original.value))
      || (Present(test.question) && !HasFlag(d, RegexpBit) && d.question == test.question.value)
  {
    var alts := QuestionAlternatives(test);
    BothHold(BitsAllSet(RegexpBit), RegexFor(Original, test.original.value), d, o);
    assert Holds(alts[0], d, o) <==> HasFlag(d, RegexpBit) && o.exact(d.original, test.original.value);
    if Present(test.question) {
      BothHold(BitsAllClear(RegexpBit), Eq(Question, test.question.value), d, o);
      assert Holds(alts[1], d, o) <==> !HasFlag(d, RegexpBit) && d.question == test.question.value;
      EitherHolds(alts[0], alts[1], d, o);
      assert alts == [alts[0], alts[1]];
    } else {
      assert alts == [alts[0]];
      assert Holds(Or(alts), d, o) <==> Holds(alts[0], d, o);
    }
  }

  /** The field conditions of a query hold when each of the three columns' condition does. */
  lemma FieldsHoldEach(m: map<Field, Expr>, d: Dialogue, o: RegexOracle)
    ensures (forall f :: f in m ==> Holds(m[f], d, o)) <==>
      && (Question in m ==> Holds(m[Question], d, o))
      && (Answer in m ==> Holds(m[Answer], d, o))
      && (Original in m ==> Holds(m[Original], d, o))
  {
    forall f | f in m
      ensures f == Question || f == Answer || f == Original
    {
    }
  }

  /** A two-clause `Or` holds when either clause does. */
  lemma EitherHolds(a: Expr, b: Expr, d: Dialogue, o: RegexOracle)
    ensures Holds(Or([a, b]), d, o) <==> Holds(a, d, o) || Holds(b, d, o)
  {
    var es := [a, b];
    assert es[0] == a && es[1] == b;
    if Holds(Or(es), d, o) {
      var i :| 0 <= i < |es| && Holds(es[i], d, o);
      assert i == 0 || i == 1;
    }
  }

  /** A two-clause `And` holds when both clauses do. */
  lemma BothHold(a: Expr, b: Expr, d: Dialogue, o: RegexOracle)
    ensures Holds(And([a, b]), d, o) <==> Holds(a, d, o) && Holds(b, d, o)
  {
    var es := [a, b];
    assert es[0] == a && es[1] == b;
    if Holds(a, d, o) && Holds(b, d, o) {
      forall i | 0 <= i < |es|
        ensures Holds(es[i], d, o)
      {
        assert i == 0 || i == 1;
      }
    }
  }

  /**
   * `Dialogue.get`'s query for a test and the registered flags: the built-in listener, then
   * each flag's listener. The query selects exactly what the test and every flag ask for.
   */
  method Compile(test: DialogueTest, flags: seq<FlagDef>) returns (q: Query)
    ensures forall d, o :: Selects(q, d, o) <==>
      BaseMeaning(test, d, o) && forall i :: 0 <= i < |flags| ==> FlagMeaning(test, flags[i], d)
  {
    var builder := new QueryBuilder();
    builder.TestBase(test);
    forall d, o ensures Selects(builder.Current(), d, o) <==> BaseMeaning(test, d, o) {
      BaseQueryMeaning(test, builder.Current(), d, o);
    }
    var i := 0;
    while i < |flags|
      invariant 0 <= i <= |flags|
      invariant forall d, o :: Selects(builder.Current(), d, o) <==>
        BaseMeaning(test, d, o) && forall j :: 0 <= j < i ==> FlagMeaning(test, flags[j], d)
    {
      ghost var before := builder.Current();
      builder.TestFlag(test, flags[i]);
      forall d, o ensures Selects(builder.Current(), d, o) <==> Selects(before, d, o) && FlagMeaning(test, flags[i], d) {
        FlagClauseMeaning(test, flags[i], d, o);
        var clause := FlagClause(test, flags[i]);
        if clause.Some? {
          assert builder.Current() == before.(and := before.and + [clause.value]);
          SelectsPush(before, clause.value, d, o);
        } else {
          assert builder.Current() == before;
        }
      }
      i := i + 1;
    }
    q := builder.Current();
  }

  /** A search never asks about the question column directly: only the answer and original patterns count. */
  lemma PatternTestIgnoresQuestion(test: DialogueTest, d: Dialogue, o: RegexOracle, question: string)
    requires test.regexp == Some(true)
    ensures BaseMeaning(test, d, o) <==> BaseMeaning(test, d.(question := question), o)
  {
  }

  /** In literal mode, a question in the test selects only dialogues with that very question. */
  lemma LiteralTestFixesQuestion(test: DialogueTest, d: Dialogue, o: RegexOracle)
    requires test.regexp == Some(false) && Present(test.question)
    ensures BaseMeaning(test, d, o) ==> d.question == test.question.value
  {
  }
}
