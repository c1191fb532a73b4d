/**
 * The search side of src/plugins/qa/search.ts: the `qa.status` reply, the `dialogue/execute`
 * listener, the reply `showSearch` builds, and the `dialogue/search` listener that follows
 * `%{dialogue <question>}` answers and attaches what they refer to.
 */
module SearchHandlers {
  import opened Wrappers
  import opened Text
  import opened Dialogues
  import opened SearchFormat
  import QaInternal

  // ---------------------------------------------------------------------------------------
  // qa.status

  const StatusHead := "共收录了 "
  const StatusMiddle := " 个问题和 "
  const StatusTail := " 个回答。"

  /** The `qa.status` reply for the counts `Dialogue.stats` reports (search.ts:47-50). */
  function StatusReply(questions: nat, dialogues: nat): string {
    StatusHead + NatToDecimal(questions) + StatusMiddle + NatToDecimal(dialogues) + StatusTail
  }

  /** The question count is read back from the digits that follow the fixed head of the reply. */
  lemma StatusReplyReadsBack(questions: nat, dialogues: nat)
    ensures var r := StatusReply(questions, dialogues);
      StartsWith(r, StatusHead) && LeadingNumber(r[|StatusHead|..]) == questions
  {
    var r := StatusReply(questions, dialogues);
    var digits := NatToDecimal(questions);
    var tail := StatusMiddle + NatToDecimal(dialogues) + StatusTail;
    assert r[|StatusHead|..] == digits + tail;
    assert r[..|StatusHead|] == StatusHead;
    DigitRunOfPrefix(digits, tail);
    assert (digits + tail)[..|digits|] == digits;
    DecimalRoundTrip(questions);
  }

  /** Different counts give different replies. */
  lemma StatusReplyInjective(q1: nat, d1: nat, q2: nat, d2: nat)
    requires StatusReply(q1, d1) == StatusReply(q2, d2)
    ensures q1 == q2 && d1 == d2
  {
    StatusReplyReadsBack(q1, d1);
    StatusReplyReadsBack(q2, d2);
    var a, b := NatToDecimal(d1), NatToDecimal(d2);
    var r := StatusReply(q1, d1);
    var k := |StatusHead| + |NatToDecimal(q1)| + |StatusMiddle|;
    assert r[k..] == a + StatusTail;
    assert r[k..] == b + StatusTail;
    DigitRunOfPrefix(a, StatusTail);
    DigitRunOfPrefix(b, StatusTail);
    assert a == (a + StatusTail)[..|a|];
    assert b == (b + StatusTail)[..|b|];
    DecimalInjective(d1, d2);
  }

  // ---------------------------------------------------------------------------------------
  // showSearch and the execute listener

  /** The test `showSearch` hands to storage: question and answer from the arguments, the stripped original. */
  function SearchTest(args: seq<string>, options: Options): (t: DialogueTest)
    ensures t.regexp == Some(true) && t.flags == map[]
    ensures t.question.Some? <==> |args| >= 1
    ensures t.answer.Some? <==> |args| >= 2
    ensures t.question.Some? ==> t.question.value == args[0]
    ensures t.answer.Some? ==> t.answer.value == args[1]
    ensures t.original == StrOption(options, "original")
    ensures t.searchQuestionAnswer <==> OptionSet(options, "searchQuestionAnswer")
  {
    DialogueTest(
      if |args| >= 1 then Some(args[0]) else None,
      if |args| >= 2 then Some(args[1]) else None,
      StrOption(options, "original"),
      Some(true),
      map[],
      OptionSet(options, "searchQuestionAnswer"))
  }
  /**
   * What a search selects, under the built-in test listener: a dialogue whose answer matches
   * the second argument and whose original matches the `original` option, both as
   * case-insensitive patterns and each only when given. The first argument plays no part.
   */
  lemma SearchSelects(args: seq<string>, options: Options, d: Dialogue, o: RegexOracle)
    ensures QaInternal.BaseMeaning(SearchTest(args, options), d, o) <==>
      && (ArgGiven(args, 1) ==> o.ignoreCase(args[1], d.answer))
      && (Present(StrOption(options, "original")) ==> o.ignoreCase(StrOption(options, "original").value, d.original))
  {
  }


  const NoResultPrefix := "没有搜索到"

  /** The title line and the reply for an empty result, chosen by which of original and answer were given. */
  function SearchTitle(original: Option<string>, answer: Option<string>): string {
    if !Present(original) && !Present(answer) then "全部问答如下"
    else if !Present(original) then "回答“" + answer.value + "”的搜索结果如下"
    else if !Present(answer) then "问题“" + original.value + "”的搜索结果如下"
    else "问答“" + original.value + "”“" + answer.value + "”的搜索结果如下"
  }

  function NothingFound(original: Option<string>, answer: Option<string>): string {
    if !Present(original) && !Present(answer) then NoResultPrefix + "任何回答，尝试切换到其他环境。"
    else if !Present(original) then NoResultPrefix + "含有“" + answer.value + "”的回答。"
    else if !Present(answer) then NoResultPrefix + "含有“" + original.value + "”的问题。"
    else NoResultPrefix + "含有“" + original.value + "”“" + answer.value + "”的问答。"
  }

  /**
   * `showSearch` (search.ts:186-221), given what storage returned for `SearchTest(args,
   * options)`: a not-found message, or the title followed by one entry per dialogue.
   */
  function ShowSearch(args: seq<string>, options: Options, found: seq<Dialogue>, others: DetailProducer): string {
    var test := SearchTest(args, options);
    if found == [] then NothingFound(test.original, test.answer)
    else JoinLines([SearchTitle(test.original, test.answer) + "："] + FormatQuestionAnswers(found, "", others))
  }

  /** The reply says nothing was found exactly when storage returned nothing. */
  lemma ShowSearchNotFound(args: seq<string>, options: Options, found: seq<Dialogue>, others: DetailProducer)
    ensures StartsWith(ShowSearch(args, options, found, others), NoResultPrefix) <==> found == []
  {
    var test := SearchTest(args, options);
    var r := ShowSearch(args, options, found, others);
    if found != [] {
      var title := SearchTitle(test.original, test.answer) + "：";
      JoinCons(title, FormatQuestionAnswers(found, "", others));
      assert r[..|NoResultPrefix|] == title[..|NoResultPrefix|];
      assert title[1] != NoResultPrefix[1];
    }
  }

  /** A non-empty result is the title line followed by the entries, in the order storage returned them. */
  lemma ShowSearchLists(args: seq<string>, options: Options, found: seq<Dialogue>, others: DetailProducer)
    requires found != []
    ensures var test := SearchTest(args, options);
      ShowSearch(args, options, found, others)
        == SearchTitle(test.original, test.answer) + "：\n" + JoinLines(FormatQuestionAnswers(found, "", others))
  {
    var test := SearchTest(args, options);
    var title := SearchTitle(test.original, test.answer);
    var entries := FormatQuestionAnswers(found, "", others);
    JoinCons(title + "：", entries);
    assert title + "：" + "\n" + JoinLines(entries) == title + "：\n" + JoinLines(entries);
  }

  /** The `dialogue/execute` listener (search.ts:57-60): take over the command when `search` is set. */
  function Execute(options: Options, showSearch: string): (r: Option<string>)
    ensures r.Some? <==> OptionSet(options, "search")
    ensures r.Some? ==> r.value == showSearch
  {
    if OptionSet(options, "search") then Some(showSearch) else None
  }

  // ---------------------------------------------------------------------------------------
  // The redirection resolver (dialogue/search)

  const ReferenceHead := "%{dialogue "

  /** An answer that redirects to another question. */
  predicate IsReference(answer: string) {
    StartsWith(answer, ReferenceHead)
  }

  /** `answer.slice(11, -1).trimStart()`: the referenced question, its last character dropped unseen. */
  function ReferencedText(answer: string): string {
    TrimStart(if |answer| > |ReferenceHead| then answer[|ReferenceHead|..|answer| - 1] else "")
  }

  /** A well-formed reference gives back its question, without leading white space. */
  lemma ReferencedTextOfDirective(q: string)
    ensures IsReference(ReferenceHead + q + "}")
    ensures ReferencedText(ReferenceHead + q + "}") == TrimStart(q)
  {
    var a := ReferenceHead + q + "}";
    assert a[..|ReferenceHead|] == ReferenceHead;
    assert a[|ReferenceHead|..|a| - 1] == q;
  }

  /** The names every plain object inherits from `Object.prototype`; the `in` operator sees them too. */
  const ObjectPrototypeNames: set<string> := {
    "constructor", "hasOwnProperty", "isPrototypeOf", "propertyIsEnumerable", "toLocaleString",
    "toString", "valueOf", "__proto__", "__defineGetter__", "__defineSetter__",
    "__lookupGetter__", "__lookupSetter__"}

  /**
   * `parsed in argv.questionMap` as written (search.ts:84): the map is an object literal, so
   * the test also holds for every inherited name. `SearchArgv.Resolve` tests the own keys only.
   */
  predicate KnownAsWritten(questionMap: map<string, seq<Dialogue>>, key: string) {
    key in questionMap || key in ObjectPrototypeNames
  }

  /**
   * As written, a reference to the question `constructor` counts as already fetched although
   * no search stored it, so that dialogue never gets its redirections.
   */
  lemma InheritedNameSkipped(seed: string, roots: seq<Dialogue>, d: Dialogue, strip: string -> Stripped)
    requires seed != "constructor"
    requires d.answer == ReferenceHead + "constructor" + "}"
    requires strip("constructor").parsed == "constructor"
    ensures IsReference(d.answer)
    ensures var key := strip(ReferencedText(d.answer)).parsed;
      key !in map[seed := roots] && KnownAsWritten(map[seed := roots], key)
  {
    ReferenceToConstructor(d.answer);
    var key := strip(ReferencedText(d.answer)).parsed;
    assert key == "constructor";
    assert key in ObjectPrototypeNames;
  }

  /** The reference `%{dialogue constructor}` names the question `constructor`. */
  lemma ReferenceToConstructor(answer: string)
    requires answer == ReferenceHead + "constructor" + "}"
    ensures IsReference(answer) && ReferencedText(answer) == "constructor"
  {
    var name: string := "constructor";
    ReferencedTextOfDirective(name);
    assert !IsJsSpace(name[0]);
    assert TrimStart(name) == name;
  }

  /** The key a reference is looked up and stored under: the parsed form of its question. */
  function ReferenceKey(d: Dialogue, strip: string -> Stripped): string {
    strip(ReferencedText(d.answer)).parsed
  }

  /** The test the resolver fetches a reference with: the search's test, retargeted. */
  function RedirectTest(test: DialogueTest, s: Stripped): (t: DialogueTest)
    ensures t.question == Some(s.parsed) && t.original == Some(s.original)
    ensures t.(question := test.question, original := test.original) == test
  {
    test.(question := Some(s.parsed), original := Some(s.original))
  }

  /** `String(test.question)`: the key the first search result is stored under. */
  function SeedKey(test: DialogueTest): string {
    if test.question.Some? then test.question.value else "undefined"
  }

  /** Every key the resolver could ever fetch for dialogues drawn from `corpus`. */
  ghost function ReferenceKeys(corpus: set<Dialogue>, strip: string -> Stripped): set<string> {
    set d | d in corpus && IsReference(d.answer) :: ReferenceKey(d, strip)
  }

  /** `b` is `a`, possibly with other redirections attached. */
  predicate SameDialogue(a: Dialogue, b: Dialogue) {
    b == a.(redirections := b.redirections)
  }

  /** Elementwise `SameDialogue`. */
  predicate SameDialogues(a: seq<Dialogue>, b: seq<Dialogue>) {
    |a| == |b| && forall i :: 0 <= i < |a| ==> SameDialogue(a[i], b[i])
  }

  predicate NoDuplicates(s: seq<string>) {
    forall i, j :: 0 <= i < j < |s| ==> s[i] != s[j]
  }

  /**
   * How the question map and the fetch log may evolve from `(m0, f0)` to `(m1, f1)`: keys
   * are only added and existing entries kept, the log only grows, a logged key was not in
   * the map before, and every added key was logged.
   */
  ghost predicate Extends(m0: map<string, seq<Dialogue>>, f0: seq<string>, m1: map<string, seq<Dialogue>>, f1: seq<string>) {
    && m0.Keys <= m1.Keys
    && (forall k :: k in m0 ==> m1[k] == m0[k])
    && f0 <= f1
    && (forall k :: k in f1 && k !in f0 ==> k !in m0)
    && (forall k :: k in m1 && k !in m0 ==> k in f1)
  }

  lemma ExtendsTransitive(m0: map<string, seq<Dialogue>>, f0: seq<string>, m1: map<string, seq<Dialogue>>, f1: seq<string>,
                          m2: map<string, seq<Dialogue>>, f2: seq<string>)
    requires Extends(m0, f0, m1, f1) && Extends(m1, f1, m2, f2)
    ensures Extends(m0, f0, m2, f2)
  {
    assert forall k :: k in f1 ==> k in f2;
  }

  /** Rewriting the entry of a key added since `m0` keeps the relation. */
  lemma ExtendsUpdateNew(m0: map<string, seq<Dialogue>>, f0: seq<string>, m1: map<string, seq<Dialogue>>, f1: seq<string>,
                         k: string, v: seq<Dialogue>)
    requires Extends(m0, f0, m1, f1) && k in m1 && k !in m0
    ensures Extends(m0, f0, m1[k := v], f1)
  {
  }

  /** Rewriting the entry of a key present in both states keeps the relation. */
  lemma ExtendsUpdateOld(m0: map<string, seq<Dialogue>>, f0: seq<string>, m1: map<string, seq<Dialogue>>, f1: seq<string>,
                         k: string, v: seq<Dialogue>)
    requires Extends(m0, f0, m1, f1) && k in m0
    ensures Extends(m0[k := v], f0, m1[k := v], f1)
  {
  }

  /**
   * `a` is `d` with the dialogues for its reference attached: the key was new, it was
   * fetched, the map holds exactly what was attached, and that is the fetch result.
   */
  ghost predicate AttachedFrom(test: DialogueTest, d: Dialogue, a: Dialogue, fetch: DialogueTest -> seq<Dialogue>,
                               strip: string -> Stripped, before: set<string>, m: map<string, seq<Dialogue>>, f: seq<string>) {
    var key := ReferenceKey(d, strip);
    && key !in before && key in f && key in m && m[key] == a.redirections
    && SameDialogues(fetch(RedirectTest(test, strip(ReferencedText(d.answer)))), a.redirections)
  }

  /** Attachment relative to a set of earlier keys holds for any smaller set. */
  lemma AttachedBeforeSubset(test: DialogueTest, d: Dialogue, a: Dialogue, fetch: DialogueTest -> seq<Dialogue>,
                             strip: string -> Stripped, before: set<string>, smaller: set<string>,
                             m: map<string, seq<Dialogue>>, f: seq<string>)
    requires AttachedFrom(test, d, a, fetch, strip, before, m, f) && smaller <= before
    ensures AttachedFrom(test, d, a, fetch, strip, smaller, m, f)
  {
  }

  lemma AttachedSurvives(test: DialogueTest, d: Dialogue, a: Dialogue, fetch: DialogueTest -> seq<Dialogue>,
                         strip: string -> Stripped, before: set<string>,
                         m0: map<string, seq<Dialogue>>, f0: seq<string>, m1: map<string, seq<Dialogue>>, f1: seq<string>)
    requires AttachedFrom(test, d, a, fetch, strip, before, m0, f0) && Extends(m0, f0, m1, f1)
    ensures AttachedFrom(test, d, a, fetch, strip, before, m1, f1)
  {
    assert ReferenceKey(d, strip) in f1;
  }

  /**
   * What resolving one dialogue `d` into `a` guarantees: only the redirections may differ,
   * a reference's key is in the map afterwards, a non-reference is left alone, and anything
   * attached was freshly fetched for the reference.
   */
  ghost predicate Resolved(test: DialogueTest, d: Dialogue, a: Dialogue, fetch: DialogueTest -> seq<Dialogue>,
                           strip: string -> Stripped, before: set<string>, m: map<string, seq<Dialogue>>, f: seq<string>) {
    && SameDialogue(d, a)
    && (IsReference(d.answer) ==> ReferenceKey(d, strip) in m)
    && (!IsReference(d.answer) ==> a == d)
    && (a != d ==> AttachedFrom(test, d, a, fetch, strip, before, m, f))
  }

  /** `Resolved` for every position of a result list. */
  ghost predicate AllResolved(test: DialogueTest, ds: seq<Dialogue>, rs: seq<Dialogue>, fetch: DialogueTest -> seq<Dialogue>,
                              strip: string -> Stripped, before: set<string>, m: map<string, seq<Dialogue>>, f: seq<string>) {
    |ds| == |rs| && forall j :: 0 <= j < |ds| ==> Resolved(test, ds[j], rs[j], fetch, strip, before, m, f)
  }

  /** A list that is all resolved has the same dialogues, with every reference's key in the map. */
  lemma AllResolvedMeans(test: DialogueTest, ds: seq<Dialogue>, rs: seq<Dialogue>, fetch: DialogueTest -> seq<Dialogue>,
                         strip: string -> Stripped, before: set<string>, m: map<string, seq<Dialogue>>, f: seq<string>)
    requires AllResolved(test, ds, rs, fetch, strip, before, m, f)
    ensures SameDialogues(ds, rs)
    ensures forall j :: 0 <= j < |ds| && IsReference(ds[j].answer) ==> ReferenceKey(ds[j], strip) in m
    ensures forall j :: 0 <= j < |ds| && !IsReference(ds[j].answer) ==> rs[j] == ds[j]
  {
    assert forall j :: 0 <= j < |ds| ==> Resolved(test, ds[j], rs[j], fetch, strip, before, m, f);
  }

  lemma ResolvedSurvives(test: DialogueTest, d: Dialogue, a: Dialogue, fetch: DialogueTest -> seq<Dialogue>,
                         strip: string -> Stripped, before: set<string>,
                         m0: map<string, seq<Dialogue>>, f0: seq<string>, m1: map<string, seq<Dialogue>>, f1: seq<string>)
    requires Resolved(test, d, a, fetch, strip, before, m0, f0) && Extends(m0, f0, m1, f1)
    ensures Resolved(test, d, a, fetch, strip, before, m1, f1)
  {
    if a != d {
      AttachedSurvives(test, d, a, fetch, strip, before, m0, f0, m1, f1);
    }
  }

  /** One more resolved dialogue extends a resolved prefix, once the state has moved on. */
  lemma AllResolvedStep(test: DialogueTest, ds: seq<Dialogue>, rs: seq<Dialogue>, d: Dialogue, a: Dialogue,
                        fetch: DialogueTest -> seq<Dialogue>, strip: string -> Stripped, before: set<string>,
                        mb: map<string, seq<Dialogue>>, fb: seq<string>, ma: map<string, seq<Dialogue>>, fa: seq<string>)
    requires AllResolved(test, ds, rs, fetch, strip, before, mb, fb)
    requires Extends(mb, fb, ma, fa) && before <= mb.Keys
    requires Resolved(test, d, a, fetch, strip, mb.Keys, ma, fa)
    ensures AllResolved(test, ds + [d], rs + [a], fetch, strip, before, ma, fa)
  {
    forall j | 0 <= j < |ds|
      ensures Resolved(test, (ds + [d])[j], (rs + [a])[j], fetch, strip, before, ma, fa)
    {
      ResolvedSurvives(test, ds[j], rs[j], fetch, strip, before, mb, fb, ma, fa);
    }
    if a != d {
      AttachedBeforeSubset(test, d, a, fetch, strip, mb.Keys, before, ma, fa);
    }
  }

  /** Rewriting the entry of a key that was there before any attachment keeps everything resolved. */
  lemma AllResolvedUpdateOld(test: DialogueTest, ds: seq<Dialogue>, rs: seq<Dialogue>, fetch: DialogueTest -> seq<Dialogue>,
                             strip: string -> Stripped, before: set<string>, m: map<string, seq<Dialogue>>, f: seq<string>,
                             k: string, v: seq<Dialogue>)
    requires AllResolved(test, ds, rs, fetch, strip, before, m, f) && k in before
    ensures AllResolved(test, ds, rs, fetch, strip, before, m[k := v], f)
  {
    forall j | 0 <= j < |ds| ensures Resolved(test, ds[j], rs[j], fetch, strip, before, m[k := v], f) {
      ResolvedUpdateOld(test, ds[j], rs[j], fetch, strip, before, m, f, k, v);
    }
  }

  /** Rewriting the entry of an earlier key leaves what one resolved dialogue guarantees. */
  lemma ResolvedUpdateOld(test: DialogueTest, d: Dialogue, a: Dialogue, fetch: DialogueTest -> seq<Dialogue>,
                          strip: string -> Stripped, before: set<string>, m: map<string, seq<Dialogue>>, f: seq<string>,
                          k: string, v: seq<Dialogue>)
    requires Resolved(test, d, a, fetch, strip, before, m, f) && k in before
    ensures Resolved(test, d, a, fetch, strip, before, m[k := v], f)
  {
    var m' := m[k := v];
    var key := ReferenceKey(d, strip);
    assert key in m ==> key in m';
    if a != d {
      assert AttachedFrom(test, d, a, fetch, strip, before, m, f);
      assert key !in before && key in m && m[key] == a.redirections;
      assert m'[key] == m[key];
      assert AttachedFrom(test, d, a, fetch, strip, before, m', f);
    }
  }

  /** A resolved list stays resolved relative to fewer earlier keys. */
  lemma AllResolvedSmallerBefore(test: DialogueTest, ds: seq<Dialogue>, rs: seq<Dialogue>, fetch: DialogueTest -> seq<Dialogue>,
                                 strip: string -> Stripped, before: set<string>, smaller: set<string>,
                                 m: map<string, seq<Dialogue>>, f: seq<string>)
    requires AllResolved(test, ds, rs, fetch, strip, before, m, f) && smaller <= before
    ensures AllResolved(test, ds, rs, fetch, strip, smaller, m, f)
  {
    forall j | 0 <= j < |ds| ensures Resolved(test, ds[j], rs[j], fetch, strip, smaller, m, f) {
      assert Resolved(test, ds[j], rs[j], fetch, strip, before, m, f);
    }
  }

  /**
   * After a reference's dialogues were fetched, stored under its new key and resolved in
   * turn, storing the resolved list under that key and attaching it resolves the dialogue.
   */
  lemma ResolveStep(test: DialogueTest, d: Dialogue, fetch: DialogueTest -> seq<Dialogue>, strip: string -> Stripped,
                    m0: map<string, seq<Dialogue>>, f0: seq<string>, children: seq<Dialogue>, resolved: seq<Dialogue>,
                    m: map<string, seq<Dialogue>>, f: seq<string>)
    requires IsReference(d.answer) && ReferenceKey(d, strip) !in m0
    requires children == fetch(RedirectTest(test, strip(ReferencedText(d.answer))))
    requires Extends(m0[ReferenceKey(d, strip) := children], f0 + [ReferenceKey(d, strip)], m, f)
    requires AllResolved(test, children, resolved, fetch, strip, m0.Keys + {ReferenceKey(d, strip)}, m, f)
    ensures Extends(m0, f0, m[ReferenceKey(d, strip) := resolved], f)
    ensures Resolved(test, d, d.(redirections := resolved), fetch, strip, m0.Keys, m[ReferenceKey(d, strip) := resolved], f)
  {
    var key := ReferenceKey(d, strip);
    var m' := m[key := resolved];
    AllResolvedMeans(test, children, resolved, fetch, strip, m0.Keys + {key}, m, f);
    ExtendsTransitive(m0, f0, m0[key := children], f0 + [key], m, f);
    ExtendsUpdateNew(m0, f0, m, f, key, resolved);
    assert key in f && key in m' && m'[key] == resolved;
  }

  /** A result of the resolver together with the question map it leaves. */
  datatype Annotated<T> = Annotated(result: T, questionMap: map<string, seq<Dialogue>>)

  /**
   * One iteration of the listener's loop (search.ts:78-95) on the question map `m`: a
   * dialogue that is no reference, or whose key is known, is left alone; otherwise the
   * referenced question is fetched with the retargeted test and stored under its key, the
   * fetched dialogues are resolved in turn on that map, and the resolved list is stored and
   * attached.
   */
  ghost function ResolveOne(test: DialogueTest, d: Dialogue, fetch: DialogueTest -> seq<Dialogue>,
                            strip: string -> Stripped, corpus: set<Dialogue>, m: map<string, seq<Dialogue>>)
    : (r: Annotated<Dialogue>)
    requires d in corpus
    requires forall t, x :: x in fetch(t) ==> x in corpus
    decreases ReferenceKeys(corpus, strip) - m.Keys, 0, 0
    ensures SameDialogue(d, r.result)
    ensures m.Keys <= r.questionMap.Keys && forall k :: k in m ==> r.questionMap[k] == m[k]
    ensures IsReference(d.answer) ==> ReferenceKey(d, strip) in r.questionMap
  {
    if !IsReference(d.answer) || ReferenceKey(d, strip) in m then Annotated(d, m)
    else
      var key := ReferenceKey(d, strip);
      var children := fetch(RedirectTest(test, strip(ReferencedText(d.answer))));
      assert key in ReferenceKeys(corpus, strip);
      WorkShrinks(ReferenceKeys(corpus, strip), m, key, children);
      var inner := ResolveAll(test, children, fetch, strip, corpus, m[key := children]);
      StoreKeeps(m, key, children, inner.questionMap, inner.result);
      Annotated(d.(redirections := inner.result), inner.questionMap[key := inner.result])
  }

  /**
   * A reference with a new key: `ResolveOne` is the search over the fetched dialogues on the
   * map that stores them under the key, with its result attached and stored under that key.
   */
  lemma ResolveOneFetches(test: DialogueTest, d: Dialogue, fetch: DialogueTest -> seq<Dialogue>,
                          strip: string -> Stripped, corpus: set<Dialogue>, m: map<string, seq<Dialogue>>,
                          inner: Annotated<seq<Dialogue>>)
    requires d in corpus
    requires forall t, x :: x in fetch(t) ==> x in corpus
    requires IsReference(d.answer) && ReferenceKey(d, strip) !in m
    requires inner == Search(test, fetch(RedirectTest(test, strip(ReferencedText(d.answer)))), fetch, strip, corpus,
                             Some(m[ReferenceKey(d, strip) := fetch(RedirectTest(test, strip(ReferencedText(d.answer))))]))
    ensures ResolveOne(test, d, fetch, strip, corpus, m)
         == Annotated(d.(redirections := inner.result), inner.questionMap[ReferenceKey(d, strip) := inner.result])
  {
  }

  /** Storing a key of the finite set of reachable keys leaves fewer keys to fetch. */
  lemma WorkShrinks(keys: set<string>, m: map<string, seq<Dialogue>>, key: string, v: seq<Dialogue>)
    requires key in keys && key !in m
    ensures keys - m[key := v].Keys < keys - m.Keys
  {
    assert m[key := v].Keys == m.Keys + {key};
    assert key in keys - m.Keys && key !in keys - m[key := v].Keys;
  }

  /** A map that kept the entries of `m[key := v]`, rewritten at the new `key`, still keeps those of `m`. */
  lemma StoreKeeps(m: map<string, seq<Dialogue>>, key: string, v: seq<Dialogue>, q: map<string, seq<Dialogue>>, w: seq<Dialogue>)
    requires key !in m
    requires m[key := v].Keys <= q.Keys && forall k :: k in m[key := v] ==> q[k] == m[key := v][k]
    ensures m.Keys <= q[key := w].Keys && key in q[key := w] && q[key := w][key] == w
    ensures forall k :: k in m ==> q[key := w][k] == m[k]
  {
    forall k | k in m
      ensures q[key := w][k] == m[k]
    {
      assert k != key && k in m[key := v];
    }
  }

  /** The listener's loop over `ds`, left to right: each dialogue sees the map its predecessors left. */
  ghost function ResolveAll(test: DialogueTest, ds: seq<Dialogue>, fetch: DialogueTest -> seq<Dialogue>,
                            strip: string -> Stripped, corpus: set<Dialogue>, m: map<string, seq<Dialogue>>)
    : (r: Annotated<seq<Dialogue>>)
    requires forall d :: d in ds ==> d in corpus
    requires forall t, x :: x in fetch(t) ==> x in corpus
    decreases ReferenceKeys(corpus, strip) - m.Keys, 1, |ds|
    ensures SameDialogues(ds, r.result)
    ensures m.Keys <= r.questionMap.Keys && forall k :: k in m ==> r.questionMap[k] == m[k]
  {
    if ds == [] then Annotated([], m)
    else
      var front := ResolveAll(test, ds[..|ds| - 1], fetch, strip, corpus, m);
      var last := ResolveOne(test, ds[|ds| - 1], fetch, strip, corpus, front.questionMap);
      Annotated(front.result + [last.result], last.questionMap)
  }

  /** The whole listener: seed the map on first use, resolve the list, store the resolved list under the seed key. */
  ghost function Search(test: DialogueTest, ds: seq<Dialogue>, fetch: DialogueTest -> seq<Dialogue>,
                        strip: string -> Stripped, corpus: set<Dialogue>, qm: Option<map<string, seq<Dialogue>>>)
    : (r: Annotated<seq<Dialogue>>)
    requires forall d :: d in ds ==> d in corpus
    requires forall t, x :: x in fetch(t) ==> x in corpus
    ensures SameDialogues(ds, r.result)
    ensures qm.Some? ==> qm.value.Keys <= r.questionMap.Keys && forall k :: k in qm.value ==> r.questionMap[k] == qm.value[k]
    ensures qm.None? ==> SeedKey(test) in r.questionMap && r.questionMap[SeedKey(test)] == r.result
  {
    if qm.Some? then ResolveAll(test, ds, fetch, strip, corpus, qm.value)
    else
      var inner := ResolveAll(test, ds, fetch, strip, corpus, map[SeedKey(test) := ds]);
      Annotated(inner.result, inner.questionMap[SeedKey(test) := inner.result])
  }

  /** The prefix one longer is the prefix followed by the next element. */
  lemma PrefixGrows<T>(s: seq<T>, i: nat)
    requires i < |s|
    ensures s[..i + 1] == s[..i] + [s[i]] && s[..i + 1][..i] == s[..i] && s[..i + 1][i] == s[i]
  {
  }

  /** `ResolveAll` on a non-empty list: the front first, then the last dialogue on the map the front left. */
  lemma ResolveAllStep(test: DialogueTest, ds: seq<Dialogue>, fetch: DialogueTest -> seq<Dialogue>,
                       strip: string -> Stripped, corpus: set<Dialogue>, m: map<string, seq<Dialogue>>,
                       front: Annotated<seq<Dialogue>>, last: Annotated<Dialogue>)
    requires ds != [] && (forall d :: d in ds ==> d in corpus)
    requires forall t, x :: x in fetch(t) ==> x in corpus
    requires front == ResolveAll(test, ds[..|ds| - 1], fetch, strip, corpus, m)
    requires last == ResolveOne(test, ds[|ds| - 1], fetch, strip, corpus, front.questionMap)
    ensures ResolveAll(test, ds, fetch, strip, corpus, m) == Annotated(front.result + [last.result], last.questionMap)
  {
  }

  /** `m1` holds every entry of `m0` unchanged. */
  ghost predicate Keeps(m0: map<string, seq<Dialogue>>, m1: map<string, seq<Dialogue>>) {
    m0.Keys <= m1.Keys && forall k :: k in m0 ==> m1[k] == m0[k]
  }

  /**
   * Position `j` of a resolved list is `ds[j]` resolved on the map the dialogues before it
   * left, and that step leaves the map the first `j + 1` dialogues leave.
   */
  lemma ResolveAllAt(test: DialogueTest, ds: seq<Dialogue>, fetch: DialogueTest -> seq<Dialogue>,
                     strip: string -> Stripped, corpus: set<Dialogue>, m: map<string, seq<Dialogue>>, j: nat)
    requires j < |ds| && (forall d :: d in ds ==> d in corpus)
    requires forall t, x :: x in fetch(t) ==> x in corpus
    ensures var step := ResolveOne(test, ds[j], fetch, strip, corpus, ResolveAll(test, ds[..j], fetch, strip, corpus, m).questionMap);
      && ResolveAll(test, ds, fetch, strip, corpus, m).result[j] == step.result
      && ResolveAll(test, ds[..j + 1], fetch, strip, corpus, m).questionMap == step.questionMap
  {
    var front := ResolveAll(test, ds[..j], fetch, strip, corpus, m);
    var step := ResolveOne(test, ds[j], fetch, strip, corpus, front.questionMap);
    PrefixGrows(ds, j);
    assert forall d :: d in ds[..j + 1] ==> d in ds;
    ResolveAllStep(test, ds[..j + 1], fetch, strip, corpus, m, front, step);
    ResolveAllPrefix(test, ds, fetch, strip, corpus, m, j + 1);
    assert ResolveAll(test, ds[..j + 1], fetch, strip, corpus, m).result == front.result + [step.result];
  }

  /** Resolving a prefix gives the prefix of the resolved list. */
  lemma {:induction false} ResolveAllPrefix(test: DialogueTest, ds: seq<Dialogue>, fetch: DialogueTest -> seq<Dialogue>,
                                            strip: string -> Stripped, corpus: set<Dialogue>, m: map<string, seq<Dialogue>>, k: nat)
    requires k <= |ds| && (forall d :: d in ds ==> d in corpus)
    requires forall t, x :: x in fetch(t) ==> x in corpus
    ensures ResolveAll(test, ds[..k], fetch, strip, corpus, m).result == ResolveAll(test, ds, fetch, strip, corpus, m).result[..k]
  {
    var r := ResolveAll(test, ds, fetch, strip, corpus, m);
    if k == |ds| {
      assert ds[..k] == ds && r.result[..k] == r.result;
    } else {
      var n := |ds| - 1;
      var front := ResolveAll(test, ds[..n], fetch, strip, corpus, m);
      var last := ResolveOne(test, ds[n], fetch, strip, corpus, front.questionMap);
      assert forall d :: d in ds[..n] ==> d in ds;
      ResolveAllStep(test, ds, fetch, strip, corpus, m, front, last);
      ResolveAllPrefix(test, ds[..n], fetch, strip, corpus, m, k);
      PrefixOfPrefix(ds, n, k);
      TakeOfAppend(front.result, [last.result], k);
    }
  }

  /** The map left after the first `j` dialogues keeps its entries to the end of the list. */
  lemma {:induction false} ResolveAllPrefixKept(test: DialogueTest, ds: seq<Dialogue>, fetch: DialogueTest -> seq<Dialogue>,
                                                strip: string -> Stripped, corpus: set<Dialogue>, m: map<string, seq<Dialogue>>, j: nat)
    requires j <= |ds| && (forall d :: d in ds ==> d in corpus)
    requires forall t, x :: x in fetch(t) ==> x in corpus
    ensures Keeps(ResolveAll(test, ds[..j], fetch, strip, corpus, m).questionMap, ResolveAll(test, ds, fetch, strip, corpus, m).questionMap)
    decreases |ds| - j
  {
    if j == |ds| {
      assert ds[..j] == ds;
    } else {
      ResolveAllAt(test, ds, fetch, strip, corpus, m, j);
      ResolveAllPrefixKept(test, ds, fetch, strip, corpus, m, j + 1);
      KeepsTransitive(ResolveAll(test, ds[..j], fetch, strip, corpus, m).questionMap,
                      ResolveAll(test, ds[..j + 1], fetch, strip, corpus, m).questionMap,
                      ResolveAll(test, ds, fetch, strip, corpus, m).questionMap);
    }
  }

  lemma KeepsTransitive(m0: map<string, seq<Dialogue>>, m1: map<string, seq<Dialogue>>, m2: map<string, seq<Dialogue>>)
    requires Keeps(m0, m1) && Keeps(m1, m2)
    ensures Keeps(m0, m2)
  {
  }

  /**
   * What the loop does to the dialogue at position `j` (search.ts:80-94): it is left alone
   * when it is no reference or its key was stored by the time its turn comes; otherwise the
   * dialogues fetched with the retargeted test, resolved in turn on the map that now holds
   * them, are attached, and they are what the final map holds under the key.
   */
  lemma ResolveAllMeans(test: DialogueTest, ds: seq<Dialogue>, fetch: DialogueTest -> seq<Dialogue>,
                        strip: string -> Stripped, corpus: set<Dialogue>, m: map<string, seq<Dialogue>>, j: nat)
    requires j < |ds| && (forall d :: d in ds ==> d in corpus)
    requires forall t, x :: x in fetch(t) ==> x in corpus
    ensures var r, before, key := ResolveAll(test, ds, fetch, strip, corpus, m),
                                  ResolveAll(test, ds[..j], fetch, strip, corpus, m).questionMap, ReferenceKey(ds[j], strip);
      && (!IsReference(ds[j].answer) || key in before ==> r.result[j] == ds[j])
      && (IsReference(ds[j].answer) && key !in before ==>
            var children := fetch(RedirectTest(test, strip(ReferencedText(ds[j].answer))));
            && key in r.questionMap
            && r.result[j] == ds[j].(redirections := r.questionMap[key])
            && r.questionMap[key] == ResolveAll(test, children, fetch, strip, corpus, before[key := children]).result
            && SameDialogues(children, r.questionMap[key]))
  {
    ResolveAllAt(test, ds, fetch, strip, corpus, m, j);
    ResolveAllPrefixKept(test, ds, fetch, strip, corpus, m, j + 1);
  }

  /**
   * A question is fetched at most once per search: a later dialogue that references the same
   * question as an earlier one is left alone, whatever the earlier one's fetch attached.
   */
  lemma RepeatedReferenceSkipped(test: DialogueTest, ds: seq<Dialogue>, fetch: DialogueTest -> seq<Dialogue>,
                                 strip: string -> Stripped, corpus: set<Dialogue>, m: map<string, seq<Dialogue>>, i: nat, j: nat)
    requires i < j < |ds| && (forall d :: d in ds ==> d in corpus)
    requires forall t, x :: x in fetch(t) ==> x in corpus
    requires IsReference(ds[i].answer) && IsReference(ds[j].answer) && ReferenceKey(ds[i], strip) == ReferenceKey(ds[j], strip)
    ensures ResolveAll(test, ds, fetch, strip, corpus, m).result[j] == ds[j]
  {
    KeyStaysStored(test, ds, fetch, strip, corpus, m, i, j);
    ResolveAllMeans(test, ds, fetch, strip, corpus, m, j);
  }

  /** The key of a reference at position `i` is in the map by the turn of any later position `j`. */
  lemma KeyStaysStored(test: DialogueTest, ds: seq<Dialogue>, fetch: DialogueTest -> seq<Dialogue>,
                       strip: string -> Stripped, corpus: set<Dialogue>, m: map<string, seq<Dialogue>>, i: nat, j: nat)
    requires i < j <= |ds| && (forall d :: d in ds ==> d in corpus)
    requires forall t, x :: x in fetch(t) ==> x in corpus
    requires IsReference(ds[i].answer)
    ensures ReferenceKey(ds[i], strip) in ResolveAll(test, ds[..j], fetch, strip, corpus, m).questionMap
  {
    var front := ds[..j];
    PrefixOfPrefix(ds, j, i + 1);
    assert front[i] == ds[i];
    assert forall d :: d in front ==> d in ds;
    ResolveAllAt(test, front, fetch, strip, corpus, m, i);
    ResolveAllPrefixKept(test, front, fetch, strip, corpus, m, i + 1);
  }

  lemma TakeOfAppend<T>(a: seq<T>, b: seq<T>, k: nat)
    requires k <= |a|
    ensures (a + b)[..k] == a[..k]
  {
  }

  lemma PrefixOfPrefix<T>(s: seq<T>, j: nat, k: nat)
    requires k <= j <= |s|
    ensures s[..j][..k] == s[..k]
  {
  }

  /** `Dialogue.Argv` during one search: the lazily created `questionMap`. */
  class SearchArgv {
    var questionMap: Option<map<string, seq<Dialogue>>>
    /** The keys fetched so far, in the order they were fetched. */
    ghost var fetched: seq<string>

    constructor ()
      ensures questionMap == None && fetched == []
    {
      questionMap := None;
      fetched := [];
    }

    function Keys(): set<string>
      reads this
    {
      if questionMap.Some? then questionMap.value.Keys else {}
    }

    /** No key is fetched twice, and every fetched key is in the map. */
    ghost predicate Valid()
      reads this
    {
      && NoDuplicates(fetched)
      && (forall k :: k in fetched ==> k in Keys())
      && (questionMap.None? ==> fetched == [])
    }

    /**
     * The `dialogue/search` listener (search.ts:73-97): seed the map with the search result
     * when there is none yet, then resolve the references of the dialogues in order.
     */
    method OnSearch(test: DialogueTest, dialogues: seq<Dialogue>, fetch: DialogueTest -> seq<Dialogue>,
                    strip: string -> Stripped, ghost corpus: set<Dialogue>)
      returns (annotated: seq<Dialogue>)
      requires Valid()
      requires forall d :: d in dialogues ==> d in corpus
      requires forall t, d :: d in fetch(t) ==> d in corpus
      modifies this
      decreases ReferenceKeys(corpus, strip) - Keys(), 2
      ensures Valid() && questionMap.Some?
      ensures old(questionMap).Some? ==> Extends(old(questionMap).value, old(fetched), questionMap.value, fetched)
      ensures old(questionMap).None? ==> Extends(map[SeedKey(test) := annotated], old(fetched), questionMap.value, fetched)
      ensures AllResolved(test, dialogues, annotated, fetch, strip, old(Keys()), questionMap.value, fetched)
      ensures Annotated(annotated, questionMap.value) == Search(test, dialogues, fetch, strip, corpus, old(questionMap))
    {
      var seeded := false;
      if questionMap.None? {
        questionMap := Some(map[SeedKey(test) := dialogues]);
        seeded := true;
      }
      ghost var map1, log1 := questionMap.value, fetched;
      annotated := ResolveEach(test, dialogues, fetch, strip, corpus);
      if seeded {
        ExtendsUpdateOld(map1, log1, questionMap.value, fetched, SeedKey(test), annotated);
        AllResolvedUpdateOld(test, dialogues, annotated, fetch, strip, map1.Keys, questionMap.value, fetched,
                             SeedKey(test), annotated);
        questionMap := Some(questionMap.value[SeedKey(test) := annotated]);
      }
      AllResolvedSmallerBefore(test, dialogues, annotated, fetch, strip, map1.Keys, old(Keys()), questionMap.value, fetched);
    }

    /** The listener's `for` loop (search.ts:78-95): resolve the dialogues one after the other. */
    method ResolveEach(test: DialogueTest, dialogues: seq<Dialogue>, fetch: DialogueTest -> seq<Dialogue>,
                       strip: string -> Stripped, ghost corpus: set<Dialogue>)
      returns (annotated: seq<Dialogue>)
      requires Valid() && questionMap.Some?
      requires forall d :: d in dialogues ==> d in corpus
      requires forall t, d :: d in fetch(t) ==> d in corpus
      modifies this
      decreases ReferenceKeys(corpus, strip) - Keys(), 1
      ensures Valid() && questionMap.Some?
      ensures Extends(old(questionMap).value, old(fetched), questionMap.value, fetched)
      ensures AllResolved(test, dialogues, annotated, fetch, strip, old(Keys()), questionMap.value, fetched)
      ensures Annotated(annotated, questionMap.value) == ResolveAll(test, dialogues, fetch, strip, corpus, old(questionMap).value)
    {
      ghost var map1, log1 := questionMap.value, fetched;
      annotated := [];
      var i := 0;
      while i < |dialogues|
        invariant 0 <= i <= |dialogues|
        invariant Valid() && questionMap.Some?
        invariant Extends(map1, log1, questionMap.value, fetched)
        invariant AllResolved(test, dialogues[..i], annotated, fetch, strip, map1.Keys, questionMap.value, fetched)
        invariant Annotated(annotated, questionMap.value) == ResolveAll(test, dialogues[..i], fetch, strip, corpus, map1)
        decreases |dialogues| - i
      {
        ghost var mb, fb := questionMap.value, fetched;
        var a := Resolve(test, dialogues[i], fetch, strip, corpus);
        ExtendsTransitive(map1, log1, mb, fb, questionMap.value, fetched);
        AllResolvedStep(test, dialogues[..i], annotated, dialogues[i], a, fetch, strip, map1.Keys,
                        mb, fb, questionMap.value, fetched);
        PrefixGrows(dialogues, i);
        ResolveAllStep(test, dialogues[..i + 1], fetch, strip, corpus, map1, Annotated(annotated, mb), Annotated(a, questionMap.value));
        annotated := annotated + [a];
        i := i + 1;
      }
      assert dialogues[..i] == dialogues;
    }

    /**
     * One iteration of the listener's loop (search.ts:78-95): skip an answer that is not a
     * reference or whose key is known; otherwise fetch the referenced question, store the
     * result under its key, resolve its own references and attach it.
     */
    method Resolve(test: DialogueTest, d: Dialogue, fetch: DialogueTest -> seq<Dialogue>,
                   strip: string -> Stripped, ghost corpus: set<Dialogue>)
      returns (a: Dialogue)
      requires Valid() && questionMap.Some?
      requires d in corpus
      requires forall t, d :: d in fetch(t) ==> d in corpus
      modifies this
      decreases ReferenceKeys(corpus, strip) - Keys(), 0
      ensures Valid() && questionMap.Some?
      ensures Extends(old(questionMap).value, old(fetched), questionMap.value, fetched)
      ensures Resolved(test, d, a, fetch, strip, old(Keys()), questionMap.value, fetched)
      ensures Annotated(a, questionMap.value) == ResolveOne(test, d, fetch, strip, corpus, old(questionMap).value)
    {
      if !IsReference(d.answer) {
        return d;
      }
      var stripped := strip(ReferencedText(d.answer));
      var key := stripped.parsed;
      if key in questionMap.value {
        return d;
      }
      var children := fetch(RedirectTest(test, stripped));
      ghost var m0, f0 := questionMap.value, fetched;
      questionMap := Some(questionMap.value[key := children]);
      fetched := fetched + [key];
      assert key in ReferenceKeys(corpus, strip);
      WorkShrinks(ReferenceKeys(corpus, strip), m0, key, children);
      var resolved := OnSearch(test, children, fetch, strip, corpus);
      ResolveStep(test, d, fetch, strip, m0, f0, children, resolved, questionMap.value, fetched);
      ResolveOneFetches(test, d, fetch, strip, corpus, m0, Annotated(resolved, questionMap.value));
      questionMap := Some(questionMap.value[key := resolved]);
      a := d.(redirections := resolved);
    }
  }
}
