/**
 * The records the question-answer plugin works on: stored dialogues, their flag bits,
 * command options, search criteria ("tests") and the storage query a test compiles to.
 */
module Dialogues {
  import opened Wrappers

  /**
   * A bit position of the int32 `flag` column. Every `Dialogue.Flag` value is a single bit
   * `1 << k`, and the plugin only tests, sets and clears such bits, so a flag word is
   * modelled by the set of positions of its 1-bits: `flag & (1 << k)` is `k in flag`,
   * `flag |= 1 << k` adds `k` and `flag &= ~(1 << k)` removes it.
   */
  type Bit = k: nat | k < 32

  /** A registered flag: its name (the option and test field) and the bit of `Dialogue.Flag[name]`. */
  datatype FlagDef = FlagDef(name: string, bit: Bit)

  /**
   * `Dialogue.Flag.regexp`. The flag table lives in a utilities file that is not part of this
   * model; the value only has to be a single bit, and no proof depends on which one.
   */
  const RegexpBit: Bit := 1

  /**
   * A stored question/answer pair. `redirections` is the transient `_redirections`
   * property the search handler attaches; every reader treats an undefined property
   * like an empty list, so both are the empty sequence here.
   */
  datatype Dialogue = Dialogue(
    id: nat,
    question: string,
    original: string,
    answer: string,
    flag: set<Bit>,
    redirections: seq<Dialogue>)

  /** `d.flag & (1 << bit)` is truthy. */
  predicate HasFlag(d: Dialogue, bit: Bit) {
    bit in d.flag
  }

  /** The value of a command option: the command layer produces booleans and strings. */
  datatype OptionValue = Bool(b: bool) | Str(s: string)

  /** `argv.options`: a missing key is `undefined`. */
  type Options = map<string, OptionValue>

  /** JavaScript truthiness of an option value. */
  predicate Truthy(v: OptionValue) {
    match v
    case Bool(b) => b
    case Str(s) => s != ""
  }

  /** `options[name]` is truthy. */
  predicate OptionSet(options: Options, name: string) {
    name in options && Truthy(options[name])
  }

  /** A boolean option: undefined, or the truth value it holds. */
  function BoolOption(options: Options, name: string): Option<bool> {
    if name in options then Some(Truthy(options[name])) else None
  }

  /** A string-valued option, when it holds a string. */
  function StrOption(options: Options, name: string): Option<string> {
    if name in options && options[name].Str? then Some(options[name].s) else None
  }

  /** JavaScript truthiness of a possibly undefined string. */
  predicate Present(s: Option<string>) {
    s.Some? && s.value != ""
  }

  /** The `i`-th positional argument is defined and not empty. */
  predicate ArgGiven(args: seq<string>, i: nat) {
    i < |args| && args[i] != ""
  }

  /**
   * `DialogueTest`: what a search asks for. `flags` holds the flag-named fields
   * (`test[flag]`); a name that is not a key is undefined.
   */
  datatype DialogueTest = DialogueTest(
    question: Option<string>,
    answer: Option<string>,
    original: Option<string>,
    regexp: Option<bool>,
    flags: map<string, bool>,
    searchQuestionAnswer: bool)

  /** What `config._stripQuestion` returns for a question text. */
  datatype Stripped = Stripped(original: string, parsed: string, appellative: bool)

  /** The dialogue columns a query clause can name. */
  datatype Field = Question | Answer | Original

  function FieldOf(d: Dialogue, f: Field): string {
    match f
    case Question => d.question
    case Answer => d.answer
    case Original => d.original
  }

  /** A clause of the storage query language. */
  datatype Expr =
    | Eq(field: Field, value: string)
    | Regex(field: Field, pattern: string)       // `{ $regex: new RegExp(pattern, 'i') }`
    | RegexFor(field: Field, text: string)       // `{ $regexFor: text }`: the stored value is the pattern
    | BitsAllSet(bit: Bit)                       // `{ flag: { $bitsAllSet: 1 << bit } }`
    | BitsAllClear(bit: Bit)                     // `{ flag: { $bitsAllClear: 1 << bit } }`
    | And(all: seq<Expr>)
    | Or(any: seq<Expr>)

  /** A query object: per-field conditions plus the `$and` list contributors push onto. */
  datatype Query = Query(fields: map<Field, Expr>, and: seq<Expr>)

  /**
   * Regular-expression matching, which this model does not interpret:
   * `ignoreCase(p, s)` is `new RegExp(p, 'i').test(s)`, `exact(p, s)` is `new RegExp(p).test(s)`.
   */
  datatype RegexOracle = RegexOracle(ignoreCase: (string, string) -> bool, exact: (string, string) -> bool)

  /** Whether the storage engine selects `d` for clause `e`. */
  ghost predicate Holds(e: Expr, d: Dialogue, o: RegexOracle) {
    match e
    case Eq(f, v) => FieldOf(d, f) == v
    case Regex(f, p) => o.ignoreCase(p, FieldOf(d, f))
    case RegexFor(f, t) => o.exact(FieldOf(d, f), t)
    case BitsAllSet(k) => k in d.flag
    case BitsAllClear(k) => k !in d.flag
    case And(es) => forall i :: 0 <= i < |es| ==> Holds(es[i], d, o)
    case Or(es) => exists i :: 0 <= i < |es| && Holds(es[i], d, o)
  }

  /** Whether the storage engine selects `d` for query `q`. */
  ghost predicate Selects(q: Query, d: Dialogue, o: RegexOracle) {
    && (forall f :: f in q.fields ==> Holds(q.fields[f], d, o))
    && (forall i :: 0 <= i < |q.and| ==> Holds(q.and[i], d, o))
  }
}
